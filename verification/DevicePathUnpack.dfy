/** Re-aligning the nodes of a device path (`UnpackDevicePath` of `dpath.c`). */
module DevicePathUnpack {
  import opened Words
  import opened DevicePath

  /** `MIN_ALIGNMENT_SIZE`: four bytes on x86_64, ia32 and arm, eight on the other machines. */
  type Alignment = a: nat | a == 4 || a == 8 witness 4

  const TYPE_UNPACKED: nat := 0x80

  function Rest(a: nat, align: Alignment): nat {
    if align == 4 then a % 4 else a % 8
  }

  /** `ALIGN_SIZE` */
  function AlignSize(a: nat, align: Alignment): nat {
    RestBelow(a, align);
    if Rest(a, align) != 0 then align - Rest(a, align) else 0
  }

  predicate Aligned(a: nat, align: Alignment) {
    Rest(a, align) == 0
  }

  lemma RestBelow(a: nat, align: Alignment)
    ensures Rest(a, align) < align
  {
  }

  function Padded(a: nat, align: Alignment): nat {
    a + AlignSize(a, align)
  }

  /** `type | EFI_DP_TYPE_UNPACKED` */
  function MarkUnpacked(kind: Byte): Byte {
    if kind < TYPE_UNPACKED then kind + TYPE_UNPACKED else kind
  }

  function Zeros(n: nat): seq<Byte> {
    seq(n, _ => 0)
  }

  lemma PaddedAligned(a: nat, align: Alignment)
    ensures Aligned(Padded(a, align), align) && Padded(a, align) < a + align
    ensures Aligned(a, align) ==> Padded(a, align) == a
  {
    var r := Rest(a, align);
    if r != 0 {
      if align == 4 {
        assert (a + (4 - r)) % 4 == 0;
      } else {
        assert (a + (8 - r)) % 8 == 0;
      }
    }
  }

  lemma FourAdds(a: nat, b: nat)
    requires a % 4 == 0
    ensures (a + b) % 4 == b % 4
  {
  }

  lemma EightAdds(a: nat, b: nat)
    requires a % 8 == 0
    ensures (a + b) % 8 == b % 8
  {
  }

  lemma RestAdds(a: nat, b: nat, align: Alignment)
    requires Aligned(a, align)
    ensures Rest(a + b, align) == Rest(b, align)
  {
    if align == 4 {
      FourAdds(a, b);
    } else {
      EightAdds(a, b);
    }
  }

  /** `SetDevicePathNodeLength` keeps sixteen bits of the length. */
  function UnpackedNode(n: Node, align: Alignment): (r: Node)
    requires |n.bytes| >= 4
    ensures |r.bytes| == Padded(|n.bytes|, align) && Aligned(|r.bytes|, align)
  {
    PaddedAligned(|n.bytes|, align);
    var size := Padded(|n.bytes|, align);
    hide Rest;
    Node([MarkUnpacked(n.bytes[0]), n.bytes[1], size % 256, size / 256 % 256]
         + n.bytes[4..] + Zeros(AlignSize(|n.bytes|, align)))
  }

  ghost predicate Sized(ns: seq<Node>) {
    forall i | 0 <= i < |ns| :: |ns[i].bytes| >= 4
  }

  ghost function UnpackedPath(ns: seq<Node>, align: Alignment): (r: seq<Node>)
    requires Sized(ns)
    ensures |r| == |ns| && forall i | 0 <= i < |ns| :: r[i] == UnpackedNode(ns[i], align)
  {
    seq(|ns|, i requires 0 <= i < |ns| => UnpackedNode(ns[i], align))
  }

  // ---------- what unpacking does to a path ----------

  /** The size becomes the next multiple of the alignment, whose sixteen lower bits are the new length; the
    * type gets its mark; subtype and payload stay; and the payload is padded with zeros. */
  lemma UnpackedFields(n: Node, align: Alignment)
    requires GoodNode(n)
    ensures var u := UnpackedNode(n, align).bytes;
      && |n.bytes| <= |u| < |n.bytes| + align
      && (align == 4 ==> |u| % 4 == 0) && (align == 8 ==> |u| % 8 == 0)
      && u[0] as int == n.bytes[0] % 0x80 + 0x80 && u[1] == n.bytes[1]
      && u[2] as int == |u| % 0x100 && u[3] as int == |u| / 0x100 % 0x100
      && u[4..|n.bytes|] == n.bytes[4..] && forall i | |n.bytes| <= i < |u| :: u[i] == 0
  {
    PaddedAligned(|n.bytes|, align);
    hide AlignSize;
    var u := UnpackedNode(n, align).bytes;
    assert u == u[..4] + n.bytes[4..] + Zeros(AlignSize(|n.bytes|, align));
  }

  /** The longest node whose padded length still fits the length field. */
  const MAX_NODE: nat := 0xFFFC

  lemma FourFits(size: nat)
    requires size < 0x1_0000
    ensures Padded(size, 4) <= 0x1_0000 && (Padded(size, 4) == 0x1_0000 <==> size > MAX_NODE)
  {
  }

  lemma HeaderOfUnpacked(n: Node, align: Alignment)
    requires GoodNode(n)
    ensures |n.bytes| < 0x1_0000 && |UnpackedNode(n, align).bytes| == Padded(|n.bytes|, align) >= |n.bytes|
    ensures NodeLength(UnpackedNode(n, align).bytes, 0) == Padded(|n.bytes|, align) % 0x1_0000
    ensures UnpackedNode(n, align).bytes[0] % 128 == n.bytes[0] % 128 && UnpackedNode(n, align).bytes[1] == n.bytes[1]
  {
    hide AlignSize;
  }

  lemma FourPadded(a: nat, align: Alignment)
    requires a == 4
    ensures Padded(a, align) == align
  {
  }

  lemma UnpackedEnds(n: Node, align: Alignment)
    requires GoodNode(n)
    ensures IsEndNode(UnpackedNode(n, align)) <==> IsEndNode(n)
    ensures IsEntireEnd(UnpackedNode(n, align)) <==> IsEntireEnd(n)
  {
    HeaderOfUnpacked(n, align);
    hide UnpackedNode, Padded;
  }

  lemma UnpackedGood(n: Node, align: Alignment)
    requires GoodNode(n)
    ensures align == 4 ==> (GoodNode(UnpackedNode(n, align)) <==> |n.bytes| <= MAX_NODE)
    ensures align == 8 && IsEndNode(n) ==> !GoodNode(UnpackedNode(n, align))
  {
    hide UnpackedNode, Padded, NodeLength, IsEndNode, Rest, AlignSize;
    if |n.bytes| == 4 {
      FourPadded(|n.bytes|, align);
    }
    HeaderOfUnpacked(n, align);
    UnpackedEnds(n, align);
    FourFits(|n.bytes|);
  }

  /** The result is a path exactly when nodes are aligned to four bytes and none is too long. With eight,
    * an end node is longer than it may be. */
  lemma UnpackedPathGood(ns: seq<Node>, align: Alignment)
    requires GoodPath(ns)
    ensures Sized(ns)
    ensures GoodPath(UnpackedPath(ns, align)) <==>
              align == 4 && forall i | 0 <= i < |ns| :: |ns[i].bytes| <= MAX_NODE
  {
    hide UnpackedNode, GoodNode, IsEntireEnd, IsEndNode, Sized;
    GoodIsSized(ns);
    var us, last := UnpackedPath(ns, align), |ns| - 1;
    EntireEndIsEnd(ns[last]);
    UnpackedGood(ns[last], align);
    if GoodPath(us) {
      assert GoodNode(us[last]);
      forall i | 0 <= i < |ns|
        ensures |ns[i].bytes| <= MAX_NODE
      {
        assert GoodNode(us[i]);
        UnpackedGood(ns[i], align);
      }
    }
    if align == 4 && forall i | 0 <= i < |ns| :: |ns[i].bytes| <= MAX_NODE {
      forall i | 0 <= i < |us|
        ensures GoodNode(us[i]) && (IsEntireEnd(us[i]) <==> i == |us| - 1)
      {
        UnpackedGood(ns[i], align);
        UnpackedEnds(ns[i], align);
      }
    }
  }

  lemma EntireEndIsEnd(n: Node)
    ensures IsEntireEnd(n) ==> IsEndNode(n)
  {
  }

  lemma GoodIsSized(ns: seq<Node>)
    requires GoodPath(ns)
    ensures Sized(ns)
  {
    assert forall i | 0 <= i < |ns| :: GoodNode(ns[i]);
  }

  function LongNode(): Node {
    Node([1, 1, 0xFD, 0xFF] + Zeros(0xFFFD - 4))
  }

  /** For instance, a node of 65533 bytes becomes one that says it has none. */
  lemma LongNodeUnpacked()
    ensures |LongNode().bytes| == 0xFFFD && GoodPath([LongNode(), END_DEVICE_PATH])
    ensures Sized([LongNode(), END_DEVICE_PATH]) && !GoodPath(UnpackedPath([LongNode(), END_DEVICE_PATH], 4))
    ensures NodeLength(UnpackedNode(LongNode(), 4).bytes, 0) == 0
  {
    LongNodeGood();
    hide LongNode, UnpackedNode, UnpackedPath, GoodNode, GoodPath, Padded, NodeLength, Sized;
    var ns := [LongNode(), END_DEVICE_PATH];
    assert ns[0] == LongNode();
    UnpackedPathGood(ns, 4);
    FourFits(0xFFFD);
    HeaderOfUnpacked(LongNode(), 4);
  }

  lemma LongNodeGood()
    ensures |LongNode().bytes| == 0xFFFD && GoodNode(LongNode())
    ensures GoodPath([LongNode(), END_DEVICE_PATH])
  {
    var n, ns := LongNode(), [LongNode(), END_DEVICE_PATH];
    assert GoodNode(n) && !IsEntireEnd(n);
    assert GoodNode(END_DEVICE_PATH) && IsEntireEnd(END_DEVICE_PATH);
    hide LongNode, GoodNode, IsEntireEnd;
    assert ns[0] == n && ns[1] == END_DEVICE_PATH;
  }

  /** With an alignment of eight, even a path of one end node is none afterwards. */
  lemma EndNodeUnpacked()
    ensures GoodPath([END_DEVICE_PATH]) && Sized([END_DEVICE_PATH])
    ensures !GoodPath(UnpackedPath([END_DEVICE_PATH], 8)) && |UnpackedNode(END_DEVICE_PATH, 8).bytes| == 8
  {
    assert IsEntireEnd([END_DEVICE_PATH][0]);
    UnpackedPathGood([END_DEVICE_PATH], 8);
  }

  lemma UnpackedTwice(n: Node, align: Alignment)
    requires GoodNode(n)
    ensures UnpackedNode(UnpackedNode(n, align), align) == UnpackedNode(n, align)
  {
    var u := UnpackedNode(n, align);
    var size := |u.bytes|;
    assert AlignSize(size, align) == 0 && Padded(size, align) == size;
    assert UnpackedNode(u, align).bytes == [u.bytes[0], u.bytes[1], size % 256, size / 256 % 256] + u.bytes[4..] + [];
  }

  /** Unpacking an unpacked path changes nothing. */
  lemma UnpackedPathTwice(ns: seq<Node>, align: Alignment)
    requires GoodPath(ns)
    ensures Sized(ns) && Sized(UnpackedPath(ns, align))
    ensures UnpackedPath(UnpackedPath(ns, align), align) == UnpackedPath(ns, align)
  {
    hide UnpackedNode;
    UnpackedPathGood(ns, align);
    var us := UnpackedPath(ns, align);
    forall i | 0 <= i < |ns|
      ensures |us[i].bytes| >= 4 && UnpackedNode(us[i], align) == us[i]
    {
      assert GoodNode(ns[i]);
      UnpackedTwice(ns[i], align);
    }
  }

  // ---------- the two passes ----------

  ghost function Done(ns: seq<Node>, k: nat, align: Alignment): seq<Byte>
    requires Sized(ns) && k <= |ns|
  {
    Flat(UnpackedPath(ns, align)[..k])
  }

  lemma DoneStep(ns: seq<Node>, k: nat, align: Alignment)
    requires Sized(ns) && k < |ns|
    ensures Done(ns, k + 1, align) == Done(ns, k, align) + UnpackedNode(ns[k], align).bytes
    ensures |Done(ns, k + 1, align)| == |Done(ns, k, align)| + Padded(|ns[k].bytes|, align)
  {
    hide UnpackedNode;
    FlatPrefix(UnpackedPath(ns, align), k);
  }

  lemma DoneStart(ns: seq<Node>, align: Alignment)
    requires GoodPath(ns)
    ensures Sized(ns) && Done(ns, 0, align) == [] && Done(ns, |ns|, align) == Flat(UnpackedPath(ns, align))
  {
    assert forall i | 0 <= i < |ns| :: GoodNode(ns[i]);
    assert UnpackedPath(ns, align)[..|ns|] == UnpackedPath(ns, align);
  }

  lemma UnpackStart(src: seq<Byte>, ns: seq<Node>, align: Alignment)
    requires Holds(src, 0, ns)
    ensures 0 < |ns| && GoodPath(ns) && Flat(ns[..0]) == [] && Aligned(0, align)
    ensures Sized(ns) && Done(ns, 0, align) == [] && Done(ns, |ns|, align) == Flat(UnpackedPath(ns, align))
  {
    DoneStart(ns, align);
  }

  lemma AlignTotal(total: nat, n: nat, align: Alignment)
    requires Aligned(total, align)
    ensures AlignSize(total + n, align) == AlignSize(n, align) && Aligned(total + Padded(n, align), align)
  {
    hide Rest;
    PaddedAligned(n, align);
    RestAdds(total, n, align);
    RestAdds(total, Padded(n, align), align);
  }

  /** The first pass rounds the running total, which comes to the same as rounding each node. */
  method UnpackedSize(src: seq<Byte>, align: Alignment, ghost ns: seq<Node>) returns (size: nat)
    requires Holds(src, 0, ns)
    ensures Sized(ns) && size == |Flat(UnpackedPath(ns, align))|
  {
    hide Holds, GoodPath, Flat, Done, UnpackedPath, AlignSize, GoodNode, Sized, Rest, IsEndNode, IsEndType;
    UnpackStart(src, ns, align);
    var at := 0;
    ghost var k := 0;
    size := 0;
    while true
      invariant k < |ns| && at == |Flat(ns[..k])|
      invariant size == |Done(ns, k, align)| && Aligned(size, align)
      decreases |ns| - k
    {
      NodeAt(src, 0, ns, k);
      DoneStep(ns, k, align);
      LastIsEnd(ns, k);
      AlignTotal(size, NodeLength(src, at), align);
      size := size + NodeLength(src, at);
      size := size + AlignSize(size, align);
      if IsEnd(src, at) {
        break;
      }
      at := at + NodeLength(src, at);
      k := k + 1;
    }
  }

  lemma LastIsEnd(ns: seq<Node>, k: nat)
    requires GoodPath(ns) && k < |ns|
    ensures IsEntireEnd(ns[k]) <==> k == |ns| - 1
    ensures GoodNode(ns[k])
  {
  }

  /** What the second pass finds at the `k`-th node, and what it owes for it. */
  lemma NodeToUnpack(src: seq<Byte>, ns: seq<Node>, k: nat, align: Alignment)
    requires Holds(src, 0, ns) && k < |ns|
    ensures var at, n := |Flat(ns[..k])|, ns[k];
      && GoodNode(n) && at + |n.bytes| <= |src|
      && src[at..at + |n.bytes|] == n.bytes && NodeLength(src, at) == |n.bytes|
      && (IsEnd(src, at) <==> k == |ns| - 1)
      && at + |n.bytes| == |Flat(ns[..k + 1])|
    ensures Sized(ns) && Done(ns, k + 1, align) == Done(ns, k, align) + UnpackedNode(ns[k], align).bytes
    ensures |Done(ns, k + 1, align)| == |Done(ns, k, align)| + Padded(|ns[k].bytes|, align)
    ensures |Done(ns, k + 1, align)| <= |Flat(UnpackedPath(ns, align))|
  {
    DoneStart(ns, align);
    NodeAt(src, 0, ns, k);
    NodeBytes(src, 0, ns, k);
    LastIsEnd(ns, k);
    hide Holds, GoodPath, Flat, Done, UnpackedPath, UnpackedNode, AlignSize, Padded, GoodNode, Sized;
    DoneStep(ns, k, align);
    DoneFits(ns, k, align);
  }

  /** The block has exactly the size that the first pass found; NULL when the pool does not grant it. */
  method UnpackDevicePath(src: seq<Byte>, granted: bool, align: Alignment, ghost ns: seq<Node>)
    returns (newPath: array?<Byte>)
    requires Holds(src, 0, ns)
    ensures Sized(ns) && (newPath != null <==> granted)
    ensures newPath != null ==> fresh(newPath) && newPath[..] == Flat(UnpackedPath(ns, align))
  {
    hide Holds, Flat, UnpackedPath;
    var size := UnpackedSize(src, align, ns);
    newPath := null;
    if granted {
      newPath := UnpackNodes(src, size, align, ns);
    }
  }

  /** The second pass. */
  method UnpackNodes(src: seq<Byte>, size: nat, align: Alignment, ghost ns: seq<Node>)
    returns (newPath: array<Byte>)
    requires Holds(src, 0, ns) && Sized(ns) && size == |Flat(UnpackedPath(ns, align))|
    ensures fresh(newPath) && newPath[..] == Flat(UnpackedPath(ns, align))
  {
    hide Holds, GoodPath, Flat, Done, UnpackedPath, UnpackedNode;
    hide AlignSize, Padded, GoodNode, Sized, IsEnd, IsEntireEnd, Rest, IsEndNode, IsEndType;
    UnpackStart(src, ns, align);
    newPath := new Byte[size](_ => 0);
    var at, dest := 0, 0;
    ghost var k := 0;
    while true
      invariant k < |ns| && at == |Flat(ns[..k])|
      invariant dest == |Done(ns, k, align)| <= newPath.Length
      invariant newPath[..dest] == Done(ns, k, align)
      invariant forall i | dest <= i < newPath.Length :: newPath[i] == 0
      decreases |ns| - k
    {
      NodeToUnpack(src, ns, k, align);
      var n := NodeLength(src, at);
      UnpackInto(newPath, dest, src[at..at + n], align, ns[k]);
      dest := dest + Padded(n, align);
      if IsEnd(src, at) {
        break;
      }
      at := at + n;
      k := k + 1;
    }
    assert newPath[..dest] == newPath[..];
  }

  lemma DoneFits(ns: seq<Node>, k: nat, align: Alignment)
    requires Sized(ns) && k < |ns|
    ensures |Done(ns, k + 1, align)| <= |Flat(UnpackedPath(ns, align))|
  {
    var us := UnpackedPath(ns, align);
    assert us == us[..k + 1] + us[k + 1..];
    FlatAppend(us[..k + 1], us[k + 1..]);
  }

  /** One node: copy it, then overwrite its length and mark its type, in the cleared block. */
  method UnpackInto(newPath: array<Byte>, dest: nat, node: seq<Byte>, align: Alignment, ghost n: Node)
    requires GoodNode(n) && node == n.bytes
    requires dest + Padded(|node|, align) <= newPath.Length
    requires forall i | dest <= i < newPath.Length :: newPath[i] == 0
    modifies newPath
    ensures newPath[..dest + Padded(|node|, align)] == old(newPath[..dest]) + UnpackedNode(n, align).bytes
    ensures forall i | dest + Padded(|node|, align) <= i < newPath.Length :: newPath[i] == 0
  {
    ghost var before, rest := newPath[..dest], newPath[dest + |node|..];
    CopyMem(newPath, dest, node);
    assert newPath[..] == before + node + rest;
    var size := |node| + AlignSize(|node|, align);
    HeaderOverwritten(before, n, rest, align);
    hide AlignSize, Padded, UnpackedNode, GoodNode, MarkUnpacked;
    newPath[dest + 2] := size % 256;
    newPath[dest + 3] := size / 256 % 256;
    newPath[dest] := MarkUnpacked(newPath[dest]);
  }

  lemma HeaderOverwritten(before: seq<Byte>, n: Node, rest: seq<Byte>, align: Alignment)
    requires |n.bytes| >= 4 && |rest| >= AlignSize(|n.bytes|, align) && forall i | 0 <= i < |rest| :: rest[i] == 0
    ensures var dest, size := |before|, Padded(|n.bytes|, align);
      var b := before + n.bytes + rest;
      b[dest + 2 := size % 256][dest + 3 := size / 256 % 256][dest := MarkUnpacked(n.bytes[0])]
      == before + UnpackedNode(n, align).bytes + rest[AlignSize(|n.bytes|, align)..]
  {
    hide AlignSize, MarkUnpacked;
    var pad := AlignSize(|n.bytes|, align);
    assert rest == Zeros(pad) + rest[pad..];
    assert n.bytes == n.bytes[..4] + n.bytes[4..];
  }
}
