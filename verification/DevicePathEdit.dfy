/** The functions of `dpath.c` that build new device paths or compare them. */
module DevicePathEdit {
  import opened Options
  import opened Words
  import opened DevicePath

  // ---------- appending instances ----------

  /** The end node `e` with the subtype changed. */
  function EndInstance(e: Node): Node
    requires |e.bytes| >= 4
  {
    Node(e.bytes[1 := END_INSTANCE])
  }

  /** The last end node of `ns` becomes the end of an instance, and `ms` follows. */
  ghost function WithInstance(ns: seq<Node>, ms: seq<Node>): seq<Node>
    requires GoodPath(ns)
  {
    assert GoodNode(ns[|ns| - 1]);
    var last := |ns| - 1;
    ns[..last] + [EndInstance(ns[last])] + ms
  }

  lemma WithInstanceForm(x: seq<Node>, e: Node, y: seq<Node>, ms: seq<Node>)
    requires GoodPath(x + [e] + y) && GoodNode(e) && IsEndNode(e)
    requires if IsEntireEnd(e) then y == [] else GoodPath(y)
    ensures WithInstance(x + [e] + y, ms)
         == if y == [] then x + [EndInstance(e)] + ms else x + [e] + WithInstance(y, ms)
  {
    var ns := x + [e] + y;
    var last := |ns| - 1;
    if y == [] {
      assert ns[..last] == x;
    } else {
      assert ns[last] == y[|y| - 1];
      assert ns[..last] == x + [e] + y[..|y| - 1];
    }
  }

  lemma EndedInstance(x: seq<Node>, e: Node, ms: seq<Node>)
    requires GoodNode(e) && IsEntireEnd(e) && PlainNodes(x) && GoodPath(ms)
    ensures GoodPath(x + [EndInstance(e)] + ms)
    ensures Instances(x + [EndInstance(e)] + ms) == [x] + Instances(ms)
  {
    hide GoodPath, Instances, First, PlainNodes;
    InstancesCons(x, EndInstance(e), ms);
  }

  lemma LaterInstances(x: seq<Node>, e: Node, w: seq<Node>, before: seq<seq<Node>>, after: seq<seq<Node>>)
    requires PlainNodes(x) && GoodNode(e) && IsEndNode(e) && !IsEntireEnd(e) && GoodPath(w)
    requires Instances(w) == before + after
    ensures GoodPath(x + [e] + w) && Instances(x + [e] + w) == [x] + before + after
  {
    hide GoodPath, Instances;
    InstancesCons(x, e, w);
  }

  lemma {:induction false} WithInstanceInstances(ns: seq<Node>, ms: seq<Node>)
    requires GoodPath(ns) && GoodPath(ms)
    ensures GoodPath(WithInstance(ns, ms))
    ensures Instances(WithInstance(ns, ms)) == Instances(ns) + Instances(ms)
    decreases |ns|
  {
    var x, e, y := PathForm(ns);
    hide GoodPath, Instances, WithInstance, First, GoodNode, IsEndNode;
    WithInstanceForm(x, e, y, ms);
    if IsEntireEnd(e) {
      EndedInstance(x, e, ms);
    } else {
      WithInstanceInstances(y, ms);
      LaterInstances(x, e, WithInstance(y, ms), Instances(y), Instances(ms));
    }
  }

  /** NULL when the pool does not grant the block. */
  method DuplicateDevicePath(src: seq<Byte>, granted: bool, ghost ns: seq<Node>) returns (copy: array?<Byte>)
    requires Holds(src, 0, ns)
    ensures copy != null <==> granted
    ensures copy != null ==> fresh(copy) && copy[..] == Flat(ns)
  {
    var size := DevicePathSize(src, 0, ns);
    copy := null;
    if granted {
      copy := new Byte[size];
      CopyMem(copy, 0, src[..size]);
    }
  }

  /** The end of the path at the start of `ptr` becomes the end of an instance. */
  method ReopenPath(ptr: array<Byte>, ghost ns: seq<Node>) returns (next: nat)
    requires Holds(ptr[..], 0, ns)
    modifies ptr
    ensures next == |Flat(ns)| <= ptr.Length
    ensures |ns[|ns| - 1].bytes| == 4
    ensures ptr[..next] == Flat(ns[..|ns| - 1]) + EndInstance(ns[|ns| - 1]).bytes
    ensures ptr[next..] == old(ptr[next..])
  {
    ghost var b := ptr[..];
    EndOfPath(b, 0, ns);
    var devPath := FindEnd(ptr[..], 0, ns);
    ghost var last := ns[|ns| - 1];
    hide GoodPath, Flat;
    assert b[..devPath + 4] == Flat(ns[..|ns| - 1]) + last.bytes;
    ptr[devPath + 1] := END_INSTANCE;
    assert ptr[..devPath + 4] == b[..devPath + 4][devPath + 1 := END_INSTANCE];
    next := devPath + NodeLength(ptr[..], devPath);
  }

  /** The code asserts that it gets its block, except when it only makes a copy. */
  method AppendDevicePathInstance(src: Option<seq<Byte>>, instance: seq<Byte>, granted: bool,
                                  ghost ns: seq<Node>, ghost ms: seq<Node>)
    returns (ptr: array?<Byte>)
    requires src.Some? ==> Holds(src.value, 0, ns) && granted
    requires Holds(instance, 0, ms)
    ensures ptr != null <==> granted
    ensures ptr != null ==> fresh(ptr) && ptr[..] == Flat(if src.Some? then WithInstance(ns, ms) else ms)
    ensures ptr != null && src.Some? ==>
              var n := |Flat(ns)|; n >= 4 && ptr[..] == Flat(ns)[n - 3 := 0x01] + Flat(ms)
  {
    hide Holds, GoodPath, Flat, WithInstance;
    if src.None? {
      ptr := DuplicateDevicePath(instance, granted, ms);
      return;
    }
    ptr := AppendToPath(src.value, instance, ns, ms);
    WithInstanceBytes(src.value, ns, ms);
  }

  method AppendToPath(src: seq<Byte>, instance: seq<Byte>, ghost ns: seq<Node>, ghost ms: seq<Node>)
    returns (ptr: array<Byte>)
    requires Holds(src, 0, ns) && Holds(instance, 0, ms)
    ensures fresh(ptr) && ptr[..] == Flat(WithInstance(ns, ms))
  {
    hide Holds, GoodPath, Flat, WithInstance;
    var instanceSize := DevicePathSize(instance, 0, ms);
    ptr := CopyPath(src, instanceSize, ns);
    var next := ReopenPath(ptr, ns);
    CopyMem(ptr, next, instance[..instanceSize]);
    PathHeld(src, ns);
    FlatWithInstance(ns, ms);
  }

  lemma PathHeld(b: seq<Byte>, ns: seq<Node>)
    requires Holds(b, 0, ns)
    ensures GoodPath(ns)
  {
  }

  /** A block with the path at its start and room for some bytes more. */
  method CopyPath(src: seq<Byte>, more: nat, ghost ns: seq<Node>) returns (ptr: array<Byte>)
    requires Holds(src, 0, ns)
    ensures fresh(ptr) && ptr.Length == |Flat(ns)| + more && Holds(ptr[..], 0, ns)
  {
    var srcSize := DevicePathSize(src, 0, ns);
    ptr := new Byte[srcSize + more];
    CopyMem(ptr, 0, src[..srcSize]);
    hide Flat, GoodPath;
    assert ptr[..] == Flat(ns) + ptr[srcSize..];
    assert ptr[..][0..] == ptr[..];
  }

  lemma WithInstanceBytes(b: seq<Byte>, ns: seq<Node>, ms: seq<Node>)
    requires Holds(b, 0, ns)
    ensures var n := |Flat(ns)|; n >= 4 && Flat(WithInstance(ns, ms)) == Flat(ns)[n - 3 := 0x01] + Flat(ms)
  {
    ReopenedBytes(b, ns);
    assert GoodPath(ns);
    hide Flat, GoodPath, WithInstance;
    FlatWithInstance(ns, ms);
  }

  /** Only the subtype of the end node changes. */
  lemma ReopenedBytes(b: seq<Byte>, ns: seq<Node>)
    requires Holds(b, 0, ns)
    ensures var last, n := |ns| - 1, |Flat(ns)|;
      && n >= 4 && |ns[last].bytes| == 4
      && Flat(ns[..last]) + EndInstance(ns[last]).bytes == Flat(ns)[n - 3 := 0x01]
  {
    EndOfPath(b, 0, ns);
    hide Flat, GoodPath;
  }

  lemma FlatWithInstance(ns: seq<Node>, ms: seq<Node>)
    requires GoodPath(ns) && |ns[|ns| - 1].bytes| == 4
    ensures var last := |ns| - 1;
      Flat(WithInstance(ns, ms)) == Flat(ns[..last]) + EndInstance(ns[last]).bytes + Flat(ms)
  {
    var last := |ns| - 1;
    var e := EndInstance(ns[last]);
    FlatAppend(ns[..last] + [e], ms);
    FlatAppend(ns[..last], [e]);
    FlatOne(e);
  }

  // ---------- appending a path ----------

  /** Each instance, then all of `ms` with its own end node, then an end-instance node. */
  ghost function Extended(instances: seq<seq<Node>>, ms: seq<Node>): seq<Node> {
    if instances == [] then []
    else
      var last := |instances| - 1;
      Extended(instances[..last], ms) + instances[last] + ms + [END_INSTANCE_DEVICE_PATH]
  }

  lemma ExtendedStep(instances: seq<seq<Node>>, k: nat, ms: seq<Node>)
    requires k < |instances|
    ensures Extended(instances[..k + 1], ms)
         == Extended(instances[..k], ms) + instances[k] + ms + [END_INSTANCE_DEVICE_PATH]
  {
    assert instances[..k + 1][..k] == instances[..k];
  }

  lemma FlatThree(a: seq<Node>, b: seq<Node>, c: seq<Node>, e: Node)
    ensures Flat(a + b + c + [e]) == Flat(a) + Flat(b) + Flat(c) + e.bytes
  {
    hide Flat;
    FlatAppend(a + b + c, [e]);
    FlatAppend(a + b, c);
    FlatAppend(a, b);
    FlatOne(e);
  }

  /** The nodes that `AppendDevicePath` leaves in the block: the last end node is replaced. */
  ghost function Written(instances: seq<seq<Node>>, ms: seq<Node>): seq<Node> {
    var all := Extended(instances, ms);
    if all == [] then [] else all[..|all| - 1] + [END_DEVICE_PATH]
  }

  /** The size of the block. */
  function BlockSize(src1Size: nat, count: nat, src2Size: nat): nat {
    src1Size * count + src2Size
  }

  /** The block asked for, and what is written from its start on, which may run past it. */
  datatype Result = Result(blockSize: nat, bytes: seq<Byte>)

  /** None when the pool does not grant the block. */
  method AppendDevicePath(src1: Option<seq<Byte>>, src2: Option<seq<Byte>>, granted: bool,
                          ghost ns: seq<Node>, ghost ms: seq<Node>)
    returns (dst: Option<Result>)
    requires src1.Some? || src2.Some?
    requires src1.Some? ==> Holds(src1.value, 0, ns)
    requires src2.Some? ==> Holds(src2.value, 0, ms)
    ensures dst.Some? <==> granted
    ensures dst.Some? && src1.None? ==> dst.value == Result(|Flat(ms)|, Flat(ms))
    ensures dst.Some? && src2.None? ==> dst.value == Result(|Flat(ns)|, Flat(ns))
    ensures dst.Some? && src1.Some? && src2.Some? ==>
              && dst.value.bytes == Flat(Written(Pieces(ns), ms))
              && dst.value.blockSize == BlockSize(|Flat(ns)|, |Pieces(ns)|, |Flat(ms)|)
  {
    hide Holds, Flat, Written, Pieces;
    if src1.None? || src2.None? {
      var copy;
      if src1.None? {
        copy := DuplicateDevicePath(src2.value, granted, ms);
      } else {
        copy := DuplicateDevicePath(src1.value, granted, ns);
      }
      return if copy == null then None else Some(Result(copy.Length, copy[..]));
    }
    dst := AppendToPieces(src1.value, src2.value, granted, ns, ms);
  }

  method AppendToPieces(src1: seq<Byte>, src2: seq<Byte>, granted: bool, ghost ns: seq<Node>, ghost ms: seq<Node>)
    returns (dst: Option<Result>)
    requires Holds(src1, 0, ns) && Holds(src2, 0, ms)
    ensures dst.Some? <==> granted
    ensures dst.Some? ==>
              && dst.value.bytes == Flat(Written(Pieces(ns), ms))
              && dst.value.blockSize == BlockSize(|Flat(ns)|, |Pieces(ns)|, |Flat(ms)|)
  {
    hide Holds, GoodPath, Flat, Written, Extended, Pieces;
    var src1Size := DevicePathSize(src1, 0, ns);
    var src1Inst, _ := DevicePathInstanceCount(src1, 0, ns);
    var src2Size := DevicePathSize(src2, 0, ms);
    var size := src1Size * src1Inst + src2Size;
    if !granted {
      return None;
    }
    var bytes := CopyInstances(src1, src2, src2Size, ns, ms);
    WrittenEnds(Pieces(ns), ms);
    dst := Some(Result(size, bytes[..|bytes| - 4] + END_DEVICE_PATH.bytes));
  }

  lemma WrittenEnds(instances: seq<seq<Node>>, ms: seq<Node>)
    requires instances != []
    ensures var all := Flat(Extended(instances, ms));
            |all| >= 4 && Flat(Written(instances, ms)) == all[..|all| - 4] + END_DEVICE_PATH.bytes
  {
    var all := Extended(instances, ms);
    var body := all[..|all| - 1];
    assert all == body + [END_INSTANCE_DEVICE_PATH];
    hide Flat, Extended;
    FlatAppend(body, [END_INSTANCE_DEVICE_PATH]);
    FlatAppend(body, [END_DEVICE_PATH]);
    FlatOne(END_INSTANCE_DEVICE_PATH);
    FlatOne(END_DEVICE_PATH);
  }

  method CopyInstances(src1: seq<Byte>, src2: seq<Byte>, src2Size: nat, ghost ns: seq<Node>, ghost ms: seq<Node>)
    returns (dst: seq<Byte>)
    requires Holds(src1, 0, ns)
    requires src2Size == |Flat(ms)| <= |src2| && src2[..src2Size] == Flat(ms)
    ensures dst == Flat(Extended(Pieces(ns), ms))
  {
    hide Holds, GoodPath, Flat, Extended, Pieces, First, PlainNodes;
    dst := [];
    var inst := Some(0);
    ghost var rest, k, all := ns, 0, Pieces(ns);
    ExtendedNone(ms);
    assert all[..0] == [];
    while inst.Some?
      invariant k <= |all| && (inst.None? ==> k == |all|)
      invariant inst.Some? ==> Holds(src1, inst.value, rest) && all[k..] == Pieces(rest)
      invariant dst == Flat(Extended(all[..k], ms))
      decreases if inst.Some? then 1 else 0, |rest|
    {
      var at := inst.value;
      var size;
      ghost var first;
      size, inst, first, rest := TakeInstance(src1, at, rest);
      assert all[k] == first && all[k + 1..] == all[k..][1..];
      dst := dst + src1[at..at + size] + src2[..src2Size] + END_INSTANCE_DEVICE_PATH.bytes;
      ExtendedStep(all, k, ms);
      FlatThree(Extended(all[..k], ms), first, ms, END_INSTANCE_DEVICE_PATH);
      k := k + 1;
    }
    assert all[..k] == all;
  }

  lemma ExtendedNone(ms: seq<Node>)
    ensures Flat(Extended([], ms)) == []
  {
  }

  lemma {:induction false} ExtendedSize(instances: seq<seq<Node>>, ms: seq<Node>)
    ensures |Flat(Extended(instances, ms))| == TotalSize(instances) + |instances| * |Flat(ms)|
    decreases |instances|
  {
    hide Flat;
    if instances == [] {
      ExtendedNone(ms);
    } else {
      var last := |instances| - 1;
      ExtendedSize(instances[..last], ms);
      FlatThree(Extended(instances[..last], ms), instances[last], ms, END_INSTANCE_DEVICE_PATH);
      TotalSizeLast(instances);
      assert (last + 1) * |Flat(ms)| == last * |Flat(ms)| + |Flat(ms)|;
    }
  }

  lemma {:induction false} TotalSizeLast(instances: seq<seq<Node>>)
    requires instances != []
    ensures var last := |instances| - 1;
            TotalSize(instances) == TotalSize(instances[..last]) + |Flat(instances[last])| + 4
    decreases |instances|
  {
    hide Flat;
    var last := |instances| - 1;
    if last > 0 {
      TotalSizeLast(instances[1..]);
      assert instances[1..][..last - 1] == instances[..last][1..];
    }
  }

  lemma WrittenSize(ns: seq<Node>, ms: seq<Node>)
    requires GoodPath(ns)
    ensures |Flat(Written(Pieces(ns), ms))| == TotalSize(Pieces(ns)) + |Pieces(ns)| * |Flat(ms)|
    ensures Short(ns) ==> |Flat(Written(Pieces(ns), ms))| == |Flat(ns)| + |Instances(ns)| * |Flat(ms)|
  {
    hide GoodPath, Flat, Written, Pieces, Instances, Short;
    WrittenEnds(Pieces(ns), ms);
    ExtendedSize(Pieces(ns), ms);
    SizeOfInstances(ns);
    PiecesAreInstances(ns);
  }

  /** When the writes stay within the block. For `n` instances that are not too long, they come to the
    * size of the first path and `n` times the second, which fits exactly when there is one instance or
    * the second path is not longer. */
  lemma WritesFit(ns: seq<Node>, ms: seq<Node>)
    requires GoodPath(ns)
    ensures var n, size1, size2 := |Pieces(ns)|, |Flat(ns)|, |Flat(ms)|;
      var fits := |Flat(Written(Pieces(ns), ms))| <= BlockSize(size1, n, size2);
      && (fits <==> (n - 1) * size2 <= n * size1 - TotalSize(Pieces(ns)))
      && (Short(ns) ==> (fits <==> |Instances(ns)| == 1 || size2 <= size1))
  {
    hide GoodPath, Flat, Written, Pieces, Instances, Short;
    WrittenSize(ns, ms);
    PiecesAreInstances(ns);
    Scale(|Pieces(ns)| - 1, |Flat(ms)|, |Flat(ns)|);
    LessOne(|Pieces(ns)|, |Flat(ms)|);
    LessOne(|Pieces(ns)|, |Flat(ns)|);
  }

  lemma LessOne(n: nat, a: nat)
    requires n > 0
    ensures n * a == a + (n - 1) * a && a * n == n * a
  {
  }

  lemma Scale(k: nat, b: nat, a: nat)
    ensures k * b <= k * a <==> k == 0 || b <= a
  {
    if b < a && k > 0 {
      assert k * a == k * b + k * (a - b);
    } else if a < b && k > 0 {
      assert k * b == k * a + k * (b - a);
    }
  }

  /** Where the `i`-th piece begins. */
  function Offset(pieces: seq<seq<Node>>, ms: seq<Node>, i: nat): nat
    requires i <= |pieces|
  {
    if i == 0 then 0 else Offset(pieces, ms, i - 1) + |Flat(pieces[i - 1])| + |Flat(ms)| + 4
  }

  lemma {:induction false} ExtendedAt(pieces: seq<seq<Node>>, ms: seq<Node>, i: nat)
    requires i < |pieces|
    ensures Extended(pieces[..i], ms) + pieces[i] + ms + [END_INSTANCE_DEVICE_PATH] <= Extended(pieces, ms)
    ensures |Flat(Extended(pieces[..i], ms))| == Offset(pieces, ms, i)
    decreases |pieces|, i
  {
    hide Flat;
    var last := |pieces| - 1;
    if i < last {
      ExtendedAt(pieces[..last], ms, i);
      assert pieces[..last][..i] == pieces[..i];
      OffsetPrefix(pieces, ms, last, i);
    } else if i == 0 {
      assert pieces[..0] == [];
      ExtendedNone(ms);
    } else {
      ExtendedStep(pieces, i - 1, ms);
      FlatThree(Extended(pieces[..i - 1], ms), pieces[i - 1], ms, END_INSTANCE_DEVICE_PATH);
      ExtendedAt(pieces[..i], ms, i - 1);
      assert pieces[..i][..i - 1] == pieces[..i - 1];
      OffsetPrefix(pieces, ms, i, i - 1);
    }
  }

  lemma {:induction false} OffsetPrefix(pieces: seq<seq<Node>>, ms: seq<Node>, n: nat, i: nat)
    requires i <= n <= |pieces|
    ensures Offset(pieces[..n], ms, i) == Offset(pieces, ms, i)
  {
    if i > 0 {
      OffsetPrefix(pieces, ms, n, i - 1);
    }
  }

  /** Every piece is followed by all of the second path, one after the other from the start of the block, and
    * each of these is a path of its own. */
  lemma EachPieceExtended(ns: seq<Node>, ms: seq<Node>, i: nat)
    requires GoodPath(ns) && GoodPath(ms) && i < |Pieces(ns)|
    ensures Holds(Flat(Written(Pieces(ns), ms)), Offset(Pieces(ns), ms, i), Pieces(ns)[i] + ms)
  {
    hide GoodPath, Holds, Flat, Extended, Pieces, Written, PlainNodes, Offset;
    var ps := Pieces(ns);
    PiecesPlain(ns, i);
    PlainThenPath(ps[i], ms);
    PieceWritten(ps, ms, i);
    HeldWithin(Written(ps, ms), Extended(ps[..i], ms), ps[i] + ms);
  }

  lemma PieceWritten(ps: seq<seq<Node>>, ms: seq<Node>, i: nat)
    requires i < |ps|
    ensures Extended(ps[..i], ms) + (ps[i] + ms) <= Written(ps, ms)
    ensures |Flat(Extended(ps[..i], ms))| == Offset(ps, ms, i)
  {
    hide Flat, Extended, Written, Offset;
    var before := Extended(ps[..i], ms);
    ExtendedAt(ps, ms, i);
    assert before + ps[i] + ms == before + (ps[i] + ms);
    WrittenKeeps(ps, ms, before + (ps[i] + ms));
  }

  lemma WrittenKeeps(ps: seq<seq<Node>>, ms: seq<Node>, front: seq<Node>)
    requires front + [END_INSTANCE_DEVICE_PATH] <= Extended(ps, ms)
    ensures front <= Written(ps, ms)
  {
    hide Extended;
  }

  lemma HeldWithin(w: seq<Node>, before: seq<Node>, path: seq<Node>)
    requires GoodPath(path) && before + path <= w
    ensures Holds(Flat(w), |Flat(before)|, path)
  {
    hide Flat, GoodPath;
    var rest := w[|before + path|..];
    assert w == before + path + rest;
    FlatAppend(before + path, rest);
    FlatAppend(before, path);
    assert Flat(w)[|Flat(before)|..] == Flat(path) + Flat(rest);
  }

  lemma WrittenParts(ps: seq<seq<Node>>, ms: seq<Node>, i: nat)
    requires i < |ps|
    ensures var e := if i == |ps| - 1 then END_DEVICE_PATH else END_INSTANCE_DEVICE_PATH;
            Extended(ps[..i], ms) + ps[i] + ms + [e] <= Written(ps, ms)
  {
    ExtendedAt(ps, ms, i);
    var part := Extended(ps[..i], ms) + ps[i] + ms;
    if i == |ps| - 1 {
      assert ps[..i + 1] == ps;
      ExtendedStep(ps, i, ms);
      hide Extended;
      assert Extended(ps, ms)[..|part|] == part;
    } else {
      ExtendedAt(ps, ms, i + 1);
      ExtendedStep(ps, i, ms);
      hide Extended;
      assert part + [END_INSTANCE_DEVICE_PATH] == Extended(ps[..i + 1], ms);
      assert |Extended(ps, ms)| > |part| + 1;
    }
  }

  /** All bytes that are written: each piece, the second path, and an end node, which ends an instance
    * except for the last. */
  lemma WrittenBytes(ps: seq<seq<Node>>, ms: seq<Node>, i: nat)
    requires i < |ps|
    ensures var b, at, after := Flat(Written(ps, ms)), Offset(ps, ms, i), Offset(ps, ms, i + 1);
      && after <= |b| && (i == |ps| - 1 ==> after == |b|)
      && b[at..after] == Flat(ps[i]) + Flat(ms) + [0x7F, if i == |ps| - 1 then 0xFF else 0x01, 0x04, 0x00]
  {
    hide Flat, Extended, Written, Offset;
    var e := if i == |ps| - 1 then END_DEVICE_PATH else END_INSTANCE_DEVICE_PATH;
    NodeIs(e);
    WrittenParts(ps, ms, i);
    WrittenLength(ps, ms);
    ExtendedAt(ps, ms, i);
    OffsetNext(ps, ms, i);
    PartAt(Written(ps, ms), Extended(ps[..i], ms), ps[i], ms, e);
  }

  lemma OffsetNext(ps: seq<seq<Node>>, ms: seq<Node>, i: nat)
    requires i < |ps|
    ensures Offset(ps, ms, i + 1) == Offset(ps, ms, i) + |Flat(ps[i])| + |Flat(ms)| + 4
  {
    hide Flat;
  }

  lemma PartAt(w: seq<Node>, before: seq<Node>, x: seq<Node>, y: seq<Node>, e: Node)
    requires before + x + y + [e] <= w
    ensures var at := |Flat(before)|;
      var after := at + |Flat(x)| + |Flat(y)| + |e.bytes|;
      after <= |Flat(w)| && Flat(w)[at..after] == Flat(x) + Flat(y) + e.bytes
  {
    hide Flat;
    var part := before + x + y + [e];
    var rest := w[|part|..];
    assert w == part + rest;
    FlatAppend(part, rest);
    FlatThree(before, x, y, e);
    Middle(Flat(before), Flat(x), Flat(y), e.bytes, Flat(rest));
  }

  lemma Middle(a: seq<Byte>, x: seq<Byte>, y: seq<Byte>, e: seq<Byte>, rest: seq<Byte>)
    ensures (a + x + y + e + rest)[|a|..|a| + |x| + |y| + |e|] == x + y + e
  {
  }

  lemma WrittenLength(ps: seq<seq<Node>>, ms: seq<Node>)
    requires ps != []
    ensures |Flat(Written(ps, ms))| == Offset(ps, ms, |ps|)
  {
    var last := |ps| - 1;
    WrittenEnds(ps, ms);
    ExtendedAt(ps, ms, last);
    assert ps[..last + 1] == ps;
    ExtendedStep(ps, last, ms);
    FlatThree(Extended(ps[..last], ms), ps[last], ms, END_INSTANCE_DEVICE_PATH);
  }

  lemma {:induction false} PiecesPlain(ns: seq<Node>, i: nat)
    requires GoodPath(ns) && i < |Pieces(ns)|
    ensures PlainNodes(Pieces(ns)[i])
    decreases |ns|
  {
    if i == 0 {
      FirstPiecePlain(ns);
    } else {
      RestGood(ns);
      PiecesPlain(ns[Stop(ns) + 1..], i - 1);
    }
  }

  lemma RestGood(ns: seq<Node>)
    requires GoodPath(ns) && Stop(ns) < |ns| - 1
    ensures GoodPath(ns[Stop(ns) + 1..])
  {
  }

  /** Whatever comes later, a reader stops at the end of the second path after the first instance. */
  lemma {:induction false} WrittenFirst(instances: seq<seq<Node>>, ms: seq<Node>)
    requires instances != []
    ensures instances[0] + ms <= Written(instances, ms)
  {
    ExtendedFirst(instances, ms);
  }

  lemma {:induction false} ExtendedFirst(instances: seq<seq<Node>>, ms: seq<Node>)
    requires instances != []
    ensures instances[0] + ms + [END_INSTANCE_DEVICE_PATH] <= Extended(instances, ms)
    decreases |instances|
  {
    var last := |instances| - 1;
    if last > 0 {
      ExtendedFirst(instances[..last], ms);
    } else {
      assert instances[..last] == [];
    }
  }

  /** The result, as a reader sees it: the first piece of `ns`, then all of `ms`. */
  lemma AppendedPath(ns: seq<Node>, ms: seq<Node>)
    requires GoodPath(ns) && GoodPath(ms)
    ensures Holds(Flat(Written(Pieces(ns), ms)), 0, Pieces(ns)[0] + ms)
    ensures Instances(Pieces(ns)[0] + ms) == [Pieces(ns)[0] + Instances(ms)[0]] + Instances(ms)[1..]
  {
    var x := Pieces(ns)[0];
    FirstPiecePlain(ns);
    hide GoodPath, Flat, Written, Instances, Pieces;
    PlainThenPath(x, ms);
    WrittenFirst(Pieces(ns), ms);
    var w := Written(Pieces(ns), ms);
    assert w == x + ms + w[|x + ms|..];
    FlatAppend(x + ms, w[|x + ms|..]);
    assert Flat(w)[0..] == Flat(w);
  }

  lemma FirstPiecePlain(ns: seq<Node>)
    requires GoodPath(ns)
    ensures PlainNodes(Pieces(ns)[0]) && Pieces(ns)[0] == ns[..Stop(ns)]
    ensures Pieces(ns)[0] == Instances(ns)[0] <==> |Instances(ns)[0]| <= GIVE_UP
  {
    FirstPlain(ns);
  }

  lemma PlainThenPath(x: seq<Node>, ms: seq<Node>)
    requires PlainNodes(x) && GoodPath(ms)
    ensures GoodPath(x + ms)
    ensures Instances(x + ms) == [x + Instances(ms)[0]] + Instances(ms)[1..]
  {
    var x', e, y := PathForm(ms);
    PlainTwo(x, x');
    Reassociate(x, x', e, y);
    hide GoodPath, Instances, PlainNodes;
    if IsEntireEnd(e) {
      InstancesLast(x + x', e);
    } else {
      InstancesCons(x + x', e, y);
    }
  }

  lemma PlainTwo(x: seq<Node>, y: seq<Node>)
    requires PlainNodes(x) && PlainNodes(y)
    ensures PlainNodes(x + y)
  {
  }

  lemma Reassociate(x: seq<Node>, x': seq<Node>, e: Node, y: seq<Node>)
    ensures x + (x' + [e] + y) == x + x' + [e] + y
    ensures y == [] ==> x + x' + [e] + y == x + x' + [e]
  {
  }

  /** What the comment on the function promises: the second path appended to each instance. */
  ghost function AppendedToEach(a: seq<seq<Node>>, b: seq<seq<Node>>): seq<seq<Node>>
    requires b != []
  {
    if a == [] then [] else [a[0] + b[0]] + b[1..] + AppendedToEach(a[1..], b)
  }

  lemma {:induction false} AppendedToEachSize(a: seq<seq<Node>>, b: seq<seq<Node>>)
    requires b != []
    ensures |AppendedToEach(a, b)| == |a| * |b|
  {
    if a != [] {
      AppendedToEachSize(a[1..], b);
      assert |a| * |b| == |b| + (|a| - 1) * |b|;
    }
  }

  /** The promise is kept exactly when the first path has a single instance, of at most 513 nodes. */
  lemma AppendedToEachIffSingle(ns: seq<Node>, ms: seq<Node>)
    requires GoodPath(ns) && GoodPath(ms)
    ensures GoodPath(Pieces(ns)[0] + ms)
    ensures Instances(Pieces(ns)[0] + ms) == AppendedToEach(Instances(ns), Instances(ms))
            <==> |Instances(ns)| == 1 && |Instances(ns)[0]| <= GIVE_UP
  {
    hide GoodPath, Instances, Pieces, AppendedToEach;
    AppendedPath(ns, ms);
    FirstPiecePlain(ns);
    var a, b := Instances(ns), Instances(ms);
    if |a| == 1 {
      AppendedToOne(a, b);
      FirstEqual(Pieces(ns)[0], a[0], b);
    } else {
      AppendedToEachSize(a, b);
      LessOne(|a|, |b|);
      Scale(|a| - 1, 1, |b|);
    }
  }

  lemma FirstEqual(x: seq<Node>, y: seq<Node>, b: seq<seq<Node>>)
    requires b != []
    ensures [x + b[0]] + b[1..] == [y + b[0]] + b[1..] <==> x == y
  {
    if [x + b[0]] + b[1..] == [y + b[0]] + b[1..] {
      assert ([x + b[0]] + b[1..])[0] == ([y + b[0]] + b[1..])[0];
      assert |x + b[0]| == |y + b[0]|;
      assert (x + b[0])[..|x|] == x && (y + b[0])[..|y|] == y;
    }
  }

  lemma AppendedToOne(a: seq<seq<Node>>, b: seq<seq<Node>>)
    requires |a| == 1 && b != []
    ensures AppendedToEach(a, b) == [a[0] + b[0]] + b[1..]
  {
    assert AppendedToEach(a[1..], b) == [];
  }

  // ---------- a path for which neither holds ----------

  const TWO_EMPTY: seq<Node> := [END_INSTANCE_DEVICE_PATH, END_DEVICE_PATH]
  const TWELVE: Node := Node([1, 1, 12, 0, 0, 0, 0, 0, 0, 0, 0, 0])

  lemma TwoEmpty()
    ensures GoodPath(TWO_EMPTY) && Instances(TWO_EMPTY) == [[], []] && Short(TWO_EMPTY) && |Flat(TWO_EMPTY)| == 8
  {
    var none: seq<Node> := [];
    InstancesLast(none, END_DEVICE_PATH);
    assert none + [END_DEVICE_PATH] == [END_DEVICE_PATH];
    hide GoodPath, Instances;
    InstancesCons(none, END_INSTANCE_DEVICE_PATH, [END_DEVICE_PATH]);
    assert none + [END_INSTANCE_DEVICE_PATH] + [END_DEVICE_PATH] == TWO_EMPTY;
    hide Flat;
    FlatAppend([END_INSTANCE_DEVICE_PATH], [END_DEVICE_PATH]);
    FlatOne(END_INSTANCE_DEVICE_PATH);
    FlatOne(END_DEVICE_PATH);
  }

  lemma OneTwelve()
    ensures GoodPath([TWELVE, END_DEVICE_PATH]) && Instances([TWELVE, END_DEVICE_PATH]) == [[TWELVE]]
    ensures |Flat([TWELVE, END_DEVICE_PATH])| == 16
  {
    assert [TWELVE, END_DEVICE_PATH] == [TWELVE] + [END_DEVICE_PATH];
    InstancesLast([TWELVE], END_DEVICE_PATH);
    hide Flat, GoodPath, Instances;
    FlatAppend([TWELVE], [END_DEVICE_PATH]);
    FlatOne(TWELVE);
    FlatOne(END_DEVICE_PATH);
  }

  /** Two empty instances, and one node of twelve bytes to be appended: the block has 32 bytes, and the
    * code writes 40. */
  lemma WritesPastTheBlock()
    ensures GoodPath(TWO_EMPTY) && GoodPath([TWELVE, END_DEVICE_PATH])
    ensures |Flat(Written(Pieces(TWO_EMPTY), [TWELVE, END_DEVICE_PATH]))| == 40
    ensures BlockSize(|Flat(TWO_EMPTY)|, |Pieces(TWO_EMPTY)|, |Flat([TWELVE, END_DEVICE_PATH])|) == 32
  {
    hide Flat, GoodPath, Instances, Pieces, Written, Short;
    TwoEmpty();
    OneTwelve();
    PiecesAreInstances(TWO_EMPTY);
    WrittenSize(TWO_EMPTY, [TWELVE, END_DEVICE_PATH]);
  }

  /** Nor is the node appended to each: a reader sees one instance where two are promised. */
  lemma NotAppendedToEach()
    ensures var ms := [TWELVE, END_DEVICE_PATH];
      && GoodPath(TWO_EMPTY) && GoodPath(ms)
      && |AppendedToEach(Instances(TWO_EMPTY), Instances(ms))| == 2
      && |Instances(Pieces(TWO_EMPTY)[0] + ms)| == 1
  {
    hide Flat, GoodPath, Instances, Pieces, AppendedToEach, Written;
    TwoEmpty();
    OneTwelve();
    AppendedPath(TWO_EMPTY, [TWELVE, END_DEVICE_PATH]);
    AppendedToEachSize(Instances(TWO_EMPTY), Instances([TWELVE, END_DEVICE_PATH]));
  }
}
