/** Device paths as lists of nodes (section 9.3.1 of the UEFI 2.4 specification), and the functions
  * of `dpath.c` that measure and split them. */
module DevicePath {
  import opened Options
  import opened Words

  /** A node is its bytes, header included. */
  datatype Node = Node(bytes: seq<Byte>)

  const END_TYPE: Byte := 0x7F
  const END_ENTIRE: Byte := 0xFF
  const END_INSTANCE: Byte := 0x01
  const END_DEVICE_PATH: Node := Node([END_TYPE, END_ENTIRE, 4, 0])
  const END_INSTANCE_DEVICE_PATH: Node := Node([END_TYPE, END_INSTANCE, 4, 0])

  // ---------- nodes in memory ----------

  /** `DevicePathNodeLength` */
  function NodeLength(b: seq<Byte>, at: nat): nat
    requires at + 4 <= |b|
  {
    b[at + 2] as int + 256 * (b[at + 3] as int)
  }

  /** `IsDevicePathEndType` */
  predicate IsEndType(b: seq<Byte>, at: nat)
    requires at + 4 <= |b|
  {
    b[at] % 128 == END_TYPE
  }

  /** `IsDevicePathEnd` */
  predicate IsEnd(b: seq<Byte>, at: nat)
    requires at + 4 <= |b|
  {
    IsEndType(b, at) && b[at + 1] == END_ENTIRE
  }

  predicate IsEndNode(n: Node) {
    |n.bytes| >= 4 && IsEndType(n.bytes, 0)
  }

  predicate IsEntireEnd(n: Node) {
    |n.bytes| >= 4 && IsEnd(n.bytes, 0)
  }

  // ---------- paths ----------

  /** A node carries its own length; an end node is a bare header and ends a path or an instance. */
  predicate GoodNode(n: Node) {
    && |n.bytes| >= 4 && NodeLength(n.bytes, 0) == |n.bytes|
    && (IsEndNode(n) ==> |n.bytes| == 4 && (n.bytes[1] == END_ENTIRE || n.bytes[1] == END_INSTANCE))
  }

  /** In plain terms: the length is in the third and the fourth byte, the lower one first; the type of an end
    * node is 0x7F or, with the mark, 0xFF; and its subtype is 0xFF at the end of a path and 1 at the end of
    * an instance. */
  lemma NodeIs(n: Node)
    ensures GoodNode(n) <==>
              && |n.bytes| >= 4 && |n.bytes| == n.bytes[2] as int + 0x100 * n.bytes[3] as int
              && (n.bytes[0] == 0x7F || n.bytes[0] == 0xFF ==>
                    |n.bytes| == 4 && (n.bytes[1] == 0xFF || n.bytes[1] == 0x01))
    ensures |n.bytes| >= 4 ==> (IsEndNode(n) <==> n.bytes[0] == 0x7F || n.bytes[0] == 0xFF)
    ensures |n.bytes| >= 4 ==> (IsEntireEnd(n) <==> (n.bytes[0] == 0x7F || n.bytes[0] == 0xFF) && n.bytes[1] == 0xFF)
    ensures END_DEVICE_PATH == Node([0x7F, 0xFF, 0x04, 0x00])
    ensures END_INSTANCE_DEVICE_PATH == Node([0x7F, 0x01, 0x04, 0x00])
  {
  }

  /** A path: its last node, and no other, ends the entire path. */
  ghost predicate GoodPath(ns: seq<Node>) {
    && ns != []
    && (forall i | 0 <= i < |ns| :: GoodNode(ns[i]))
    && (forall i | 0 <= i < |ns| :: IsEntireEnd(ns[i]) <==> i == |ns| - 1)
  }

  function Flat(ns: seq<Node>): seq<Byte> {
    if ns == [] then [] else ns[0].bytes + Flat(ns[1..])
  }

  /** The path `ns` is what a pointer to `b[at]` denotes. */
  ghost predicate Holds(b: seq<Byte>, at: nat, ns: seq<Node>) {
    GoodPath(ns) && at <= |b| && Flat(ns) <= b[at..]
  }

  lemma {:induction false} FlatAppend(x: seq<Node>, y: seq<Node>)
    ensures Flat(x + y) == Flat(x) + Flat(y)
  {
    if x == [] {
      assert x + y == y;
    } else {
      assert (x + y)[1..] == x[1..] + y;
      FlatAppend(x[1..], y);
    }
  }

  lemma FlatOne(n: Node)
    ensures Flat([n]) == n.bytes
  {
    assert Flat([n]) == n.bytes + Flat([]);
  }

  lemma FlatPrefix(ns: seq<Node>, k: nat)
    requires k < |ns|
    ensures Flat(ns[..k + 1]) == Flat(ns[..k]) + ns[k].bytes
  {
    FlatOne(ns[k]);
    assert ns[..k + 1] == ns[..k] + [ns[k]];
    FlatAppend(ns[..k], [ns[k]]);
  }

  lemma FlatStep(ns: seq<Node>, k: nat)
    requires k < |ns|
    ensures Flat(ns) == Flat(ns[..k]) + ns[k].bytes + Flat(ns[k + 1..])
  {
    hide Flat;
    FlatPrefix(ns, k);
    assert ns == ns[..k + 1] + ns[k + 1..];
    FlatAppend(ns[..k + 1], ns[k + 1..]);
  }

  /** The bytes of the `k`-th node are found after those of the nodes before it. */
  lemma NodeBytes(b: seq<Byte>, at: nat, ns: seq<Node>, k: nat)
    requires Holds(b, at, ns) && k < |ns|
    ensures var p := at + |Flat(ns[..k])|;
      && p + |ns[k].bytes| <= |b| && b[p..p + |ns[k].bytes|] == ns[k].bytes
  {
    FlatStep(ns, k);
    var off, size := |Flat(ns[..k])|, |ns[k].bytes|;
    assert Flat(ns)[off..off + size] == ns[k].bytes;
    assert b[at..][off..off + size] == b[at + off..at + off + size];
  }

  /** What a pointer to the `k`-th node reads. */
  lemma NodeAt(b: seq<Byte>, at: nat, ns: seq<Node>, k: nat)
    requires Holds(b, at, ns) && k < |ns|
    ensures var p, n := at + |Flat(ns[..k])|, ns[k];
      && |n.bytes| >= 4 && p + |n.bytes| <= |b|
      && NodeLength(b, p) == |n.bytes| && b[p + 1] == n.bytes[1]
      && (IsEndType(b, p) <==> IsEndNode(n)) && (IsEnd(b, p) <==> IsEntireEnd(n))
      && p + |n.bytes| == at + |Flat(ns[..k + 1])|
  {
    NodeBytes(b, at, ns, k);
    FlatPrefix(ns, k);
    assert GoodNode(ns[k]);
    HeaderRead(b, at + |Flat(ns[..k])|, ns[k]);
  }

  lemma HeaderRead(b: seq<Byte>, p: nat, n: Node)
    requires GoodNode(n) && p + |n.bytes| <= |b| && b[p..p + |n.bytes|] == n.bytes
    ensures NodeLength(b, p) == |n.bytes| && b[p + 1] == n.bytes[1]
    ensures (IsEndType(b, p) <==> IsEndNode(n)) && (IsEnd(b, p) <==> IsEntireEnd(n))
  {
    var s := b[p..p + |n.bytes|];
    assert s[0] == b[p] && s[1] == b[p + 1] && s[2] == b[p + 2] && s[3] == b[p + 3];
  }

  /** Memory determines the path it holds. */
  lemma {:induction false} HeldPathUnique(b: seq<Byte>, at: nat, ns: seq<Node>, ms: seq<Node>)
    requires Holds(b, at, ns) && Holds(b, at, ms)
    ensures ns == ms
    decreases |ns|
  {
    NodeAt(b, at, ns, 0);
    NodeAt(b, at, ms, 0);
    NodeBytes(b, at, ns, 0);
    NodeBytes(b, at, ms, 0);
    assert ns[0] == ms[0];
    if |ns| > 1 {
      HeldRest(b, at, ns, 1);
      HeldRest(b, at, ms, 1);
      HeldPathUnique(b, at + |ns[0].bytes|, ns[1..], ms[1..]);
      assert ns == [ns[0]] + ns[1..] && ms == [ms[0]] + ms[1..];
    } else {
      assert IsEntireEnd(ns[0]);
    }
  }

  /** Beyond its first `k` nodes, memory holds the rest of the path. */
  lemma HeldRest(b: seq<Byte>, at: nat, ns: seq<Node>, k: nat)
    requires Holds(b, at, ns) && k < |ns|
    ensures Holds(b, at + |Flat(ns[..k])|, ns[k..])
    ensures k == 1 ==> |Flat(ns[..k])| == |ns[0].bytes|
  {
    assert ns == ns[..k] + ns[k..];
    FlatAppend(ns[..k], ns[k..]);
    var off := |Flat(ns[..k])|;
    assert b[at..][off..] == b[at + off..];
    if k == 1 {
      assert ns[..1] == [ns[0]];
      FlatOne(ns[0]);
    }
  }

  /** The walk to the end of a path that several functions contain. */
  method FindEnd(b: seq<Byte>, at: nat, ghost ns: seq<Node>) returns (devPath: nat)
    requires Holds(b, at, ns)
    ensures devPath == at + |Flat(ns[..|ns| - 1])|
  {
    devPath := at;
    ghost var k := 0;
    assert GoodPath(ns);
    NodeAt(b, at, ns, 0);
    hide Holds;
    while !IsEnd(b, devPath)
      invariant k < |ns| && devPath == at + |Flat(ns[..k])| && devPath + 4 <= |b|
      invariant IsEnd(b, devPath) <==> k == |ns| - 1
      decreases |ns| - k
    {
      NodeAt(b, at, ns, k);
      NodeAt(b, at, ns, k + 1);
      devPath := devPath + NodeLength(b, devPath);
      k := k + 1;
    }
  }

  /** The end node is the last four bytes of a path. */
  lemma EndOfPath(b: seq<Byte>, at: nat, ns: seq<Node>)
    requires Holds(b, at, ns)
    ensures var p, last := at + |Flat(ns[..|ns| - 1])|, ns[|ns| - 1];
      && |last.bytes| == 4 && p + 4 == at + |Flat(ns)| <= |b| && b[p..p + 4] == last.bytes
      && IsEnd(b, p) && NodeLength(b, p) == 4
      && Flat(ns) == Flat(ns[..|ns| - 1]) + last.bytes
      && b[at..at + |Flat(ns)|] == Flat(ns)
      && IsEndNode(last)
  {
    var k := |ns| - 1;
    NodeAt(b, at, ns, k);
    NodeBytes(b, at, ns, k);
    FlatPrefix(ns, k);
    assert ns[..k + 1] == ns;
    assert GoodNode(ns[k]);
    assert b[at..][..|Flat(ns)|] == b[at..at + |Flat(ns)|];
  }

  method DevicePathSize(b: seq<Byte>, at: nat, ghost ns: seq<Node>) returns (size: nat)
    requires Holds(b, at, ns)
    ensures size == |Flat(ns)| && at + size <= |b| && b[at..at + size] == Flat(ns)
  {
    EndOfPath(b, at, ns);
    var devPath := FindEnd(b, at, ns);
    size := devPath - at + 4;
  }

  // ---------- instances ----------

  /** The position of the first end node. */
  function First(ns: seq<Node>): (k: nat)
    ensures k <= |ns|
    ensures forall i | 0 <= i < k :: !IsEndNode(ns[i])
    ensures k < |ns| ==> IsEndNode(ns[k])
  {
    if ns == [] || IsEndNode(ns[0]) then 0 else 1 + First(ns[1..])
  }

  lemma FirstInside(ns: seq<Node>)
    requires GoodPath(ns)
    ensures First(ns) < |ns|
    ensures IsEntireEnd(ns[First(ns)]) <==> First(ns) == |ns| - 1
    ensures !IsEntireEnd(ns[First(ns)]) ==> GoodPath(ns[First(ns) + 1..])
  {
    assert IsEntireEnd(ns[|ns| - 1]);
  }

  /** The nodes of each instance, without the end nodes. */
  ghost function Instances(ns: seq<Node>): (r: seq<seq<Node>>)
    ensures |r| > 0
    decreases |ns|
  {
    var k := First(ns);
    if k >= |ns| - 1 then [ns[..k]] else [ns[..k]] + Instances(ns[k + 1..])
  }

  /** `DevicePathInstance` gives up after this many nodes. */
  const GIVE_UP: nat := 513

  /** Where it stops: at the first end node, or where it gives up. */
  function Stop(ns: seq<Node>): (k: nat)
    ensures k <= |ns| && k <= First(ns)
    ensures k == if First(ns) <= 513 then First(ns) else 513
  {
    if First(ns) <= GIVE_UP then First(ns) else GIVE_UP
  }

  /** Nothing follows a node with this subtype, whatever its type. */
  predicate IsLast(n: Node) {
    |n.bytes| >= 4 && n.bytes[1] == END_ENTIRE
  }

  method DevicePathInstance(b: seq<Byte>, at: nat, ghost ns: seq<Node>) returns (size: nat, next: Option<nat>)
    requires Holds(b, at, ns)
    ensures var k := Stop(ns);
      && k < |ns| && at + size <= |b| && size == |Flat(ns[..k])| && b[at..at + size] == Flat(ns[..k])
      && next == (if IsLast(ns[k]) then None else Some(at + |Flat(ns[..k + 1])|))
      && |ns[k].bytes| >= 4 && (next.None? <==> ns[k].bytes[1] == 0xFF)
  {
    hide Holds, GoodPath, Flat;
    var devPath, count, after := at, 0, 0;
    StopInside(b, at, ns);
    NodeAt(b, at, ns, 0);
    FlatSlice(b, at, ns, 0);
    while true
      invariant count <= Stop(ns) && devPath == at + |Flat(ns[..count])|
      decreases Stop(ns) - count
    {
      NodeAt(b, at, ns, count);
      after := devPath + NodeLength(b, devPath);
      if IsEndType(b, devPath) {
        break;
      }
      if count > 0x200 {
        break;
      }
      devPath := after;
      count := count + 1;
    }
    next := if b[devPath + 1] == END_ENTIRE then None else Some(after);
    size := devPath - at;
    FlatSlice(b, at, ns, count);
  }

  lemma StopInside(b: seq<Byte>, at: nat, ns: seq<Node>)
    requires Holds(b, at, ns)
    ensures 0 < |ns| && Stop(ns) <= First(ns) < |ns| && |ns[Stop(ns)].bytes| >= 4
    ensures GoodPath(ns)
  {
    FirstInside(ns);
    assert GoodNode(ns[Stop(ns)]);
  }

  /** What memory holds for the first `k` nodes. */
  lemma FlatSlice(b: seq<Byte>, at: nat, ns: seq<Node>, k: nat)
    requires Holds(b, at, ns) && k <= |ns|
    ensures var size := |Flat(ns[..k])|; at + size <= |b| && b[at..at + size] == Flat(ns[..k])
    ensures k == 0 ==> |Flat(ns[..k])| == 0
  {
    assert ns == ns[..k] + ns[k..];
    FlatAppend(ns[..k], ns[k..]);
    var size := |Flat(ns[..k])|;
    assert b[at..][..size] == b[at..at + size];
  }

  /** What repeated calls of `DevicePathInstance` find. */
  ghost function Pieces(ns: seq<Node>): (r: seq<seq<Node>>)
    ensures |r| > 0
    decreases |ns|
  {
    var k := Stop(ns);
    if k >= |ns| - 1 || IsLast(ns[k]) then [ns[..k]] else [ns[..k]] + Pieces(ns[k + 1..])
  }

  /** No instance has more nodes than `DevicePathInstance` is prepared to walk over. */
  ghost predicate Short(ns: seq<Node>) {
    forall x <- Instances(ns) :: |x| <= GIVE_UP
  }

  ghost predicate PlainNodes(ns: seq<Node>) {
    forall i | 0 <= i < |ns| :: GoodNode(ns[i]) && !IsEndNode(ns[i])
  }

  /** One call of `DevicePathInstance` takes the first piece off and leads on to the others. */
  lemma PieceStep(b: seq<Byte>, at: nat, ns: seq<Node>)
    requires Holds(b, at, ns)
    ensures var k := Stop(ns);
      && k < |ns| && PlainNodes(ns[..k])
      && (IsLast(ns[k]) ==> Pieces(ns) == [ns[..k]])
      && (!IsLast(ns[k]) ==>
            && k < |ns| - 1 && Holds(b, at + |Flat(ns[..k + 1])|, ns[k + 1..])
            && Pieces(ns) == [ns[..k]] + Pieces(ns[k + 1..]))
  {
    hide Holds, Flat, GoodPath, PlainNodes, First, IsLast;
    StopInside(b, at, ns);
    FirstPlain(ns);
    LastNode(ns);
    assert ns[..First(ns)][..Stop(ns)] == ns[..Stop(ns)];
    PlainPrefix(ns[..First(ns)], Stop(ns));
    if !IsLast(ns[Stop(ns)]) {
      HeldRest(b, at, ns, Stop(ns) + 1);
    }
  }

  lemma PlainPrefix(ns: seq<Node>, k: nat)
    requires PlainNodes(ns) && k <= |ns|
    ensures PlainNodes(ns[..k])
  {
  }

  lemma LastNode(ns: seq<Node>)
    requires GoodPath(ns)
    ensures IsLast(ns[|ns| - 1])
  {
    assert IsEntireEnd(ns[|ns| - 1]);
  }

  lemma FirstPlain(ns: seq<Node>)
    requires GoodPath(ns)
    ensures First(ns) < |ns| && PlainNodes(ns[..First(ns)])
  {
    FirstInside(ns);
  }

  /** The calls find the instances exactly when none of these is too long. */
  lemma {:induction false} PiecesAreInstances(ns: seq<Node>)
    requires GoodPath(ns)
    ensures Pieces(ns) == Instances(ns) <==> forall x <- Instances(ns) :: |x| <= 513
    ensures Short(ns) <==> Pieces(ns) == Instances(ns)
    decreases |ns|
  {
    var x, e, y := PathForm(ns);
    assert IsLast(e) <==> IsEntireEnd(e);
    assert ns[..|x|] == x && ns[|x|] == e;
    hide GoodPath, First, IsEntireEnd, IsEndNode;
    if |x| > GIVE_UP {
      assert Pieces(ns)[0] == ns[..GIVE_UP] && Instances(ns)[0] == x;
    } else if IsLast(e) {
      assert Pieces(ns) == [x];
    } else {
      PiecesAreInstances(y);
      assert Pieces(ns) == [x] + Pieces(y);
      ConsEqual(x, Pieces(y), Instances(y));
      assert forall z <- Instances(ns) :: z == x || z in Instances(y);
      assert forall z <- Instances(y) :: z in Instances(ns);
    }
  }

  lemma ConsEqual<T>(x: T, a: seq<T>, b: seq<T>)
    ensures [x] + a == [x] + b <==> a == b
  {
    assert ([x] + a)[1..] == a && ([x] + b)[1..] == b;
  }

  /** `DevicePathInstance`, in terms of the pieces of the path. */
  method TakeInstance(b: seq<Byte>, at: nat, ghost ns: seq<Node>)
    returns (size: nat, next: Option<nat>, ghost first: seq<Node>, ghost rest: seq<Node>)
    requires Holds(b, at, ns)
    ensures at + size <= |b| && b[at..at + size] == Flat(first) && PlainNodes(first)
    ensures next.None? ==> Pieces(ns) == [first]
    ensures next.Some? ==> Holds(b, next.value, rest) && |rest| < |ns|
    ensures next.Some? ==> Pieces(ns) == [first] + Pieces(rest)
  {
    hide Holds, GoodPath, Flat, Pieces, Stop, First, PlainNodes, IsLast;
    ghost var k := Stop(ns);
    PieceStep(b, at, ns);
    size, next := DevicePathInstance(b, at, ns);
    first, rest := ns[..k], ns[k + 1..];
  }

  /** The bytes of each instance lie where the corresponding part says (start and size). */
  ghost predicate FoundAt(b: seq<Byte>, parts: seq<(nat, nat)>, instances: seq<seq<Node>>) {
    && |parts| == |instances|
    && forall i | 0 <= i < |parts| :: parts[i].0 + parts[i].1 <= |b|
         && b[parts[i].0..parts[i].0 + parts[i].1] == Flat(instances[i])
  }

  lemma FoundStep(b: seq<Byte>, parts: seq<(nat, nat)>, all: seq<seq<Node>>, k: nat, at: nat, size: nat)
    requires k < |all| && FoundAt(b, parts, all[..k])
    requires at + size <= |b| && b[at..at + size] == Flat(all[k])
    ensures FoundAt(b, parts + [(at, size)], all[..k + 1])
  {
  }

  /** Counts the pieces; `parts` are where the calls of `DevicePathInstance` found them. */
  method DevicePathInstanceCount(b: seq<Byte>, at: nat, ghost ns: seq<Node>)
    returns (count: nat, ghost parts: seq<(nat, nat)>)
    requires Holds(b, at, ns)
    ensures count == |Pieces(ns)| && FoundAt(b, parts, Pieces(ns))
  {
    count, parts := 0, [];
    ghost var all := Pieces(ns);
    assert FoundAt(b, [], all[..0]);
    hide Holds, GoodPath, Flat, Pieces, PlainNodes, FoundAt;
    var devicePath := Some(at);
    ghost var rest := ns;
    while devicePath.Some?
      invariant count <= |all| && (devicePath.None? ==> count == |all|)
      invariant devicePath.Some? ==>
                  Holds(b, devicePath.value, rest) && all[count..] == Pieces(rest)
      invariant FoundAt(b, parts, all[..count])
      decreases if devicePath.Some? then 1 else 0, |rest|
    {
      var start := devicePath.value;
      var size;
      ghost var first;
      size, devicePath, first, rest := TakeInstance(b, start, rest);
      assert all[count] == first && all[count + 1..] == all[count..][1..];
      FoundStep(b, parts, all, count, start, size);
      parts := parts + [(start, size)];
      count := count + 1;
    }
    assert all[..count] == all;
  }

  // ---------- splitting and joining ----------

  /** The path with these instances. */
  ghost function Rejoin(instances: seq<seq<Node>>): seq<Node>
    requires instances != []
  {
    if |instances| == 1 then instances[0] + [END_DEVICE_PATH]
    else instances[0] + [END_INSTANCE_DEVICE_PATH] + Rejoin(instances[1..])
  }

  /** Every end node is one of the two constants that the library itself writes. */
  ghost predicate Canonical(ns: seq<Node>) {
    forall i | 0 <= i < |ns| && IsEndNode(ns[i]) ::
      ns[i] == END_DEVICE_PATH || ns[i] == END_INSTANCE_DEVICE_PATH
  }

  lemma FirstOf(x: seq<Node>, e: Node, y: seq<Node>)
    requires PlainNodes(x) && IsEndNode(e)
    ensures First(x + [e] + y) == |x|
  {
    var ns := x + [e] + y;
    assert ns[|x|] == e;
    assert forall i | 0 <= i < |x| :: ns[i] == x[i];
  }

  /** A path with a first instance `x` and more instances after it. */
  lemma InstancesCons(x: seq<Node>, e: Node, y: seq<Node>)
    requires PlainNodes(x) && GoodNode(e) && IsEndNode(e) && !IsEntireEnd(e) && GoodPath(y)
    ensures GoodPath(x + [e] + y) && Instances(x + [e] + y) == [x] + Instances(y)
  {
    var ns := x + [e] + y;
    FirstOf(x, e, y);
    assert forall i | 0 <= i < |x| :: ns[i] == x[i];
    assert ns[|x|] == e;
    assert forall i | |x| < i < |ns| :: ns[i] == y[i - |x| - 1];
    assert ns[|x| + 1..] == y && ns[..|x|] == x;
  }

  lemma InstancesLast(x: seq<Node>, e: Node)
    requires PlainNodes(x) && GoodNode(e) && IsEntireEnd(e)
    ensures GoodPath(x + [e]) && Instances(x + [e]) == [x]
  {
    var ns := x + [e];
    assert x + [e] + [] == ns;
    FirstOf(x, e, []);
    assert forall i | 0 <= i < |x| :: ns[i] == x[i];
    assert ns[|x|] == e;
    assert ns[..|x|] == x;
  }

  /** Every path has one of these two forms. */
  lemma PathForm(ns: seq<Node>) returns (x: seq<Node>, e: Node, y: seq<Node>)
    requires GoodPath(ns)
    ensures ns == x + [e] + y && PlainNodes(x) && GoodNode(e) && IsEndNode(e) && e in ns
    ensures |x| == First(ns)
    ensures if IsEntireEnd(e) then y == [] && Instances(ns) == [x]
            else GoodPath(y) && Instances(ns) == [x] + Instances(y) && |y| < |ns| && y == ns[First(ns) + 1..]
  {
    FirstInside(ns);
    var k := First(ns);
    x, e, y := ns[..k], ns[k], ns[k + 1..];
    assert GoodNode(e);
  }

  /** Splitting a path and joining the instances gives the path back, exactly when its end nodes are the
    * ones that the library writes. */
  lemma {:induction false} RejoinOfInstances(ns: seq<Node>)
    requires GoodPath(ns)
    ensures Rejoin(Instances(ns)) == ns <==> Canonical(ns)
    decreases |ns|
  {
    var x, e, y := PathForm(ns);
    CanonicalParts(x, e, y);
    hide GoodPath, Instances, Canonical, IsEntireEnd, IsEndNode, PlainNodes;
    if IsEntireEnd(e) {
      assert Canonical(y);
      SameParts(x, END_DEVICE_PATH, [], e, y);
      EntireEndIs(e);
    } else {
      RejoinOfInstances(y);
      assert ([x] + Instances(y))[1..] == Instances(y);
      SameParts(x, END_INSTANCE_DEVICE_PATH, Rejoin(Instances(y)), e, y);
      EntireEndIs(e);
    }
  }

  lemma EntireEndIs(e: Node)
    ensures e == END_DEVICE_PATH ==> IsEntireEnd(e)
    ensures e == END_INSTANCE_DEVICE_PATH ==> !IsEntireEnd(e)
  {
  }

  lemma CanonicalParts(x: seq<Node>, e: Node, y: seq<Node>)
    requires PlainNodes(x) && IsEndNode(e)
    ensures Canonical(x + [e] + y) <==> (e == END_DEVICE_PATH || e == END_INSTANCE_DEVICE_PATH) && Canonical(y)
    ensures y == [] ==> Canonical(y)
  {
    var ns := x + [e] + y;
    assert forall i | 0 <= i < |x| :: ns[i] == x[i];
    assert ns[|x|] == e;
    assert forall i | 0 <= i < |y| :: y[i] == ns[|x| + 1 + i];
  }

  lemma SameParts(x: seq<Node>, d: Node, z: seq<Node>, e: Node, y: seq<Node>)
    ensures x + [d] + z == x + [e] + y <==> d == e && z == y
    ensures z == [] ==> x + [d] + z == x + [d]
  {
    var a, b := x + [d] + z, x + [e] + y;
    if a == b {
      assert a[|x|] == d && b[|x|] == e;
      assert a[|x| + 1..] == z && b[|x| + 1..] == y;
    }
  }

  /** Joining plain instances and splitting the path gives the instances back. */
  lemma {:induction false} InstancesOfRejoin(instances: seq<seq<Node>>)
    requires instances != [] && forall i | 0 <= i < |instances| :: PlainNodes(instances[i])
    ensures GoodPath(Rejoin(instances)) && Instances(Rejoin(instances)) == instances
    decreases |instances|
  {
    hide GoodPath, Instances;
    if |instances| == 1 {
      InstancesLast(instances[0], END_DEVICE_PATH);
    } else {
      InstancesOfRejoin(instances[1..]);
      InstancesCons(instances[0], END_INSTANCE_DEVICE_PATH, Rejoin(instances[1..]));
    }
  }

  ghost function TotalSize(instances: seq<seq<Node>>): nat {
    if instances == [] then 0 else |Flat(instances[0])| + 4 + TotalSize(instances[1..])
  }

  /** A path is as long as its instances, with four bytes for the end of each. */
  lemma {:induction false} SizeOfInstances(ns: seq<Node>)
    requires GoodPath(ns)
    ensures |Flat(ns)| == TotalSize(Instances(ns))
    decreases |ns|
  {
    var x, e, y := PathForm(ns);
    hide GoodPath, Instances;
    FlatAppend(x + [e], y);
    FlatAppend(x, [e]);
    FlatOne(e);
    if !IsEntireEnd(e) {
      SizeOfInstances(y);
      assert ([x] + Instances(y))[1..] == Instances(y);
    } else {
      assert TotalSize([x]) == |Flat(x)| + 4 + TotalSize([]);
    }
  }
}
