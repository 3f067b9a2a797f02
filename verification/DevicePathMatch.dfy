/** Finding a device path among the instances of another (`LibMatchDevicePaths` of `dpath.c`). */
module DevicePathMatch {
  import opened Options
  import opened Words
  import opened DevicePath

  /** The two byte strings differ at a position that both have. */
  ghost predicate Differ(a: seq<Byte>, b: seq<Byte>) {
    exists j | 0 <= j < |a| && j < |b| :: a[j] != b[j]
  }

  ghost predicate Starts<T>(a: seq<T>, b: seq<T>) {
    a <= b
  }

  /** `CompareMem`, which stops at the first difference and so need not have `len` bytes to read. */
  method SameMem(a: seq<Byte>, b: seq<Byte>) returns (same: bool)
    requires Starts(a, b) || Differ(a, b)
    ensures same <==> Starts(a, b)
  {
    for i := 0 to |a|
      invariant i <= |b| && a[..i] == b[..i]
    {
      if i == |b| {
        assert false;
      }
      if a[i] != b[i] {
        return false;
      }
    }
    return true;
  }

  /** Different nodes differ in their headers or, these being equal, in bytes that both have. */
  lemma NodesDiffer(n: Node, m: Node)
    requires GoodNode(n) && GoodNode(m) && n != m
    ensures Differ(n.bytes, m.bytes)
  {
    if forall j | 0 <= j < 4 :: n.bytes[j] == m.bytes[j] {
      assert |n.bytes| == |m.bytes|;
      assert n.bytes != m.bytes;
      assert exists j | 0 <= j < |n.bytes| :: n.bytes[j] != m.bytes[j];
    } else {
      var j :| 0 <= j < 4 && n.bytes[j] != m.bytes[j];
    }
  }

  lemma DifferAfter(p: seq<Byte>, a: seq<Byte>, b: seq<Byte>)
    requires Differ(a, b)
    ensures Differ(p + a, p + b)
  {
    var j :| 0 <= j < |a| && j < |b| && a[j] != b[j];
    assert (p + a)[|p| + j] != (p + b)[|p| + j];
  }

  lemma DifferBefore(a: seq<Byte>, b: seq<Byte>, x: seq<Byte>, y: seq<Byte>)
    requires Differ(a, b)
    ensures Differ(a + x, b + y)
  {
    var j :| 0 <= j < |a| && j < |b| && a[j] != b[j];
    assert (a + x)[j] != (b + y)[j];
  }

  lemma DifferNotPrefix(a: seq<Byte>, b: seq<Byte>)
    requires Differ(a, b)
    ensures !(a <= b)
  {
  }

  /** The nodes of an instance either start the path or differ from it within both. */
  lemma {:induction false} PrefixOrDiffer(x: seq<Node>, ms: seq<Node>)
    requires PlainNodes(x) && GoodPath(ms)
    ensures if x <= ms then Flat(x) <= Flat(ms) else Differ(Flat(x), Flat(ms))
  {
    if x <= ms {
      assert ms == x + ms[|x|..];
      FlatAppend(x, ms[|x|..]);
    } else {
      var n, m := x[0], ms[0];
      assert GoodNode(n) && GoodNode(m);
      if n == m {
        assert |ms| > 1;
        assert !(x[1..] <= ms[1..]) by {
          assert x == [n] + x[1..] && ms == [m] + ms[1..];
        }
        PrefixOrDiffer(x[1..], ms[1..]);
        DifferAfter(n.bytes, Flat(x[1..]), Flat(ms[1..]));
      } else {
        NodesDiffer(n, m);
        DifferBefore(n.bytes, m.bytes, Flat(x[1..]), Flat(ms[1..]));
      }
    }
  }

  lemma Comparable(x: seq<Node>, single: seq<Byte>, ms: seq<Node>)
    requires PlainNodes(x) && Holds(single, 0, ms)
    ensures Starts(x, ms) <==> Starts(Flat(x), single)
    ensures Starts(Flat(x), single) || Differ(Flat(x), single)
  {
    PrefixOrDiffer(x, ms);
    var rest := single[|Flat(ms)|..];
    assert single[0..] == single;
    assert single == Flat(ms) + rest;
    if !(x <= ms) {
      DifferBefore(Flat(x), Flat(ms), [], rest);
      assert Flat(x) + [] == Flat(x);
      DifferNotPrefix(Flat(x), single);
    }
  }

  ghost predicate SomeLeads(instances: seq<seq<Node>>, ms: seq<Node>) {
    exists x <- instances :: Starts(x, ms)
  }

  lemma SomeLeadsIs(instances: seq<seq<Node>>, ms: seq<Node>)
    ensures SomeLeads(instances, ms) <==> exists i | 0 <= i < |instances| :: instances[i] <= ms
  {
    if i :| 0 <= i < |instances| && instances[i] <= ms {
      assert instances[i] in instances;
    }
  }

  lemma SomeLeadsCons(x: seq<Node>, rest: seq<seq<Node>>, ms: seq<Node>)
    ensures SomeLeads([x] + rest, ms) <==> Starts(x, ms) || SomeLeads(rest, ms)
  {
    assert forall y <- [x] + rest :: y == x || y in rest;
    assert x in [x] + rest && forall y <- rest :: y in [x] + rest;
  }

  lemma SomeLeadsOne(x: seq<Node>, ms: seq<Node>)
    ensures SomeLeads([x], ms) <==> Starts(x, ms)
  {
    assert x in [x];
  }

  /** True exactly when the nodes of some piece of `multi` are the first nodes of `single`; in
    * particular, a piece without nodes matches every path. */
  method LibMatchDevicePaths(multi: Option<seq<Byte>>, single: Option<seq<Byte>>,
                             ghost ns: seq<Node>, ghost ms: seq<Node>)
    returns (found: bool)
    requires multi.Some? ==> Holds(multi.value, 0, ns)
    requires single.Some? ==> Holds(single.value, 0, ms)
    ensures found <==> multi.Some? && single.Some? && exists i | 0 <= i < |Pieces(ns)| :: Pieces(ns)[i] <= ms
  {
    if multi.None? || single.None? {
      return false;
    }
    SomeLeadsIs(Pieces(ns), ms);
    hide Holds, GoodPath, Flat, Pieces, First, PlainNodes, Differ, SomeLeads, Starts;
    var devicePath := Some(0);
    ghost var rest := ns;
    while devicePath.Some?
      invariant devicePath.Some? ==>
                  && Holds(multi.value, devicePath.value, rest)
                  && (SomeLeads(Pieces(rest), ms) <==> SomeLeads(Pieces(ns), ms))
      invariant devicePath.None? ==> !SomeLeads(Pieces(ns), ms)
      decreases if devicePath.Some? then 1 else 0, |rest|
    {
      var at := devicePath.value;
      var size;
      ghost var first;
      size, devicePath, first, rest := TakeInstance(multi.value, at, rest);
      Comparable(first, single.value, ms);
      SomeLeadsOne(first, ms);
      SomeLeadsCons(first, Pieces(rest), ms);
      var same := SameMem(multi.value[at..at + size], single.value);
      if same {
        return true;
      }
    }
    return false;
  }
}
