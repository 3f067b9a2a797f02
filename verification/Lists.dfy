/** The circular doubly linked lists of `efilink.h`, and their conversion to virtual addresses
  * (`runtime/vm.c`). */
module Lists {

  class ListEntry {
    var Flink: ListEntry?
    var Blink: ListEntry?

    constructor ()
      ensures Flink == null && Blink == null
    {
      Flink, Blink := null, null;
    }
  }

  /** The position after `i` on a ring of `n`. */
  function After(i: nat, n: nat): nat {
    if i + 1 == n then 0 else i + 1
  }

  function Before(i: nat, n: nat): int {
    if i == 0 then n - 1 else i - 1
  }

  ghost predicate Apart<T>(s: seq<T>) {
    forall i, j | 0 <= i < j < |s| :: s[i] != s[j]
  }

  /** The entries form a ring in this order. A list is the ring that starts with its head. */
  ghost predicate Ring(s: seq<ListEntry>)
    reads s
  {
    && s != []
    && Apart(s)
    && forall i | 0 <= i < |s| :: s[i].Flink == s[After(i, |s|)] && s[i].Blink == s[Before(i, |s|)]
  }

  method InitializeListHead(head: ListEntry)
    modifies head
    ensures Ring([head])
  {
    head.Flink := head;
    head.Blink := head;
  }

  method IsListEmpty(head: ListEntry, ghost s: seq<ListEntry>) returns (empty: bool)
    requires Ring(s) && s[0] == head
    ensures empty <==> s == [head]
  {
    empty := head.Flink == head;
  }

  function Without<T>(s: seq<T>, k: nat): seq<T>
    requires k < |s|
  {
    s[..k] + s[k + 1..]
  }

  /** Where the entries of `Without(s, k)` and their neighbours come from. */
  lemma WithoutNeighbours<T>(s: seq<T>, k: nat, i: nat)
    requires k < |s| && i < |s| - 1
    ensures var t, n := Without(s, k), |s|;
            var m := if i < k then i else i + 1;
            && m != k && t[i] == s[m]
            && t[After(i, n - 1)] == s[if After(m, n) == k then After(k, n) else After(m, n)]
            && t[Before(i, n - 1)] == s[if Before(m, n) == k then Before(k, n) else Before(m, n)]
            && (After(m, n) == k <==> m == Before(k, n)) && (Before(m, n) == k <==> m == After(k, n))
  {
  }

  lemma SameIndex<T>(s: seq<T>, i: nat, j: nat)
    requires Apart(s) && i < |s| && j < |s|
    ensures s[i] == s[j] <==> i == j
  {
  }

  /** The two links that skip entry `k` close the ring without it. */
  lemma Closed(s: seq<ListEntry>, k: nat)
    requires Apart(s) && k < |s| && |s| > 1
    requires forall m | 0 <= m < |s| && m != k ::
               && s[m].Flink == s[if m == Before(k, |s|) then After(k, |s|) else After(m, |s|)]
               && s[m].Blink == s[if m == After(k, |s|) then Before(k, |s|) else Before(m, |s|)]
    ensures Ring(Without(s, k))
  {
    hide Without, Apart;
    var t := Without(s, k);
    WithoutLength(s, k);
    WithoutApart(s, k);
    forall i | 0 <= i < |t|
      ensures t[i].Flink == t[After(i, |t|)] && t[i].Blink == t[Before(i, |t|)]
    {
      WithoutNeighbours(s, k, i);
    }
  }

  lemma WithoutLength<T>(s: seq<T>, k: nat)
    requires k < |s|
    ensures |Without(s, k)| == |s| - 1
  {
  }

  lemma WithoutApart<T>(s: seq<T>, k: nat)
    requires Apart(s) && k < |s|
    ensures Apart(Without(s, k))
  {
    var t := Without(s, k);
    assert forall m | 0 <= m < |t| :: t[m] == s[if m < k then m else m + 1];
  }

  /** The removed entry keeps its own links; the last entry of a ring cannot leave it. */
  method RemoveEntryList(entry: ListEntry, ghost s: seq<ListEntry>, ghost k: nat)
    requires Ring(s) && k < |s| && s[k] == entry
    modifies entry.Flink, entry.Blink
    ensures |s| > 1 ==> Ring(Without(s, k)) && entry.Flink == old(entry.Flink) && entry.Blink == old(entry.Blink)
    ensures |s| == 1 ==> Ring(s)
  {
    ghost var n := |s|;
    ghost var f, b := After(k, n), Before(k, n);
    assert entry.Flink == s[f] && entry.Blink == s[b];
    var flink, blink := entry.Flink, entry.Blink;
    blink.Flink := flink;
    flink.Blink := blink;
    hide Apart;
    forall m | 0 <= m < n
      ensures s[m].Flink == s[if m == b then f else After(m, n)]
      ensures s[m].Blink == s[if m == f then b else Before(m, n)]
    {
      SameIndex(s, m, b);
      SameIndex(s, m, f);
    }
    if n > 1 {
      SameIndex(s, k, f);
      SameIndex(s, k, b);
      Closed(s, k);
    }
  }

  function With<T>(s: seq<T>, i: nat, e: T): seq<T>
    requires i <= |s|
  {
    s[..i] + [e] + s[i..]
  }

  lemma WithNeighbours<T>(t: seq<T>, k: nat, e: T, i: nat)
    requires k < |t| && i <= |t|
    ensures var r, n := With(t, k + 1, e), |t|;
      if i == k + 1 then r[i] == e && r[After(i, n + 1)] == t[After(k, n)] && r[Before(i, n + 1)] == t[k]
      else
        var m := if i <= k then i else i - 1;
        && r[i] == t[m]
        && r[After(i, n + 1)] == (if m == k then e else t[After(m, n)])
        && r[Before(i, n + 1)] == (if m == After(k, n) then e else t[Before(m, n)])
  {
  }

  lemma WithLength<T>(t: seq<T>, i: nat, e: T)
    requires i <= |t|
    ensures |With(t, i, e)| == |t| + 1
  {
  }

  lemma WithApart<T>(t: seq<T>, i: nat, e: T)
    requires Apart(t) && i <= |t| && e !in t
    ensures Apart(With(t, i, e))
  {
    var r := With(t, i, e);
    assert forall m | 0 <= m < |r| :: r[m] == if m < i then t[m] else if m == i then e else t[m - 1];
  }

  /** The links around a new entry open the ring for it, after entry `k`. */
  lemma OpenedAfter(t: seq<ListEntry>, k: nat, e: ListEntry)
    requires Apart(t) && k < |t| && e !in t
    requires forall m | 0 <= m < |t| ::
               && t[m].Flink == (if m == k then e else t[After(m, |t|)])
               && t[m].Blink == (if m == After(k, |t|) then e else t[Before(m, |t|)])
    requires e.Flink == t[After(k, |t|)] && e.Blink == t[k]
    ensures Ring(With(t, k + 1, e))
  {
    hide With, Apart;
    var r := With(t, k + 1, e);
    assert |r| == |t| + 1 by { WithLength(t, k + 1, e); }
    forall i | 0 <= i < |r|
      ensures r[i].Flink == r[After(i, |r|)] && r[i].Blink == r[Before(i, |r|)]
    {
      WithNeighbours(t, k, e, i);
    }
    WithApart(t, k + 1, e);
  }

  method InsertTailList(head: ListEntry, entry: ListEntry, ghost s: seq<ListEntry>)
    requires Ring(s) && s[0] == head && entry !in s
    modifies head, head.Blink, entry
    ensures Ring(s + [entry])
    ensures entry.Flink == head && head.Blink == entry
  {
    ghost var n := |s|;
    ghost var last := n - 1;
    assert Before(0, n) == last && head.Blink == s[last];
    var blink := head.Blink;
    entry.Flink := head;
    entry.Blink := blink;
    blink.Flink := entry;
    head.Blink := entry;
    hide Apart;
    forall m | 0 <= m < n
      ensures s[m].Flink == (if m == last then entry else s[After(m, n)])
    {
      SameIndex(s, m, last);
    }
    forall m | 0 <= m < n
      ensures s[m].Blink == (if m == 0 then entry else s[Before(m, n)])
    {
      SameIndex(s, m, 0);
    }
    hide Ring;
    OpenedAfter(s, last, entry);
    assert With(s, n, entry) == s + [entry];
  }

  method InsertHeadList(head: ListEntry, entry: ListEntry, ghost s: seq<ListEntry>)
    requires Ring(s) && s[0] == head && entry !in s
    modifies head, head.Flink, entry
    ensures Ring([head, entry] + s[1..])
    ensures head.Flink == entry && entry.Blink == head
  {
    ghost var n := |s|;
    assert head.Flink == s[After(0, n)];
    var flink := head.Flink;
    entry.Flink := flink;
    entry.Blink := head;
    flink.Blink := entry;
    head.Flink := entry;
    hide Apart;
    forall m | 0 <= m < n
      ensures s[m].Flink == (if m == 0 then entry else s[After(m, n)])
      ensures s[m].Blink == (if m == After(0, n) then entry else s[Before(m, n)])
    {
      SameIndex(s, m, 0);
      SameIndex(s, m, After(0, n));
    }
    hide Ring;
    OpenedAfter(s, 0, entry);
    assert With(s, 1, entry) == [head, entry] + s[1..];
  }

  /** The ring with entry `j` moved to directly before entry `i`. */
  function MoveBefore<T>(s: seq<T>, i: nat, j: nat): seq<T>
    requires i < |s| && j < |s| && i != j
  {
    if j < i then s[..j] + s[j + 1..i] + [s[j]] + s[i..]
    else s[..i] + [s[j]] + s[i..j] + s[j + 1..]
  }

  lemma MoveIsWithoutWith<T>(s: seq<T>, i: nat, j: nat)
    requires i < |s| && j < |s| && i != j && Apart(s)
    ensures var k := if i < j then i else i - 1;
            && k < |Without(s, j)| && Without(s, j)[k] == s[i] && s[j] !in Without(s, j)
            && MoveBefore(s, i, j) == With(Without(s, j), k, s[j])
  {
    hide Apart;
    WithoutLacks(s, j);
    MoveParts(s, i, j);
  }

  lemma MoveParts<T>(s: seq<T>, i: nat, j: nat)
    requires i < |s| && j < |s| && i != j
    ensures var t, k := Without(s, j), if i < j then i else i - 1;
            k < |t| && t[k] == s[i] && MoveBefore(s, i, j) == With(t, k, s[j])
  {
  }

  lemma WithoutLacks<T>(s: seq<T>, j: nat)
    requires Apart(s) && j < |s|
    ensures s[j] !in Without(s, j)
  {
    var t := Without(s, j);
    assert forall m | 0 <= m < |t| :: t[m] == s[if m < j then m else m + 1];
  }

  /** The links around a new entry open the ring for it. */
  lemma Opened(t: seq<ListEntry>, k: nat, e: ListEntry)
    requires Apart(t) && k < |t| && e !in t
    requires forall m | 0 <= m < |t| ::
               && t[m].Flink == (if m == Before(k, |t|) then e else t[After(m, |t|)])
               && t[m].Blink == (if m == k then e else t[Before(m, |t|)])
    requires e.Flink == t[k] && e.Blink == t[Before(k, |t|)]
    ensures Ring(With(t, k, e))
  {
    var r := With(t, k, e);
    forall i | 0 <= i < |r|
      ensures r[i].Flink == r[After(i, |r|)] && r[i].Blink == r[Before(i, |r|)]
    {
      if i != k {
        var m := if i < k then i else i - 1;
        assert r[i] == t[m];
      }
    }
    WithApart(t, k, e);
  }

  /** Links `entry` in directly before `t[k]`; `blink` is what the caller took for its predecessor. */
  method LinkBefore(entry: ListEntry, blink: ListEntry, ghost t: seq<ListEntry>, ghost k: nat, at: ListEntry)
    requires Ring(t) && k < |t| && t[k] == at && entry !in t && (blink == at.Blink || blink == entry)
    modifies at, blink, entry
    ensures blink == old(at.Blink) ==> Ring(With(t, k, entry))
    ensures at.Blink == entry && entry.Flink == if blink == entry then entry else at
  {
    entry.Flink := at;
    entry.Blink := blink;
    blink.Flink := entry;
    at.Blink := entry;
    hide Apart;
    if blink != entry {
      ghost var n := |t|;
      forall m | 0 <= m < n
        ensures t[m].Flink == (if m == Before(k, n) then entry else t[After(m, n)])
        ensures t[m].Blink == (if m == k then entry else t[Before(m, n)])
      {
        SameIndex(t, m, k);
        SameIndex(t, m, Before(k, n));
      }
      hide Ring;
      Opened(t, k, entry);
    }
  }

  lemma BeforeAfter(i: nat, j: nat, n: nat)
    requires i < n && j < n
    ensures After(j, n) == i <==> Before(i, n) == j
  {
  }

  lemma OffRing(r: seq<ListEntry>, e1: ListEntry, e2: ListEntry)
    requires e1 in r && e1 != e2 && e1.Blink == e2 && e2.Flink == e2
    ensures !Ring(r)
  {
    if Ring(r) {
      var x :| 0 <= x < |r| && r[x] == e1;
      BeforeAfter(x, Before(x, |r|), |r|);
    }
  }

  lemma OffAllRings(e1: ListEntry, e2: ListEntry)
    requires e1 != e2 && e1.Blink == e2 && e2.Flink == e2
    ensures forall r: seq<ListEntry> :: e1 in r ==> !Ring(r)
  {
    forall r: seq<ListEntry> | e1 in r
      ensures !Ring(r)
    {
      OffRing(r, e1, e2);
    }
  }

  /** Despite its name, the macro moves `entry2` to directly before `entry1`. It does so exactly when
    * `entry2` is not there already; when it is, `entry1` is on no ring any more. */
  method SwapListEntries(entry1: ListEntry, entry2: ListEntry, ghost s: seq<ListEntry>, ghost i: nat, ghost j: nat)
    requires Ring(s) && i < |s| && j < |s| && i != j && s[i] == entry1 && s[j] == entry2
    modifies s
    ensures old(entry2.Flink) != entry1 ==> Ring(MoveBefore(s, i, j))
    ensures old(entry2.Flink) != entry1 ==> entry2.Flink == entry1 && entry1.Blink == entry2
    ensures old(entry2.Flink) == entry1 ==> forall r: seq<ListEntry> :: entry1 in r ==> !Ring(r)
  {
    assert entry1.Blink == s[Before(i, |s|)] && entry2.Flink == s[After(j, |s|)];
    var entry1Blink := entry1.Blink;
    MoveIsWithoutWith(s, i, j);
    ghost var t, k := Without(s, j), if i < j then i else i - 1;
    BeforeAfter(i, j, |s|);
    WithoutNeighbours(s, j, k);
    SameIndex(s, i, After(j, |s|));
    RemoveEntryList(entry2, s, j);
    LinkBefore(entry2, entry1Blink, t, k, entry1);
    if old(entry2.Flink) == entry1 {
      OffAllRings(entry1, entry2);
    }
  }

  /** For instance, on a ring of two entries each is already before the other. */
  method SwapTwo() returns (first: ListEntry, second: ListEntry)
    ensures forall r: seq<ListEntry> :: first in r ==> !Ring(r)
  {
    first := new ListEntry();
    second := new ListEntry();
    InitializeListHead(first);
    assert first.Blink == [first][Before(0, 1)] == first;
    InsertTailList(first, second, [first]);
    ghost var s := [first, second];
    assert [first] + [second] == s;
    assert second.Flink == s[After(1, 2)] == first;
    SwapListEntries(first, second, s, 0, 1);
  }

  // ---------- conversion to virtual addresses ----------

  /** The runtime service: `virt` says where the storage of each entry appears in the virtual map.
    * An address that is not in the map is left as it is, and so is NULL. */
  function Convert(p: ListEntry?, virt: map<ListEntry, ListEntry>): ListEntry? {
    if p != null && p in virt then virt[p] else p
  }

  /** Every link, in both directions, is replaced by its converted value, once; no other entry is
    * touched. The loop follows the old links, which it saves before converting them. */
  method RtConvertList(head: ListEntry, virt: map<ListEntry, ListEntry>, ghost s: seq<ListEntry>)
    requires Ring(s) && s[0] == head
    modifies s
    ensures forall i | 0 <= i < |s| ::
              var next := s[After(i, |s|)]; s[i].Flink == if next in virt then virt[next] else next
    ensures forall i | 0 <= i < |s| ::
              var last := s[Before(i, |s|)]; s[i].Blink == if last in virt then virt[last] else last
  {
    var link := head;
    ghost var n := 0;
    while true
      invariant 0 <= n < |s| && link == s[n]
      invariant forall i | 0 <= i < n :: s[i].Flink == Convert(s[After(i, |s|)], virt)
      invariant forall i | 0 <= i < n :: s[i].Blink == Convert(s[Before(i, |s|)], virt)
      invariant forall i | n <= i < |s| :: s[i].Flink == s[After(i, |s|)] && s[i].Blink == s[Before(i, |s|)]
      decreases |s| - n
    {
      hide Apart;
      var nextLink := link.Flink;
      forall i | 0 <= i < |s|
        ensures s[i] == link <==> i == n
        ensures s[i] == head <==> i == 0
      {
        SameIndex(s, i, n);
        SameIndex(s, i, 0);
      }
      link.Flink := Convert(link.Flink, virt);
      link.Blink := Convert(link.Blink, virt);
      link := nextLink;
      if link == head {
        break;
      }
      n := n + 1;
    }
  }
}
