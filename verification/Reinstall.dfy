/** Reinstalling several protocols at once (`hand.c`): changes, and what undoing them in the same order
  * comes to. */
module Reinstall {
  import opened Handles

  datatype Change = Change(protocol: nat, before: nat, after: nat)

  ghost predicate CanChange(ps: Protocols, c: Change) {
    c.protocol in ps && ps[c.protocol] == c.before
  }

  /** All the changes, one after the other, on the protocols of one handle. */
  ghost predicate Applies(ps: Protocols, cs: seq<Change>)
    decreases |cs|
  {
    cs == [] || (CanChange(ps, cs[0]) && Applies(Replaced(ps, cs[0].protocol, cs[0].after), cs[1..]))
  }

  function Changed(ps: Protocols, cs: seq<Change>): Protocols
    decreases |cs|
  {
    if cs == [] then ps else Changed(Replaced(ps, cs[0].protocol, cs[0].after), cs[1..])
  }

  /** Undoing the changes in the order in which they were made; one that does not apply is skipped. */
  function Undone(ps: Protocols, cs: seq<Change>): Protocols
    decreases |cs|
  {
    if cs == [] then ps else Undone(UndoneOne(ps, cs[0]), cs[1..])
  }

  function UndoneOne(ps: Protocols, c: Change): Protocols {
    if c.protocol in ps && ps[c.protocol] == c.after then Replaced(ps, c.protocol, c.before) else ps
  }

  ghost predicate DistinctChanges(cs: seq<Change>) {
    forall i, j | 0 <= i < j < |cs| :: cs[i].protocol != cs[j].protocol
  }

  /** No change goes back to an interface that it or an earlier change replaced. */
  ghost predicate NoReturn(cs: seq<Change>)
    decreases |cs|
  {
    cs == [] || ((forall c <- cs :: c.protocol == cs[0].protocol ==> c.after != cs[0].before) && NoReturn(cs[1..]))
  }

  lemma {:induction false} ChangedOther(ps: Protocols, cs: seq<Change>, p: nat)
    requires forall i | 0 <= i < |cs| :: cs[i].protocol != p
    ensures p in Changed(ps, cs) <==> p in ps
    ensures p in ps ==> Changed(ps, cs)[p] == ps[p]
    ensures p in Undone(ps, cs) <==> p in ps
    ensures p in ps ==> Undone(ps, cs)[p] == ps[p]
    decreases |cs|
  {
    if cs != [] {
      var c := cs[0];
      ChangedOther(Replaced(ps, c.protocol, c.after), cs[1..], p);
      ChangedOther(UndoneOne(ps, c), cs[1..], p);
    }
  }

  lemma {:induction false} ChangedKeys(ps: Protocols, cs: seq<Change>)
    requires Applies(ps, cs)
    ensures Changed(ps, cs).Keys == ps.Keys
    decreases |cs|
  {
    if cs != [] {
      var next := Replaced(ps, cs[0].protocol, cs[0].after);
      assert next.Keys == ps.Keys;
      ChangedKeys(next, cs[1..]);
    }
  }

  lemma {:induction false} UndoneKeys(ps: Protocols, cs: seq<Change>)
    ensures Undone(ps, cs).Keys == ps.Keys
    decreases |cs|
  {
    if cs != [] {
      var c := cs[0];
      var next := UndoneOne(ps, c);
      assert next.Keys == ps.Keys;
      UndoneKeys(next, cs[1..]);
    }
  }

  /** With distinct protocols, undoing restores every interface. */
  lemma {:induction false} UndoneDistinct(ps: Protocols, cs: seq<Change>)
    requires Applies(ps, cs) && DistinctChanges(cs)
    ensures Undone(Changed(ps, cs), cs) == ps
    decreases |cs|
  {
    if cs != [] {
      var c, rest := cs[0], cs[1..];
      var next := Replaced(ps, c.protocol, c.after);
      assert forall i | 0 <= i < |rest| :: rest[i].protocol == cs[i + 1].protocol != c.protocol;
      UndoneDistinct(next, rest);
      ChangedOther(next, rest, c.protocol);
      var done := Changed(ps, cs);
      assert Replaced(done, c.protocol, c.before) == Changed(ps, rest) by {
        ChangedCommutes(ps, rest, c);
      }
      AppliesOther(ps, rest, c);
      UndoneDistinct(ps, rest);
    }
  }

  /** A change of another protocol may be taken out from before the others. */
  lemma {:induction false} ChangedCommutes(ps: Protocols, cs: seq<Change>, c: Change)
    requires CanChange(ps, c) && forall i | 0 <= i < |cs| :: cs[i].protocol != c.protocol
    ensures Replaced(Changed(Replaced(ps, c.protocol, c.after), cs), c.protocol, c.before) == Changed(ps, cs)
    decreases |cs|
  {
    if cs == [] {
      assert Replaced(Replaced(ps, c.protocol, c.after), c.protocol, c.before) == ps;
    } else {
      var d := cs[0];
      var next := Replaced(ps, d.protocol, d.after);
      assert Replaced(Replaced(ps, c.protocol, c.after), d.protocol, d.after) == Replaced(next, c.protocol, c.after);
      ChangedCommutes(next, cs[1..], c);
    }
  }

  lemma {:induction false} AppliesOther(ps: Protocols, cs: seq<Change>, c: Change)
    requires CanChange(ps, c) && forall i | 0 <= i < |cs| :: cs[i].protocol != c.protocol
    requires Applies(Replaced(ps, c.protocol, c.after), cs)
    ensures Applies(ps, cs)
    decreases |cs|
  {
    if cs != [] {
      var d := cs[0];
      assert Replaced(Replaced(ps, c.protocol, c.after), d.protocol, d.after)
          == Replaced(Replaced(ps, d.protocol, d.after), c.protocol, c.after);
      AppliesOther(Replaced(ps, d.protocol, d.after), cs[1..], c);
    }
  }

  // ---------- what happens to one protocol ----------

  function Of(cs: seq<Change>, p: nat): seq<Change>
    decreases |cs|
  {
    if cs == [] then [] else if cs[0].protocol == p then [cs[0]] + Of(cs[1..], p) else Of(cs[1..], p)
  }

  ghost predicate Chain(v: nat, cs: seq<Change>)
    decreases |cs|
  {
    cs == [] || (cs[0].before == v && Chain(cs[0].after, cs[1..]))
  }

  function UndoneValue(v: nat, cs: seq<Change>): nat
    decreases |cs|
  {
    if cs == [] then v else UndoneValue(if v == cs[0].after then cs[0].before else v, cs[1..])
  }

  lemma {:induction false} ChainOf(ps: Protocols, cs: seq<Change>, p: nat)
    requires Applies(ps, cs) && p in ps
    ensures Chain(ps[p], Of(cs, p)) && p in Changed(ps, cs)
    ensures Changed(ps, cs)[p] == if Of(cs, p) == [] then ps[p] else Of(cs, p)[|Of(cs, p)| - 1].after
    decreases |cs|
  {
    if cs != [] {
      ChainOf(Replaced(ps, cs[0].protocol, cs[0].after), cs[1..], p);
      if cs[0].protocol == p {
        assert Of(cs, p)[1..] == Of(cs[1..], p);
      }
    }
  }

  lemma {:induction false} UndoneOf(ps: Protocols, cs: seq<Change>, p: nat)
    requires p in ps
    ensures p in Undone(ps, cs) && Undone(ps, cs)[p] == UndoneValue(ps[p], Of(cs, p))
    decreases |cs|
  {
    if cs != [] {
      var c := cs[0];
      UndoneOf(UndoneOne(ps, c), cs[1..], p);
      if c.protocol == p {
        assert Of(cs, p)[1..] == Of(cs[1..], p);
      }
    }
  }

  lemma {:induction false} NoReturnOf(cs: seq<Change>, p: nat)
    requires NoReturn(cs)
    ensures NoReturn(Of(cs, p)) && forall c <- Of(cs, p) :: c in cs && c.protocol == p
    decreases |cs|
  {
    if cs != [] {
      NoReturnOf(cs[1..], p);
      assert forall c <- cs[1..] :: c in cs;
      if cs[0].protocol == p {
        assert Of(cs, p)[1..] == Of(cs[1..], p);
      }
    }
  }

  /** On a chain without returns, only the last change is undone. */
  lemma {:induction false} ChainUndone(v: nat, cs: seq<Change>)
    requires cs != [] && Chain(v, cs) && NoReturn(cs) && forall c <- cs :: c.protocol == cs[0].protocol
    ensures var last := cs[|cs| - 1];
            UndoneValue(last.after, cs) == last.before && (|cs| > 1 ==> last.before != v)
    decreases |cs|
  {
    var last := cs[|cs| - 1];
    if |cs| > 1 {
      var rest := cs[1..];
      assert rest[|rest| - 1] == last && last in cs && last in rest;
      ChainUndone(cs[0].after, rest);
      assert rest[0] in rest && last.after != rest[0].before == cs[0].after;
      ChainBefore(cs[0].after, rest, cs);
    }
  }

  /** What the last change replaced is what a change before it put there. */
  lemma {:induction false} ChainBefore(v: nat, rest: seq<Change>, cs: seq<Change>)
    requires rest != [] && Chain(v, rest) && cs != [] && v != cs[0].before
    requires forall c <- rest :: c in cs
    requires forall c <- cs :: c.after != cs[0].before
    ensures rest[|rest| - 1].before != cs[0].before
    decreases |rest|
  {
    if |rest| > 1 {
      assert rest[0] in rest;
      assert forall c <- rest[1..] :: c in rest;
      ChainBefore(rest[0].after, rest[1..], cs);
    }
  }

  lemma {:induction false} OfTwo(cs: seq<Change>, i: nat, j: nat)
    requires i < j < |cs| && cs[i].protocol == cs[j].protocol
    ensures |Of(cs, cs[i].protocol)| > 1
    decreases |cs|
  {
    if i > 0 {
      OfTwo(cs[1..], i - 1, j - 1);
    } else {
      OfOne(cs[1..], j - 1);
    }
  }

  lemma {:induction false} OfOne(cs: seq<Change>, j: nat)
    requires j < |cs|
    ensures Of(cs, cs[j].protocol) != []
    decreases |cs|
  {
    if j > 0 {
      OfOne(cs[1..], j - 1);
    }
  }

  lemma {:induction false} AppliesKeys(ps: Protocols, cs: seq<Change>, i: nat)
    requires Applies(ps, cs) && i < |cs|
    ensures cs[i].protocol in ps
    decreases |cs|
  {
    if i > 0 {
      var next := Replaced(ps, cs[0].protocol, cs[0].after);
      assert next.Keys == ps.Keys;
      AppliesKeys(next, cs[1..], i - 1);
    }
  }

  /** Undoing the changes of one protocol, one after the other, brings its first interface back. */
  ghost predicate Restored(own: seq<Change>) {
    own == [] || UndoneValue(own[|own| - 1].after, own) == own[0].before
  }

  ghost predicate Restores(cs: seq<Change>) {
    forall c <- cs :: Restored(Of(cs, c.protocol))
  }

  /** The changes of one protocol lead back to its first interface by themselves. */
  ghost predicate Returns(own: seq<Change>) {
    own == [] || own[|own| - 1].after == own[0].before
  }

  ghost predicate Unchanging(cs: seq<Change>) {
    forall c <- cs :: Returns(Of(cs, c.protocol))
  }

  lemma OneProtocol(ps: Protocols, cs: seq<Change>, p: nat)
    requires Applies(ps, cs) && p in ps
    ensures p in Changed(ps, cs) && p in Undone(Changed(ps, cs), cs)
    ensures Undone(Changed(ps, cs), cs)[p] == ps[p] <==> Restored(Of(cs, p))
    ensures Changed(ps, cs)[p] == ps[p] <==> Returns(Of(cs, p))
  {
    ChainOf(ps, cs, p);
    UndoneOf(Changed(ps, cs), cs, p);
  }

  lemma {:induction false} OfListed(cs: seq<Change>, p: nat)
    ensures Of(cs, p) == [] || exists c <- cs :: c.protocol == p
    decreases |cs|
  {
    if cs != [] {
      OfListed(cs[1..], p);
      assert cs[0] in cs && forall c <- cs[1..] :: c in cs;
    }
  }

  /** Undoing the changes in the order in which they were made restores the protocols exactly when it
    * does so for the changes of each protocol, which can be seen from the list alone. */
  lemma RollbackIffRestores(ps: Protocols, cs: seq<Change>)
    requires Applies(ps, cs)
    ensures Undone(Changed(ps, cs), cs) == ps <==> Restores(cs)
  {
    ChangedKeys(ps, cs);
    UndoneKeys(Changed(ps, cs), cs);
    hide Applies, Changed, Undone, Of;
    if Restores(cs) {
      forall p <- ps
        ensures Undone(Changed(ps, cs), cs)[p] == ps[p]
      {
        OneProtocol(ps, cs, p);
        OfListed(cs, p);
      }
    }
    if Undone(Changed(ps, cs), cs) == ps {
      forall c <- cs
        ensures Restored(Of(cs, c.protocol))
      {
        ProtocolListed(ps, cs, c);
        OneProtocol(ps, cs, c.protocol);
      }
    }
  }

  lemma ProtocolListed(ps: Protocols, cs: seq<Change>, c: Change)
    requires Applies(ps, cs) && c in cs
    ensures c.protocol in ps
  {
    var i :| 0 <= i < |cs| && cs[i] == c;
    AppliesKeys(ps, cs, i);
  }

  /** The changes come to nothing exactly when those of each protocol do. */
  lemma ChangedIffUnchanging(ps: Protocols, cs: seq<Change>)
    requires Applies(ps, cs)
    ensures Changed(ps, cs) == ps <==> Unchanging(cs)
  {
    ChangedKeys(ps, cs);
    hide Applies, Changed, Undone, Of;
    if Unchanging(cs) {
      forall p <- ps
        ensures Changed(ps, cs)[p] == ps[p]
      {
        OneProtocol(ps, cs, p);
        OfListed(cs, p);
      }
    }
    if Changed(ps, cs) == ps {
      forall c <- cs
        ensures Returns(Of(cs, c.protocol))
      {
        ProtocolListed(ps, cs, c);
        OneProtocol(ps, cs, c.protocol);
      }
    }
  }

  /** When no change goes back to an interface replaced before, this means that the protocols are
    * distinct. */
  lemma RollbackIffDistinct(ps: Protocols, cs: seq<Change>)
    requires Applies(ps, cs) && NoReturn(cs)
    ensures Undone(Changed(ps, cs), cs) == ps <==> DistinctChanges(cs)
  {
    if DistinctChanges(cs) {
      UndoneDistinct(ps, cs);
    } else {
      var i, j :| 0 <= i < j < |cs| && cs[i].protocol == cs[j].protocol;
      var p := cs[i].protocol;
      AppliesKeys(ps, cs, i);
      OfTwo(cs, i, j);
      ChainOf(ps, cs, p);
      UndoneOf(Changed(ps, cs), cs, p);
      NoReturnOf(cs, p);
      assert Of(cs, p)[0] in Of(cs, p);
      ChainUndone(ps[p], Of(cs, p));
    }
  }

  /** For instance, replacing an interface twice and undoing both leaves the one in between. */
  lemma RepeatedProtocolNotRestored()
    ensures var cs := [Change(1, 10, 20), Change(1, 20, 30)];
            Applies(map[1 := 10], cs) && Undone(Changed(map[1 := 10], cs), cs) == map[1 := 20]
  {
    var a, b := Change(1, 10, 20), Change(1, 20, 30);
    var cs := [a, b];
    assert cs[1..] == [b] && [b][1..] == [];
    assert Replaced(map[1 := 10], 1, 20) == map[1 := 20] && Replaced(map[1 := 20], 1, 30) == map[1 := 30];
    assert Applies(map[1 := 20], [b]);
    assert Changed(map[1 := 10], cs) == Changed(map[1 := 20], [b]) == map[1 := 30];
    assert Undone(map[1 := 30], cs) == Undone(map[1 := 30], [b]) == Replaced(map[1 := 30], 1, 20);
  }

  /** A repeated protocol can be restored: here the last change goes back to the one in between, and
    * undoing the second change does the rest. */
  lemma RepeatedProtocolRestored()
    ensures var cs := [Change(1, 10, 20), Change(1, 20, 30), Change(1, 30, 20)];
            Applies(map[1 := 10], cs) && Undone(Changed(map[1 := 10], cs), cs) == map[1 := 10] && !DistinctChanges(cs)
  {
    var a, b, c := Change(1, 10, 20), Change(1, 20, 30), Change(1, 30, 20);
    var cs := [a, b, c];
    assert cs[0].protocol == cs[1].protocol;
    assert cs[1..] == [b, c] && [b, c][1..] == [c] && [c][1..] == [];
    assert Replaced(map[1 := 10], 1, 20) == map[1 := 20] && Replaced(map[1 := 20], 1, 30) == map[1 := 30];
    assert Replaced(map[1 := 30], 1, 20) == map[1 := 20] && Replaced(map[1 := 20], 1, 10) == map[1 := 10];
    assert Applies(map[1 := 30], [c]) && Applies(map[1 := 20], [b, c]);
    assert Changed(map[1 := 10], cs) == Changed(map[1 := 20], [b, c]) == Changed(map[1 := 30], [c]) == map[1 := 20];
    assert Undone(map[1 := 20], cs) == Undone(map[1 := 10], [b, c]) == Undone(map[1 := 10], [c]) == map[1 := 10];
  }

  // ---------- the method ----------

  lemma {:induction false} AppliesMore(ps: Protocols, cs: seq<Change>, k: nat)
    requires k < |cs| && Applies(ps, cs[..k])
    ensures Applies(ps, cs[..k + 1]) <==> CanChange(Changed(ps, cs[..k]), cs[k])
    ensures Changed(ps, cs[..k + 1]) == Replaced(Changed(ps, cs[..k]), cs[k].protocol, cs[k].after)
    ensures !Applies(ps, cs[..k + 1]) ==> !Applies(ps, cs)
    decreases k
  {
    if k == 0 {
      assert cs[..1] == [cs[0]] && cs[..1][1..] == [] && cs[..0] == [];
    } else {
      var next := Replaced(ps, cs[0].protocol, cs[0].after);
      assert cs[..k][0] == cs[0] && cs[..k + 1][0] == cs[0];
      assert cs[..k][1..] == cs[1..][..k - 1] && cs[..k + 1][1..] == cs[1..][..k];
      AppliesMore(next, cs[1..], k - 1);
    }
  }

  /** What a caller can check beforehand: the handle exists, every change finds the interface that it
    * is to replace, and no interface is in use. */
  ghost predicate Reinstallable(db: Database, handle: nat, inUse: set<nat>, cs: seq<Change>) {
    cs == [] || (handle in db && Applies(db[handle], cs) && forall i | 0 <= i < |cs| :: cs[i].protocol !in inUse)
  }

  /** The database in which a handle that exists has these protocols. */
  function Held(db: Database, handle: nat, ps: Protocols): Database {
    if handle in db then db[handle := ps] else db
  }

  function Reinstalled(db: Database, handle: nat, cs: seq<Change>): Database {
    Held(db, handle, Changed(At(db, handle), cs))
  }

  function RolledBack(db: Database, handle: nat, cs: seq<Change>): Database {
    Held(db, handle, Undone(Changed(At(db, handle), cs), cs))
  }

  /** In plain terms: each protocol of the handle that has been changed has the interface of its last change,
    * and everything else is as it was. */
  lemma ReinstalledIs(db: Database, handle: nat, cs: seq<Change>)
    requires handle in db && Applies(db[handle], cs)
    ensures var now := Reinstalled(db, handle, cs);
      && now.Keys == db.Keys && (forall g <- db :: g != handle ==> now[g] == db[g])
      && now[handle].Keys == db[handle].Keys
      && (forall p <- db[handle] :: (forall c <- cs :: c.protocol != p) ==> now[handle][p] == db[handle][p])
      && (forall i | 0 <= i < |cs| && (forall j | i < j < |cs| :: cs[j].protocol != cs[i].protocol) ::
            cs[i].protocol in now[handle] && now[handle][cs[i].protocol] == cs[i].after)
  {
    ChangedKeys(db[handle], cs);
    forall p <- db[handle] | forall c <- cs :: c.protocol != p
      ensures Changed(db[handle], cs)[p] == db[handle][p]
    {
      assert forall i | 0 <= i < |cs| :: cs[i] in cs;
      ChangedOther(db[handle], cs, p);
    }
    forall i | 0 <= i < |cs| && forall j | i < j < |cs| :: cs[j].protocol != cs[i].protocol
      ensures cs[i].protocol in Changed(db[handle], cs) && Changed(db[handle], cs)[cs[i].protocol] == cs[i].after
    {
      ChangedLast(db[handle], cs, i);
    }
    hide Applies, Changed;
  }

  lemma {:induction false} ChangedLast(ps: Protocols, cs: seq<Change>, i: nat)
    requires Applies(ps, cs) && i < |cs| && forall j | i < j < |cs| :: cs[j].protocol != cs[i].protocol
    ensures cs[i].protocol in Changed(ps, cs) && Changed(ps, cs)[cs[i].protocol] == cs[i].after
    decreases |cs|
  {
    var next := Replaced(ps, cs[0].protocol, cs[0].after);
    if i == 0 {
      ChangedOther(next, cs[1..], cs[0].protocol);
    } else {
      ChangedLast(next, cs[1..], i - 1);
    }
  }

  lemma ReinstallableMore(db: Database, handle: nat, inUse: set<nat>, cs: seq<Change>, k: nat)
    requires k < |cs| && Reinstallable(db, handle, inUse, cs[..k])
    ensures Reinstallable(db, handle, inUse, cs[..k + 1]) <==>
              handle in db && CanChange(Changed(db[handle], cs[..k]), cs[k]) && cs[k].protocol !in inUse
    ensures !Reinstallable(db, handle, inUse, cs[..k + 1]) ==> !Reinstallable(db, handle, inUse, cs)
    ensures handle in db ==>
              Reinstalled(db, handle, cs[..k + 1])
              == Reinstalled(db, handle, cs[..k])[
                   handle := Replaced(Changed(db[handle], cs[..k]), cs[k].protocol, cs[k].after)]
  {
    assert k == 0 ==> cs[..k] == [];
    var x, y := cs[..k], cs[..k + 1];
    assert forall i | 0 <= i < k :: x[i] == cs[i] && y[i] == cs[i];
    assert y[k] == cs[k];
    if handle in db {
      AppliesMore(db[handle], cs, k);
    }
  }

  /** A rollback leaves the database as it was exactly when it restores the protocols. */
  lemma RolledBackIffRestores(db: Database, handle: nat, inUse: set<nat>, cs: seq<Change>)
    requires Reinstallable(db, handle, inUse, cs)
    ensures RolledBack(db, handle, cs) == db <==> Restores(cs)
  {
    if cs != [] {
      RollbackIffRestores(db[handle], cs);
    }
  }

  lemma DistinctRestores(cs: seq<Change>, k: nat)
    requires DistinctChanges(cs) && k <= |cs|
    ensures Restores(cs[..k])
  {
    forall c <- cs[..k]
      ensures Restored(Of(cs[..k], c.protocol))
    {
      OfDistinct(cs[..k], c);
    }
  }

  lemma {:induction false} OfDistinct(cs: seq<Change>, c: Change)
    requires DistinctChanges(cs) && c in cs
    ensures Of(cs, c.protocol) == [c]
    decreases |cs|
  {
    if cs[0] == c {
      OfListed(cs[1..], c.protocol);
    } else {
      assert DistinctChanges(cs[1..]);
      OfDistinct(cs[1..], c);
    }
  }

  /** The call fails at change `k`. */
  ghost predicate FailsAt(db: Database, handle: nat, inUse: set<nat>, cs: seq<Change>, k: nat) {
    k < |cs| && Reinstallable(db, handle, inUse, cs[..k]) && !Reinstallable(db, handle, inUse, cs[..k + 1])
  }

  /** The firmware is given `location`, where the caller keeps its handle, and never the handle. For
    * what it takes to be the handle, the changes are all made, or made up to the first that fails and
    * then undone in the same order. The task priority is restored. */
  method LibReinstallProtocolInterfaces(fw: Firmware, location: nat, handle: nat, changes: seq<Change>)
    returns (status: Status)
    requires GoodDatabase(fw.db)
    modifies fw`db, fw`tpl, fw`levels
    ensures GoodDatabase(fw.db) && fw.tpl == old(fw.tpl) && AtNotify(old(fw.levels), fw.levels)
    ensures status == Success <==> Reinstallable(old(fw.db), location, fw.inUse, changes)
    ensures status == Success ==> fw.db == Reinstalled(old(fw.db), location, changes)
    ensures status != Success ==> exists k: nat ::
              && FailsAt(old(fw.db), location, fw.inUse, changes, k)
              && fw.db == RolledBack(old(fw.db), location, changes[..k])
              && (fw.db == old(fw.db) <==> Restores(changes[..k]))
    ensures status != Success && DistinctChanges(changes) ==> fw.db == old(fw.db)
    ensures location !in old(fw.db) && changes != [] ==> status == InvalidParameter && fw.db == old(fw.db)
    ensures Served(old(fw.db), fw.db, handle, fw.inUse, changes, status)
            <==> ServedIf(old(fw.db), location, handle, fw.inUse, changes)
  {
    ghost var db := fw.db;
    var oldTpl := fw.RaiseTPL(TPL_NOTIFY);
    var index := 0;
    status := Success;
    assert changes[..0] == [];
    ServedExactly(db, location, handle, fw.inUse, changes);
    hide Applies, Restores, Served, ServedIf;
    while status == Success && index < |changes|
      invariant index <= |changes| && GoodDatabase(fw.db) && fw.tpl == TPL_NOTIFY
      invariant AtNotify(old(fw.levels), fw.levels)
      invariant Reinstallable(db, location, fw.inUse, changes[..index])
      invariant fw.db == Reinstalled(db, location, changes[..index])
      invariant status != Success ==>
                  && FailsAt(db, location, fw.inUse, changes, index)
                  && !Reinstallable(db, location, fw.inUse, changes)
                  && (location !in db ==> status == InvalidParameter)
      decreases |changes| - index, status == Success
    {
      var c := changes[index];
      ReinstallableMore(db, location, fw.inUse, changes, index);
      status := fw.ReinstallProtocolInterface(location, c.protocol, c.before, c.after);
      if status != Success {
        break;
      }
      index := index + 1;
    }
    if status != Success {
      UndoChanges(fw, location, changes, index, db);
      RolledBackIffRestores(db, location, fw.inUse, changes[..index]);
      if DistinctChanges(changes) {
        DistinctRestores(changes, index);
      }
    } else {
      assert changes[..index] == changes;
    }
    fw.RestoreTPL(oldTpl);
  }

  /** What the caller asks for: the changes are made to the handle that it has. */
  ghost predicate Served(db: Database, now: Database, handle: nat, inUse: set<nat>, cs: seq<Change>, status: Status) {
    status == Success && Reinstallable(db, handle, inUse, cs) && now == Reinstalled(db, handle, cs)
  }

  /** What it takes: the changes can be made to the handle and to what is handed over, and these are the
    * same or the changes come to nothing. */
  ghost predicate ServedIf(db: Database, location: nat, handle: nat, inUse: set<nat>, cs: seq<Change>) {
    && Reinstallable(db, handle, inUse, cs) && Reinstallable(db, location, inUse, cs)
    && (location == handle || Unchanging(cs))
  }

  lemma ServedExactly(db: Database, location: nat, handle: nat, inUse: set<nat>, cs: seq<Change>)
    ensures ServedIf(db, location, handle, inUse, cs) <==>
              && Reinstallable(db, location, inUse, cs) && Reinstallable(db, handle, inUse, cs)
              && Reinstalled(db, location, cs) == Reinstalled(db, handle, cs)
  {
    if Reinstallable(db, location, inUse, cs) && Reinstallable(db, handle, inUse, cs) && cs != [] {
      ChangedIffUnchanging(db[location], cs);
      ChangedIffUnchanging(db[handle], cs);
      hide Unchanging, Changed, Applies;
      if location != handle && Reinstalled(db, location, cs) == Reinstalled(db, handle, cs) {
        assert Reinstalled(db, handle, cs)[location] == db[location];
      }
    }
  }

  /** The address of a variable is not a handle, so that nothing is ever changed. */
  lemma AddressNotServed(db: Database, location: nat, handle: nat, inUse: set<nat>, cs: seq<Change>)
    requires location !in db
    ensures ServedIf(db, location, handle, inUse, cs) <==> cs == []
  {
  }

  /** For instance, a handle with one protocol, kept in a variable at address 9. */
  lemma HandleNotServed()
    ensures var db, cs := map[5 := map[1 := 10]], [Change(1, 10, 20)];
            && Reinstallable(db, 5, {}, cs) && Reinstalled(db, 5, cs) == map[5 := map[1 := 20]]
            && !ServedIf(db, 9, 5, {}, cs)
  {
    var c := Change(1, 10, 20);
    assert [c][1..] == [] && Replaced(map[1 := 10], 1, 20) == map[1 := 20];
    assert Changed(map[1 := 10], [c]) == map[1 := 20];
  }

  /** The second loop: the changes that were made are undone in the order in which they were made. */
  method UndoChanges(fw: Firmware, handle: nat, changes: seq<Change>, count: nat, ghost db: Database)
    requires GoodDatabase(db) && GoodDatabase(fw.db) && count <= |changes|
    requires Reinstallable(db, handle, fw.inUse, changes[..count])
    requires fw.db == Reinstalled(db, handle, changes[..count])
    modifies fw`db, fw`levels
    ensures old(fw.levels) <= fw.levels && forall i | |old(fw.levels)| <= i < |fw.levels| :: fw.levels[i] == fw.tpl
    ensures GoodDatabase(fw.db) && fw.db == RolledBack(db, handle, changes[..count])
  {
    ghost var made := changes[..count];
    var index, next := count, 0;
    ghost var ps := At(fw.db, handle);
    assert fw.db == Held(db, handle, ps) && made[0..] == made;
    assert forall i | 0 <= i < count :: made[i] == changes[i] && changes[i].protocol !in fw.inUse;
    hide Applies, Changed, GoodDatabase, Undone, Reinstallable;
    while index != 0
      invariant next + index == count && GoodDatabase(fw.db)
      invariant old(fw.levels) <= fw.levels && forall i | |old(fw.levels)| <= i < |fw.levels| :: fw.levels[i] == fw.tpl
      invariant fw.db == Held(db, handle, ps)
      invariant Undone(ps, made[next..]) == Undone(Changed(At(db, handle), made), made)
    {
      var c := changes[next];
      UndoneNext(ps, made, next);
      assert made[next] == c;
      var _ := fw.ReinstallProtocolInterface(handle, c.protocol, c.after, c.before);
      ps := UndoneOne(ps, c);
      next := next + 1;
      index := index - 1;
    }
    UndoneNone(ps, made[next..]);
  }

  lemma UndoneNext(ps: Protocols, cs: seq<Change>, k: nat)
    requires k < |cs|
    ensures Undone(ps, cs[k..]) == Undone(UndoneOne(ps, cs[k]), cs[k + 1..])
  {
    assert cs[k..][1..] == cs[k + 1..];
  }

  lemma UndoneNone(ps: Protocols, cs: seq<Change>)
    requires cs == []
    ensures Undone(ps, cs) == ps
  {
  }
}
