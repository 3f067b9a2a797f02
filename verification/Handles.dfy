/** Installing and uninstalling several protocols at once (`hand.c`), over a model of the firmware's
  * handle database (section 6.3 of the UEFI 2.4 specification). */
module Handles {

  /** Handles, protocols and interfaces are addresses; zero is NULL. */
  type Protocols = map<nat, nat>
  type Database = map<nat, Protocols>

  datatype Status = Success | InvalidParameter | OutOfResources | NotFound | AccessDenied

  const TPL_NOTIFY: nat := 16

  /** A handle exists as long as it has protocols. */
  ghost predicate GoodDatabase(db: Database) {
    forall h <- db :: h != 0 && db[h] != map[]
  }

  function At(db: Database, h: nat): Protocols {
    if h in db then db[h] else map[]
  }

  function Put(db: Database, h: nat, ps: Protocols): Database {
    if ps == map[] then db - {h} else db[h := ps]
  }

  function Replaced(ps: Protocols, protocol: nat, iface: nat): Protocols {
    ps[protocol := iface]
  }

  lemma PutAt(db: Database, h: nat)
    requires GoodDatabase(db)
    ensures Put(db, h, At(db, h)) == db
  {
  }

  /** The boot services that are used. A number of installations can succeed before the pool is
    * empty, and some protocols are in use in a way that lets nobody replace their interface. */
  class Firmware {
    var db: Database
    var tpl: nat
    var room: nat
    var inUse: set<nat>
    /** The task priorities at which protocols were installed, uninstalled and reinstalled. */
    ghost var levels: seq<nat>

    constructor ()
      ensures GoodDatabase(db)
    {
      db, tpl, room, inUse, levels := map[], 4, 0, {}, [];
    }

    method RaiseTPL(level: nat) returns (previous: nat)
      modifies this`tpl
      ensures previous == old(tpl) && tpl == level
    {
      previous := tpl;
      tpl := level;
    }

    method RestoreTPL(level: nat)
      modifies this`tpl
      ensures tpl == level
    {
      tpl := level;
    }

    method InstallProtocolInterface(handle: nat, protocol: nat, iface: nat) returns (status: Status, handle': nat)
      requires GoodDatabase(db)
      modifies this`db, this`room, this`levels
      ensures GoodDatabase(db) && levels == old(levels) + [tpl]
      ensures handle != 0 && handle !in old(db) ==> status == InvalidParameter
      ensures handle in old(db) && protocol in old(db)[handle] ==> status == InvalidParameter
      ensures (handle == 0 || handle in old(db)) && protocol !in At(old(db), handle) ==>
                status == if old(room) == 0 then OutOfResources else Success
      ensures status != Success ==> db == old(db) && room == old(room) && handle' == handle
      ensures status == Success ==>
                && (if handle == 0 then handle' != 0 && handle' !in old(db) else handle' == handle)
                && db == Put(old(db), handle', Replaced(At(old(db), handle'), protocol, iface))
                && room == old(room) - 1
    {
      levels := levels + [tpl];
      handle' := handle;
      if handle != 0 && handle !in db {
        return InvalidParameter, handle;
      }
      if handle in db && protocol in db[handle] {
        return InvalidParameter, handle;
      }
      if room == 0 {
        return OutOfResources, handle;
      }
      if handle == 0 {
        handle' := FreshHandle();
      }
      db := Put(db, handle', Replaced(At(db, handle'), protocol, iface));
      room := room - 1;
      status := Success;
    }

    method FreshHandle() returns (h: nat)
      ensures h != 0 && h !in db
    {
      h := 1;
      ghost var used := {};
      while h in db
        invariant h != 0 && |used| == h - 1 && used <= db.Keys && forall u <- used :: u < h
        decreases |db.Keys| - |used|
      {
        used := used + {h};
        Smaller(used, db.Keys);
        h := h + 1;
      }
    }

    method UninstallProtocolInterface(handle: nat, protocol: nat, iface: nat) returns (status: Status)
      requires GoodDatabase(db)
      modifies this`db, this`room, this`levels
      ensures GoodDatabase(db) && levels == old(levels) + [tpl]
      ensures var ps := At(old(db), handle);
        if protocol in ps && ps[protocol] == iface
        then status == Success && db == Put(old(db), handle, ps - {protocol}) && room == old(room) + 1
        else status == NotFound && db == old(db) && room == old(room)
    {
      levels := levels + [tpl];
      var ps := At(db, handle);
      if protocol !in ps || ps[protocol] != iface {
        return NotFound;
      }
      db := Put(db, handle, ps - {protocol});
      room := room + 1;
      status := Success;
    }

    method ReinstallProtocolInterface(handle: nat, protocol: nat, before: nat, after: nat) returns (status: Status)
      requires GoodDatabase(db)
      modifies this`db, this`levels
      ensures GoodDatabase(db) && levels == old(levels) + [tpl]
      ensures handle !in old(db) ==> status == InvalidParameter
      ensures handle in old(db) && !(protocol in old(db)[handle] && old(db)[handle][protocol] == before) ==>
                status == NotFound
      ensures handle in old(db) && protocol in old(db)[handle] && old(db)[handle][protocol] == before ==>
                status == if protocol in inUse then AccessDenied else Success
      ensures status != Success ==> db == old(db)
      ensures status == Success ==> db == old(db)[handle := Replaced(old(db)[handle], protocol, after)]
    {
      levels := levels + [tpl];
      if handle !in db {
        return InvalidParameter;
      }
      if protocol !in db[handle] || db[handle][protocol] != before {
        return NotFound;
      }
      if protocol in inUse {
        return AccessDenied;
      }
      db := db[handle := Replaced(db[handle], protocol, after)];
      status := Success;
    }
  }

  /** All that came later came at TPL_NOTIFY. */
  ghost predicate AtNotify(before: seq<nat>, now: seq<nat>) {
    before <= now && forall i | |before| <= i < |now| :: now[i] == 16
  }

  lemma Smaller<T>(a: set<T>, b: set<T>)
    requires a <= b
    ensures |a| <= |b|
  {
    assert b == a + (b - a);
  }

  // ---------- LibInstallProtocolInterfaces ----------

  datatype Pair = Pair(protocol: nat, iface: nat)

  /** The pairs as protocols of a handle. */
  function AsProtocols(pairs: seq<Pair>): Protocols {
    if pairs == [] then map[]
    else AsProtocols(pairs[..|pairs| - 1])[pairs[|pairs| - 1].protocol := pairs[|pairs| - 1].iface]
  }

  ghost predicate DistinctPairs(pairs: seq<Pair>) {
    forall i, j | 0 <= i < j < |pairs| :: pairs[i].protocol != pairs[j].protocol
  }

  /** The pairs are of different protocols, and none is in `ps` yet. */
  ghost predicate Addable(ps: Protocols, pairs: seq<Pair>) {
    DistinctPairs(pairs) && forall i | 0 <= i < |pairs| :: pairs[i].protocol !in ps
  }

  lemma {:induction false} AsProtocolsKeys(pairs: seq<Pair>)
    ensures forall p :: p in AsProtocols(pairs) <==> exists i | 0 <= i < |pairs| :: pairs[i].protocol == p
  {
    if pairs != [] {
      var last := |pairs| - 1;
      AsProtocolsKeys(pairs[..last]);
      forall p
        ensures p in AsProtocols(pairs) <==> exists i | 0 <= i < |pairs| :: pairs[i].protocol == p
      {
        if p in AsProtocols(pairs[..last]) {
          var i :| 0 <= i < last && pairs[..last][i].protocol == p;
          assert pairs[i].protocol == p;
        }
        if i :| 0 <= i < |pairs| && pairs[i].protocol == p {
          if i < last {
            assert pairs[..last][i].protocol == p;
          }
        }
      }
    }
  }

  /** Taking the first pair off again. */
  lemma {:induction false} AsProtocolsFirst(pairs: seq<Pair>)
    requires pairs != [] && DistinctPairs(pairs)
    ensures pairs[0].protocol in AsProtocols(pairs) && AsProtocols(pairs)[pairs[0].protocol] == pairs[0].iface
    ensures pairs[0].protocol !in AsProtocols(pairs[1..])
    ensures AsProtocols(pairs) - {pairs[0].protocol} == AsProtocols(pairs[1..])
    decreases |pairs|
  {
    var last := |pairs| - 1;
    if last > 0 {
      AsProtocolsFirst(pairs[..last]);
      assert pairs[..last][1..] == pairs[1..][..last - 1];
    } else {
      assert AsProtocols(pairs[..0]) == map[];
    }
  }

  /** The database in which these pairs have been added to a handle. */
  function Installed(db: Database, h: nat, pairs: seq<Pair>): Database {
    Put(db, h, At(db, h) + AsProtocols(pairs))
  }

  lemma InstalledNone(db: Database, h: nat)
    requires GoodDatabase(db)
    ensures Installed(db, h, []) == db
  {
    assert At(db, h) + map[] == At(db, h);
    PutAt(db, h);
  }

  lemma AsProtocolsMore(pairs: seq<Pair>, k: nat)
    requires k < |pairs|
    ensures AsProtocols(pairs[..k + 1]) == AsProtocols(pairs[..k])[pairs[k].protocol := pairs[k].iface]
    ensures pairs[k].protocol in AsProtocols(pairs[..k])
            <==> exists i | 0 <= i < k :: pairs[i].protocol == pairs[k].protocol
  {
    var p := pairs[k].protocol;
    assert pairs[..k + 1][..k] == pairs[..k];
    AsProtocolsKeys(pairs[..k]);
    hide AsProtocols;
    if p in AsProtocols(pairs[..k]) {
      var i :| 0 <= i < k && pairs[..k][i].protocol == p;
      assert pairs[i].protocol == p;
    }
    if i :| 0 <= i < k && pairs[i].protocol == p {
      assert pairs[..k][i].protocol == p;
    }
  }

  lemma InstalledMore(db: Database, h: nat, pairs: seq<Pair>, k: nat)
    requires k < |pairs|
    ensures var p, m := pairs[k].protocol, At(db, h) + AsProtocols(pairs[..k]);
      && At(Installed(db, h, pairs[..k]), h) == m
      && (p in m <==> p in At(db, h) || exists i | 0 <= i < k :: pairs[i].protocol == p)
      && Installed(db, h, pairs[..k + 1]) == Put(Installed(db, h, pairs[..k]), h, Replaced(m, p, pairs[k].iface))
  {
    AsProtocolsMore(pairs, k);
    hide AsProtocols;
    var p, m := pairs[k].protocol, At(db, h) + AsProtocols(pairs[..k]);
    assert At(db, h) + AsProtocols(pairs[..k + 1]) == Replaced(m, p, pairs[k].iface);
  }

  /** Taking off the first of the pairs that are installed. */
  lemma InstalledLess(db: Database, h: nat, pairs: seq<Pair>)
    requires pairs != [] && Addable(At(db, h), pairs)
    ensures var ps := At(Installed(db, h, pairs), h);
      && pairs[0].protocol in ps && ps[pairs[0].protocol] == pairs[0].iface
      && Put(Installed(db, h, pairs), h, ps - {pairs[0].protocol}) == Installed(db, h, pairs[1..])
  {
    AsProtocolsFirst(pairs);
    var base, m := At(db, h), AsProtocols(pairs);
    assert base + m != map[];
    assert At(Installed(db, h, pairs), h) == base + m;
    assert base + m - {pairs[0].protocol} == base + AsProtocols(pairs[1..]);
  }

  /** In plain terms: the handle has the protocols that it had, each with its interface, and those of the
    * pairs, each with the interface of its pair; and other handles are as they were. */
  lemma InstalledIs(db: Database, h: nat, pairs: seq<Pair>)
    requires pairs != [] && Addable(At(db, h), pairs)
    ensures var now := Installed(db, h, pairs);
      && now.Keys == db.Keys + {h} && (forall g <- db :: g != h ==> now[g] == db[g])
      && (forall p :: p in now[h] <==> (h in db && p in db[h]) || exists i | 0 <= i < |pairs| :: pairs[i].protocol == p)
      && (forall p :: h in db && p in db[h] ==> p in now[h] && now[h][p] == db[h][p])
      && (forall i | 0 <= i < |pairs| :: pairs[i].protocol in now[h] && now[h][pairs[i].protocol] == pairs[i].iface)
  {
    AsProtocolsKeys(pairs);
    assert pairs[0].protocol in AsProtocols(pairs);
    forall i | 0 <= i < |pairs|
      ensures pairs[i].protocol in AsProtocols(pairs) && AsProtocols(pairs)[pairs[i].protocol] == pairs[i].iface
    {
      AsProtocolsAt(pairs, i);
    }
    hide AsProtocols, DistinctPairs;
  }

  lemma {:induction false} AsProtocolsAt(pairs: seq<Pair>, i: nat)
    requires DistinctPairs(pairs) && i < |pairs|
    ensures pairs[i].protocol in AsProtocols(pairs) && AsProtocols(pairs)[pairs[i].protocol] == pairs[i].iface
    decreases |pairs|
  {
    var last := |pairs| - 1;
    if i < last {
      AsProtocolsAt(pairs[..last], i);
    }
  }

  /** What a caller can check beforehand: whether the handle can take the first `k` pairs. */
  ghost predicate Possible(db: Database, handle: nat, room: nat, pairs: seq<Pair>, k: nat)
    requires k <= |pairs|
  {
    k == 0 || ((handle == 0 || handle in db) && Addable(At(db, handle), pairs[..k]) && k <= room)
  }

  /** The state after `k` installations: `h` is the handle that the caller's handle has become. */
  ghost predicate Reached(db: Database, now: Database, handle: nat, h: nat, pairs: seq<Pair>, k: nat)
    requires k <= |pairs|
  {
    && GoodDatabase(now) && now == Installed(db, h, pairs[..k])
    && (if handle == 0 && k > 0 then h != 0 && h !in db else h == handle)
  }

  /** One call of `InstallProtocolInterface` in the loop. */
  method InstallNext(fw: Firmware, handle: nat, h: nat, pairs: seq<Pair>, k: nat, ghost db: Database, ghost room: nat)
    returns (status: Status, h': nat)
    requires GoodDatabase(db) && k < |pairs|
    requires Reached(db, fw.db, handle, h, pairs, k) && Possible(db, handle, room, pairs, k) && fw.room == room - k
    modifies fw`db, fw`room, fw`levels
    ensures fw.levels == old(fw.levels) + [fw.tpl]
    ensures status == Success <==> Possible(db, handle, room, pairs, k + 1)
    ensures status == Success ==> Reached(db, fw.db, handle, h', pairs, k + 1) && fw.room == room - (k + 1)
    ensures status != Success ==> Reached(db, fw.db, handle, h, pairs, k) && fw.room == room - k && h' == h
    ensures status != Success ==> !Possible(db, handle, room, pairs, |pairs|)
  {
    InstalledNone(db, h);
    assert pairs[..0] == [] && 0 !in db;
    InstalledMore(db, h, pairs, k);
    Refused(db, handle, pairs, k);
    assert pairs[..|pairs|] == pairs;
    AddableHandle(db, handle, h, pairs, k);
    hide AsProtocols, Addable, Installed, GoodDatabase;
    status, h' := fw.InstallProtocolInterface(h, pairs[k].protocol, pairs[k].iface);
    if status == Success && k == 0 {
      InstalledNone(db, h');
      InstalledMore(db, h', pairs, 0);
    }
  }

  /** As long as the handle can take the pairs, it is the caller's handle or a new one. */
  lemma AddableHandle(db: Database, handle: nat, h: nat, pairs: seq<Pair>, k: nat)
    requires GoodDatabase(db) && k <= |pairs|
    requires if handle == 0 && k > 0 then h != 0 && h !in db else h == handle
    requires k > 0 ==> handle == 0 || handle in db
    ensures At(db, h) == At(db, handle)
    ensures k > 0 ==> h in Installed(db, h, pairs[..k])
    ensures k == 0 ==> Installed(db, h, pairs[..k]) == db
  {
    assert 0 !in db;
    if k > 0 {
      AsProtocolsKeys(pairs[..k]);
      assert pairs[..k][0].protocol in AsProtocols(pairs[..k]);
    } else {
      InstalledNone(db, h);
      assert pairs[..k] == [];
    }
  }

  /** All or nothing: the pairs are all installed, or the database and the handle are as before. It is
    * all exactly when the handle can take the pairs and the pool has room for them. The task priority
    * is restored in either case. */
  method LibInstallProtocolInterfaces(fw: Firmware, handle: nat, pairs: seq<Pair>)
    returns (status: Status, handle': nat)
    requires GoodDatabase(fw.db)
    modifies fw`db, fw`tpl, fw`room, fw`levels
    ensures GoodDatabase(fw.db) && fw.tpl == old(fw.tpl) && AtNotify(old(fw.levels), fw.levels)
    ensures status == Success <==> Possible(old(fw.db), handle, old(fw.room), pairs, |pairs|)
    ensures status == Success ==>
              && fw.db == Installed(old(fw.db), handle', pairs) && fw.room == old(fw.room) - |pairs|
              && (if handle == 0 && pairs != [] then handle' != 0 && handle' !in old(fw.db) else handle' == handle)
    ensures status != Success ==> fw.db == old(fw.db) && fw.room == old(fw.room) && handle' == handle
  {
    ghost var db, room := fw.db, fw.room;
    var oldTpl := fw.RaiseTPL(TPL_NOTIFY);
    handle' := handle;
    var index := 0;
    status := Success;
    InstalledNone(db, handle);
    assert pairs[..0] == [];
    hide AsProtocols, Addable, Installed;
    while status == Success && index < |pairs|
      invariant index <= |pairs|
      invariant Reached(db, fw.db, handle, handle', pairs, index) && Possible(db, handle, room, pairs, index)
      invariant fw.room == room - index && fw.tpl == TPL_NOTIFY && AtNotify(old(fw.levels), fw.levels)
      invariant status != Success ==> !Possible(db, handle, room, pairs, |pairs|)
      decreases |pairs| - index, status == Success
    {
      status, handle' := InstallNext(fw, handle, handle', pairs, index, db, room);
      if status != Success {
        break;
      }
      index := index + 1;
    }
    if status != Success {
      Rollback(fw, handle', pairs, index, db, room);
      handle' := handle;
    } else {
      assert pairs[..index] == pairs;
    }
    fw.RestoreTPL(oldTpl);
  }

  lemma Refused(db: Database, h: nat, pairs: seq<Pair>, k: nat)
    requires k < |pairs| && Addable(At(db, h), pairs[..k])
    ensures Addable(At(db, h), pairs[..k + 1]) <==>
              !(pairs[k].protocol in At(db, h) || exists i | 0 <= i < k :: pairs[i].protocol == pairs[k].protocol)
    ensures !Addable(At(db, h), pairs[..k + 1]) ==> !Addable(At(db, h), pairs)
  {
    var x, y := pairs[..k], pairs[..k + 1];
    assert forall i | 0 <= i < k :: x[i] == pairs[i] && y[i] == pairs[i];
    assert y[k] == pairs[k];
  }

  /** The second loop: `index` pairs were installed without error, and are taken off in the same order. */
  method Rollback(fw: Firmware, handle: nat, pairs: seq<Pair>, count: nat, ghost db: Database, ghost room: nat)
    requires GoodDatabase(db) && count <= |pairs| && (count > 0 ==> Addable(At(db, handle), pairs[..count]))
    requires GoodDatabase(fw.db) && fw.db == Installed(db, handle, pairs[..count]) && fw.room == room - count
    modifies fw`db, fw`room, fw`levels
    ensures fw.db == db && fw.room == room
    ensures old(fw.levels) <= fw.levels && forall i | |old(fw.levels)| <= i < |fw.levels| :: fw.levels[i] == fw.tpl
  {
    var index, next := count, 0;
    while index != 0
      invariant next + index == count
      invariant old(fw.levels) <= fw.levels && forall i | |old(fw.levels)| <= i < |fw.levels| :: fw.levels[i] == fw.tpl
      invariant GoodDatabase(fw.db) && fw.db == Installed(db, handle, pairs[next..count]) && fw.room == room - index
    {
      ghost var left := pairs[next..count];
      AddableRest(At(db, handle), pairs[..count], next);
      assert pairs[..count][next..] == left;
      InstalledLess(db, handle, left);
      assert left[0] == pairs[next] && left[1..] == pairs[next + 1..count];
      var _ := fw.UninstallProtocolInterface(handle, pairs[next].protocol, pairs[next].iface);
      next := next + 1;
      index := index - 1;
    }
    assert pairs[next..count] == [];
    InstalledNone(db, handle);
  }

  lemma AddableRest(ps: Protocols, pairs: seq<Pair>, k: nat)
    requires Addable(ps, pairs) && k <= |pairs|
    ensures Addable(ps, pairs[k..])
  {
  }

  // ---------- LibUninstallProtocolInterfaces ----------

  function TakeOff(ps: Protocols, pair: Pair): Protocols {
    if pair.protocol in ps && ps[pair.protocol] == pair.iface then ps - {pair.protocol} else ps
  }

  /** The protocols without the pairs; a pair that is not there is skipped. */
  function TakenOff(ps: Protocols, pairs: seq<Pair>): Protocols
    decreases |pairs|
  {
    if pairs == [] then ps else TakenOff(TakeOff(ps, pairs[0]), pairs[1..])
  }

  lemma TakenOffNext(ps: Protocols, pairs: seq<Pair>, k: nat)
    requires k < |pairs|
    ensures TakenOff(ps, pairs[k..]) == TakenOff(TakeOff(ps, pairs[k]), pairs[k + 1..])
  {
    assert pairs[k..][1..] == pairs[k + 1..];
  }

  method LibUninstallProtocolInterfaces(fw: Firmware, handle: nat, pairs: seq<Pair>)
    requires GoodDatabase(fw.db)
    modifies fw`db, fw`room, fw`levels
    ensures GoodDatabase(fw.db)
    ensures fw.db == Put(old(fw.db), handle, TakenOff(At(old(fw.db), handle), pairs))
  {
    ghost var ps := At(fw.db, handle);
    var next := 0;
    PutAt(fw.db, handle);
    assert pairs[0..] == pairs;
    hide GoodDatabase, TakenOff;
    while next < |pairs|
      invariant next <= |pairs| && GoodDatabase(fw.db)
      invariant At(fw.db, handle) == ps && fw.db == Put(old(fw.db), handle, ps)
      invariant TakenOff(ps, pairs[next..]) == TakenOff(At(old(fw.db), handle), pairs)
    {
      TakenOffNext(ps, pairs, next);
      var _ := fw.UninstallProtocolInterface(handle, pairs[next].protocol, pairs[next].iface);
      ps := TakeOff(ps, pairs[next]);
      next := next + 1;
    }
    TakenOffNone(ps, pairs[next..]);
  }

  lemma TakenOffNone(ps: Protocols, pairs: seq<Pair>)
    requires pairs == []
    ensures TakenOff(ps, pairs) == ps
  {
  }

  lemma {:induction false} TakenOffAdded(ps: Protocols, pairs: seq<Pair>)
    requires Addable(ps, pairs)
    ensures TakenOff(ps + AsProtocols(pairs), pairs) == ps
    decreases |pairs|
  {
    if pairs == [] {
      assert ps + map[] == ps;
    } else {
      AsProtocolsFirst(pairs);
      AddableRest(ps, pairs, 1);
      assert ps + AsProtocols(pairs) - {pairs[0].protocol} == ps + AsProtocols(pairs[1..]);
      TakenOffAdded(ps, pairs[1..]);
    }
  }

  /** Uninstalling the pairs that were installed gives the database back. */
  lemma UninstallUndoesInstall(db: Database, h: nat, pairs: seq<Pair>)
    requires GoodDatabase(db) && Addable(At(db, h), pairs)
    ensures Put(Installed(db, h, pairs), h, TakenOff(At(Installed(db, h, pairs), h), pairs)) == db
  {
    TakenOffAdded(At(db, h), pairs);
    PutAt(db, h);
  }
}
