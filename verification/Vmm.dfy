/** The kernel's frame allocator and page-table builder (`vmm.c`). */
module Vmm {
  import opened Options
  import opened Words
  import opened Paging

  /** One entry of the firmware's memory map. */
  datatype MemDesc = MemDesc(kind: nat, physAddr: Word, virtAddr: Word, nPages: Word, attr: Word)

  const MMAP_USABLE_MEMORY: nat := 7

  /** The `k`-th frame counted from `a`. */
  function FrameAt(a: nat, k: nat): nat {
    a + PAGE_SIZE * k
  }

  /** The addresses below `limit` are to be mapped, with tables in frames that end at `hi`. */
  datatype Plan = Plan(limit: nat, hi: nat)

  /** The tables for the addresses below `limit` and for those from `lo` to below `hi`. */
  ghost function Needed(limit: nat, lo: nat, hi: nat): set<TableId> {
    Under(0, limit) + Under(lo, hi)
  }

  /** An address that may be mapped now: it is below the limit or in a frame that was handed out. */
  predicate Wanted(s: Space, va: nat, limit: nat) {
    va < limit || s.base <= va < s.placement
  }

  /** The tables still to be built, for the addresses below the limit and for all the frames of the
    * plan, can all be paid for: enough frames are left, and they are RAM other than the root. No table
    * reaches beyond the addresses below the limit and the frames handed out so far. */
  ghost predicate Funded(s: Space, nPages: nat, plan: Plan) {
    var need := |Needed(plan.limit, s.base, plan.hi) - s.dir.Keys|;
    && 0 < plan.limit <= ADDRESS_LIMIT && plan.hi <= ADDRESS_LIMIT
    && (forall t <- s.dir :: t == ROOT || t in Needed(plan.limit, s.base, s.placement))
    && need <= nPages
    && s.placement + PAGE_SIZE * need <= plan.hi
    && (forall k: nat | k < need :: FrameAt(s.placement, k) in s.ram && FrameAt(s.placement, k) != s.root)
  }

  /** `s'` maps the pages of `s`, `page`, and the frames handed out on the way, and nothing else. */
  ghost predicate MapsAlso(s: Space, s': Space, pages: set<nat>) {
    forall p: nat :: Mapped(s', p) <==>
      Mapped(s, p) || p in pages || s.placement <= p * PAGE_SIZE < s'.placement
  }

  lemma CoveringNeeded(level: nat, va: nat, limit: nat, lo: nat, hi: nat)
    requires 1 <= level <= 3 && limit <= ADDRESS_LIMIT && hi <= ADDRESS_LIMIT && (va < limit || lo <= va < hi)
    ensures Covering(level, va) in Needed(limit, lo, hi)
    ensures Covering(level, va).key <= Shift(ADDRESS_LIMIT - 1, level + 1)
  {
  }

  lemma NeededGrows(limit: nat, lo: nat, hi: nat, hi': nat)
    requires hi <= hi'
    ensures Needed(limit, lo, hi) <= Needed(limit, lo, hi')
  {
  }

  /** As long as a needed table is missing, there is a frame for it. */
  lemma FundedRoom(s: Space, nPages: nat, plan: Plan, t: TableId)
    requires Funded(s, nPages, plan) && t in Needed(plan.limit, s.base, s.placement) && t !in s.dir
    ensures nPages > 0 && s.placement + PAGE_SIZE <= plan.hi
    ensures s.placement in s.ram && s.placement != s.root
  {
    hide Needed;
    NeededGrows(plan.limit, s.base, s.placement, plan.hi);
    assert t in Needed(plan.limit, s.base, plan.hi) - s.dir.Keys;
    assert FrameAt(s.placement, 0) == s.placement;
  }

  /** Building a needed table uses up exactly one unit of the budget. */
  lemma FundedStep(s: Space, nPages: nat, plan: Plan, t: TableId)
    requires Funded(s, nPages, plan) && t in Needed(plan.limit, s.base, s.placement) && t !in s.dir
    requires Parent(t) in s.dir && s.dir[Parent(t)] in s.ram && s.placement < ADDRESS_LIMIT
    ensures nPages > 0
    ensures Funded(WithTable(s, t), nPages - 1, plan)
  {
    hide Needed, ZeroTable;
    FundedRoom(s, nPages, plan, t);
    var s' := WithTable(s, t);
    var all := Needed(plan.limit, s.base, plan.hi);
    var need := |all - s.dir.Keys|;
    NeededGrows(plan.limit, s.base, s.placement, plan.hi);
    NeededGrows(plan.limit, s.base, s.placement, s'.placement);
    assert t in all - s.dir.Keys;
    assert all - s'.dir.Keys == all - s.dir.Keys - {t};
    assert s.ram.Keys <= s'.ram.Keys;
    forall k: nat | k < need - 1
      ensures FrameAt(s'.placement, k) in s'.ram && FrameAt(s'.placement, k) != s'.root
    {
      assert FrameAt(s'.placement, k) == FrameAt(s.placement, k + 1);
    }
  }

  /** What one level of `map_page` reads: a link to the next table, or zero when there is none. */
  lemma TreeRead(s: Space, level: nat, va: nat)
    requires Tree(s) && va < ADDRESS_LIMIT && 2 <= level <= 4 && Covering(level, va) in s.dir
    ensures s.dir[Covering(level, va)] in s.ram
    ensures var w := s.ram[s.dir[Covering(level, va)]][Index(va, level)];
            var c := Covering(level - 1, va);
            if c in s.dir then Present(w) && AddrOf(w) == s.dir[c] else w == 0
  {
    LinkRead(s, level, va);
  }

  lemma RootCovers(s: Space, va: nat)
    requires Tree(s) && va < ADDRESS_LIMIT
    ensures Covering(4, va) in s.dir && s.dir[Covering(4, va)] == s.root
  {
    assert Placed(s, ROOT);
  }

  lemma CoverKept(s: Space, s': Space, level: nat, va: nat)
    requires Extends(s, s') && Covering(level, va) in s.dir
    ensures Covering(level, va) in s'.dir && s'.dir[Covering(level, va)] == s.dir[Covering(level, va)]
    ensures s.ram.Keys == s'.ram.Keys && s.placement <= s'.placement
  {
  }

  lemma PlacementFits(s: Space, nPages: nat, plan: Plan)
    requires Tree(s) && Funded(s, nPages, plan)
    ensures s.placement % PAGE_SIZE == 0 && s.placement <= plan.hi <= ADDRESS_LIMIT && plan.limit <= ADDRESS_LIMIT
  {
    hide AllPlaced, AllLinked, AllEntriesOk, Distinct, Needed;
  }

  lemma WantedAddress(s: Space, nPages: nat, plan: Plan, va: nat)
    requires Tree(s) && Funded(s, nPages, plan) && Wanted(s, va, plan.limit)
    ensures va < ADDRESS_LIMIT
  {
    hide Tree, Funded;
    PlacementFits(s, nPages, plan);
  }

  lemma Installable(s: Space, nPages: nat, plan: Plan, level: nat, va: nat)
    requires Tree(s) && Funded(s, nPages, plan) && Wanted(s, va, plan.limit) && 2 <= level <= 4
    requires Covering(level, va) in s.dir && Covering(level - 1, va) !in s.dir
    ensures nPages > 0 && s.placement < ADDRESS_LIMIT && s.placement % PAGE_SIZE == 0
    ensures s.placement in s.ram
    ensures Parent(Covering(level - 1, va)) == Covering(level, va)
    ensures Covering(level - 1, va).key % 512 == Index(va, level)
    ensures CanTake(s, Covering(level - 1, va)) && Covering(level - 1, va) in Needed(plan.limit, s.base, s.placement)
  {
    hide Tree, Funded, Needed;
    var t := Covering(level - 1, va);
    ChildCovers(level, va);
    PlacementFits(s, nPages, plan);
    CoveringNeeded(level - 1, va, plan.limit, s.base, s.placement);
    FundedRoom(s, nPages, plan, t);
  }

  lemma ParentElsewhere(s: Space, t: TableId)
    requires Tree(s) && t in s.dir && s.placement != s.root
    ensures s.dir[t] in s.ram && s.dir[t] != s.placement
  {
    hide AllLinked, AllEntriesOk, Distinct, Bumped;
    assert Placed(s, t);
  }

  lemma OneTableMore(s: Space, t: TableId)
    requires t !in s.dir && Parent(t) in s.dir && s.dir[Parent(t)] in s.ram && s.placement < ADDRESS_LIMIT
    ensures |WithTable(s, t).dir| == |s.dir| + 1
  {
    assert WithTable(s, t).dir.Keys == s.dir.Keys + {t};
  }

  /** The space after linking in one more table that is needed. */
  ghost predicate Installed(s: Space, s': Space, nPages: nat, plan: Plan) {
    && nPages > 0 && Tree(s') && Funded(s', nPages - 1, plan)
    && Extends(s, s') && |s'.dir| == |s.dir| + 1 && (forall page: nat :: Mapped(s', page) <==> Mapped(s, page))
  }

  lemma Install(s: Space, nPages: nat, plan: Plan, t: TableId)
    requires Tree(s) && Funded(s, nPages, plan) && CanTake(s, t) && t in Needed(plan.limit, s.base, s.placement)
    requires s.dir[Parent(t)] in s.ram && s.placement < ADDRESS_LIMIT
    ensures Installed(s, WithTable(s, t), nPages, plan)
  {
    assert AllPlaced(s) && Distinct(s) && AllEntriesOk(s);
    hide Tree, Mapped, AllPlaced, AllLinked, AllEntriesOk, Distinct, Bumped, Funded, Extends, Needed;
    FundedStep(s, nPages, plan, t);
    WithTableTree(s, t);
    WithTableExtends(s, t);
    OneTableMore(s, t);
  }

  /** Linking in the next table for `va`. */
  lemma InstallNext(s: Space, nPages: nat, plan: Plan, level: nat, va: nat)
    requires Tree(s) && Funded(s, nPages, plan) && Wanted(s, va, plan.limit) && 2 <= level <= 4
    requires Covering(level, va) in s.dir && Covering(level - 1, va) !in s.dir
    ensures nPages > 0 && s.base <= s.placement < ADDRESS_LIMIT && s.placement % PAGE_SIZE == 0
    ensures s.placement in s.ram && s.dir[Covering(level, va)] in s.ram
    ensures s.placement != s.dir[Covering(level, va)]
    ensures Parent(Covering(level - 1, va)) == Covering(level, va)
    ensures Covering(level - 1, va).key % 512 == Index(va, level)
    ensures Installed(s, WithTable(s, Covering(level - 1, va)), nPages, plan)
  {
    hide Tree, Funded, Needed, Installed, WithTable;
    var t := Covering(level - 1, va);
    Installable(s, nPages, plan, level, va);
    ParentElsewhere(s, Parent(t));
    BaseBelow(s);
    Install(s, nPages, plan, t);
  }

  lemma WantedKept(s: Space, s': Space, va: nat, limit: nat)
    requires Wanted(s, va, limit) && Extends(s, s')
    ensures Wanted(s', va, limit)
  {
  }

  lemma BaseBelow(s: Space)
    requires Tree(s)
    ensures s.base <= s.placement
  {
    hide AllPlaced, AllLinked, AllEntriesOk, Distinct;
  }

  lemma Finishable(s: Space, va: nat)
    requires Tree(s) && va < ADDRESS_LIMIT && Covering(1, va) in s.dir
    ensures Covering(1, va) == TableId(1, va / PAGE_SIZE / 512) && Index(va, 1) == va / PAGE_SIZE % 512
    ensures s.dir[Covering(1, va)] in s.ram
    ensures Present(s.ram[s.dir[Covering(1, va)]][Index(va, 1)]) == Mapped(s, va / PAGE_SIZE)
    ensures AddrOf(va) == va / PAGE_SIZE * PAGE_SIZE
  {
    LeafRead(s, va);
    ShiftSplits(1, va);
  }

  lemma FundedLeaf(s: Space, nPages: nat, plan: Plan, page: nat)
    requires Funded(s, nPages, plan) && TableId(1, page / 512) in s.dir && s.dir[TableId(1, page / 512)] in s.ram
    requires page * PAGE_SIZE < ADDRESS_LIMIT
    ensures Funded(WithLeaf(s, page), nPages, plan)
  {
    hide Needed;
  }

  /** Writing the leaf entry for `va`, unless there is one already. */
  lemma Finish(s: Space, nPages: nat, plan: Plan, va: nat)
    requires Tree(s) && Funded(s, nPages, plan) && va < ADDRESS_LIMIT && Covering(1, va) in s.dir
    ensures Covering(1, va) == TableId(1, va / PAGE_SIZE / 512) && Index(va, 1) == va / PAGE_SIZE % 512
    ensures s.dir[Covering(1, va)] in s.ram
    ensures Present(s.ram[s.dir[Covering(1, va)]][Index(va, 1)]) == Mapped(s, va / PAGE_SIZE)
    ensures AddrOf(va) == va / PAGE_SIZE * PAGE_SIZE
    ensures !Mapped(s, va / PAGE_SIZE) ==>
              var s' := WithLeaf(s, va / PAGE_SIZE);
              && Tree(s') && Funded(s', nPages, plan) && Extends(s, s')
              && forall p: nat :: Mapped(s', p) <==> Mapped(s, p) || p == va / PAGE_SIZE
  {
    hide Mapped, AllPlaced, AllLinked, AllEntriesOk, Distinct, Extends, Funded;
    Finishable(s, va);
    if !Mapped(s, va / PAGE_SIZE) {
      WithLeafTree(s, va / PAGE_SIZE);
      WithLeafExtends(s, va / PAGE_SIZE);
      FundedLeaf(s, nPages, plan, va / PAGE_SIZE);
    }
  }

  lemma ExtendsSelf(s: Space)
    ensures Extends(s, s)
  {
  }

  // ---------- what the invariant says about the tables ----------

  /** Every frame that was handed out for a table is itself identity-mapped. */
  ghost predicate SelfMapped(s: Space) {
    forall t <- s.dir :: t != ROOT ==> Mapped(s, s.dir[t] / PAGE_SIZE)
  }

  lemma SelfMappedKept(s: Space, s': Space, pages: set<nat>)
    requires SelfMapped(s) && Extends(s, s') && MapsAlso(s, s', pages) && AllPlaced(s') && Bumped(s')
    ensures SelfMapped(s')
  {
    hide Mapped;
    forall t <- s'.dir | t != ROOT
      ensures Mapped(s', s'.dir[t] / PAGE_SIZE)
    {
      assert Placed(s', t);
      assert s'.dir[t] / PAGE_SIZE * PAGE_SIZE == s'.dir[t];
      assert t in s.dir ==> Mapped(s, s.dir[t] / PAGE_SIZE);
    }
  }

  /** A present entry of a table above the last level. */
  ghost predicate IsLink(s: Space, t: TableId, i: nat) {
    t in s.dir && t.level > 1 && i < 512 && s.dir[t] in s.ram && Present(s.ram[s.dir[t]][i])
  }

  ghost function Links(s: Space): set<(TableId, nat)> {
    set t <- s.dir.Keys, i | 0 <= i < 512 && IsLink(s, t, i) :: (t, i)
  }

  lemma LinkTarget(s: Space, t: TableId, i: nat)
    requires Tree(s) && IsLink(s, t, i)
    ensures Child(t, i) in s.dir && Child(t, i) != ROOT
    ensures AddrOf(s.ram[s.dir[t]][i]) == s.dir[Child(t, i)]
    ensures s.base <= s.dir[Child(t, i)] < s.placement
  {
    hide AllLinked, Distinct;
    assert EntryOk(s, t, i) && Placed(s, t) && Placed(s, Child(t, i));
    WordFields(s.dir[Child(t, i)]);
  }

  /** Each table has its own frame, and no two links lead to the same frame. */
  lemma LinksApart(s: Space, t: TableId, i: nat, u: TableId, j: nat)
    requires Tree(s) && IsLink(s, t, i) && IsLink(s, u, j)
    ensures AddrOf(s.ram[s.dir[t]][i]) == AddrOf(s.ram[s.dir[u]][j]) ==> t == u && i == j
    ensures AddrOf(s.ram[s.dir[t]][i]) != s.root
  {
    hide AllLinked, AllEntriesOk, AllPlaced;
    LinkTarget(s, t, i);
    LinkTarget(s, u, j);
  }

  ghost function Image<A, B>(xs: set<A>, f: A -> B): set<B> {
    set x <- xs :: f(x)
  }

  lemma {:induction false} ImageSize<A, B>(xs: set<A>, f: A -> B)
    requires forall x <- xs, y <- xs :: f(x) == f(y) ==> x == y
    ensures |Image(xs, f)| == |xs|
  {
    if xs != {} {
      var x :| x in xs;
      ImageSize(xs - {x}, f);
      assert Image(xs, f) == Image(xs - {x}, f) + {f(x)};
    }
  }

  lemma TableHasLink(s: Space, t: TableId)
    requires Tree(s) && t in s.dir && t != ROOT
    ensures IsLink(s, Parent(t), t.key % 512)
  {
    hide AllEntriesOk, Distinct;
    assert Placed(s, t) && Linked(s, t);
    WordFields(s.dir[t]);
  }

  function Slot(t: TableId): (TableId, nat) {
    (Parent(t), t.key % 512)
  }

  lemma LinksAreSlots(s: Space)
    requires Tree(s)
    ensures Links(s) == set t <- s.dir.Keys - {ROOT} :: Slot(t)
  {
    hide Tree, IsLink;
    forall t <- s.dir.Keys - {ROOT}
      ensures Slot(t) in Links(s)
    {
      TableHasLink(s, t);
      TableInRange(s, Parent(t), t.key % 512);
    }
    forall l <- Links(s)
      ensures l in (set t <- s.dir.Keys - {ROOT} :: Slot(t))
    {
      TableInRange(s, l.0, l.1);
      LinkTarget(s, l.0, l.1);
      assert Slot(Child(l.0, l.1)) == l;
    }
  }

  lemma TableInRange(s: Space, t: TableId, i: nat)
    requires IsLink(s, t, i)
    ensures t in s.dir && t.level > 1 && i < 512
  {
  }

  /** The allocator has handed out exactly one frame for each link. */
  lemma FramesAreLinks(s: Space)
    requires Tree(s)
    ensures |Links(s)| == |s.dir| - 1
    ensures s.placement == s.base + PAGE_SIZE * |Links(s)|
  {
    hide AllPlaced, AllLinked, AllEntriesOk, Distinct;
    var tables := s.dir.Keys - {ROOT};
    LinksAreSlots(s);
    forall t <- tables, u <- tables | Slot(t) == Slot(u)
      ensures t == u
    {
      SlotApart(t, u);
    }
    var slot := t => Slot(t);
    ImageSize(tables, slot);
    assert Image(tables, slot) == Links(s);
  }

  // ---------- how many tables a limit needs ----------

  ghost function Level(level: nat, from: nat, n: nat): set<TableId> {
    set k | from <= k < from + n :: TableId(level, k)
  }

  lemma {:induction false} LevelSize(level: nat, from: nat, n: nat)
    ensures |Level(level, from, n)| == n
  {
    if n > 0 {
      LevelSize(level, from, n - 1);
      assert Level(level, from, n) == Level(level, from, n - 1) + {TableId(level, from + n - 1)};
    }
  }

  const MAPPED_LIMIT: nat := 6 * 0x4000_0000
  const TABLES: nat := 1 + 6 + 3072

  /** What it can take at most to map the frames as well, when they lie beyond the limit. */
  const MORE_TABLES: nat := 8 + 2 + 2

  /** How many tables of a level an address range has. */
  function Span(level: nat, lo: nat, hi: nat): nat
    requires lo < hi
  {
    Increasing(level, lo, hi - 1);
    Shift(hi - 1, level + 1) - Shift(lo, level + 1) + 1
  }

  lemma Increasing(level: nat, a: nat, b: nat)
    requires a <= b
    ensures Shift(a, level + 1) <= Shift(b, level + 1)
  {
  }

  /** The tables of one level under a range. */
  ghost function LevelUnder(level: nat, lo: nat, hi: nat): set<TableId>
    requires lo < hi
  {
    Level(level, Shift(lo, level + 1), Span(level, lo, hi))
  }

  lemma UnderSize(lo: nat, hi: nat)
    requires lo < hi
    ensures |Under(lo, hi)| == Span(1, lo, hi) + Span(2, lo, hi) + Span(3, lo, hi)
  {
    hide Under, Shift, Span, Level;
    var a, b, c := LevelUnder(1, lo, hi), LevelUnder(2, lo, hi), LevelUnder(3, lo, hi);
    LevelSize(1, Shift(lo, 2), Span(1, lo, hi));
    LevelSize(2, Shift(lo, 3), Span(2, lo, hi));
    LevelSize(3, Shift(lo, 4), Span(3, lo, hi));
    LevelsApart(Shift(lo, 2), Span(1, lo, hi), Shift(lo, 3), Span(2, lo, hi), Shift(lo, 4), Span(3, lo, hi));
    forall t
      ensures t in Under(lo, hi) <==> t in a + b + c
    {
      UnderLevels(lo, hi, t);
    }
    assert Under(lo, hi) == a + b + c;
  }

  lemma LevelsApart(f1: nat, n1: nat, f2: nat, n2: nat, f3: nat, n3: nat)
    ensures Level(1, f1, n1) !! Level(2, f2, n2) && Level(1, f1, n1) + Level(2, f2, n2) !! Level(3, f3, n3)
  {
  }

  lemma UnderLevels(lo: nat, hi: nat, t: TableId)
    requires lo < hi
    ensures t in Under(lo, hi) <==>
              t in LevelUnder(1, lo, hi) || t in LevelUnder(2, lo, hi) || t in LevelUnder(3, lo, hi)
  {
    UnderRange(lo, hi, t);
    hide Under, Shift;
  }

  lemma UnderRange(lo: nat, hi: nat, t: TableId)
    requires lo < hi
    ensures t in Under(lo, hi) <==>
              1 <= t.level <= 3 && Shift(lo, t.level + 1) <= t.key <= Shift(hi - 1, t.level + 1)
  {
  }

  lemma TablesNeeded()
    ensures |Under(0, MAPPED_LIMIT)| == TABLES
  {
    UnderSize(0, MAPPED_LIMIT);
  }

  /** Frames below the limit need no more tables; others need at most a few. */
  lemma PlanSize(lo: nat, hi: nat)
    ensures hi <= MAPPED_LIMIT ==> |Needed(MAPPED_LIMIT, lo, hi)| == TABLES
    ensures TABLES <= |Needed(MAPPED_LIMIT, lo, hi)|
    ensures hi <= lo + PAGE_SIZE * (TABLES + MORE_TABLES) ==>
              |Needed(MAPPED_LIMIT, lo, hi)| <= TABLES + MORE_TABLES
  {
    TablesNeeded();
    var a, b := Under(0, MAPPED_LIMIT), Under(lo, hi);
    if lo < hi {
      UnderSize(lo, hi);
      if hi <= MAPPED_LIMIT {
        assert b <= a by { UnderInside(lo, hi); }
        assert a + b == a;
      }
    } else {
      assert b == {};
      assert a + b == a;
    }
    hide Under;
    UnionSize(a, b);
  }

  lemma UnderInside(lo: nat, hi: nat)
    requires hi <= MAPPED_LIMIT
    ensures Under(lo, hi) <= Under(0, MAPPED_LIMIT)
  {
  }

  lemma UnionSize<T>(a: set<T>, b: set<T>)
    ensures |a| <= |a + b| <= |a| + |b|
  {
    assert a + b == a + (b - a);
    assert |a + (b - a)| == |a| + |b - a|;
    assert b == (b - a) + (b * a);
  }

  /** The pages below the limit and those of the frames that were handed out are mapped, and no other. */
  ghost predicate MapsExactly(s: Space, pages: nat) {
    forall p: nat :: Mapped(s, p) <==> p < pages || s.base <= p * PAGE_SIZE < s.placement
  }

  lemma TablesInPlan(s: Space, nPages: nat, plan: Plan)
    requires Tree(s) && Funded(s, nPages, plan)
    ensures ROOT in s.dir && forall t <- s.dir :: t == ROOT || t in Needed(plan.limit, s.base, s.placement)
  {
    hide AllPlaced, AllLinked, AllEntriesOk, Distinct, Needed;
  }

  /** Once every page below the limit is mapped, the tables are exactly the needed ones. */
  lemma AllTablesBuilt(s: Space, nPages: nat, plan: Plan)
    requires Tree(s) && Funded(s, nPages, plan) && plan.limit == MAPPED_LIMIT
    requires MapsExactly(s, MAPPED_LIMIT / PAGE_SIZE)
    ensures s.dir.Keys == Needed(MAPPED_LIMIT, s.base, s.placement) + {ROOT}
    ensures |s.dir| == |Needed(MAPPED_LIMIT, s.base, s.placement)| + 1
  {
    hide Needed, Tree, MapsExactly, Funded;
    var needed := Needed(MAPPED_LIMIT, s.base, s.placement);
    TablesInPlan(s, nPages, plan);
    forall t <- needed
      ensures t in s.dir
    {
      NeededMapped(s, t);
    }
    RootNotNeeded(MAPPED_LIMIT, s.base, s.placement);
    assert needed + {ROOT} == s.dir.Keys;
    assert |s.dir.Keys| == |s.dir|;
  }

  /** Every table under a range translates an address in it. */
  lemma UnderWitness(lo: nat, hi: nat, t: TableId) returns (va: nat)
    requires t in Under(lo, hi)
    ensures lo <= va < hi && 1 <= t.level <= 3 && Covering(t.level, va) == t
  {
    va := if lo <= Start(t) then Start(t) else lo;
    StartCovers(lo, hi, t);
  }

  /** The first address that the table translates. */
  function Start(t: TableId): nat {
    t.key * if t.level == 1 then 0x20_0000 else if t.level == 2 then 0x4000_0000 else 0x80_0000_0000
  }

  lemma StartCovers(lo: nat, hi: nat, t: TableId)
    requires lo < hi && 1 <= t.level <= 3 && Shift(lo, t.level + 1) <= t.key <= Shift(hi - 1, t.level + 1)
    ensures Start(t) < hi && Shift(Start(t), t.level + 1) == t.key
    ensures Start(t) < lo ==> Shift(lo, t.level + 1) == t.key
  {
  }

  lemma NeededMapped(s: Space, t: TableId)
    requires Tree(s) && t in Needed(MAPPED_LIMIT, s.base, s.placement)
    requires MapsExactly(s, MAPPED_LIMIT / PAGE_SIZE)
    ensures t in s.dir
  {
    hide Tree, Mapped, Under;
    var va;
    if t in Under(0, MAPPED_LIMIT) {
      va := UnderWitness(0, MAPPED_LIMIT, t);
    } else {
      va := UnderWitness(s.base, s.placement, t);
      PlacementAligned(s);
      PageStart(s.base, va);
    }
    MappedAbove(s, t.level, va);
  }

  lemma MappedAbove(s: Space, level: nat, va: nat)
    requires Tree(s) && Mapped(s, va / PAGE_SIZE) && 1 <= level <= 3
    ensures Covering(level, va) in s.dir
  {
    assert AllLinked(s) && AllPlaced(s);
    hide Tree, AllLinked, AllPlaced, Mapped;
    MappedCovered(s, va);
    CoveredBelowLimit(s, va);
    AncestorsPresent(s, 1, level, va);
  }

  lemma CoveredBelowLimit(s: Space, va: nat)
    requires AllPlaced(s) && Covering(1, va) in s.dir
    ensures va < ADDRESS_LIMIT
  {
    assert Placed(s, Covering(1, va));
  }

  lemma PageStart(base: nat, va: nat)
    requires base % PAGE_SIZE == 0 && base <= va
    ensures base <= va / PAGE_SIZE * PAGE_SIZE <= va
  {
  }

  lemma MappedCovered(s: Space, va: nat)
    requires Mapped(s, va / PAGE_SIZE)
    ensures Covering(1, va) in s.dir
  {
    ShiftSplits(1, va);
    assert Covering(1, va) == TableId(1, va / PAGE_SIZE / 512);
  }

  lemma FreshFrameMapped(s0: Space, s1: Space, s2: Space)
    requires s1.placement == s0.placement + PAGE_SIZE && s0.placement % PAGE_SIZE == 0
    requires s1.placement <= s2.placement
    requires forall p: nat :: Mapped(s1, p) <==> Mapped(s0, p)
    requires MapsAlso(s1, s2, {s0.placement / PAGE_SIZE})
    ensures MapsAlso(s0, s2, {})
  {
    hide Mapped;
  }

  lemma Chain(s0: Space, s1: Space, s2: Space, s3: Space)
    requires Extends(s0, s1) && Extends(s1, s2) && Extends(s2, s3)
    requires MapsAlso(s0, s1, {}) && MapsAlso(s1, s2, {}) && MapsAlso(s2, s3, {})
    ensures Extends(s0, s3) && MapsAlso(s0, s3, {})
  {
    hide Mapped;
    ExtendsTrans(s0, s1, s2);
    ExtendsTrans(s0, s2, s3);
  }

  lemma OnePageMore(s0: Space, s: Space, s': Space, va: nat)
    requires Extends(s0, s) && Extends(s, s')
    requires MapsAlso(s, s', {va / PAGE_SIZE}) && MapsExactly(s, va / PAGE_SIZE) && s.base <= s.placement
    ensures Extends(s0, s') && MapsExactly(s', va / PAGE_SIZE + 1)
  {
    hide Mapped;
    ExtendsTrans(s0, s, s');
  }

  lemma Untouched(s: Space, s': Space)
    requires Extends(s, s') && AllPlaced(s')
    ensures forall a <- s.ram :: a != s.root && !(s'.base <= a < s'.placement) ==> a in s'.ram && s'.ram[a] == s.ram[a]
  {
    forall t <- s'.dir
      ensures s'.dir[t] == s.root || s'.base <= s'.dir[t] < s'.placement
    {
      assert Placed(s', t);
    }
  }

  // ---------- the firmware's memory map ----------

  datatype MemInfo = MemInfo(mMap: nat, mSize: nat, mDescriptorSize: nat)

  /** `get_mmap_entries` */
  function MmapEntries(info: MemInfo): nat
    requires info.mDescriptorSize > 0
  {
    info.mSize / info.mDescriptorSize
  }

  /** `mmap_iterator_helper`: the address of descriptor `i`. */
  function DescriptorAddress(i: nat, info: MemInfo): nat {
    info.mMap + i * info.mDescriptorSize
  }

  /** The descriptors that the loop of `set_placement` visits, read from firmware memory. */
  ghost predicate Describes(mem: map<nat, MemDesc>, info: MemInfo, ds: seq<MemDesc>) {
    && info.mDescriptorSize > 0
    && |ds| == MmapEntries(info)
    && forall i | 0 <= i < |ds| :: DescriptorAddress(i, info) in mem && mem[DescriptorAddress(i, info)] == ds[i]
  }

  /** The descriptors lie one behind the other from the start of the map, and are all that lie within its
    * size as a whole. */
  lemma DescriptorsFill(info: MemInfo, i: nat)
    requires info.mDescriptorSize > 0
    ensures i < MmapEntries(info) <==> DescriptorAddress(i, info) + info.mDescriptorSize <= info.mMap + info.mSize
    ensures DescriptorAddress(0, info) == info.mMap
    ensures DescriptorAddress(i + 1, info) == DescriptorAddress(i, info) + info.mDescriptorSize
  {
    var d, n := info.mDescriptorSize, MmapEntries(info);
    assert n * d <= info.mSize < n * d + d;
    assert (i + 1) * d == i * d + d && (n + 1) * d == n * d + d;
    if i < n {
      NoLess(i + 1, n, d);
    } else {
      NoLess(n + 1, i + 1, d);
    }
  }

  lemma NoLess(a: nat, b: nat, d: nat)
    requires a <= b
    ensures a * d <= b * d
  {
  }

  /** `i` is the first of the usable segments (EfiConventionalMemory) with the most pages. */
  ghost predicate Largest(ds: seq<MemDesc>, i: nat) {
    && i < |ds| && ds[i].kind == 7 && ds[i].nPages > 0
    && (forall j | 0 <= j < |ds| && ds[j].kind == 7 :: ds[j].nPages <= ds[i].nPages)
    && (forall j | 0 <= j < i && ds[j].kind == 7 :: ds[j].nPages < ds[i].nPages)
  }

  /** How many frames the segment has to have. */
  function FramesFor(start: nat): nat {
    if start + PAGE_SIZE * TABLES <= MAPPED_LIMIT then TABLES else TABLES + MORE_TABLES
  }

  /** What `init_vmm` needs of the segment it will take its tables from: it is aligned, has room for
    * the tables, and that room is RAM, apart from the static PML4. */
  ghost predicate Suitable(d: MemDesc, ram: Ram, pml4: nat) {
    var n := FramesFor(d.physAddr);
    && pml4 in ram && pml4 % PAGE_SIZE == 0
    && d.physAddr % PAGE_SIZE == 0
    && d.nPages >= n
    && d.physAddr + PAGE_SIZE * n <= ADDRESS_LIMIT
    && forall k: nat | k < n :: FrameAt(d.physAddr, k) in ram && FrameAt(d.physAddr, k) != pml4
  }

  function PlanFor(start: nat): Plan {
    Plan(MAPPED_LIMIT, start + PAGE_SIZE * FramesFor(start))
  }

  lemma EmptyTree(s: Space)
    requires s.root in s.ram && s.root % PAGE_SIZE == 0 && s.base % PAGE_SIZE == 0
    requires s.ram[s.root] == ZeroTable() && s.dir == map[ROOT := s.root]
    requires s.base == s.placement <= ADDRESS_LIMIT
    ensures Tree(s) && MapsExactly(s, 0)
  {
    assert |s.dir| == 1;
  }

  lemma RootNotNeeded(limit: nat, lo: nat, hi: nat)
    ensures ROOT !in Needed(limit, lo, hi)
  {
  }

  lemma EmptyFunded(s: Space, d: MemDesc)
    requires Suitable(d, s.ram, s.root) && s.dir == map[ROOT := s.root] && s.base == s.placement == d.physAddr
    ensures Funded(s, d.nPages, PlanFor(d.physAddr))
  {
    var plan := PlanFor(d.physAddr);
    hide Needed;
    PlanSize(s.base, plan.hi);
    RootNotNeeded(MAPPED_LIMIT, s.base, plan.hi);
    var all := Needed(MAPPED_LIMIT, s.base, plan.hi);
    assert all - s.dir.Keys == all;
  }

  /** The space right after the PML4 was cleared. */
  lemma Begin(s: Space, d: MemDesc)
    requires Suitable(d, s.ram, s.root) && s.ram[s.root] == ZeroTable()
    requires s.dir == map[ROOT := s.root] && s.base == s.placement == d.physAddr
    ensures Tree(s) && Funded(s, d.nPages, PlanFor(d.physAddr)) && MapsExactly(s, 0) && Extends(s, s)
  {
    hide Tree, Funded, MapsExactly, Mapped, Extends;
    EmptyTree(s);
    EmptyFunded(s, d);
    ExtendsSelf(s);
  }

  /** Every address below the limit or from `lo` to below `hi` translates to itself, with full access,
    * and no other address translates. */
  ghost predicate Translates(ram: Ram, root: nat, lo: nat, hi: nat) {
    forall va: nat | va < ADDRESS_LIMIT ::
      Walk(ram, root, 4, va)
      == if va < 0x1_8000_0000 || lo <= va < hi then Some(Translation(va, true, true, true)) else None
  }

  /** The frames from the start of the segment to `placement` are as many as the tables needed for the
    * addresses below the limit and for these frames, and are gone from the segment. */
  ghost predicate Paid(segment: MemDesc, rest: MemDesc, placement: nat) {
    var frames := |Needed(MAPPED_LIMIT, segment.physAddr, placement)|;
    && placement == segment.physAddr + PAGE_SIZE * frames
    && frames <= segment.nPages && rest == segment.(nPages := segment.nPages - frames)
    && TABLES <= frames <= TABLES + MORE_TABLES
    && (segment.physAddr + PAGE_SIZE * TABLES <= MAPPED_LIMIT ==> frames == TABLES)
  }

  lemma Settled(segment: MemDesc, rest: MemDesc, placement: nat)
    requires segment.nPages >= FramesFor(segment.physAddr)
    requires var frames := |Needed(MAPPED_LIMIT, segment.physAddr, placement)|;
      && placement == segment.physAddr + PAGE_SIZE * frames
      && rest.nPages + frames == segment.nPages && rest == segment.(nPages := rest.nPages)
    requires placement <= PlanFor(segment.physAddr).hi
    ensures Paid(segment, rest, placement)
  {
    hide Needed;
    PlanSize(segment.physAddr, placement);
  }

  /** The space once every page below the limit is mapped. */
  lemma Finished(s0: Space, s: Space, nPages: nat, start: nat)
    requires Extends(s0, s) && Tree(s) && Funded(s, nPages, PlanFor(start)) && s.base == start
    requires MapsExactly(s, MAPPED_LIMIT / PAGE_SIZE)
    ensures Translates(s.ram, s.root, s.base, s.placement)
    ensures |s.dir| == |Needed(MAPPED_LIMIT, s.base, s.placement)| + 1
    ensures s.placement == s.base + PAGE_SIZE * |Needed(MAPPED_LIMIT, s.base, s.placement)|
    ensures SelfMapped(s)
    ensures forall a <- s0.ram :: a != s.root && !(s.base <= a < s.placement) ==> a in s.ram && s.ram[a] == s0.ram[a]
  {
    assert AllPlaced(s) && Bumped(s);
    hide Funded, Mapped, Tree, AllPlaced, Extends, Needed, MapsExactly, Translates;
    AllTablesBuilt(s, nPages, PlanFor(start));
    IdentityThere(s);
    FramesMapped(s);
    Untouched(s0, s);
  }

  lemma FramesMapped(s: Space)
    requires AllPlaced(s) && MapsExactly(s, MAPPED_LIMIT / PAGE_SIZE)
    ensures SelfMapped(s)
  {
    hide Mapped;
    forall t <- s.dir | t != ROOT
      ensures Mapped(s, s.dir[t] / PAGE_SIZE)
    {
      assert Placed(s, t);
      assert s.dir[t] / PAGE_SIZE * PAGE_SIZE == s.dir[t];
    }
  }

  /** After a full pass of `map_page`, every address below the limit or in a frame that was handed out
    * translates to itself with full access, and no other address translates at all. */
  lemma IdentityThere(s: Space)
    requires Tree(s) && MapsExactly(s, MAPPED_LIMIT / PAGE_SIZE)
    ensures Translates(s.ram, s.root, s.base, s.placement)
  {
    PlacementAligned(s);
    hide Walk, Tree, Mapped;
    forall va: nat | va < ADDRESS_LIMIT
      ensures Walk(s.ram, s.root, 4, va)
           == if va < MAPPED_LIMIT || s.base <= va < s.placement then Some(Translation(va, true, true, true)) else None
    {
      RootCovers(s, va);
      WalkIsIdentity(s, 4, va);
      PageInside(s.base, s.placement, va);
    }
  }

  lemma PlacementAligned(s: Space)
    requires Tree(s)
    ensures s.base % PAGE_SIZE == 0 && s.placement % PAGE_SIZE == 0
  {
    hide AllPlaced, AllLinked, AllEntriesOk, Distinct;
  }

  lemma PageInside(lo: nat, hi: nat, va: nat)
    requires lo % PAGE_SIZE == 0 && hi % PAGE_SIZE == 0
    ensures lo <= va < hi <==> lo <= va / PAGE_SIZE * PAGE_SIZE < hi
    ensures va < MAPPED_LIMIT <==> va / PAGE_SIZE < MAPPED_LIMIT / PAGE_SIZE
  {
  }

  class AddressSpace {
    const pml4: nat
    var ram: Ram
    var placement: Word
    var biggestSegment: MemDesc
    ghost var dir: map<TableId, nat>
    ghost var base: nat

    constructor (pml4: nat, ram: Ram)
      ensures this.pml4 == pml4 && this.ram == ram
    {
      this.pml4 := pml4;
      this.ram := ram;
      placement := 0xE646000;
      biggestSegment := MemDesc(0, 0, 0, 0, 0);
      dir := map[];
      base := 0;
    }

    ghost function Now(): Space
      reads this
    {
      Space(ram, pml4, dir, base, placement)
    }

    ghost predicate Ready(plan: Plan)
      reads this
    {
      Tree(Now()) && Funded(Now(), biggestSegment.nPages, plan)
    }

    /** The bump allocator: the next frame, or NULL when the segment is used up. */
    method AllocPage() returns (page: Word)
      modifies this`placement, this`biggestSegment
      ensures if old(biggestSegment.nPages) == 0
              then page == 0 && placement == old(placement) && biggestSegment == old(biggestSegment)
              else && page == old(placement)
                   && placement == (old(placement) + PAGE_SIZE) % 0x1_0000_0000_0000_0000
                   && biggestSegment == old(biggestSegment).(nPages := old(biggestSegment.nPages) - 1)
    {
      if biggestSegment.nPages == 0 {
        return 0;
      }
      page := placement;
      placement := (placement + PAGE_SIZE) % 0x1_0000_0000_0000_0000;
      biggestSegment := biggestSegment.(nPages := biggestSegment.nPages - 1);
    }

    method ZeroPage(page: nat)
      requires page in ram
      modifies this`ram
      ensures ram == old(ram)[page := ZeroTable()]
    {
      ram := ram[page := ZeroTable()];
    }

    /** One of the three blocks of `map_page`: makes sure that `table`, of the given level, has a
      * table to continue with for `logical`, and maps the frame of a new table on the spot. */
    method EnsureTable(level: nat, table: nat, logical: Word, ghost plan: Plan) returns (next: nat)
      requires Ready(plan) && Wanted(Now(), logical, plan.limit) && 2 <= level <= 4
      requires Covering(level, logical) in dir && table == dir[Covering(level, logical)]
      modifies this`ram, this`placement, this`biggestSegment, this`dir
      ensures Ready(plan)
      ensures Extends(old(Now()), Now()) && MapsAlso(old(Now()), Now(), {})
      ensures Covering(level - 1, logical) in dir && next == dir[Covering(level - 1, logical)]
      ensures biggestSegment.nPages + |dir| == old(biggestSegment.nPages + |dir|)
      ensures biggestSegment == old(biggestSegment).(nPages := biggestSegment.nPages)
      ensures |dir| >= old(|dir|)
      decreases biggestSegment.nPages, 0
    {
      hide Tree, Funded, Extends, Mapped;
      ghost var s0 := Now();
      ExtendsSelf(s0);
      WantedAddress(s0, biggestSegment.nPages, plan, logical);
      TreeRead(s0, level, logical);
      var i := Index(logical, level);
      if !Present(ram[table][i]) {
        InstallNext(s0, biggestSegment.nPages, plan, level, logical);
        WordFields(placement);
        var alloc := AllocPage();
        ZeroPage(AddrOf(alloc));
        ram := ram[table := ram[table][i := AddrOf(alloc) + FLAGS]];
        dir := dir[Covering(level - 1, logical) := alloc];
        ghost var s1 := Now();
        assert s1 == WithTable(s0, Covering(level - 1, logical));
        MapPage(alloc, plan);
        CoverKept(s1, Now(), level, logical);
        CoverKept(s1, Now(), level - 1, logical);
        ExtendsTrans(s0, s1, Now());
        FreshFrameMapped(s0, s1, Now());
        TreeRead(Now(), level, logical);
      }
      next := AddrOf(ram[table][i]);
    }

    /** `map_page`. Every nested call follows the allocation of a frame, so `nPages` bounds them. */
    method MapPage(logical: Word, ghost plan: Plan)
      requires Ready(plan) && Wanted(Now(), logical, plan.limit)
      modifies this`ram, this`placement, this`biggestSegment, this`dir
      ensures Ready(plan)
      ensures Extends(old(Now()), Now())
      ensures MapsAlso(old(Now()), Now(), {logical / PAGE_SIZE})
      ensures biggestSegment.nPages + |dir| == old(biggestSegment.nPages + |dir|)
      ensures biggestSegment == old(biggestSegment).(nPages := biggestSegment.nPages)
      ensures |dir| >= old(|dir|)
      decreases biggestSegment.nPages, 1
    {
      hide Tree, Funded, Extends, Mapped;
      ghost var s0 := Now();
      WantedAddress(s0, biggestSegment.nPages, plan, logical);
      RootCovers(s0, logical);
      var pdpt := EnsureTable(4, pml4, logical, plan);
      ghost var s1 := Now();
      WantedKept(s0, s1, logical, plan.limit);
      var pdt := EnsureTable(3, pdpt, logical, plan);
      ghost var s2 := Now();
      WantedKept(s1, s2, logical, plan.limit);
      var pt := EnsureTable(2, pdt, logical, plan);
      ghost var s3 := Now();
      Chain(s0, s1, s2, s3);
      Finish(s3, biggestSegment.nPages, plan, logical);
      var i := Index(logical, 1);
      if !Present(ram[pt][i]) {
        ram := ram[pt := ram[pt][i := AddrOf(logical) + FLAGS]];
        assert Now() == WithLeaf(s3, logical / PAGE_SIZE);
        ExtendsTrans(s0, s3, Now());
      }
    }

    /** `set_placement` chooses the first of the largest usable segments; with no usable page at all
      * it leaves the previous segment in place, with no pages. */
    method SetPlacement(info: MemInfo, mem: map<nat, MemDesc>, ghost ds: seq<MemDesc>)
      requires Describes(mem, info, ds)
      modifies this`placement, this`biggestSegment
      ensures placement == biggestSegment.physAddr
      ensures forall i: nat :: Largest(ds, i) ==> biggestSegment == ds[i]
      ensures (forall i: nat :: !Largest(ds, i)) ==> biggestSegment == old(biggestSegment).(nPages := 0)
    {
      var entries := MmapEntries(info);
      biggestSegment := biggestSegment.(nPages := 0);
      ghost var best: nat := 0;
      for i := 0 to entries
        invariant if biggestSegment.nPages == 0
                  then && biggestSegment == old(biggestSegment).(nPages := 0)
                       && forall j | 0 <= j < i && ds[j].kind == MMAP_USABLE_MEMORY :: ds[j].nPages == 0
                  else Largest(ds[..i], best) && biggestSegment == ds[best]
      {
        var cur := mem[DescriptorAddress(i, info)];
        if cur.nPages > biggestSegment.nPages && cur.kind == MMAP_USABLE_MEMORY {
          biggestSegment := cur;
          best := i;
        }
      }
      assert ds[..entries] == ds;
      placement := biggestSegment.physAddr;
    }

    /** The loop of `init_vmm`: maps every page below 6 GiB. */
    method MapBelowLimit(ghost plan: Plan)
      requires Ready(plan) && plan.limit == MAPPED_LIMIT && MapsExactly(Now(), 0)
      modifies this`ram, this`placement, this`biggestSegment, this`dir
      ensures Ready(plan) && Extends(old(Now()), Now()) && MapsExactly(Now(), MAPPED_LIMIT / PAGE_SIZE)
      ensures biggestSegment.nPages + |dir| == old(biggestSegment.nPages + |dir|)
      ensures biggestSegment == old(biggestSegment).(nPages := biggestSegment.nPages)
    {
      hide Tree, Funded, Extends, Mapped, MapsExactly;
      ghost var s0 := Now();
      ExtendsSelf(s0);
      var i := 0;
      while i < MAPPED_LIMIT
        invariant 0 <= i <= MAPPED_LIMIT && i % PAGE_SIZE == 0
        invariant Ready(plan) && MapsExactly(Now(), i / PAGE_SIZE) && Extends(s0, Now())
        invariant biggestSegment.nPages + |dir| == old(biggestSegment.nPages + |dir|)
        invariant biggestSegment == old(biggestSegment).(nPages := biggestSegment.nPages)
      {
        ghost var s1 := Now();
        BaseBelow(s1);
        MapPage(i, plan);
        OnePageMore(s0, s1, Now(), i);
        i := i + PAGE_SIZE;
      }
    }

    /** `init_vmm` up to loading the PML4. The frames taken are exactly as many as the tables needed for
      * the addresses below 6 GiB and for these frames. */
    method InitVmm(info: MemInfo, mem: map<nat, MemDesc>, ghost ds: seq<MemDesc>, ghost best: nat)
      requires Describes(mem, info, ds) && Largest(ds, best) && Suitable(ds[best], ram, pml4)
      modifies this
      ensures base == ds[best].physAddr && Translates(ram, pml4, base, placement)
      ensures Paid(ds[best], biggestSegment, placement)
      ensures Tree(Now()) && SelfMapped(Now())
      ensures forall a <- old(ram) :: a != pml4 && !(base <= a < placement) ==> a in ram && ram[a] == old(ram[a])
    {
      hide Tree, Funded, Extends, Mapped, MapsExactly, SelfMapped, Describes, Translates, Paid, Needed;
      SetPlacement(info, mem, ds);
      ZeroPage(pml4);
      dir := map[ROOT := pml4];
      base := placement;
      ghost var s0, plan := Now(), PlanFor(base);
      Begin(s0, ds[best]);
      hide Suitable, Largest, ZeroTable;
      MapBelowLimit(plan);
      Finished(s0, Now(), biggestSegment.nPages, base);
      PlacementFits(Now(), biggestSegment.nPages, plan);
      Settled(ds[best], biggestSegment, placement);
    }
  }
}
