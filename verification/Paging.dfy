/** The four-level page tables that the kernel builds: the entry format, the walk that the
  * processor performs, and the invariant that ties the tables in RAM to the tree they form.
  * The entry format is that of section 4.5 of the Intel SDM, volume 3A.
  */
module Paging {
  import opened Options
  import opened Words

  const PAGE_SIZE: nat := 4096
  const ADDRESS_LIMIT: nat := 0x1_0000_0000_0000

  /** PAGE_BIT_P_PRESENT | PAGE_BIT_RW_WRITABLE | PAGE_BIT_US_USER */
  const FLAGS: nat := 7

  type Table = t: seq<Word> | |t| == 512 witness seq(512, _ => 0)
  type Ram = map<nat, Table>

  /** `w & PAGE_BIT_P_PRESENT` */
  predicate Present(w: Word) {
    w % 2 == 1
  }

  predicate Writable(w: Word) {
    w / 2 % 2 == 1
  }

  predicate User(w: Word) {
    w / 4 % 2 == 1
  }

  /** Bit 7: above the last level, the entry does not lead to a table. */
  predicate Large(w: Word) {
    w / 0x80 % 2 == 1
  }

  /** Bit 63 forbids to execute. */
  predicate Executable(w: Word) {
    w < 0x8000_0000_0000_0000
  }

  /** `w & PAGE_ADDR_MASK`, which keeps bits 12 to 51. */
  function AddrOf(w: Word): Word {
    w / 4096 % 0x100_0000_0000 * 4096
  }

  /** `va >> (12 + 9 * (level - 1))`: the number of the entry, counted over all tables of the given
    * level (1 = page table, 4 = PML4), that translates `va`. */
  function Shift(va: nat, level: nat): nat {
    match level
    case 1 => va / 0x1000
    case 2 => va / 0x20_0000
    case 3 => va / 0x4000_0000
    case 4 => va / 0x80_0000_0000
    case _ => va / 0x1_0000_0000_0000
  }

  /** `(va >> (12 + 9 * (level - 1))) & 0x1ff` */
  function Index(va: nat, level: nat): nat {
    Shift(va, level) % 512
  }

  // ---------- the processor's walk ----------

  datatype Translation = Translation(phys: nat, writable: bool, user: bool, executable: bool)

  /** The address of the table at level `target` that translates `va`, found by following
    * present entries from `table`; None when some entry on the way is absent or leads to no table. */
  function Descend(ram: Ram, table: nat, level: nat, target: nat, va: nat): Option<nat>
    decreases level
  {
    if level <= target then Some(table)
    else if table !in ram || !Present(ram[table][Index(va, level)]) || Large(ram[table][Index(va, level)]) then None
    else Descend(ram, AddrOf(ram[table][Index(va, level)]), level - 1, target, va)
  }

  /** What an entry of this level translates on the spot: a page of 2 MiB at level 2 and of 1 GiB at level
    * 3, if the bits between its flags and its address are zero. At level 4 this is not allowed. */
  function LargePage(w: Word, level: nat, va: nat): Option<nat> {
    var size := if level == 2 then 0x20_0000 else 0x4000_0000;
    if level >= 4 || AddrOf(w) % size > 0x1000 then None else Some(AddrOf(w) / size * size + va % size)
  }

  /** The translation of `va`: access is allowed only where every entry on the way allows it. */
  function Walk(ram: Ram, table: nat, level: nat, va: nat): Option<Translation>
    decreases level
  {
    if level == 0 then Some(Translation(table + va % PAGE_SIZE, true, true, true))
    else if table !in ram || !Present(ram[table][Index(va, level)]) then None
    else
      var w := ram[table][Index(va, level)];
      if level > 1 && Large(w) then
        match LargePage(w, level, va)
        case None => None
        case Some(phys) => Some(Translation(phys, Writable(w), User(w), Executable(w)))
      else
        match Walk(ram, AddrOf(w), level - 1, va)
        case None => None
        case Some(t) =>
          Some(Translation(t.phys, t.writable && Writable(w), t.user && User(w), t.executable && Executable(w)))
  }

  // ---------- the tree of tables ----------

  /** A table is named by its level and by the virtual addresses it translates. */
  datatype TableId = TableId(level: nat, key: nat)

  const ROOT: TableId := TableId(4, 0)

  function Parent(t: TableId): TableId {
    TableId(t.level + 1, t.key / 512)
  }

  function Child(t: TableId, i: nat): TableId
    requires t.level > 0
  {
    TableId(t.level - 1, t.key * 512 + i)
  }

  /** The table at the given level that translates `va`. */
  function Covering(level: nat, va: nat): TableId {
    TableId(level, Shift(va, level + 1))
  }

  /** The tables below the root that translate some address from `lo` to below `hi`. */
  ghost function Under(lo: nat, hi: nat): set<TableId> {
    set l, k | 1 <= l <= 3 && 0 <= k < hi && lo < hi && Shift(lo, l + 1) <= k <= Shift(hi - 1, l + 1) :: TableId(l, k)
  }

  /** RAM together with the tree built in it: `dir` gives each table's address, and frames from
    * `base` to `placement` have been handed out by the allocator. */
  datatype Space = Space(ram: Ram, root: nat, dir: map<TableId, nat>, base: nat, placement: nat)

  /** Entry `i` of table `t` is absent, an identity leaf, or a link to the child table. */
  ghost predicate EntryOk(s: Space, t: TableId, i: nat)
    requires t in s.dir && s.dir[t] in s.ram && i < 512
  {
    var w := s.ram[s.dir[t]][i];
    || w == 0
    || (t.level == 1 && w == (t.key * 512 + i) * PAGE_SIZE + FLAGS)
    || (t.level > 1 && Child(t, i) in s.dir && w == s.dir[Child(t, i)] + FLAGS)
  }

  ghost predicate Linked(s: Space, t: TableId)
    requires t in s.dir
  {
    var p := Parent(t);
    p in s.dir && s.dir[p] in s.ram && s.ram[s.dir[p]][t.key % 512] == s.dir[t] + FLAGS
  }

  ghost predicate Placed(s: Space, t: TableId)
    requires t in s.dir
  {
    && 1 <= t.level <= 4
    && t.key <= Shift(ADDRESS_LIMIT - 1, t.level + 1)
    && s.dir[t] in s.ram
    && if t == ROOT then s.dir[t] == s.root else s.base <= s.dir[t] < s.placement && s.dir[t] % PAGE_SIZE == 0
  }

  ghost predicate AllPlaced(s: Space) {
    forall t <- s.dir :: Placed(s, t)
  }

  ghost predicate AllLinked(s: Space) {
    forall t <- s.dir :: t != ROOT ==> Linked(s, t)
  }

  ghost predicate AllEntriesOk(s: Space) {
    forall t <- s.dir, i | 0 <= i < 512 :: s.dir[t] in s.ram && EntryOk(s, t, i)
  }

  ghost predicate Distinct(s: Space) {
    forall t <- s.dir, u <- s.dir :: t != u ==> s.dir[t] != s.dir[u]
  }

  ghost predicate Bumped(s: Space) {
    && ROOT in s.dir
    && s.base % PAGE_SIZE == 0 && s.root % PAGE_SIZE == 0
    && s.placement == s.base + PAGE_SIZE * (|s.dir| - 1)
    && s.placement <= ADDRESS_LIMIT
    && !(s.base <= s.root < s.placement)
  }

  ghost predicate Tree(s: Space) {
    Bumped(s) && AllPlaced(s) && AllLinked(s) && AllEntriesOk(s) && Distinct(s)
  }

  /** The page with number `page` has a leaf entry. */
  ghost predicate Mapped(s: Space, page: nat) {
    var t := TableId(1, page / 512);
    t in s.dir && s.dir[t] in s.ram && s.ram[s.dir[t]][page % 512] != 0
  }

  /** `s'` extends `s`: no table moves, no non-zero entry of a table changes, and RAM outside the
    * tables is as before. */
  ghost predicate Extends(s: Space, s': Space) {
    && s.root == s'.root && s.base == s'.base && s.placement <= s'.placement
    && s.ram.Keys == s'.ram.Keys
    && (forall t <- s.dir :: t in s'.dir && s'.dir[t] == s.dir[t])
    && (forall t <- s'.dir :: t in s.dir || s.placement <= s'.dir[t])
    && (forall t <- s.dir, i | 0 <= i < 512 && s.dir[t] in s.ram && s.ram[s.dir[t]][i] != 0 ::
          s'.ram[s.dir[t]][i] == s.ram[s.dir[t]][i])
    && (forall a <- s.ram :: a !in s'.dir.Values ==> s'.ram[a] == s.ram[a])
  }

  lemma ExtendsTrans(a: Space, b: Space, c: Space)
    requires Extends(a, b) && Extends(b, c)
    ensures Extends(a, c)
  {
    forall x <- a.ram | x !in c.dir.Values
      ensures c.ram[x] == a.ram[x]
    {
      assert forall t <- b.dir :: c.dir[t] == b.dir[t];
    }
  }

  // ---------- the walk follows the tree ----------

  lemma ShiftSplits(level: nat, va: nat)
    requires 1 <= level <= 4
    ensures Shift(va, level) / 512 == Shift(va, level + 1)
  {
  }

  /** The four indices are the four nine-bit fields of the address above its page offset. */
  lemma IndexFields(va: nat)
    requires va < 0x1_0000_0000_0000
    ensures va == Index(va, 4) * 0x80_0000_0000 + Index(va, 3) * 0x4000_0000
                  + Index(va, 2) * 0x20_0000 + Index(va, 1) * 0x1000 + va % 0x1000
    ensures forall level | 1 <= level <= 4 :: Index(va, level) < 0x200
  {
    assert va == Shift(va, 1) * 0x1000 + va % 0x1000 && Shift(va, 5) == 0;
    ShiftSplits(1, va);
    ShiftSplits(2, va);
    ShiftSplits(3, va);
    ShiftSplits(4, va);
    hide Shift;
  }

  lemma ChildCovers(level: nat, va: nat)
    requires 2 <= level <= 4
    ensures Child(Covering(level, va), Index(va, level)) == Covering(level - 1, va)
    ensures Parent(Covering(level - 1, va)) == Covering(level, va)
    ensures Covering(level - 1, va).key % 512 == Index(va, level)
  {
    ShiftSplits(level, va);
  }

  /** An aligned address below the limit survives the flags. */
  lemma WordFields(a: nat)
    requires a % PAGE_SIZE == 0 && a < ADDRESS_LIMIT
    ensures var w: Word := a + FLAGS;
            Present(w) && Writable(w) && User(w) && Executable(w) && !Large(w) && AddrOf(w) == a
  {
  }

  /** Bit by bit, a present entry is the address of a table or of its page, aligned and below 2^48, with
    * the lowest three bits set and no other. */
  lemma TableEntry(s: Space, t: TableId, i: nat)
    requires AllPlaced(s) && AllEntriesOk(s) && Bumped(s) && t in s.dir && i < 512
    ensures s.dir[t] in s.ram
    ensures var w := s.ram[s.dir[t]][i];
      || w == 0
      || (t.level == 1 && w == t.key * 0x20_0000 + i * 0x1000 + 0x7 && w < 0x1_0000_0000_0000)
      || (t.level > 1 && Child(t, i) in s.dir && w == s.dir[Child(t, i)] + 0x7 && w % 0x1000 == 0x7
          && w < 0x1_0000_0000_0000)
  {
    assert Placed(s, t) && EntryOk(s, t, i);
    if t.level > 1 && Child(t, i) in s.dir {
      assert Placed(s, Child(t, i));
    }
  }

  /** What the walk reads at one level: a link to the next table exactly when that table exists. */
  lemma LinkRead(s: Space, level: nat, va: nat)
    requires AllPlaced(s) && AllLinked(s) && AllEntriesOk(s) && s.placement <= ADDRESS_LIMIT
    requires va < ADDRESS_LIMIT && 2 <= level <= 4
    requires Covering(level, va) in s.dir
    ensures s.dir[Covering(level, va)] in s.ram
    ensures var w := s.ram[s.dir[Covering(level, va)]][Index(va, level)];
            var c := Covering(level - 1, va);
            if c in s.dir
            then Present(w) && Writable(w) && User(w) && Executable(w) && !Large(w) && AddrOf(w) == s.dir[c]
            else w == 0
  {
    var t, i, c := Covering(level, va), Index(va, level), Covering(level - 1, va);
    ChildCovers(level, va);
    assert Placed(s, t) && EntryOk(s, t, i);
    if c in s.dir {
      assert Placed(s, c) && Linked(s, c);
      WordFields(s.dir[c]);
    }
  }

  lemma LeafRead(s: Space, va: nat)
    requires AllPlaced(s) && AllEntriesOk(s) && va < ADDRESS_LIMIT
    requires Covering(1, va) in s.dir
    ensures s.dir[Covering(1, va)] in s.ram
    ensures var w := s.ram[s.dir[Covering(1, va)]][Index(va, 1)];
            if Mapped(s, va / PAGE_SIZE)
            then Present(w) && Writable(w) && User(w) && Executable(w) && AddrOf(w) == va / PAGE_SIZE * PAGE_SIZE
            else w == 0
  {
    var t := Covering(1, va);
    ShiftSplits(1, va);
    assert t == TableId(1, va / PAGE_SIZE / 512);
    assert Placed(s, t) && EntryOk(s, t, Index(va, 1));
    WordFields(va / PAGE_SIZE * PAGE_SIZE);
  }

  /** A table is present only if every table above it is. */
  lemma {:induction false} AncestorsPresent(s: Space, level: nat, upper: nat, va: nat)
    requires AllLinked(s) && va < ADDRESS_LIMIT && 1 <= level <= upper <= 4
    requires Covering(level, va) in s.dir
    ensures Covering(upper, va) in s.dir
    decreases upper - level
  {
    if level < upper {
      assert Linked(s, Covering(level, va));
      hide AllLinked;
      ChildCovers(level + 1, va);
      AncestorsPresent(s, level + 1, upper, va);
    }
  }

  /** The addresses in `dir` are the ones the processor reaches: `dir` adds nothing to RAM. */
  lemma {:induction false} DescendFollowsTree(s: Space, level: nat, target: nat, va: nat)
    requires Tree(s) && va < ADDRESS_LIMIT && 1 <= target <= level <= 4
    requires Covering(level, va) in s.dir
    ensures Descend(s.ram, s.dir[Covering(level, va)], level, target, va)
         == if Covering(target, va) in s.dir then Some(s.dir[Covering(target, va)]) else None
    decreases level
  {
    hide AllPlaced, AllLinked, AllEntriesOk, Distinct;
    if level > target {
      LinkRead(s, level, va);
      if Covering(level - 1, va) in s.dir {
        DescendFollowsTree(s, level - 1, target, va);
      } else if Covering(target, va) in s.dir {
        AncestorsPresent(s, target, level - 1, va);
      }
    }
  }

  lemma WalkAtLeaf(s: Space, va: nat)
    requires AllPlaced(s) && AllEntriesOk(s) && va < ADDRESS_LIMIT
    requires Covering(1, va) in s.dir
    ensures Walk(s.ram, s.dir[Covering(1, va)], 1, va)
         == if Mapped(s, va / PAGE_SIZE) then Some(Translation(va, true, true, true)) else None
  {
    LeafRead(s, va);
    var page := va / PAGE_SIZE * PAGE_SIZE;
    assert Walk(s.ram, page, 0, va) == Some(Translation(va, true, true, true));
  }

  /** The processor translates exactly the mapped pages, each to itself, with full access. */
  lemma {:induction false} WalkIsIdentity(s: Space, level: nat, va: nat)
    requires Tree(s) && va < ADDRESS_LIMIT && 1 <= level <= 4
    requires Covering(level, va) in s.dir
    ensures Walk(s.ram, s.dir[Covering(level, va)], level, va)
         == if Mapped(s, va / PAGE_SIZE) then Some(Translation(va, true, true, true)) else None
    decreases level
  {
    hide AllPlaced, AllLinked, AllEntriesOk, Distinct, Mapped;
    if level == 1 {
      WalkAtLeaf(s, va);
    } else {
      LinkRead(s, level, va);
      if Covering(level - 1, va) in s.dir {
        WalkIsIdentity(s, level - 1, va);
      } else {
        UnmappedBelow(s, level - 1, va);
      }
    }
  }

  lemma UnmappedBelow(s: Space, level: nat, va: nat)
    requires AllLinked(s) && va < ADDRESS_LIMIT && 1 <= level <= 4
    requires Covering(level, va) !in s.dir
    ensures !Mapped(s, va / PAGE_SIZE)
  {
    ShiftSplits(1, va);
    if Covering(1, va) in s.dir {
      AncestorsPresent(s, 1, level, va);
    }
  }

  // ---------- the two ways the tree grows ----------

  function ZeroTable(): (t: Table)
    ensures forall i | 0 <= i < 512 :: t[i] == 0
  {
    seq(512, _ => 0)
  }

  /** The space after the frame at `placement` was zeroed and linked in as table `t`. */
  function WithTable(s: Space, t: TableId): Space
    requires Parent(t) in s.dir && s.dir[Parent(t)] in s.ram && s.placement < ADDRESS_LIMIT
  {
    var parent := s.dir[Parent(t)];
    var zeroed := s.ram[s.placement := ZeroTable()];
    s.(ram := zeroed[parent := zeroed[parent][t.key % 512 := s.placement + FLAGS]],
       dir := s.dir[t := s.placement],
       placement := s.placement + PAGE_SIZE)
  }

  /** The space after the leaf entry of `page` was written. */
  function WithLeaf(s: Space, page: nat): Space
    requires TableId(1, page / 512) in s.dir && s.dir[TableId(1, page / 512)] in s.ram
    requires page * PAGE_SIZE < ADDRESS_LIMIT
  {
    var pt := s.dir[TableId(1, page / 512)];
    s.(ram := s.ram[pt := s.ram[pt][page % 512 := page * PAGE_SIZE + FLAGS]])
  }

  ghost predicate CanTake(s: Space, t: TableId) {
    && 1 <= t.level <= 3 && t.key <= Shift(ADDRESS_LIMIT - 1, t.level + 1)
    && t !in s.dir && Parent(t) in s.dir
    && s.placement in s.ram && s.placement != s.root && s.placement + PAGE_SIZE <= ADDRESS_LIMIT
  }

  /** Two tables in the same slot of the same parent are the same table. */
  lemma SlotApart(t: TableId, u: TableId)
    ensures Parent(t) == Parent(u) && t.key % 512 == u.key % 512 ==> t == u
    ensures t.level > 0 ==> Child(Parent(t), t.key % 512) == t
  {
  }

  lemma WithTableLinked(s: Space, t: TableId)
    requires AllPlaced(s) && AllLinked(s) && Distinct(s) && CanTake(s, t)
    ensures s.dir[Parent(t)] in s.ram
    ensures AllLinked(WithTable(s, t))
  {
    assert Placed(s, Parent(t));
    var s' := WithTable(s, t);
    forall u <- s'.dir | u != ROOT
      ensures Linked(s', u)
    {
      if u != t {
        assert Linked(s, u) && Placed(s, Parent(u));
        SlotApart(t, u);
      }
    }
  }

  lemma WithTableEntries(s: Space, t: TableId)
    requires AllPlaced(s) && AllEntriesOk(s) && Distinct(s) && CanTake(s, t)
    ensures s.dir[Parent(t)] in s.ram
    ensures AllEntriesOk(WithTable(s, t))
  {
    assert Placed(s, Parent(t));
    var s' := WithTable(s, t);
    SlotApart(t, t);
    forall u <- s'.dir, i | 0 <= i < 512
      ensures s'.dir[u] in s'.ram && EntryOk(s', u, i)
    {
      if u != t {
        assert Placed(s, u) && EntryOk(s, u, i);
      }
    }
  }

  lemma WithTablePlaced(s: Space, t: TableId)
    requires AllPlaced(s) && Distinct(s) && CanTake(s, t)
    requires s.base <= s.placement && s.placement % PAGE_SIZE == 0
    ensures s.dir[Parent(t)] in s.ram
    ensures AllPlaced(WithTable(s, t)) && Distinct(WithTable(s, t))
  {
    assert Placed(s, Parent(t));
    var s' := WithTable(s, t);
    forall u <- s.dir
      ensures Placed(s', u) && s'.dir[u] != s.placement
    {
      assert Placed(s, u);
    }
  }

  lemma WithTableBumped(s: Space, t: TableId)
    requires Bumped(s) && CanTake(s, t) && s.dir[Parent(t)] in s.ram
    ensures Bumped(WithTable(s, t))
  {
    var s' := WithTable(s, t);
    assert s'.dir.Keys == s.dir.Keys + {t};
    assert |s'.dir| == |s.dir| + 1;
  }

  lemma WithTableTree(s: Space, t: TableId)
    requires Tree(s) && CanTake(s, t)
    ensures s.dir[Parent(t)] in s.ram && Tree(WithTable(s, t))
  {
    hide AllPlaced, AllLinked, AllEntriesOk, Distinct;
    assert s.placement % PAGE_SIZE == 0;
    WithTablePlaced(s, t);
    WithTableBumped(s, t);
    WithTableLinked(s, t);
    WithTableEntries(s, t);
  }

  /** Linking in an empty table maps nothing and changes no entry that was present. */
  lemma WithTableExtends(s: Space, t: TableId)
    requires AllPlaced(s) && Distinct(s) && AllEntriesOk(s) && CanTake(s, t)
    ensures s.dir[Parent(t)] in s.ram && Extends(s, WithTable(s, t))
    ensures forall page: nat :: Mapped(WithTable(s, t), page) <==> Mapped(s, page)
  {
    var p := Parent(t);
    assert Placed(s, p);
    var s' := WithTable(s, t);
    SlotApart(t, t);
    assert EntryOk(s, p, t.key % 512);
    forall u <- s.dir
      ensures s.dir[u] != s.placement && (u != p ==> s'.ram[s.dir[u]] == s.ram[s.dir[u]])
    {
      assert Placed(s, u);
    }
    assert s'.dir[t] == s.placement && s'.dir[p] == s.dir[p];
    forall page: nat
      ensures Mapped(s', page) <==> Mapped(s, page)
    {
      var l := TableId(1, page / 512);
      if l in s.dir {
        assert Placed(s, l) && l != p;
      }
    }
  }

  ghost predicate CanMap(s: Space, page: nat) {
    TableId(1, page / 512) in s.dir && page * PAGE_SIZE < ADDRESS_LIMIT && !Mapped(s, page)
  }

  lemma WithLeafLinked(s: Space, page: nat)
    requires AllPlaced(s) && AllLinked(s) && Distinct(s) && CanMap(s, page)
    ensures s.dir[TableId(1, page / 512)] in s.ram
    ensures AllPlaced(WithLeaf(s, page)) && AllLinked(WithLeaf(s, page))
  {
    assert Placed(s, TableId(1, page / 512));
    var s' := WithLeaf(s, page);
    forall u <- s'.dir
      ensures Placed(s', u) && (u != ROOT ==> Linked(s', u))
    {
      assert Placed(s, u);
      assert u != ROOT ==> Linked(s, u) && Placed(s, Parent(u));
    }
  }

  lemma WithLeafEntries(s: Space, page: nat)
    requires AllPlaced(s) && AllEntriesOk(s) && Distinct(s) && CanMap(s, page)
    ensures s.dir[TableId(1, page / 512)] in s.ram
    ensures AllEntriesOk(WithLeaf(s, page))
  {
    assert Placed(s, TableId(1, page / 512));
    var s' := WithLeaf(s, page);
    forall u <- s'.dir, i | 0 <= i < 512
      ensures s'.dir[u] in s'.ram && EntryOk(s', u, i)
    {
      assert Placed(s, u) && EntryOk(s, u, i);
    }
  }

  lemma WithLeafTree(s: Space, page: nat)
    requires Tree(s) && CanMap(s, page)
    ensures s.dir[TableId(1, page / 512)] in s.ram && Tree(WithLeaf(s, page))
  {
    WithLeafLinked(s, page);
    WithLeafEntries(s, page);
  }

  /** Writing a leaf maps that one page and changes no entry that was present. */
  lemma WithLeafExtends(s: Space, page: nat)
    requires AllPlaced(s) && Distinct(s) && CanMap(s, page)
    ensures s.dir[TableId(1, page / 512)] in s.ram && Extends(s, WithLeaf(s, page))
    ensures forall p: nat :: Mapped(WithLeaf(s, page), p) <==> Mapped(s, p) || p == page
  {
    var t := TableId(1, page / 512);
    assert Placed(s, t);
    var s' := WithLeaf(s, page);
    assert s'.dir[t] == s.dir[t];
    forall p: nat
      ensures Mapped(s', p) <==> Mapped(s, p) || p == page
    {
      var l := TableId(1, p / 512);
      assert l in s.dir ==> Placed(s, l);
    }
  }
}
