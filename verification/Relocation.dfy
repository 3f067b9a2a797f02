/** The ELF self-relocators (`reloc_x86_64.c`, `reloc_aarch64.c`), on a memory of bytes. */
module Relocation {
  import opened Options
  import opened Words

  function Wrap(x: int): Word {
    x % 0x1_0000_0000_0000_0000
  }

  /** The value of a `long` that holds this word. */
  function Signed(w: Word): int {
    if w < 0x8000_0000_0000_0000 then w else w - 0x1_0000_0000_0000_0000
  }

  // ---------- words in memory ----------

  function Little(s: seq<Byte>): nat {
    if s == [] then 0 else s[0] + 0x100 * Little(s[1..])
  }

  function Bytes(w: nat, n: nat): (s: seq<Byte>)
    ensures |s| == n
  {
    if n == 0 then [] else [w % 0x100] + Bytes(w / 0x100, n - 1)
  }

  function Limit(n: nat): nat {
    if n == 0 then 1 else 0x100 * Limit(n - 1)
  }

  lemma {:induction false} LittleBytes(w: nat, n: nat)
    requires w < Limit(n)
    ensures Little(Bytes(w, n)) == w
  {
    if n > 0 {
      LittleBytes(w / 0x100, n - 1);
      assert Bytes(w, n)[1..] == Bytes(w / 0x100, n - 1);
    }
  }

  lemma {:induction false} BytesLittle(s: seq<Byte>)
    ensures Little(s) < Limit(|s|) && Bytes(Little(s), |s|) == s
  {
    if s != [] {
      BytesLittle(s[1..]);
      assert Little(s) / 0x100 == Little(s[1..]) && Little(s) % 0x100 == s[0];
    }
  }

  lemma LimitOfWord()
    ensures Limit(8) == 0x1_0000_0000_0000_0000
  {
    assert Limit(2) == 0x1_0000;
    assert Limit(4) == 0x1_0000_0000;
    assert Limit(6) == 0x1_0000_0000_0000;
  }

  function Load(m: seq<Byte>, a: nat): Word
    requires a + 8 <= |m|
  {
    BytesLittle(m[a..a + 8]);
    LimitOfWord();
    Little(m[a..a + 8])
  }

  /** A word, byte by byte. */
  lemma LoadIs(m: seq<Byte>, a: nat)
    requires a + 8 <= |m|
    ensures Load(m, a)
         == m[a] as int + 0x100 * m[a + 1] as int + 0x1_0000 * m[a + 2] as int + 0x100_0000 * m[a + 3] as int
            + 0x1_0000_0000 * m[a + 4] as int + 0x100_0000_0000 * m[a + 5] as int
            + 0x1_0000_0000_0000 * m[a + 6] as int + 0x100_0000_0000_0000 * m[a + 7] as int
  {
    LittleFour(m[a..a + 8]);
    LittleFour(m[a + 4..a + 8]);
    assert m[a..a + 8][4..] == m[a + 4..a + 8];
  }

  lemma LittleFour(s: seq<Byte>)
    requires |s| >= 4
    ensures Little(s) == s[0] as int + 0x100 * s[1] as int + 0x1_0000 * s[2] as int + 0x100_0000 * s[3] as int
                         + 0x1_0000_0000 * Little(s[4..])
  {
    assert s[1..][1..] == s[2..] && s[2..][1..] == s[3..] && s[3..][1..] == s[4..];
  }

  function Stored(m: seq<Byte>, a: nat, w: Word): (m': seq<Byte>)
    requires a + 8 <= |m|
    ensures |m'| == |m|
  {
    m[..a] + Bytes(w, 8) + m[a + 8..]
  }

  lemma LoadStored(m: seq<Byte>, a: nat, w: Word)
    requires a + 8 <= |m|
    ensures Load(Stored(m, a, w), a) == w
    ensures forall i | 0 <= i < |m| && !(a <= i < a + 8) :: Stored(m, a, w)[i] == m[i]
  {
    assert Stored(m, a, w)[a..a + 8] == Bytes(w, 8);
    LimitOfWord();
    LittleBytes(w, 8);
  }

  lemma LoadSame(m: seq<Byte>, m': seq<Byte>, a: nat)
    requires a + 8 <= |m| == |m'|
    ensures Load(m, a) == Load(m', a) <==> forall i | a <= i < a + 8 :: m[i] == m'[i]
  {
    var x, y := m[a..a + 8], m'[a..a + 8];
    BytesLittle(x);
    BytesLittle(y);
    if forall i | a <= i < a + 8 :: m[i] == m'[i] {
      assert x == y;
    }
    if x == y {
      assert forall i | a <= i < a + 8 :: m[i] == x[i - a] && m'[i] == y[i - a];
    }
  }

  // ---------- the relocation table ----------

  datatype Machine = X86_64 | AArch64

  function RelativeType(machine: Machine): nat {
    if machine.X86_64? then 8 else 1027
  }

  /** How much of an entry is read: the addend only by one of them. */
  function EntryBytes(machine: Machine): nat {
    if machine.X86_64? then 16 else 24
  }

  /** `n` entries, from address `rel`, every `relent` bytes. */
  datatype Table = Table(machine: Machine, ldbase: Word, rel: nat, relent: nat, n: nat)

  function At(t: Table, k: nat): nat {
    t.rel + k * t.relent
  }

  ghost predicate InMemory(t: Table, m: seq<Byte>) {
    forall k | 0 <= k < t.n :: At(t, k) + EntryBytes(t.machine) <= |m|
  }

  predicate RelativeAt(machine: Machine, now: seq<Byte>, at: nat)
    requires at + 16 <= |now|
  {
    Load(now, at + 8) % 0x1_0000_0000 == RelativeType(machine)
  }

  function TargetAt(ldbase: Word, now: seq<Byte>, at: nat): Word
    requires at + 16 <= |now|
  {
    Wrap(ldbase + Load(now, at))
  }

  /** The word that is written by an entry at this address. */
  function Written(machine: Machine, ldbase: Word, now: seq<Byte>, at: nat): Word
    requires at + EntryBytes(machine) <= |now| && TargetAt(ldbase, now, at) + 8 <= |now|
  {
    if machine.X86_64? then Wrap(Load(now, TargetAt(ldbase, now, at)) + ldbase) else Wrap(ldbase + Load(now, at + 16))
  }

  predicate Relative(t: Table, m: seq<Byte>, k: nat)
    requires InMemory(t, m) && k < t.n
  {
    RelativeAt(t.machine, m, At(t, k))
  }

  function Target(t: Table, m: seq<Byte>, k: nat): Word
    requires InMemory(t, m) && k < t.n
  {
    TargetAt(t.ldbase, m, At(t, k))
  }

  function Value(t: Table, m: seq<Byte>, k: nat): Word
    requires InMemory(t, m) && k < t.n && Target(t, m, k) + 8 <= |m|
  {
    Written(t.machine, t.ldbase, m, At(t, k))
  }

  predicate Apart(a: nat, sizeA: nat, b: nat, sizeB: nat) {
    a + sizeA <= b || b + sizeB <= a
  }

  /** The table is in memory, and its targets are words in memory that overlap neither each other nor
    * an entry. */
  ghost predicate Sound(t: Table, m: seq<Byte>) {
    && InMemory(t, m)
    && (forall k | 0 <= k < t.n && Relative(t, m, k) :: Target(t, m, k) + 8 <= |m|)
    && (forall j, k | 0 <= j < t.n && 0 <= k < t.n && Relative(t, m, k) ::
          Apart(Target(t, m, k), 8, At(t, j), EntryBytes(t.machine)))
    && (forall j, k | 0 <= j < k < t.n && Relative(t, m, j) && Relative(t, m, k) ::
          Apart(Target(t, m, j), 8, Target(t, m, k), 8))
  }

  /** The address belongs to a target of the first `k` entries. */
  ghost predicate Touched(t: Table, m: seq<Byte>, k: nat, a: nat)
    requires InMemory(t, m) && k <= t.n
  {
    exists j | 0 <= j < k :: Relative(t, m, j) && Target(t, m, j) <= a < Target(t, m, j) + 8
  }

  /** `m'` is `m` in which the first `k` entries have been applied, once each, and nothing else. */
  ghost predicate Relocated(t: Table, m: seq<Byte>, m': seq<Byte>, k: nat)
    requires Sound(t, m) && k <= t.n
  {
    && |m'| == |m|
    && (forall j | 0 <= j < k && Relative(t, m, j) :: Load(m', Target(t, m, j)) == Value(t, m, j))
    && (forall a | 0 <= a < |m| && !Touched(t, m, k, a) :: m'[a] == m[a])
  }

  /** There is only one such memory. */
  lemma RelocatedUnique(t: Table, m: seq<Byte>, x: seq<Byte>, y: seq<Byte>)
    requires Sound(t, m) && Relocated(t, m, x, t.n) && Relocated(t, m, y, t.n)
    ensures x == y
  {
    forall a | 0 <= a < |m|
      ensures x[a] == y[a]
    {
      if Touched(t, m, t.n, a) {
        var j :| 0 <= j < t.n && Relative(t, m, j) && Target(t, m, j) <= a < Target(t, m, j) + 8;
        LoadSame(x, y, Target(t, m, j));
      }
    }
  }

  /** In plain terms: the load address has been added to each word for which there is an entry of type
    * R_X86_64_RELATIVE. */
  ghost predicate LoadAddressAdded(t: Table, m: seq<Byte>, m': seq<Byte>)
    requires InMemory(t, m)
  {
    forall k | 0 <= k < t.n && Load(m, At(t, k) + 8) % 0x1_0000_0000 == 8 ::
      var a := (t.ldbase + Load(m, At(t, k))) % 0x1_0000_0000_0000_0000;
      a + 8 <= |m| == |m'| && Load(m', a) == (Load(m, a) + t.ldbase) % 0x1_0000_0000_0000_0000
  }

  /** And: the load address plus the addend has been stored in each word for which there is an entry of
    * type R_AARCH64_RELATIVE. */
  ghost predicate AddendStored(t: Table, m: seq<Byte>, m': seq<Byte>)
    requires InMemory(t, m) && t.machine.AArch64?
  {
    forall k | 0 <= k < t.n && Load(m, At(t, k) + 8) % 0x1_0000_0000 == 1027 ::
      var a := (t.ldbase + Load(m, At(t, k))) % 0x1_0000_0000_0000_0000;
      a + 8 <= |m| == |m'| && Load(m', a) == (t.ldbase + Load(m, At(t, k) + 16)) % 0x1_0000_0000_0000_0000
  }

  /** And nothing else: a byte has changed only if it is one of the eight at such an address. */
  ghost predicate OnlyTargets(t: Table, m: seq<Byte>, m': seq<Byte>, kind: nat)
    requires InMemory(t, m)
  {
    && |m| == |m'|
    && forall i | 0 <= i < |m| && m'[i] != m[i] ::
         exists k | 0 <= k < t.n :: Load(m, At(t, k) + 8) % 0x1_0000_0000 == kind
           && (t.ldbase + Load(m, At(t, k))) % 0x1_0000_0000_0000_0000 <= i
              < (t.ldbase + Load(m, At(t, k))) % 0x1_0000_0000_0000_0000 + 8
  }

  lemma InPlainTerms(t: Table, m: seq<Byte>, m': seq<Byte>)
    requires Sound(t, m) && Relocated(t, m, m', t.n)
    ensures t.machine.X86_64? ==> LoadAddressAdded(t, m, m') && OnlyTargets(t, m, m', 8)
    ensures t.machine.AArch64? ==> AddendStored(t, m, m') && OnlyTargets(t, m, m', 1027)
  {
    hide Load, At;
    forall k: nat | k < t.n
      ensures Relative(t, m, k) <==>
                Load(m, At(t, k) + 8) % 0x1_0000_0000 == if t.machine.X86_64? then 8 else 1027
      ensures Target(t, m, k) == (t.ldbase + Load(m, At(t, k))) % 0x1_0000_0000_0000_0000
    {
    }
    forall i | 0 <= i < |m| && m'[i] != m[i]
      ensures Touched(t, m, t.n, i)
    {
    }
  }

  /** The entries lie one behind the other. */
  lemma EntriesAt(t: Table, k: nat)
    ensures At(t, 0) == t.rel && At(t, k + 1) == At(t, k) + t.relent
  {
  }

  /** What is still to be read is still as it was. */
  lemma RelocatedReads(t: Table, m: seq<Byte>, m': seq<Byte>, k: nat, a: nat)
    requires Sound(t, m) && k < t.n && Relocated(t, m, m', k) && a + 8 <= |m|
    requires forall j | 0 <= j < k && Relative(t, m, j) :: Apart(Target(t, m, j), 8, a, 8)
    ensures Load(m', a) == Load(m, a)
  {
    LoadSame(m', m, a);
    forall i | a <= i < a + 8
      ensures m'[i] == m[i]
    {
      assert !Touched(t, m, k, i);
    }
  }

  lemma SoundEntry(t: Table, m: seq<Byte>, now: seq<Byte>, k: nat)
    requires Sound(t, m) && k < t.n && Relocated(t, m, now, k)
    ensures |now| == |m| && At(t, k) + EntryBytes(t.machine) <= |m|
    ensures Relative(t, m, k) ==> Target(t, m, k) + 8 <= |m|
  {
    hide Load, Relative, Target, At;
  }

  lemma ReadsWords(t: Table, m: seq<Byte>, now: seq<Byte>, k: nat)
    requires Sound(t, m) && k < t.n && Relocated(t, m, now, k)
    ensures |now| == |m|
    ensures Load(now, At(t, k)) == Load(m, At(t, k)) && Load(now, At(t, k) + 8) == Load(m, At(t, k) + 8)
    ensures t.machine.AArch64? ==> Load(now, At(t, k) + 16) == Load(m, At(t, k) + 16)
    ensures Relative(t, m, k) ==> Load(now, Target(t, m, k)) == Load(m, Target(t, m, k))
  {
    SoundEntry(t, m, now, k);
    hide Load, Relative, Target, Relocated, At;
    RelocatedReads(t, m, now, k, At(t, k));
    RelocatedReads(t, m, now, k, At(t, k) + 8);
    if t.machine.AArch64? {
      RelocatedReads(t, m, now, k, At(t, k) + 16);
    }
    if Relative(t, m, k) {
      RelocatedReads(t, m, now, k, Target(t, m, k));
    }
  }

  /** An entry, read when it is its turn, is what it was at the beginning. */
  lemma ReadsEntry(t: Table, m: seq<Byte>, now: seq<Byte>, k: nat)
    requires Sound(t, m) && k < t.n && Relocated(t, m, now, k)
    ensures |now| == |m| && At(t, k) + EntryBytes(t.machine) <= |now|
    ensures RelativeAt(t.machine, now, At(t, k)) == Relative(t, m, k)
    ensures TargetAt(t.ldbase, now, At(t, k)) == Target(t, m, k)
    ensures Relative(t, m, k) ==>
              Target(t, m, k) + 8 <= |now| && Written(t.machine, t.ldbase, now, At(t, k)) == Value(t, m, k)
  {
    hide Load, Relocated, At, Sound, Wrap, InMemory;
    SoundEntry(t, m, now, k);
    ReadsWords(t, m, now, k);
  }

  /** Applying one more entry. */
  lemma RelocatedNext(t: Table, m: seq<Byte>, m': seq<Byte>, k: nat)
    requires Sound(t, m) && k < t.n && Relocated(t, m, m', k)
    ensures Relative(t, m, k) ==> Relocated(t, m, Stored(m', Target(t, m, k), Value(t, m, k)), k + 1)
    ensures !Relative(t, m, k) ==> Relocated(t, m, m', k + 1)
  {
    hide Load, Target, Value, At, Stored;
    if Relative(t, m, k) {
      var a, w := Target(t, m, k), Value(t, m, k);
      var next := Stored(m', a, w);
      LoadStored(m', a, w);
      forall j | 0 <= j < k + 1 && Relative(t, m, j)
        ensures Load(next, Target(t, m, j)) == Value(t, m, j)
      {
        if j < k {
          LoadSame(next, m', Target(t, m, j));
        }
      }
      forall i | 0 <= i < |m| && !Touched(t, m, k + 1, i)
        ensures next[i] == m[i]
      {
        assert !Touched(t, m, k, i);
      }
    } else {
      forall i | 0 <= i < |m| && !Touched(t, m, k + 1, i)
        ensures m'[i] == m[i]
      {
        assert !Touched(t, m, k, i);
      }
    }
  }

  // ---------- the two relocators ----------

  const DT_NULL: int := 0
  const DT_RELA: int := 7
  const DT_RELASZ: int := 8
  const DT_RELAENT: int := 9

  datatype Dyn = Dyn(tag: int, val: Word)

  datatype Status = Success | LoadError

  /** Where the dynamic section ends. */
  ghost predicate EndsAt(dyn: seq<Dyn>, end: nat) {
    end < |dyn| && dyn[end].tag == DT_NULL && forall i | 0 <= i < end :: dyn[i].tag != DT_NULL
  }

  ghost predicate Terminated(dyn: seq<Dyn>) {
    exists end: nat :: EndsAt(dyn, end)
  }

  ghost function End(dyn: seq<Dyn>): (end: nat)
    requires Terminated(dyn)
    ensures EndsAt(dyn, end) && forall e: nat | EndsAt(dyn, e) :: e == end
  {
    var end: nat :| EndsAt(dyn, end);
    end
  }

  /** The value of the last of the first `n` entries with this tag. */
  function Last(dyn: seq<Dyn>, n: nat, tag: int): Option<Word>
    requires n <= |dyn|
  {
    if n == 0 then None else if dyn[n - 1].tag == tag then Some(dyn[n - 1].val) else Last(dyn, n - 1, tag)
  }

  function Base(ldbase: Word, rela: Option<Word>): Word {
    if rela.Some? then Wrap(rela.value + ldbase) else 0
  }

  function Length(size: Option<Word>): int {
    if size.Some? then Signed(size.value) else 0
  }

  /** The first loop. */
  method ScanDynamic(ldbase: Word, dyn: seq<Dyn>) returns (rel: Word, relsz: int, relent: int)
    requires Terminated(dyn)
    ensures rel == Base(ldbase, Last(dyn, End(dyn), DT_RELA))
    ensures relsz == Length(Last(dyn, End(dyn), DT_RELASZ)) && relent == Length(Last(dyn, End(dyn), DT_RELAENT))
  {
    rel, relsz, relent := 0, 0, 0;
    var i := 0;
    while dyn[i].tag != DT_NULL
      invariant i <= End(dyn)
      invariant rel == Base(ldbase, Last(dyn, i, DT_RELA))
      invariant relsz == Length(Last(dyn, i, DT_RELASZ)) && relent == Length(Last(dyn, i, DT_RELAENT))
      decreases End(dyn) - i
    {
      if dyn[i].tag == DT_RELA {
        rel := Wrap(dyn[i].val + ldbase);
      } else if dyn[i].tag == DT_RELASZ {
        relsz := Signed(dyn[i].val);
      } else if dyn[i].tag == DT_RELAENT {
        relent := Signed(dyn[i].val);
      }
      i := i + 1;
    }
  }

  /** How many entries a table of this size has, where the last may be cut short. */
  function Entries(relsz: int, relent: int): nat
    requires relent > 0
    decreases relsz
  {
    if relsz <= 0 then 0 else 1 + Entries(relsz - relent, relent)
  }

  lemma {:induction false} EntriesCover(relsz: int, relent: int)
    requires relent > 0 && relsz > 0
    ensures (Entries(relsz, relent) - 1) * relent < relsz <= Entries(relsz, relent) * relent
    decreases relsz
  {
    if relsz > relent {
      EntriesCover(relsz - relent, relent);
    } else {
      assert Entries(relsz - relent, relent) == 0;
    }
  }

  /** The table that the dynamic section describes. */
  ghost function Described(machine: Machine, ldbase: Word, dyn: seq<Dyn>): Table
    requires Terminated(dyn) && Length(Last(dyn, End(dyn), DT_RELAENT)) > 0
  {
    var relent := Length(Last(dyn, End(dyn), DT_RELAENT));
    Table(machine, ldbase, Base(ldbase, Last(dyn, End(dyn), DT_RELA)), relent,
          Entries(Length(Last(dyn, End(dyn), DT_RELASZ)), relent))
  }

  lemma {:induction false} LastIs(dyn: seq<Dyn>, n: nat, tag: int, p: nat)
    requires p < n <= |dyn| && dyn[p].tag == tag && forall j | p < j < n :: dyn[j].tag != tag
    ensures Last(dyn, n, tag) == Some(dyn[p].val)
  {
    if p < n - 1 {
      LastIs(dyn, n - 1, tag, p);
    }
  }

  lemma {:induction false} LastIsNone(dyn: seq<Dyn>, n: nat, tag: int)
    requires n <= |dyn| && forall j | 0 <= j < n :: dyn[j].tag != tag
    ensures Last(dyn, n, tag) == None
  {
    if n > 0 {
      LastIsNone(dyn, n - 1, tag);
    }
  }

  ghost predicate LastAt(dyn: seq<Dyn>, n: nat, tag: int, p: nat) {
    p < n <= |dyn| && dyn[p].tag == tag && forall j | p < j < n :: dyn[j].tag != tag
  }

  /** The table when the last entries with the tags 7, 8 and 9 before the first entry with tag 0 are at
    * `p`, `q` and `r`: its start is relative to the load address, and it has as many entries as it takes
    * to cover its size. */
  lemma TableOfSection(machine: Machine, ldbase: Word, dyn: seq<Dyn>, p: nat, q: nat, r: nat)
    requires Terminated(dyn) && dyn[End(dyn)].tag == 0
    requires LastAt(dyn, End(dyn), 7, p) && LastAt(dyn, End(dyn), 8, q) && LastAt(dyn, End(dyn), 9, r)
    requires 0 < dyn[q].val < 0x8000_0000_0000_0000 && 0 < dyn[r].val < 0x8000_0000_0000_0000
    ensures Length(Last(dyn, End(dyn), DT_RELAENT)) > 0
    ensures var t := Described(machine, ldbase, dyn);
      && t.machine == machine && t.ldbase == ldbase && t.relent == dyn[r].val
      && t.rel == (dyn[p].val + ldbase) % 0x1_0000_0000_0000_0000
      && (t.n - 1) * t.relent < dyn[q].val <= t.n * t.relent
      && (t.rel != 0 ==> !NoTable(ldbase, dyn) && !HalfTable(ldbase, dyn))
  {
    LastIs(dyn, End(dyn), 7, p);
    LastIs(dyn, End(dyn), 8, q);
    LastIs(dyn, End(dyn), 9, r);
    EntriesCover(dyn[q].val, dyn[r].val);
  }

  /** A table whose size is missing, zero or negative has no entries. */
  lemma TableWithoutEntries(machine: Machine, ldbase: Word, dyn: seq<Dyn>, q: nat)
    requires Terminated(dyn) && Length(Last(dyn, End(dyn), DT_RELAENT)) > 0
    requires || (forall j | 0 <= j < End(dyn) :: dyn[j].tag != 8)
             || (LastAt(dyn, End(dyn), 8, q) && (dyn[q].val == 0 || dyn[q].val >= 0x8000_0000_0000_0000))
    ensures Described(machine, ldbase, dyn).n == 0
  {
    if forall j | 0 <= j < End(dyn) :: dyn[j].tag != 8 {
      LastIsNone(dyn, End(dyn), 8);
    } else {
      LastIs(dyn, End(dyn), 8, q);
    }
  }

  /** There is no table when neither its address nor its entry size is given, and half a table when only
    * one of them is and it is not zero. */
  lemma SectionWithoutTable(ldbase: Word, dyn: seq<Dyn>, p: nat)
    requires Terminated(dyn)
    ensures (forall j | 0 <= j < End(dyn) :: dyn[j].tag != 7 && dyn[j].tag != 9) ==> NoTable(ldbase, dyn)
    ensures LastAt(dyn, End(dyn), 7, p) && (forall j | 0 <= j < End(dyn) :: dyn[j].tag != 9) ==>
              (HalfTable(ldbase, dyn) <==> (dyn[p].val + ldbase) % 0x1_0000_0000_0000_0000 != 0)
    ensures LastAt(dyn, End(dyn), 9, p) && (forall j | 0 <= j < End(dyn) :: dyn[j].tag != 7) ==>
              (HalfTable(ldbase, dyn) <==> dyn[p].val != 0)
  {
    hide Last;
    if forall j | 0 <= j < End(dyn) :: dyn[j].tag != 7 {
      LastIsNone(dyn, End(dyn), 7);
    }
    if forall j | 0 <= j < End(dyn) :: dyn[j].tag != 9 {
      LastIsNone(dyn, End(dyn), 9);
    }
    if LastAt(dyn, End(dyn), 7, p) {
      LastIs(dyn, End(dyn), 7, p);
    }
    if LastAt(dyn, End(dyn), 9, p) {
      LastIs(dyn, End(dyn), 9, p);
    }
  }

  /** The section ends at its first entry with tag 0. */
  lemma EndIs(dyn: seq<Dyn>, end: nat)
    requires end < |dyn| && dyn[end].tag == 0 && forall i | 0 <= i < end :: dyn[i].tag != 0
    ensures Terminated(dyn) && End(dyn) == end
  {
    assert EndsAt(dyn, end);
  }

  /** No table: nothing to do. */
  ghost predicate NoTable(ldbase: Word, dyn: seq<Dyn>)
    requires Terminated(dyn)
  {
    Base(ldbase, Last(dyn, End(dyn), DT_RELA)) == 0 && Length(Last(dyn, End(dyn), DT_RELAENT)) == 0
  }

  /** Only one of the table's address and its entry size is known. */
  ghost predicate HalfTable(ldbase: Word, dyn: seq<Dyn>)
    requires Terminated(dyn)
  {
    (Base(ldbase, Last(dyn, End(dyn), DT_RELA)) == 0) != (Length(Last(dyn, End(dyn), DT_RELAENT)) == 0)
  }

  /** What the dynamic section and the memory have to be like if there is a table. */
  ghost predicate Usable(machine: Machine, ldbase: Word, dyn: seq<Dyn>, m: seq<Byte>) {
    && Terminated(dyn)
    && (!NoTable(ldbase, dyn) && !HalfTable(ldbase, dyn) ==>
          Length(Last(dyn, End(dyn), DT_RELAENT)) > 0 && Sound(Described(machine, ldbase, dyn), m))
  }

  method StoreWord(mem: array<Byte>, at: nat, w: Word)
    requires at + 8 <= mem.Length
    modifies mem
    ensures mem[..] == Stored(old(mem[..]), at, w)
  {
    var bytes := Bytes(w, 8);
    forall i | 0 <= i < 8 {
      mem[at + i] := bytes[i];
    }
  }

  /** The body of the second loop. */
  method ApplyX86_64(ldbase: Word, mem: array<Byte>, at: nat, ghost t: Table, ghost m: seq<Byte>, ghost k: nat)
    requires Sound(t, m) && k < t.n && t.machine == X86_64 && t.ldbase == ldbase && at == At(t, k)
    requires Relocated(t, m, mem[..], k)
    modifies mem
    ensures Relocated(t, m, mem[..], k + 1)
  {
    hide Sound, Relocated, At, Load, Stored, InMemory, Relative, Target, Value, Wrap;
    ReadsEntry(t, m, mem[..], k);
    RelocatedNext(t, m, mem[..], k);
    if Load(mem[..], at + 8) % 0x1_0000_0000 == RelativeType(X86_64) {
      var addr := Wrap(ldbase + Load(mem[..], at));
      StoreWord(mem, addr, Wrap(Load(mem[..], addr) + ldbase));
    }
  }

  /** Adds the load address to each word that the table lists, exactly once, and changes nothing else. */
  method RelocateX86_64(ldbase: Word, dyn: seq<Dyn>, mem: array<Byte>) returns (status: Status)
    requires Usable(X86_64, ldbase, dyn, mem[..])
    modifies mem
    ensures status == LoadError <==> HalfTable(ldbase, dyn)
    ensures NoTable(ldbase, dyn) || HalfTable(ldbase, dyn) ==> mem[..] == old(mem[..])
    ensures !NoTable(ldbase, dyn) && !HalfTable(ldbase, dyn) ==>
              var t := Described(X86_64, ldbase, dyn);
              && Relocated(t, old(mem[..]), mem[..], t.n)
              && LoadAddressAdded(t, old(mem[..]), mem[..]) && OnlyTargets(t, old(mem[..]), mem[..], 8)
  {
    var rel, relsz, relent;
    rel, relsz, relent := ScanDynamic(ldbase, dyn);
    if rel == 0 && relent == 0 {
      return Success;
    }
    if rel == 0 || relent == 0 {
      return LoadError;
    }
    ghost var m, t, k := mem[..], Described(X86_64, ldbase, dyn), 0;
    var at: nat := rel;
    hide Sound, Described, Relocated, LoadAddressAdded, AddendStored, OnlyTargets;
    while relsz > 0
      invariant k <= t.n && at == At(t, k) && Entries(relsz, relent) == t.n - k
      invariant Relocated(t, m, mem[..], k)
      decreases t.n - k
    {
      ApplyX86_64(ldbase, mem, at, t, m, k);
      EntriesAt(t, k);
      at := at + relent;
      relsz := relsz - relent;
      k := k + 1;
    }
    InPlainTerms(t, m, mem[..]);
    status := Success;
  }

  /** The body of the second loop. */
  method ApplyAArch64(ldbase: Word, mem: array<Byte>, at: nat, ghost t: Table, ghost m: seq<Byte>, ghost k: nat)
    requires Sound(t, m) && k < t.n && t.machine == AArch64 && t.ldbase == ldbase && at == At(t, k)
    requires Relocated(t, m, mem[..], k)
    modifies mem
    ensures Relocated(t, m, mem[..], k + 1)
  {
    hide Sound, Relocated, At, Load, Stored, InMemory, Relative, Target, Value, Wrap;
    ReadsEntry(t, m, mem[..], k);
    RelocatedNext(t, m, mem[..], k);
    if Load(mem[..], at + 8) % 0x1_0000_0000 == RelativeType(AArch64) {
      var addr := Wrap(ldbase + Load(mem[..], at));
      StoreWord(mem, addr, Wrap(ldbase + Load(mem[..], at + 16)));
    }
  }

  /** Stores the load address plus the addend in each word that the table lists, and changes nothing
    * else. */
  method RelocateAArch64(ldbase: Word, dyn: seq<Dyn>, mem: array<Byte>) returns (status: Status)
    requires Usable(AArch64, ldbase, dyn, mem[..])
    modifies mem
    ensures status == LoadError <==> HalfTable(ldbase, dyn)
    ensures NoTable(ldbase, dyn) || HalfTable(ldbase, dyn) ==> mem[..] == old(mem[..])
    ensures !NoTable(ldbase, dyn) && !HalfTable(ldbase, dyn) ==>
              var t := Described(AArch64, ldbase, dyn);
              && Relocated(t, old(mem[..]), mem[..], t.n)
              && AddendStored(t, old(mem[..]), mem[..]) && OnlyTargets(t, old(mem[..]), mem[..], 1027)
  {
    var rel, relsz, relent;
    rel, relsz, relent := ScanDynamic(ldbase, dyn);
    if rel == 0 && relent == 0 {
      return Success;
    }
    if rel == 0 || relent == 0 {
      return LoadError;
    }
    ghost var m, t, k := mem[..], Described(AArch64, ldbase, dyn), 0;
    var at: nat := rel;
    hide Sound, Described, Relocated, LoadAddressAdded, AddendStored, OnlyTargets;
    while relsz > 0
      invariant k <= t.n && at == At(t, k) && Entries(relsz, relent) == t.n - k
      invariant Relocated(t, m, mem[..], k)
      decreases t.n - k
    {
      ApplyAArch64(ldbase, mem, at, t, m, k);
      EntriesAt(t, k);
      at := at + relent;
      relsz := relsz - relent;
      k := k + 1;
    }
    InPlainTerms(t, m, mem[..]);
    status := Success;
  }

  // ---------- the two write rules ----------

  /** Two tables at the same place that list the same words. */
  ghost predicate SameTargets(x: Table, mx: seq<Byte>, a: Table, ma: seq<Byte>) {
    && x == a.(machine := X86_64) && a.machine == AArch64 && InMemory(x, mx) && InMemory(a, ma)
    && forall k | 0 <= k < x.n ::
         (Relative(x, mx, k) <==> Relative(a, ma, k)) && Load(mx, At(x, k)) == Load(ma, At(a, k))
  }

  ghost predicate InTable(a: Table, i: nat) {
    exists k | 0 <= k < a.n :: At(a, k) <= i < At(a, k) + EntryBytes(a.machine)
  }

  /** Equal everywhere but in the table. */
  ghost predicate SameImage(a: Table, m: seq<Byte>, m': seq<Byte>) {
    |m| == |m'| && forall i | 0 <= i < |m| && !InTable(a, i) :: m[i] == m'[i]
  }

  /** Every word that the table lists holds its addend already. */
  ghost predicate HoldsAddends(a: Table, m: seq<Byte>)
    requires Sound(a, m) && a.machine.AArch64?
  {
    forall k | 0 <= k < a.n && Relative(a, m, k) :: Load(m, Target(a, m, k)) == Load(m, At(a, k) + 16)
  }

  /** No target is in the table, so that the same image has the same words there. */
  lemma TargetLoads(x: Table, mx: seq<Byte>, a: Table, ma: seq<Byte>, k: nat, m: seq<Byte>, m': seq<Byte>)
    requires SameTargets(x, mx, a, ma) && Sound(x, mx) && Sound(a, ma) && k < a.n && Relative(a, ma, k)
    requires SameImage(a, m, m') && |m| == |ma|
    ensures Target(x, mx, k) == Target(a, ma, k) && Load(m, Target(a, ma, k)) == Load(m', Target(a, ma, k))
  {
    var at := Target(a, ma, k);
    forall i | at <= i < at + 8
      ensures m[i] == m'[i]
    {
      assert !InTable(a, i);
    }
    LoadSame(m, m', at);
  }

  lemma WrapSame(v: Word, w: Word, b: Word)
    ensures Wrap(v + b) == Wrap(b + w) <==> v == w
  {
  }

  /** The two results agree on a word that holds its addend. */
  lemma AgreeAtTarget(x: Table, mx: seq<Byte>, mx': seq<Byte>, a: Table, ma: seq<Byte>, ma': seq<Byte>, k: nat)
    requires SameTargets(x, mx, a, ma) && Sound(x, mx) && Sound(a, ma) && SameImage(a, mx, ma)
    requires Relocated(x, mx, mx', x.n) && Relocated(a, ma, ma', a.n) && HoldsAddends(a, ma)
    requires k < a.n && Relative(a, ma, k)
    ensures forall i | Target(a, ma, k) <= i < Target(a, ma, k) + 8 :: i < |mx'| == |ma'| && mx'[i] == ma'[i]
  {
    hide Load, Target, Wrap, At, Relative, Touched;
    assert |mx'| == |ma'| && Target(a, ma, k) + 8 <= |ma'|;
    hide Sound, InMemory, Relocated;
    WordsAgree(x, mx, mx', a, ma, ma', k);
    LoadSame(mx', ma', Target(a, ma, k));
  }

  lemma AgreeIfHeld(x: Table, mx: seq<Byte>, mx': seq<Byte>, a: Table, ma: seq<Byte>, ma': seq<Byte>)
    requires SameTargets(x, mx, a, ma) && Sound(x, mx) && Sound(a, ma) && SameImage(a, mx, ma)
    requires Relocated(x, mx, mx', x.n) && Relocated(a, ma, ma', a.n)
    requires HoldsAddends(a, ma)
    ensures SameImage(a, mx', ma')
  {
    hide Load, Target, Wrap, At, Relative, Sound, InMemory, HoldsAddends, InTable;
    forall i | 0 <= i < |ma| && !InTable(a, i)
      ensures mx'[i] == ma'[i]
    {
      if Touched(a, ma, a.n, i) {
        var k :| 0 <= k < a.n && Relative(a, ma, k) && Target(a, ma, k) <= i < Target(a, ma, k) + 8;
        AgreeAtTarget(x, mx, mx', a, ma, ma', k);
      } else {
        NotTouched(x, mx, a, ma, i);
      }
    }
  }

  lemma NotTouched(x: Table, mx: seq<Byte>, a: Table, ma: seq<Byte>, i: nat)
    requires SameTargets(x, mx, a, ma) && Sound(x, mx) && Sound(a, ma) && !Touched(a, ma, a.n, i)
    ensures !Touched(x, mx, x.n, i)
  {
    forall k: nat | k < x.n && Relative(x, mx, k)
      ensures !(Target(x, mx, k) <= i < Target(x, mx, k) + 8)
    {
      assert Target(x, mx, k) == Target(a, ma, k);
    }
  }

  /** The two rules write the same word exactly when the addend is there. */
  lemma WordsAgree(x: Table, mx: seq<Byte>, mx': seq<Byte>, a: Table, ma: seq<Byte>, ma': seq<Byte>, k: nat)
    requires SameTargets(x, mx, a, ma) && Sound(x, mx) && Sound(a, ma) && SameImage(a, mx, ma)
    requires Relocated(x, mx, mx', x.n) && Relocated(a, ma, ma', a.n)
    requires k < a.n && Relative(a, ma, k)
    ensures Load(mx', Target(a, ma, k)) == Load(ma', Target(a, ma, k))
            <==> Load(ma, Target(a, ma, k)) == Load(ma, At(a, k) + 16)
  {
    hide Load, At, Touched, InTable, Wrap;
    TargetLoads(x, mx, a, ma, k, mx, ma);
    WrapSame(Load(ma, Target(a, ma, k)), Load(ma, At(a, k) + 16), a.ldbase);
    assert Relative(x, mx, k);
    assert Load(mx', Target(x, mx, k)) == Value(x, mx, k);
    assert Load(ma', Target(a, ma, k)) == Value(a, ma, k);
  }

  /** From the same image, the two rules lead to the same image exactly when each word holds its addend. */
  lemma RulesAgree(x: Table, mx: seq<Byte>, mx': seq<Byte>, a: Table, ma: seq<Byte>, ma': seq<Byte>)
    requires SameTargets(x, mx, a, ma) && Sound(x, mx) && Sound(a, ma) && SameImage(a, mx, ma)
    requires Relocated(x, mx, mx', x.n) && Relocated(a, ma, ma', a.n)
    ensures SameImage(a, mx', ma') <==> HoldsAddends(a, ma)
  {
    if HoldsAddends(a, ma) {
      AgreeIfHeld(x, mx, mx', a, ma, ma');
    }
    if SameImage(a, mx', ma') {
      hide Load, Target, At, Relative;
      forall k | 0 <= k < a.n && Relative(a, ma, k)
        ensures Load(ma, Target(a, ma, k)) == Load(ma, At(a, k) + 16)
      {
        TargetLoads(x, mx, a, ma, k, mx', ma');
        WordsAgree(x, mx, mx', a, ma, ma', k);
      }
    }
  }
}
