/** Printing numbers (`ValueToHex` and `ValueToString` of `print.c`) and reading them back (`xtoi`
  * and `Atoi` of `str.c`). */
module Digits {
  import opened Words

  const W64: nat := 0x1_0000_0000_0000_0000
  const INT64_LIMIT: nat := 0x8000_0000_0000_0000

  const SPACE: Char16 := 0x20
  const COMMA: Char16 := 0x2C
  const MINUS: Char16 := 0x2D
  const ZERO: Char16 := 0x30
  const NINE: Char16 := 0x39
  const UPPER_A: Char16 := 0x41
  const UPPER_F: Char16 := 0x46
  const LOWER_A: Char16 := 0x61
  const LOWER_F: Char16 := 0x66

  // ---------- numerals ----------

  /** The numeral of `v`, without leading zeros. */
  function Numeral(v: nat, base: nat): (r: seq<nat>)
    requires base == 10 || base == 16
    ensures |r| > 0 && forall i | 0 <= i < |r| :: r[i] < base
    ensures |r| > 1 ==> r[0] != 0
    decreases v
  {
    if v < base then [v] else
      assert 0 < Quotient(v, base) < v && Rest(v, base) < base;
      Numeral(Quotient(v, base), base) + [Rest(v, base)]
  }

  function Quotient(v: nat, base: nat): nat
    requires base == 10 || base == 16
  {
    if base == 10 then v / 10 else v / 16
  }

  function Rest(v: nat, base: nat): nat
    requires base == 10 || base == 16
  {
    if base == 10 then v % 10 else v % 16
  }

  function Value(digits: seq<nat>, base: nat): nat {
    if digits == [] then 0 else Value(digits[..|digits| - 1], base) * base + digits[|digits| - 1]
  }

  lemma {:induction false} ValueOfNumeral(v: nat, base: nat)
    requires base == 10 || base == 16
    ensures Value(Numeral(v, base), base) == v
    decreases v
  {
    var n := Numeral(v, base);
    if v < base {
      assert n[..0] == [];
      assert Value(n, base) == Value(n[..0], base) * base + v;
    } else {
      ValueOfNumeral(Quotient(v, base), base);
      assert n[..|n| - 1] == Numeral(Quotient(v, base), base);
    }
  }

  function Power(base: nat, n: nat): nat {
    if n == 0 then 1 else base * Power(base, n - 1)
  }

  lemma {:induction false} NumeralLength(v: nat, base: nat, n: nat)
    requires (base == 10 || base == 16) && n >= 1 && v < Power(base, n)
    ensures |Numeral(v, base)| <= n
    decreases n
  {
    if v >= base && n > 1 {
      assert Quotient(v, base) < Power(base, n - 1);
      NumeralLength(Quotient(v, base), base, n - 1);
    } else {
      assert Power(base, 1) == base * Power(base, 0);
    }
  }

  lemma {:induction false} PowerAdd(base: nat, a: nat, b: nat)
    ensures Power(base, a + b) == Power(base, a) * Power(base, b)
  {
    if a > 0 {
      PowerAdd(base, a - 1, b);
      Associative(base, Power(base, a - 1), Power(base, b));
    }
  }

  lemma Associative(a: nat, b: nat, c: nat)
    ensures (a * b) * c == a * (b * c)
  {
  }

  lemma Powers()
    ensures Power(16, 16) == W64 && Power(10, 20) > W64
  {
    PowerAdd(16, 2, 2);
    PowerAdd(16, 4, 4);
    PowerAdd(16, 8, 8);
    assert Power(10, 2) == 100;
    PowerAdd(10, 2, 2);
    PowerAdd(10, 4, 4);
    PowerAdd(10, 8, 8);
    PowerAdd(10, 16, 4);
  }

  // ---------- the characters ----------

  function HexChar(d: nat): Char16
    requires d < 16
  {
    if d < 10 then ZERO + d else UPPER_A + (d - 10)
  }

  /** The characters of the numeral. */
  function NumText(v: nat, base: nat): (r: seq<Char16>)
    requires base == 10 || base == 16
    ensures |r| == |Numeral(v, base)|
  {
    var n := Numeral(v, base);
    seq(|n|, i requires 0 <= i < |n| => HexChar(n[i]))
  }

  /** Commas every three digits, counted from the right. */
  function Grouped(s: seq<Char16>): seq<Char16> {
    if |s| <= 3 then s else Grouped(s[..|s| - 3]) + [COMMA] + s[|s| - 3..]
  }

  function SignedText(comma: bool, v: int): seq<Char16> {
    var digits := NumText(if v < 0 then -v else v, 10);
    (if v < 0 then [MINUS] else []) + if comma then Grouped(digits) else digits
  }

  function WithoutCommas(s: seq<Char16>): seq<Char16> {
    if s == [] then [] else (if s[0] == COMMA then [] else [s[0]]) + WithoutCommas(s[1..])
  }

  lemma {:induction false} WithoutCommasAppend(a: seq<Char16>, b: seq<Char16>)
    ensures WithoutCommas(a + b) == WithoutCommas(a) + WithoutCommas(b)
  {
    if a == [] {
      assert a + b == b;
    } else {
      assert (a + b)[1..] == a[1..] + b;
      WithoutCommasAppend(a[1..], b);
    }
  }

  lemma {:induction false} NoCommas(s: seq<Char16>)
    requires COMMA !in s
    ensures WithoutCommas(s) == s
  {
    if s != [] {
      NoCommas(s[1..]);
    }
  }

  lemma OneComma()
    ensures WithoutCommas([COMMA]) == []
  {
    assert WithoutCommas([COMMA]) == WithoutCommas([COMMA][1..]);
  }

  lemma PlainParts(a: seq<Char16>, b: seq<Char16>)
    ensures WithoutCommas(a + [COMMA] + b) == WithoutCommas(a) + WithoutCommas(b)
  {
    OneComma();
    hide WithoutCommas;
    WithoutCommasAppend(a + [COMMA], b);
    WithoutCommasAppend(a, [COMMA]);
  }

  /** Deleting the commas gives the plain form. */
  lemma {:induction false} GroupedPlain(s: seq<Char16>)
    requires COMMA !in s
    ensures WithoutCommas(Grouped(s)) == s
    decreases |s|
  {
    if |s| <= 3 {
      NoCommas(s);
    } else {
      var a, b := s[..|s| - 3], s[|s| - 3..];
      GroupedPlain(a);
      NoCommas(b);
      PlainParts(Grouped(a), b);
    }
  }

  /** In the grouped form, every fourth character from the right is a comma, and no other is; it does
    * not start with one. */
  lemma {:induction false} GroupedCommas(s: seq<Char16>, k: nat)
    requires COMMA !in s && k < |Grouped(s)|
    ensures Grouped(s)[|Grouped(s)| - 1 - k] == COMMA <==> k % 4 == 3
    ensures Grouped(s)[0] != COMMA
    decreases |s|
  {
    if |s| > 3 {
      var a := s[..|s| - 3];
      var g := Grouped(a);
      if k >= 4 {
        GroupedCommas(a, k - 4);
      } else {
        GroupedCommas(a, 0);
      }
      assert Grouped(s)[0] == g[0];
    }
  }

  // ---------- ValueToHex and ValueToString ----------

  /** A buffer whose first characters are `s`, with a NUL after them. */
  ghost predicate Text(b: seq<Char16>, s: seq<Char16>) {
    |s| < |b| && b[..|s|] == s && b[|s|] == 0
  }

  function Reverse(s: seq<Char16>): seq<Char16> {
    if s == [] then [] else Reverse(s[1..]) + [s[0]]
  }

  lemma {:induction false} ReverseLast(s: seq<Char16>, c: Char16)
    ensures Reverse(s + [c]) == [c] + Reverse(s)
  {
    if s == [] {
      assert Reverse([c][1..]) == [];
    } else {
      assert (s + [c])[1..] == s[1..] + [c];
      ReverseLast(s[1..], c);
    }
  }

  /** The digits that the loops write: none for zero. */
  function Digits(v: nat, base: nat): seq<Char16>
    requires base == 10 || base == 16
  {
    if v == 0 then [] else NumText(v, base)
  }

  lemma DigitsStep(v: nat, base: nat)
    requires (base == 10 || base == 16) && v > 0
    ensures Digits(v, base) == Digits(Quotient(v, base), base) + [HexChar(Rest(v, base))]
    ensures Quotient(v, base) < v && Rest(v, base) < base
  {
  }

  /** One more digit written, one fewer to come. */
  lemma LowStep(v: nat, w: nat, base: nat, low: seq<Char16>)
    requires (base == 10 || base == 16) && w > 0
    requires Digits(v, base) == Digits(w, base) + Reverse(low)
    ensures Quotient(w, base) < w && Rest(w, base) < base
    ensures |Digits(Quotient(w, base), base)| + 1 == |Digits(w, base)|
    ensures Digits(v, base) == Digits(Quotient(w, base), base) + Reverse(low + [HexChar(Rest(w, base))])
  {
    DigitsStep(w, base);
    hide Digits, HexChar, Quotient, Rest, Reverse;
    var c := HexChar(Rest(w, base));
    ReverseLast(low, c);
    Regroup(Digits(Quotient(w, base), base), c, Reverse(low));
  }

  lemma Regroup(a: seq<Char16>, c: Char16, b: seq<Char16>)
    ensures a + [c] + b == a + ([c] + b)
  {
  }

  /** The first loop of both functions: the digits, lowest first. */
  method LowFirst(v: nat, base: nat, size: nat) returns (str: array<Char16>, n: nat)
    requires (base == 10 || base == 16) && |Digits(v, base)| <= size
    ensures fresh(str) && n <= str.Length
    ensures Digits(v, base) == Reverse(str[..n]) && n == |Digits(v, base)|
  {
    hide HexChar;
    str := new Char16[size];
    n := 0;
    var w := v;
    assert Reverse(str[..0]) == [];
    assert Digits(0, base) == [];
    hide Digits, Quotient, Rest, Reverse;
    while w != 0
      invariant n + |Digits(w, base)| == |Digits(v, base)|
      invariant Digits(v, base) == Digits(w, base) + Reverse(str[..n])
      decreases w
    {
      ghost var low := str[..n];
      LowStep(v, w, base, low);
      str[n] := HexChar(Rest(w, base));
      assert str[..n + 1] == low + [str[n]];
      w := Quotient(w, base);
      n := n + 1;
    }
  }

  lemma {:induction false} ReverseAt(s: seq<Char16>, k: nat)
    requires k < |s|
    ensures |Reverse(s)| == |s| && Reverse(s)[k] == s[|s| - 1 - k]
  {
    if |s| > 1 {
      ReverseAt(s[1..], if k < |s| - 1 then k else 0);
    }
  }

  method ValueToHex(buffer: array<Char16>, v: nat)
    requires v < W64 && |NumText(v, 16)| < buffer.Length
    modifies buffer
    ensures Text(buffer[..], NumText(v, 16))
  {
    if v == 0 {
      buffer[0] := ZERO;
      buffer[1] := 0;
      return;
    }
    Powers();
    NumeralLength(v, 16, 16);
    var str, n := LowFirst(v, 16, 30);
    ghost var text := NumText(v, 16);
    assert Digits(v, 16) == text;
    var p1: nat, p2: nat := n, 0;
    ghost var low := str[..n];
    hide NumText, Digits, Reverse;
    while p1 != 0
      invariant p1 + p2 == n && str[..n] == low && buffer[..p2] == text[..p2]
      decreases p1
    {
      ReverseAt(low, p2);
      assert str[p1 - 1] == low[p1 - 1] == text[p2];
      p1 := p1 - 1;
      buffer[p2] := str[p1];
      p2 := p2 + 1;
    }
    buffer[p2] := 0;
  }

  /** In a numeral of `n` digits a comma stands before digit `i`. */
  predicate CommaBefore(n: nat, i: nat)
    requires i <= n
  {
    i > 0 && (n - i) % 3 == 0
  }

  /** The first `i` digits of `s`, with the commas that stand before them. */
  function Commas(s: seq<Char16>, i: nat): seq<Char16>
    requires i <= |s|
  {
    if i == 0 then []
    else Commas(s, i - 1) + (if CommaBefore(|s|, i - 1) then [COMMA] else []) + [s[i - 1]]
  }

  /** Seen from the left, the digits before the last three are grouped as a numeral of their own. */
  lemma {:induction false} CommasPrefix(s: seq<Char16>, i: nat)
    requires |s| >= 3 && i <= |s| - 3
    ensures Commas(s, i) == Commas(s[..|s| - 3], i)
  {
    if i > 0 {
      CommasPrefix(s, i - 1);
      assert CommaBefore(|s|, i - 1) == CommaBefore(|s| - 3, i - 1);
    }
  }

  lemma CommasNext(s: seq<Char16>, i: nat)
    requires i < |s|
    ensures CommaBefore(|s|, i) ==> Commas(s, i + 1) == Commas(s, i) + [COMMA] + [s[i]]
    ensures !CommaBefore(|s|, i) ==> Commas(s, i + 1) == Commas(s, i) + [s[i]]
  {
    assert Commas(s, i) + [] == Commas(s, i);
  }

  /** The last three digits. */
  lemma CommasLastThree(s: seq<Char16>)
    requires |s| >= 3
    ensures var n := |s|;
      Commas(s, n) == (if n > 3 then Commas(s, n - 3) + [COMMA] else Commas(s, n - 3)) + s[n - 3..]
  {
    var n := |s|;
    assert CommaBefore(n, n - 3) <==> n > 3;
    assert !CommaBefore(n, n - 2) && !CommaBefore(n, n - 1);
    hide CommaBefore, Commas;
    var c := if n > 3 then Commas(s, n - 3) + [COMMA] else Commas(s, n - 3);
    CommasNext(s, n - 3);
    assert Commas(s, n - 2) == c + [s[n - 3]];
    CommasNext(s, n - 2);
    CommasNext(s, n - 1);
    LastThree(s, c);
  }

  lemma LastThree(s: seq<Char16>, c: seq<Char16>)
    requires |s| >= 3
    ensures var n := |s|; c + [s[n - 3]] + [s[n - 2]] + [s[n - 1]] == c + s[n - 3..]
  {
  }

  lemma {:induction false} CommasAreGrouped(s: seq<Char16>)
    ensures Commas(s, |s|) == Grouped(s)
    decreases |s|
  {
    var n := |s|;
    if n >= 3 {
      CommasLastThree(s);
      if n > 3 {
        hide CommaBefore;
        CommasAreGrouped(s[..n - 3]);
        CommasPrefix(s, n - 3);
      } else {
        assert Commas(s, 0) == [] && s[0..] == s;
      }
    } else if n == 2 {
      assert Commas(s, 1) == Commas(s, 0) + [] + [s[0]];
    }
  }

  lemma {:induction false} GroupedSize(s: seq<Char16>)
    ensures |s| <= |Grouped(s)| <= 2 * |s|
    decreases |s|
  {
    if |s| > 3 {
      GroupedSize(s[..|s| - 3]);
    }
  }

  method ValueToString(buffer: array<Char16>, comma: bool, value: int)
    requires -(INT64_LIMIT as int) < value < INT64_LIMIT && |SignedText(comma, value)| < buffer.Length
    modifies buffer
    ensures Text(buffer[..], SignedText(comma, value))
  {
    if value == 0 {
      buffer[0] := ZERO;
      buffer[1] := 0;
      return;
    }
    hide Text, NumText, Grouped;
    var p2, v := 0, value;
    if v < 0 {
      buffer[p2] := MINUS;
      p2 := p2 + 1;
      v := -v;
    }
    assert buffer[..p2] == if value < 0 then [MINUS] else [];
    WriteDecimal(buffer, p2, comma, v);
  }

  /** Both loops, for a number that is not zero. */
  method WriteDecimal(buffer: array<Char16>, at: nat, comma: bool, v: nat)
    requires 0 < v < INT64_LIMIT
    requires at + |if comma then Grouped(NumText(v, 10)) else NumText(v, 10)| < buffer.Length
    modifies buffer
    ensures var digits := NumText(v, 10);
            Text(buffer[..], old(buffer[..at]) + if comma then Grouped(digits) else digits)
  {
    ShortDecimal(v);
    hide Text, NumText, Digits, Reverse, Numeral;
    ghost var start := buffer[..at];
    var str, n := LowFirst(v, 10, 40);
    assert buffer[..at] == start;
    CommasAreGrouped(NumText(v, 10));
    WriteDigits(buffer, at, str, n, comma, NumText(v, 10));
  }

  lemma ShortDecimal(v: nat)
    requires 0 < v < INT64_LIMIT
    ensures Digits(v, 10) == NumText(v, 10) && 0 < |NumText(v, 10)| <= 20
  {
    Powers();
    NumeralLength(v, 10, 20);
  }

  /** The counter of the second loop, before digit `i` of `n`. */
  function Counter(n: nat, i: nat): nat
    requires i < n
  {
    if i == 0 then (if n % 3 == 0 then 3 else if n % 3 == 1 then 1 else 2) + 1 else (n - i) % 3 + 1
  }

  lemma CounterStep(n: nat, i: nat)
    requires i < n
    ensures Counter(n, i) == 1 <==> CommaBefore(n, i)
    ensures i + 1 < n ==> Counter(n, i + 1) == if Counter(n, i) == 1 then 3 else Counter(n, i) - 1
  {
  }

  /** `*(p2++) = c` */
  method Put(buffer: array<Char16>, p2: nat, c: Char16) returns (next: nat)
    requires p2 < buffer.Length
    modifies buffer
    ensures next == p2 + 1 && buffer[..next] == old(buffer[..p2]) + [c]
  {
    buffer[p2] := c;
    next := p2 + 1;
  }

  /** The second loop: the digits from the highest down; `c` counts down to the next comma. */
  method WriteDigits(buffer: array<Char16>, at: nat, str: array<Char16>, n: nat, comma: bool,
                     ghost digits: seq<Char16>)
    requires 0 < n <= 20 && n <= str.Length && str != buffer
    requires digits == Reverse(str[..n]) && |digits| == n
    requires at + |if comma then Commas(digits, n) else digits| < buffer.Length
    modifies buffer
    ensures var s := if comma then Commas(digits, n) else digits;
            Text(buffer[..], old(buffer[..at]) + s)
  {
    hide Counter, CommaBefore, Commas, Reverse;
    var p1: nat, p2: nat := n, at;
    var c := (if !comma then 999 else if n % 3 == 0 then 3 else if n % 3 == 1 then 1 else 2) + 1;
    ghost var low, start, done := str[..n], buffer[..at], [];
    CounterStart(n);
    CommasStart(digits);
    while p1 != 0
      invariant p1 <= n && str[..n] == low
      invariant done == Written(digits, n - p1, comma)
      invariant p2 == at + |done| < buffer.Length && buffer[..p2] == start + done
      invariant p1 != 0 ==> c == if comma then Counter(n, n - p1) else 1000 - (n - p1)
      decreases p1
    {
      ghost var i := n - p1;
      CounterStep(n, i);
      WrittenStep(digits, i, comma);
      WrittenGrows(digits, i + 1, n, comma);
      hide Written;
      c := c - 1;
      if c == 0 {
        p2 := Put(buffer, p2, COMMA);
        done := done + [COMMA];
        c := 3;
      }
      ReverseAt(low, i);
      p1 := p1 - 1;
      assert str[p1] == low[p1] == digits[i];
      p2 := Put(buffer, p2, str[p1]);
      done := done + [digits[i]];
    }
    buffer[p2] := 0;
  }

  /** What the second loop has written after `i` digits. */
  ghost function Written(digits: seq<Char16>, i: nat, comma: bool): seq<Char16>
    requires i <= |digits|
  {
    if comma then Commas(digits, i) else digits[..i]
  }

  lemma WrittenStep(digits: seq<Char16>, i: nat, comma: bool)
    requires i < |digits|
    ensures comma && CommaBefore(|digits|, i) ==>
              Written(digits, i + 1, comma) == Written(digits, i, comma) + [COMMA] + [digits[i]]
    ensures !(comma && CommaBefore(|digits|, i)) ==>
              Written(digits, i + 1, comma) == Written(digits, i, comma) + [digits[i]]
  {
    hide CommaBefore, Commas;
    CommasNext(digits, i);
  }

  lemma {:induction false} WrittenGrows(digits: seq<Char16>, i: nat, j: nat, comma: bool)
    requires i <= j <= |digits|
    ensures |Written(digits, i, comma)| <= |Written(digits, j, comma)|
    decreases j
  {
    if i < j {
      WrittenStep(digits, j - 1, comma);
      hide Written;
      WrittenGrows(digits, i, j - 1, comma);
    }
  }

  lemma CommasStart(digits: seq<Char16>)
    ensures Written(digits, 0, true) == [] && Written(digits, 0, false) == []
    ensures Written(digits, |digits|, true) == Commas(digits, |digits|) && Written(digits, |digits|, false) == digits
  {
  }

  lemma CounterStart(n: nat)
    requires n > 0
    ensures Counter(n, 0) == (if n % 3 == 0 then 3 else if n % 3 == 1 then 1 else 2) + 1
  {
  }

  // ---------- xtoi and Atoi ----------

  /** The digit that a character stands for. */
  function DigitOf(c: Char16, base: nat): int {
    if ZERO <= c <= NINE then c - ZERO
    else if base == 16 && UPPER_A <= c <= UPPER_F then c - UPPER_A + 10
    else if base == 16 && LOWER_A <= c <= LOWER_F then c - LOWER_A + 10
    else -1
  }

  /** The digits that a string starts with. */
  function LeadingDigits(s: seq<Char16>, base: nat): seq<nat> {
    if s == [] || DigitOf(s[0], base) < 0 then [] else [DigitOf(s[0], base)] + LeadingDigits(s[1..], base)
  }

  function SkipSpaces(s: seq<Char16>): seq<Char16> {
    if s != [] && s[0] == SPACE then SkipSpaces(s[1..]) else s
  }

  lemma ValueLast(digits: seq<nat>, d: nat, base: nat)
    ensures Value(digits + [d], base) == Value(digits, base) * base + d
  {
    assert (digits + [d])[..|digits|] == digits;
  }

  lemma WrapStep(u: nat, v: nat, base: nat, d: nat)
    requires u == v % W64 && (base == 10 || base == 16)
    ensures (u * base + d) % W64 == (v * base + d) % W64
  {
    var q := v / W64;
    assert v == q * W64 + u;
    if base == 10 {
      assert v * 10 + d == (q * 10) * W64 + (u * 10 + d);
      ModShift(q * 10, u * 10 + d);
    } else {
      assert v * 16 + d == (q * 16) * W64 + (u * 16 + d);
      ModShift(q * 16, u * 16 + d);
    }
  }

  lemma ModShift(k: nat, x: nat)
    ensures (k * W64 + x) % W64 == x % W64
  {
  }

  /** `u * base + d`, in 64 bits. */
  function Accumulate(u: nat, d: nat, base: nat): nat {
    (u * base + d) % W64
  }

  lemma AccumulateStep(u: nat, digits: seq<nat>, d: nat, base: nat)
    requires u == Value(digits, base) % W64 && (base == 10 || base == 16)
    ensures Accumulate(u, d, base) == Value(digits + [d], base) % W64
  {
    ValueLast(digits, d, base);
    WrapStep(u, Value(digits, base), base, d);
  }

  /** `xtoi` (base 16) and `Atoi` (base 10), which differ only in the digits they accept. The value of
    * the leading digits, modulo 2^64. */
  method ReadNumber(str: seq<Char16>, base: nat, ghost text: seq<Char16>) returns (u: nat)
    requires Text(str, text) && 0 !in text && (base == 10 || base == 16)
    ensures u == Value(LeadingDigits(SkipSpaces(text), base), base) % W64
  {
    hide Value, LeadingDigits, DigitOf, Text;
    var i := 0;
    assert text[0..] == text;
    ReadCell(str, text, 0);
    while str[i] != 0 && str[i] == SPACE
      invariant i <= |text| && i < |str| && (str[i] == 0 <==> i == |text|)
      invariant SkipSpaces(text[i..]) == SkipSpaces(text)
      decreases |text| - i
    {
      ReadCell(str, text, i);
      ReadCell(str, text, i + 1);
      i := i + 1;
    }
    ReadCell(str, text, i);
    assert SkipSpaces(text) == text[i..];
    u, i := ReadDigits(str, i, base, text);
  }

  /** The second loop of both functions. */
  method ReadDigits(str: seq<Char16>, start: nat, base: nat, ghost text: seq<Char16>) returns (u: nat, i: nat)
    requires Text(str, text) && 0 !in text && (base == 10 || base == 16) && start <= |text|
    ensures u == Value(LeadingDigits(text[start..], base), base) % W64
    ensures i == start + |LeadingDigits(text[start..], base)| <= |text|
  {
    hide Value, LeadingDigits, DigitOf, Text, Accumulate;
    i := start;
    ghost var seen: seq<nat> := [];
    u := 0;
    EmptyValue(base);
    while true
      invariant i <= |text| && i == start + |seen|
      invariant LeadingDigits(text[start..], base) == seen + LeadingDigits(text[i..], base)
      invariant u == Value(seen, base) % W64
      decreases |text| - i
    {
      ReadCell(str, text, i);
      LeadingStep(text, i, base);
      var c := str[i];
      if c == 0 || DigitOf(c, base) < 0 {
        assert seen + [] == seen;
        break;
      }
      AccumulateStep(u, seen, DigitOf(c, base), base);
      u := Accumulate(u, DigitOf(c, base), base);
      seen := seen + [DigitOf(c, base)];
      i := i + 1;
    }
  }

  lemma ReadCell(str: seq<Char16>, text: seq<Char16>, i: nat)
    requires Text(str, text) && 0 !in text && i <= |text|
    ensures i < |str| && (str[i] == 0 <==> i == |text|) && (i < |text| ==> str[i] == text[i])
  {
    if i < |text| {
      assert str[..|text|][i] == str[i];
      assert text[i] in text;
    }
  }

  lemma EmptyValue(base: nat)
    ensures Value([], base) == 0
  {
  }

  lemma LeadingStep(text: seq<Char16>, i: nat, base: nat)
    requires i <= |text|
    ensures LeadingDigits(text[i..], base)
         == if i == |text| || DigitOf(text[i], base) < 0 then []
            else [DigitOf(text[i], base)] + LeadingDigits(text[i + 1..], base)
  {
    if i < |text| {
      assert text[i..][1..] == text[i + 1..];
    }
  }

  // ---------- reading back what was printed ----------

  lemma {:induction false} DigitsReadBack(digits: seq<nat>, text: seq<Char16>, base: nat)
    requires (base == 10 || base == 16) && |text| == |digits|
    requires forall i | 0 <= i < |digits| :: digits[i] < base && text[i] == HexChar(digits[i])
    ensures LeadingDigits(text, base) == digits
    ensures forall i | 0 <= i < |text| :: text[i] != SPACE && text[i] != 0
  {
    if text != [] {
      DigitsReadBack(digits[1..], text[1..], base);
      assert forall i | 0 < i < |text| :: text[i] == text[1..][i - 1];
    }
  }

  /** Reading the numeral of `v` gives `v`, in both bases, whatever 64-bit number it is. */
  lemma NumberReadBack(v: nat, base: nat)
    requires v < W64 && (base == 10 || base == 16)
    ensures 0 !in NumText(v, base)
    ensures Value(LeadingDigits(SkipSpaces(NumText(v, base)), base), base) % W64 == v
  {
    DigitsReadBack(Numeral(v, base), NumText(v, base), base);
    ValueOfNumeral(v, base);
  }

  lemma {:induction false} GroupedNoNul(s: seq<Char16>)
    requires 0 !in s
    ensures 0 !in Grouped(s)
    decreases |s|
  {
    if |s| > 3 {
      GroupedNoNul(s[..|s| - 3]);
    }
  }

  /** Sixteen digits, or a sign and two characters for each of twenty digits, are always enough. */
  lemma HexFits(v: nat)
    requires v < W64
    ensures |NumText(v, 16)| <= 16
  {
    Powers();
    NumeralLength(v, 16, 16);
  }

  lemma DecimalFits(comma: bool, v: int)
    requires -(INT64_LIMIT as int) < v < INT64_LIMIT
    ensures |SignedText(comma, v)| <= 41
  {
    var digits := NumText(if v < 0 then -v else v, 10);
    Powers();
    NumeralLength(if v < 0 then -v else v, 10, 20);
    hide NumText, Grouped;
    GroupedSize(digits);
  }

  lemma SignedTextNoNul(comma: bool, v: int)
    requires -(INT64_LIMIT as int) < v < INT64_LIMIT
    ensures 0 !in SignedText(comma, v)
  {
    NumberReadBack(if v < 0 then -v else v, 10);
    GroupedNoNul(NumText(if v < 0 then -v else v, 10));
  }

  /** Printing and reading, one after the other. */
  method HexRoundTrip(buffer: array<Char16>, v: nat) returns (u: nat)
    requires v < W64 && |NumText(v, 16)| < buffer.Length
    modifies buffer
    ensures u == v
  {
    hide NumText, LeadingDigits, SkipSpaces, Value;
    ValueToHex(buffer, v);
    NumberReadBack(v, 16);
    u := ReadNumber(buffer[..], 16, NumText(v, 16));
  }

  method DecimalRoundTrip(buffer: array<Char16>, v: nat) returns (u: nat)
    requires v < INT64_LIMIT && |NumText(v, 10)| < buffer.Length
    modifies buffer
    ensures u == v
  {
    hide NumText, LeadingDigits, SkipSpaces, Value;
    ValueToString(buffer, false, v);
    NumberReadBack(v, 10);
    assert SignedText(false, v) == NumText(v, 10);
    u := ReadNumber(buffer[..], 10, NumText(v, 10));
  }
}
