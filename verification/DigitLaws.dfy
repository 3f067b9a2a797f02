/** What the printed numbers look like and what the readers accept, character by character. */
module DigitLaws {
  import opened Words
  import opened Digits

  // ---------- printed numbers ----------

  /** The last character of a decimal numeral, and the numeral before it. */
  lemma DecimalText(v: nat)
    ensures v < 10 ==> NumText(v, 10) == [0x30 + v]
    ensures v >= 10 ==> NumText(v, 10) == NumText(v / 10, 10) + [0x30 + v % 10]
  {
    assert Numeral(v, 10) == if v < 10 then [v] else Numeral(v / 10, 10) + [v % 10];
  }

  /** The digits from ten on are the capital letters from A to F. */
  lemma HexText(v: nat)
    ensures v < 16 ==> NumText(v, 16) == [if v < 10 then 0x30 + v else 0x37 + v]
    ensures v >= 16 ==>
              NumText(v, 16) == NumText(v / 16, 16) + [if v % 16 < 10 then 0x30 + v % 16 else 0x37 + v % 16]
  {
    assert Numeral(v, 16) == if v < 16 then [v] else Numeral(v / 16, 16) + [v % 16];
  }

  /** A minus sign before a negative number, and the commas in the digits. */
  lemma SignedTextIs(comma: bool, v: int)
    ensures v >= 0 ==> SignedText(comma, v) == if comma then Grouped(NumText(v, 10)) else NumText(v, 10)
    ensures v < 0 ==> SignedText(comma, v) == [0x2D] + if comma then Grouped(NumText(-v, 10)) else NumText(-v, 10)
  {
  }

  lemma GroupedIs(s: seq<Char16>)
    ensures |s| <= 3 ==> Grouped(s) == s
    ensures |s| > 3 ==> Grouped(s) == Grouped(s[..|s| - 3]) + [0x2C] + s[|s| - 3..]
  {
  }

  // ---------- numbers that are read ----------

  predicate IsDigit(c: Char16, base: nat) {
    0x30 <= c <= 0x39 || (base == 16 && (0x41 <= c <= 0x46 || 0x61 <= c <= 0x66))
  }

  /** The digit that a character is, in either case. */
  function DigitValue(c: Char16): nat
    requires IsDigit(c, 16)
  {
    if c <= 0x39 then c - 0x30 else if c <= 0x46 then c - 0x41 + 10 else c - 0x61 + 10
  }

  /** The number that the characters are. */
  function NumberOf(cs: seq<Char16>, base: nat): nat
    requires forall i | 0 <= i < |cs| :: IsDigit(cs[i], 16)
  {
    if cs == [] then 0 else NumberOf(cs[..|cs| - 1], base) * base + DigitValue(cs[|cs| - 1])
  }

  ghost predicate AllDigits(cs: seq<Char16>, base: nat) {
    forall i | 0 <= i < |cs| :: IsDigit(cs[i], base) && IsDigit(cs[i], 16)
  }

  function DigitValues(cs: seq<Char16>): seq<nat>
    requires forall i | 0 <= i < |cs| :: IsDigit(cs[i], 16)
  {
    seq(|cs|, i requires 0 <= i < |cs| => DigitValue(cs[i]))
  }

  lemma {:induction false} LeadingOf(cs: seq<Char16>, tail: seq<Char16>, base: nat)
    requires (base == 10 || base == 16) && AllDigits(cs, base) && (tail == [] || !IsDigit(tail[0], base))
    ensures LeadingDigits(cs + tail, base) == DigitValues(cs)
    decreases |cs|
  {
    if cs == [] {
      assert cs + tail == tail;
    } else {
      assert (cs + tail)[1..] == cs[1..] + tail;
      LeadingOf(cs[1..], tail, base);
      assert DigitValues(cs) == [DigitValue(cs[0])] + DigitValues(cs[1..]);
    }
  }

  lemma {:induction false} ValueOf(cs: seq<Char16>, base: nat)
    requires forall i | 0 <= i < |cs| :: IsDigit(cs[i], 16)
    ensures Value(DigitValues(cs), base) == NumberOf(cs, base)
    decreases |cs|
  {
    if cs != [] {
      var n := |cs| - 1;
      ValueOf(cs[..n], base);
      assert DigitValues(cs) == DigitValues(cs[..n]) + [DigitValue(cs[n])];
      ValueLast(DigitValues(cs[..n]), DigitValue(cs[n]), base);
    }
  }

  lemma {:induction false} SpacesSkipped(n: nat, rest: seq<Char16>)
    requires rest == [] || rest[0] != 0x20
    ensures SkipSpaces(seq(n, _ => 0x20) + rest) == rest
  {
    if n == 0 {
      assert seq(n, _ => 0x20) + rest == rest;
    } else {
      assert (seq(n, _ => 0x20) + rest)[1..] == seq(n - 1, _ => 0x20) + rest;
      SpacesSkipped(n - 1, rest);
    }
  }

  /** Any number of spaces, digits, and something that does not go on with a digit: `xtoi` takes both
    * cases of the letters, `Atoi` none. */
  lemma NumberRead(n: nat, cs: seq<Char16>, tail: seq<Char16>, base: nat)
    requires (base == 10 || base == 16) && AllDigits(cs, base)
    requires tail == [] || (!IsDigit(tail[0], base) && (cs == [] ==> tail[0] != 0x20))
    ensures Value(LeadingDigits(SkipSpaces(seq(n, _ => 0x20) + (cs + tail)), base), base) == NumberOf(cs, base)
  {
    SpacesSkipped(n, cs + tail);
    LeadingOf(cs, tail, base);
    ValueOf(cs, base);
  }

  /** The letters of a numeral in lower case. */
  function Lowered(s: seq<Char16>): seq<Char16> {
    seq(|s|, i requires 0 <= i < |s| => if 0x41 <= s[i] <= 0x46 then s[i] + 0x20 else s[i])
  }

  lemma DigitMore(u: seq<Char16>, c: Char16, base: nat)
    requires AllDigits(u, 16) && IsDigit(c, 16)
    ensures AllDigits(u + [c], 16) && NumberOf(u + [c], base) == NumberOf(u, base) * base + DigitValue(c)
  {
    assert (u + [c])[..|u|] == u;
  }

  lemma LoweredMore(u: seq<Char16>, c: Char16)
    ensures Lowered(u + [c]) == Lowered(u) + [if 0x41 <= c <= 0x46 then c + 0x20 else c]
  {
  }

  lemma {:induction false} NumberOfHex(v: nat)
    ensures AllDigits(NumText(v, 16), 16) && AllDigits(Lowered(NumText(v, 16)), 16)
    ensures NumberOf(NumText(v, 16), 16) == v && NumberOf(Lowered(NumText(v, 16)), 16) == v
    decreases v
  {
    HexText(v);
    hide NumText, NumberOf, Lowered;
    var d := v % 16;
    var c := if d < 10 then 0x30 + d else 0x37 + d;
    var u := if v < 16 then [] else NumText(v / 16, 16);
    if v < 16 {
      NothingRead();
    } else {
      NumberOfHex(v / 16);
    }
    assert NumText(v, 16) == u + [c];
    LoweredMore(u, c);
    DigitMore(u, c, 16);
    DigitMore(Lowered(u), if 0x41 <= c <= 0x46 then c + 0x20 else c, 16);
  }

  lemma NothingRead()
    ensures NumberOf([], 16) == 0 && Lowered([]) == []
  {
  }

  /** A hexadecimal numeral reads back in either case of its letters. */
  lemma LowerCaseReadBack(v: nat)
    requires v < W64
    ensures Value(LeadingDigits(SkipSpaces(Lowered(NumText(v, 16))), 16), 16) % W64 == v
  {
    NumberOfHex(v);
    var l := Lowered(NumText(v, 16));
    assert seq(0, _ => 0x20) + (l + []) == l;
    NumberRead(0, l, [], 16);
  }
}
