/** The shift-and-subtract division of `ia32/math.c`. */
module Division {

  const W32: nat := 0x1_0000_0000
  const W63: nat := 0x8000_0000_0000_0000
  const W64: nat := 0x1_0000_0000_0000_0000

  /** The 64-bit dividend register and the 32-bit remainder. */
  datatype Regs = Regs(value: nat, rem: nat)

  /** One pass of the loop: the top bit of the dividend moves into the remainder, whose own top bit
    * is lost; when the divisor fits, it is subtracted and the low bit of the dividend is set. */
  function Step(d: nat, r: Regs): Regs {
    var value := 2 * r.value % W64;
    var rem := (2 * r.rem + r.value / W63) % W32;
    if rem >= d then Regs(value + 1, rem - d) else Regs(value, rem)
  }

  function Steps(d: nat, r: Regs, n: nat): Regs {
    if n == 0 then r else Step(d, Steps(d, r, n - 1))
  }

  // ---------- the instructions ----------

  /** `shl` and `rcl` of a 32-bit word, with the carry in and out. */
  function RotateIn(word: nat, carry: nat): (r: (nat, nat))
    requires word < W32 && carry <= 1
    ensures r.0 < W32 && r.1 <= 1 && r.1 * W32 + r.0 == 2 * word + carry
  {
    ((2 * word + carry) % W32, (2 * word + carry) / W32)
  }

  /** The three rotations shift the dividend, and its top bit into the remainder. */
  lemma Rotated(lo0: nat, hi0: nat, rem0: nat)
    requires lo0 < W32 && hi0 < W32 && rem0 < W32
    ensures var t := RotateIn(lo0, 0);
      var u := RotateIn(hi0, t.1);
      var v := RotateIn(rem0, u.1);
      && u.0 * W32 + t.0 == 2 * (hi0 * W32 + lo0) % W64 && t.0 % 2 == 0
      && v.0 == (2 * rem0 + (hi0 * W32 + lo0) / W63) % W32
  {
    var t := RotateIn(lo0, 0);
    var u := RotateIn(hi0, t.1);
    assert 2 * (hi0 * W32 + lo0) == u.1 * W64 + (u.0 * W32 + t.0);
    assert u.1 == (hi0 * W32 + lo0) / W63;
  }

  /** The mask: the low bit is set and the divisor subtracted, or neither. */
  lemma Masked(lo: nat, rem: nat, divisor: nat)
    requires lo < W32 && lo % 2 == 0 && rem < W32 && 0 < divisor < W32
    ensures var carry := if rem < divisor then 0 else 1;
      var eax := (W32 - carry) % W32;
      && (lo - eax) % W32 == lo + carry
      && (rem - if eax == 0 then 0 else divisor) % W32 == rem - carry * divisor
  {
  }

  /** The ten instructions of one pass, on the two halves of the dividend and the remainder. */
  method Pass(lo0: nat, hi0: nat, rem0: nat, divisor: nat) returns (lo: nat, hi: nat, rem: nat)
    requires lo0 < W32 && hi0 < W32 && rem0 < W32 && 0 < divisor < W32
    ensures lo < W32 && hi < W32 && rem < W32
    ensures Regs(hi * W32 + lo, rem) == Step(divisor, Regs(hi0 * W32 + lo0, rem0))
  {
    hide RotateIn;
    Rotated(lo0, hi0, rem0);
    var t := RotateIn(lo0, 0);                     // shll $1, Dividend
    lo := t.0;
    t := RotateIn(hi0, t.1);                       // rcll $1, 4 + Dividend
    hi := t.0;
    t := RotateIn(rem0, t.1);                      // rcll $1, Rem
    rem := t.0;
    Masked(lo, rem, divisor);
    var carry := if rem < divisor then 1 else 0;   // mov Rem, %eax; cmp Divisor, %eax
    carry := 1 - carry;                            // cmc
    var eax := (W32 - carry) % W32;                // sbb %eax, %eax
    lo := (lo - eax) % W32;                        // sub %eax, Dividend
    eax := if eax == 0 then 0 else divisor;        // and Divisor, %eax: a mask of zeros or of ones
    rem := (rem - eax) % W32;                      // sub %eax, Rem
  }

  method DivU64x32(dividend: nat, divisor: nat) returns (quotient: nat, remainder: nat)
    requires dividend < W64 && 0 < divisor < W32
    ensures Regs(quotient, remainder) == Steps(divisor, Regs(dividend, 0), 64)
    ensures divisor <= 0x8000_0000 ==> quotient == dividend / divisor && remainder == dividend % divisor
  {
    var lo: nat, hi: nat, rem: nat := dividend % W32, dividend / W32, 0;
    for bit := 0 to 64
      invariant lo < W32 && hi < W32 && rem < W32
      invariant Regs(hi * W32 + lo, rem) == Steps(divisor, Regs(dividend, 0), bit)
    {
      lo, hi, rem := Pass(lo, hi, rem, divisor);
    }
    quotient, remainder := hi * W32 + lo, rem;
    if divisor <= 0x8000_0000 {
      StepsDivide(dividend, divisor);
    }
  }

  // ---------- long division ----------

  /** The state after some steps of long division: `top` holds the bits of the dividend taken so far
    * and `left` those still to come, of which there are `low` many values; `top` has been divided. */
  datatype Progress = Progress(top: nat, left: nat, low: nat, high: nat, q: nat)

  ghost predicate Dividing(dividend: nat, d: nat, r: Regs, p: Progress) {
    && p.low * p.high == W64
    && dividend == p.top * p.low + p.left && p.left < p.low
    && r.value == p.left * p.high + p.q && p.q < p.high
    && p.top == p.q * d + r.rem && r.rem < d
  }

  /** The next bit of the dividend. */
  function NextBit(p: Progress): nat {
    if p.left >= p.low / 2 then 1 else 0
  }

  function Advance(d: nat, r: Regs, p: Progress): Progress
    requires p.low % 2 == 0
  {
    var b := NextBit(p);
    var fits := if 2 * r.rem + b >= d then 1 else 0;
    Progress(2 * p.top + b, if b == 1 then p.left - p.low / 2 else p.left, p.low / 2, 2 * p.high, 2 * p.q + fits)
  }

  lemma TopBit(dividend: nat, d: nat, r: Regs, p: Progress)
    requires Dividing(dividend, d, r, p) && p.low % 2 == 0
    ensures r.value / W63 == NextBit(p)
    ensures p.low % 2 == 0 && 2 * r.value % W64 == Advance(d, r, p).left * (2 * p.high) + 2 * p.q
  {
    var half := p.low / 2;
    assert half * p.high == W63;
    var rest := if p.left >= half then p.left - half else p.left;
    assert rest <= half - 1;
    MulMono(rest, half - 1, p.high);
    assert (half - 1) * p.high == W63 - p.high;
    assert rest * p.high + p.q < W63;
    if p.left >= half {
      assert p.left * p.high == half * p.high + rest * p.high;
    }
    assert rest * (2 * p.high) == 2 * (rest * p.high);
  }

  lemma MulMono(a: nat, b: nat, c: nat)
    requires a <= b
    ensures a * c <= b * c
  {
  }

  lemma BitsTaken(dividend: nat, d: nat, r: Regs, p: Progress)
    requires Dividing(dividend, d, r, p) && p.low % 2 == 0
    ensures var p' := Advance(d, r, p);
            p'.low * p'.high == W64 && dividend == p'.top * p'.low + p'.left && p'.left < p'.low && p'.q < p'.high
  {
    var p', half := Advance(d, r, p), p.low / 2;
    assert p.low == 2 * half;
    assert p'.low * p'.high == half * (2 * p.high) == p.low * p.high;
    assert p'.top * half == 2 * p.top * half + NextBit(p) * half;
    assert p.top * p.low == 2 * p.top * half;
  }

  lemma TopDivided(d: nat, rem: nat, b: nat, top: nat, q: nat)
    requires top == q * d + rem && rem < d && b <= 1
    ensures if 2 * rem + b >= d then 2 * top + b == (2 * q + 1) * d + (2 * rem + b - d) && 2 * rem + b - d < d
            else 2 * top + b == 2 * q * d + (2 * rem + b)
  {
    assert 2 * q * d == 2 * (q * d);
    assert (2 * q + 1) * d == 2 * (q * d) + d;
  }

  /** A step whose remainder does not lose its carry is a step of long division. */
  lemma StepDivides(dividend: nat, d: nat, r: Regs, p: Progress)
    requires Dividing(dividend, d, r, p) && p.low % 2 == 0
    requires 2 * r.rem + NextBit(p) < W32
    ensures Dividing(dividend, d, Step(d, r), Advance(d, r, p))
  {
    TopBit(dividend, d, r, p);
    BitsTaken(dividend, d, r, p);
    TopDivided(d, r.rem, NextBit(p), p.top, p.q);
    var r', p' := Step(d, r), Advance(d, r, p);
    var rem := 2 * r.rem + NextBit(p);
    assert r' == if rem >= d then Regs(2 * r.value % W64 + 1, rem - d) else Regs(2 * r.value % W64, rem);
    assert r'.value == p'.left * p'.high + p'.q;
  }

  function Pow2(n: nat): nat {
    if n == 0 then 1 else 2 * Pow2(n - 1)
  }

  /** Long division for `n` steps, as long as no remainder loses its carry. */
  lemma {:induction false} DivideSteps(dividend: nat, d: nat, n: nat) returns (p: Progress)
    requires dividend < W64 && 0 < d <= 0x8000_0000 && n <= 64
    ensures Dividing(dividend, d, Steps(d, Regs(dividend, 0), n), p) && p.low == Pow2(64 - n)
  {
    if n == 0 {
      Pow64();
      p := Progress(0, dividend, W64, 1, 0);
    } else {
      p := DivideSteps(dividend, d, n - 1);
      var r := Steps(d, Regs(dividend, 0), n - 1);
      StepDivides(dividend, d, r, p);
      p := Advance(d, r, p);
    }
  }

  lemma {:induction false} Pow2Add(a: nat, b: nat)
    ensures Pow2(a + b) == Pow2(a) * Pow2(b)
  {
    if a > 0 {
      Pow2Add(a - 1, b);
      assert 2 * Pow2(a - 1) * Pow2(b) == 2 * (Pow2(a - 1) * Pow2(b));
    }
  }

  lemma Pow64()
    ensures Pow2(32) == W32 && Pow2(64) == W64
  {
    assert Pow2(8) == 0x100 by {
      assert Pow2(4) == 16;
      Pow2Add(4, 4);
    }
    hide Pow2;
    Pow2Add(8, 8);
    Pow2Add(16, 16);
    Pow2Add(32, 32);
  }

  lemma StepsDivide(dividend: nat, d: nat)
    requires dividend < W64 && 0 < d <= 0x8000_0000
    ensures Steps(d, Regs(dividend, 0), 64) == Regs(dividend / d, dividend % d)
  {
    var p := DivideSteps(dividend, d, 64);
    var r := Steps(d, Regs(dividend, 0), 64);
    assert p.left == 0;
    assert dividend == p.q * d + r.rem && r.value == p.q;
    QuotientUnique(dividend, d, p.q, r.rem);
  }

  lemma QuotientUnique(n: nat, d: nat, q: nat, r: nat)
    requires n == q * d + r && r < d
    ensures n / d == q && n % d == r
  {
    var e := n / d - q;
    assert e * d == n / d * d - q * d == r - n % d;
    if e >= 1 {
      MulMono(1, e, d);
    }
  }

  // ---------- exactly which divisors work ----------

  /** The dividend `2 * (d - 1)` brings the remainder to `d - 1` just before the last step. */
  lemma {:induction false} StepsBelow(d: nat, n: nat) returns (p: Progress)
    requires 0x8000_0000 < d < W32 && n <= 63
    ensures Dividing(2 * (d - 1), d, Steps(d, Regs(2 * (d - 1), 0), n), p)
    ensures p.low == Pow2(64 - n) && p.q == 0 && 2 * p.top <= 2 * (d - 1)
  {
    if n == 0 {
      Pow64();
      p := Progress(0, 2 * (d - 1), W64, 1, 0);
    } else {
      p := StepsBelow(d, n - 1);
      var r := Steps(d, Regs(2 * (d - 1), 0), n - 1);
      HalfDone(d, p, n - 1);
      StepDivides(2 * (d - 1), d, r, p);
      p := Advance(d, r, p);
    }
  }

  lemma HalfDone(d: nat, p: Progress, n: nat)
    requires n <= 62 && p.low == Pow2(64 - n) && 0 < d
    requires 2 * (d - 1) == p.top * p.low + p.left && p.left < p.low
    ensures 2 * p.top + NextBit(p) <= d - 1
  {
    var quarter := Pow2(62 - n);
    PowPositive(62 - n);
    assert p.low == 4 * quarter;
    NextTop(p.top, p.left, quarter, NextBit(p), d - 1);
  }

  lemma NextTop(top: nat, left: nat, quarter: nat, b: nat, m: nat)
    requires 2 * m == top * (4 * quarter) + left && quarter >= 1 && b <= 1 && 2 * quarter * b <= left
    ensures 2 * top + b <= m
  {
    var t := 2 * top + b;
    assert t * quarter == 2 * (top * quarter) + b * quarter;
    assert top * (4 * quarter) == 4 * (top * quarter);
    MulMono(1, quarter, t);
  }

  lemma {:induction false} PowPositive(n: nat)
    ensures Pow2(n) >= 1
  {
    if n > 0 {
      PowPositive(n - 1);
    }
  }

  lemma LostCarry(d: nat)
    requires 0x8000_0000 < d < W32
    ensures Steps(d, Regs(2 * (d - 1), 0), 64) == Regs(0, 2 * (d - 1) - W32)
    ensures 2 * (d - 1) / d == 1
  {
    var p := StepsBelow(d, 63);
    var r := Steps(d, Regs(2 * (d - 1), 0), 63);
    assert Pow2(1) == 2;
    assert p.top * 2 + p.left == 2 * (d - 1);
    assert r == Regs(0, d - 1);
    assert Step(d, r) == Regs(0, 2 * (d - 1) - W32);
    QuotientUnique(2 * (d - 1), d, 1, d - 2);
  }

  /** The loop divides every dividend correctly exactly when the divisor is at most 2^31. */
  lemma CorrectDivisors(d: nat)
    requires 0 < d < W32
    ensures (forall n: nat | n < W64 :: Steps(d, Regs(n, 0), 64) == Regs(n / d, n % d)) <==> d <= 0x8000_0000
  {
    if d <= 0x8000_0000 {
      forall n: nat | n < W64
        ensures Steps(d, Regs(n, 0), 64) == Regs(n / d, n % d)
      {
        StepsDivide(n, d);
      }
    } else {
      LostCarry(d);
    }
  }
}
