/** The checksum of a message that ends with its own checksum, and the usual check value (`crc.c`). */
module CrcResidue {
  import opened Crc32

  /** The bytes of a word, lowest first. */
  function FourBytes(v: bv32): (r: seq<bv8>)
    ensures |r| == 4
  {
    [(v & 0xFF) as bv8, ((v >> 8) & 0xFF) as bv8, ((v >> 16) & 0xFF) as bv8, (v >> 24) as bv8]
  }

  function Low8(c: bv32): bv8 {
    (c & 0xFF) as bv8
  }

  /** The register after one more byte. */
  function Next(c: bv32, b: bv8): bv32 {
    Serial(c, b as bv32, 8)
  }

  lemma SplitLow(c: bv32, k: bv32)
    ensures Xor(Xor(c, Low8(k) as bv32), k & 0xFFFFFF00) == Xor(c, k)
    ensures k >> 8 == Shr8(k)
  {
    assert Low8(k) as bv32 == k & 0xFF;
    assert (c ^ (k & 0xFF)) ^ (k & 0xFFFFFF00) == c ^ k;
  }

  /** Feeding a word in at once and stepping over its lowest byte leaves the other bytes behind. */
  lemma FeedByte(c: bv32, k: bv32)
    ensures Shift8(Xor(c, k)) == Xor(Next(c, Low8(k)), Shr8(k))
  {
    hide Shift8, Serial, Xor, Shr8, Low8;
    SplitLow(c, k);
    ShiftLinear(Xor(c, Low8(k) as bv32), k & 0xFFFFFF00);
    ShiftUpper(k);
    ByteAtOnce(c, Low8(k));
  }

  function Shift32(c: bv32): bv32 {
    Shift8(Shift8(Shift8(Shift8(c))))
  }

  lemma BytesLeft(k: bv32)
    ensures FourBytes(k) == [Low8(k), Low8(Shr8(k)), Low8(Shr8(Shr8(k))), Low8(Shr8(Shr8(Shr8(k))))]
    ensures Shr8(Shr8(Shr8(Shr8(k)))) == 0
  {
    assert k >> 8 >> 8 == k >> 16 && k >> 16 >> 8 == k >> 24 && k >> 24 >> 8 == 0;
    assert (k >> 24) & 0xFF == k >> 24;
  }

  lemma RunLast(c: bv32, m: seq<bv8>, b: bv8)
    ensures Run(c, m + [b]) == Next(Run(c, m), b)
  {
    hide Run, Serial;
    RunAppend(c, m, [b]);
    RunOne(Run(c, m), b);
  }

  lemma RunFourBytes(c: bv32, b0: bv8, b1: bv8, b2: bv8, b3: bv8)
    ensures Run(c, [b0, b1, b2, b3]) == Next(Next(Next(Next(c, b0), b1), b2), b3)
  {
    hide Run, Next;
    RunEmpty(c);
    assert [] + [b0] == [b0] && [b0] + [b1] == [b0, b1];
    assert [b0, b1] + [b2] == [b0, b1, b2] && [b0, b1, b2] + [b3] == [b0, b1, b2, b3];
    RunLast(c, [], b0);
    RunLast(c, [b0], b1);
    RunLast(c, [b0, b1], b2);
    RunLast(c, [b0, b1, b2], b3);
  }

  lemma FeedFour(c: bv32, k: bv32)
    ensures var k1 := Shr8(k);
      var k2 := Shr8(k1);
      var k3 := Shr8(k2);
      Shift32(Xor(c, k)) == Xor(Next(Next(Next(Next(c, Low8(k)), Low8(k1)), Low8(k2)), Low8(k3)), Shr8(k3))
  {
    hide Shift8, Next, Xor, Shr8, Low8;
    var k1 := Shr8(k);
    var k2 := Shr8(k1);
    var k3 := Shr8(k2);
    var c1 := Next(c, Low8(k));
    var c2 := Next(c1, Low8(k1));
    FeedByte(c, k);
    FeedByte(c1, k1);
    FeedByte(c2, k2);
    FeedByte(Next(c2, Low8(k2)), k3);
  }

  /** The four bytes of a word are the word. */
  lemma RunFour(c: bv32, k: bv32)
    ensures Run(c, FourBytes(k)) == Shift32(Xor(c, k))
  {
    hide Shift32, Next, Xor, Shr8, Low8, Run, FourBytes;
    BytesLeft(k);
    var k1 := Shr8(k);
    var k2 := Shr8(k1);
    var k3 := Shr8(k2);
    FeedFour(c, k);
    RunFourBytes(c, Low8(k), Low8(k1), Low8(k2), Low8(k3));
    XorSelf(Next(Next(Next(Next(c, Low8(k)), Low8(k1)), Low8(k2)), Low8(k3)));
  }

  lemma Ones1()
    ensures Shift8(0xFFFFFFFF) == 0x2DFD1072
  {
  }

  lemma Ones2()
    ensures Shift8(0x2DFD1072) == 0xBE26ED00
  {
  }

  lemma Ones3()
    ensures Shift8(0xBE26ED00) == 0x00BE26ED
  {
  }

  lemma Ones4()
    ensures Shift8(0x00BE26ED) == 0xDEBB20E3
  {
  }

  lemma ShiftedOnes()
    ensures Shift32(0xFFFFFFFF) == 0xDEBB20E3
  {
    hide Shift8;
    Ones1();
    Ones2();
    Ones3();
    Ones4();
  }

  lemma Shift32Injective(c: bv32, d: bv32)
    ensures Shift32(c) == Shift32(d) ==> c == d
  {
    hide Shift8;
    ShiftInjective(c, d);
    ShiftInjective(Shift8(c), Shift8(d));
    ShiftInjective(Shift8(Shift8(c)), Shift8(Shift8(d)));
    ShiftInjective(Shift8(Shift8(Shift8(c))), Shift8(Shift8(Shift8(d))));
  }

  lemma Complement(c: bv32, v: bv32)
    ensures Xor(c, Xor(c, 0xFFFFFFFF)) == 0xFFFFFFFF
    ensures Xor(c, v) == 0xFFFFFFFF ==> v == Xor(c, 0xFFFFFFFF)
    ensures Xor(c, 0xFFFFFFFF) == 0x2144DF1C <==> c == 0xDEBB20E3
  {
  }

  /** With four bytes more, a message has this checksum exactly when they are its own. */
  lemma Residue(m: seq<bv8>, v: bv32)
    ensures Checksum(m + FourBytes(v)) == 0x2144DF1C <==> v == Checksum(m)
  {
    hide Run, Xor, Shift32, FourBytes;
    var c := Run(0xFFFFFFFF, m);
    RunAppend(0xFFFFFFFF, m, FourBytes(v));
    RunFour(c, v);
    ShiftedOnes();
    Complement(c, v);
    Complement(Shift32(Xor(c, v)), v);
    Shift32Injective(Xor(c, v), 0xFFFFFFFF);
  }

  lemma NoBytes()
    ensures Checksum([]) == 0
  {
    RunEmpty(0xFFFFFFFF);
  }

  lemma Digit1()
    ensures Next(0xFFFFFFFF, 0x31) == 0x7C231048
  {
    hide Serial;
    TableStep(0xFFFFFFFF, 0x31);
  }

  lemma Digit2()
    ensures Next(0x7C231048, 0x32) == 0xB0ACBB32
  {
    hide Serial;
    TableStep(0x7C231048, 0x32);
  }

  lemma Digit3()
    ensures Next(0xB0ACBB32, 0x33) == 0x77B79C2D
  {
    hide Serial;
    TableStep(0xB0ACBB32, 0x33);
  }

  lemma Digit4()
    ensures Next(0x77B79C2D, 0x34) == 0x641C1F5C
  {
    hide Serial;
    TableStep(0x77B79C2D, 0x34);
  }

  lemma Digit5()
    ensures Next(0x641C1F5C, 0x35) == 0x340AC5E3
  {
    hide Serial;
    TableStep(0x641C1F5C, 0x35);
  }

  lemma Digit6()
    ensures Next(0x340AC5E3, 0x36) == 0xF68D2C9E
  {
    hide Serial;
    TableStep(0x340AC5E3, 0x36);
  }

  lemma Digit7()
    ensures Next(0xF68D2C9E, 0x37) == 0xAFFC9660
  {
    hide Serial;
    TableStep(0xF68D2C9E, 0x37);
  }

  lemma Digit8()
    ensures Next(0xAFFC9660, 0x38) == 0x651F2550
  {
    hide Serial;
    TableStep(0xAFFC9660, 0x38);
  }

  lemma Digit9()
    ensures Next(0x651F2550, 0x39) == 0x340BC6D9
  {
    hide Serial;
    TableStep(0x651F2550, 0x39);
  }

  /** The digits from 1 to 9. */
  const DIGITS: seq<bv8> := [0x31, 0x32, 0x33, 0x34, 0x35, 0x36, 0x37, 0x38, 0x39]

  lemma DigitsSplit()
    ensures DIGITS == [0x31, 0x32, 0x33, 0x34] + [0x35, 0x36, 0x37, 0x38] + [0x39]
  {
  }

  lemma RunOfDigits()
    ensures Run(0xFFFFFFFF, DIGITS) == 0x340BC6D9
  {
    hide Run, Next;
    DigitsSplit();
    RunFourBytes(0xFFFFFFFF, 0x31, 0x32, 0x33, 0x34);
    Digit1();
    Digit2();
    Digit3();
    Digit4();
    RunFourBytes(0x641C1F5C, 0x35, 0x36, 0x37, 0x38);
    Digit5();
    Digit6();
    Digit7();
    Digit8();
    Digit9();
    RunAppend(0xFFFFFFFF, [0x31, 0x32, 0x33, 0x34], [0x35, 0x36, 0x37, 0x38]);
    RunLast(0xFFFFFFFF, [0x31, 0x32, 0x33, 0x34] + [0x35, 0x36, 0x37, 0x38], 0x39);
  }

  /** The check value of this CRC, as the code computes it. */
  method CheckValue() returns (crc: bv32)
    ensures crc == 0xCBF43926
  {
    hide Run;
    crc := CalculateCrc(DIGITS, 9);
    assert DIGITS[..9] == DIGITS;
    RunOfDigits();
  }
}
