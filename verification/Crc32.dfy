/** The CRC-32 of `crc.c`: the reflected CRC of section 8 of RFC 1952. */
module Crc32 {

  // ---------- words ----------
  // The bit operations have names of their own, so that a proof can use their laws alone.

  function Xor(a: bv32, b: bv32): bv32 {
    a ^ b
  }

  function Shr(a: bv32): bv32 {
    a >> 1
  }

  function Shr8(a: bv32): bv32 {
    a >> 8
  }

  function Low(a: bv32): bv32 {
    a & 0xFF
  }

  predicate Odd(a: bv32) {
    a & 1 == 1
  }

  const POLY: bv32 := 0xEDB88320

  lemma OddXor(a: bv32, b: bv32)
    ensures Odd(Xor(a, b)) == (Odd(a) != Odd(b))
  {
    assert ((a ^ b) & 1 == 1) == ((a & 1 == 1) != (b & 1 == 1));
  }

  lemma ShrXor(a: bv32, b: bv32)
    ensures Shr(Xor(a, b)) == Xor(Shr(a), Shr(b))
  {
    assert (a ^ b) >> 1 == (a >> 1) ^ (b >> 1);
  }

  lemma XorAssoc(a: bv32, b: bv32, c: bv32)
    ensures Xor(Xor(a, b), c) == Xor(a, Xor(b, c))
  {
  }

  lemma XorComm(a: bv32, b: bv32)
    ensures Xor(a, b) == Xor(b, a)
  {
  }

  lemma XorSelf(a: bv32)
    ensures Xor(a, a) == 0 && Xor(a, 0) == a && Xor(0, a) == a
  {
  }

  lemma XorZero(a: bv32, b: bv32)
    ensures Xor(a, b) == 0 ==> a == b
  {
  }

  lemma XorSwap(a: bv32, b: bv32, c: bv32, d: bv32)
    ensures Xor(Xor(a, b), Xor(c, d)) == Xor(Xor(a, c), Xor(b, d))
  {
    hide Xor;
    XorAssoc(a, b, Xor(c, d));
    XorAssoc(b, c, d);
    XorComm(b, c);
    XorAssoc(c, b, d);
    XorAssoc(a, c, Xor(b, d));
  }

  // ---------- the bit-serial CRC ----------

  /** One bit of the division by the reflected polynomial. */
  function BitStep(c: bv32): bv32 {
    if Odd(c) then Xor(Shr(c), POLY) else Shr(c)
  }

  /** The next `n` bits of `data`, lowest first, taken in one at a time. */
  function Serial(c: bv32, data: bv32, n: nat): bv32
    decreases n
  {
    if n == 0 then c else Serial(BitStep(Xor(c, data & 1)), Shr(data), n - 1)
  }

  function Run(c: bv32, bytes: seq<bv8>): bv32
    decreases |bytes|
  {
    if bytes == [] then c else Run(Serial(c, bytes[0] as bv32, 8), bytes[1..])
  }

  /** The checksum, bit by bit. */
  function Checksum(bytes: seq<bv8>): bv32 {
    Xor(Run(0xFFFFFFFF, bytes), 0xFFFFFFFF)
  }

  // ---------- eight bits at a time ----------

  function Shift8(c: bv32): bv32 {
    BitStep(BitStep(BitStep(BitStep(BitStep(BitStep(BitStep(BitStep(c))))))))
  }

  lemma BitLinear(c: bv32, d: bv32)
    ensures BitStep(Xor(c, d)) == Xor(BitStep(c), BitStep(d))
  {
    hide Xor, Shr, Odd;
    OddXor(c, d);
    ShrXor(c, d);
    XorSwap(Shr(c), POLY, Shr(d), POLY);
    XorSwap(Shr(c), POLY, Shr(d), 0);
    XorSwap(Shr(c), 0, Shr(d), POLY);
    XorSelf(POLY);
    XorSelf(Shr(c));
    XorSelf(Shr(d));
    XorSelf(Xor(Shr(c), Shr(d)));
  }

  lemma ShiftLinear(c: bv32, d: bv32)
    ensures Shift8(Xor(c, d)) == Xor(Shift8(c), Shift8(d))
  {
    hide BitStep, Xor;
    var a, b := c, d;
    BitLinear(a, b);
    a, b := BitStep(a), BitStep(b);
    BitLinear(a, b);
    a, b := BitStep(a), BitStep(b);
    BitLinear(a, b);
    a, b := BitStep(a), BitStep(b);
    BitLinear(a, b);
    a, b := BitStep(a), BitStep(b);
    BitLinear(a, b);
    a, b := BitStep(a), BitStep(b);
    BitLinear(a, b);
    a, b := BitStep(a), BitStep(b);
    BitLinear(a, b);
    a, b := BitStep(a), BitStep(b);
    BitLinear(a, b);
  }

  /** Eight bit steps only move the word down when its lowest byte is zero. */
  lemma ShiftUpper(v: bv32)
    ensures Shift8(v & 0xFFFFFF00) == v >> 8
  {
  }

  lemma ShiftSplits(c: bv32)
    ensures Shift8(c) == Xor(Shr8(c), Shift8(Low(c)))
  {
    hide Shift8;
    ShiftUpper(c);
    ShiftLinear(c & 0xFFFFFF00, c & 0xFF);
    assert (c & 0xFFFFFF00) ^ (c & 0xFF) == c;
  }

  lemma BitStepKernel(x: bv32)
    ensures BitStep(x) == 0 ==> x == 0
  {
    assert (x >> 1) < 0x80000000;
  }

  lemma BitStepInjective(c: bv32, d: bv32)
    ensures BitStep(c) == BitStep(d) ==> c == d
  {
    hide BitStep, Xor;
    BitLinear(c, d);
    XorSelf(BitStep(c));
    BitStepKernel(Xor(c, d));
    XorZero(c, d);
  }

  lemma ShiftInjective(c: bv32, d: bv32)
    ensures Shift8(c) == Shift8(d) ==> c == d
  {
    hide BitStep;
    var a, b := c, d;
    BitStepInjective(a, b);
    a, b := BitStep(a), BitStep(b);
    BitStepInjective(a, b);
    a, b := BitStep(a), BitStep(b);
    BitStepInjective(a, b);
    a, b := BitStep(a), BitStep(b);
    BitStepInjective(a, b);
    a, b := BitStep(a), BitStep(b);
    BitStepInjective(a, b);
    a, b := BitStep(a), BitStep(b);
    BitStepInjective(a, b);
    a, b := BitStep(a), BitStep(b);
    BitStepInjective(a, b);
    a, b := BitStep(a), BitStep(b);
    BitStepInjective(a, b);
  }

  // ---------- the table ----------

  // `CRCTable`, sixteen entries a row.

  const ROW_0: seq<bv32> := [
    0x00000000, 0x77073096, 0xEE0E612C, 0x990951BA, 0x076DC419, 0x706AF48F, 0xE963A535, 0x9E6495A3,
    0x0EDB8832, 0x79DCB8A4, 0xE0D5E91E, 0x97D2D988, 0x09B64C2B, 0x7EB17CBD, 0xE7B82D07, 0x90BF1D91]
  const ROW_1: seq<bv32> := [
    0x1DB71064, 0x6AB020F2, 0xF3B97148, 0x84BE41DE, 0x1ADAD47D, 0x6DDDE4EB, 0xF4D4B551, 0x83D385C7,
    0x136C9856, 0x646BA8C0, 0xFD62F97A, 0x8A65C9EC, 0x14015C4F, 0x63066CD9, 0xFA0F3D63, 0x8D080DF5]
  const ROW_2: seq<bv32> := [
    0x3B6E20C8, 0x4C69105E, 0xD56041E4, 0xA2677172, 0x3C03E4D1, 0x4B04D447, 0xD20D85FD, 0xA50AB56B,
    0x35B5A8FA, 0x42B2986C, 0xDBBBC9D6, 0xACBCF940, 0x32D86CE3, 0x45DF5C75, 0xDCD60DCF, 0xABD13D59]
  const ROW_3: seq<bv32> := [
    0x26D930AC, 0x51DE003A, 0xC8D75180, 0xBFD06116, 0x21B4F4B5, 0x56B3C423, 0xCFBA9599, 0xB8BDA50F,
    0x2802B89E, 0x5F058808, 0xC60CD9B2, 0xB10BE924, 0x2F6F7C87, 0x58684C11, 0xC1611DAB, 0xB6662D3D]
  const ROW_4: seq<bv32> := [
    0x76DC4190, 0x01DB7106, 0x98D220BC, 0xEFD5102A, 0x71B18589, 0x06B6B51F, 0x9FBFE4A5, 0xE8B8D433,
    0x7807C9A2, 0x0F00F934, 0x9609A88E, 0xE10E9818, 0x7F6A0DBB, 0x086D3D2D, 0x91646C97, 0xE6635C01]
  const ROW_5: seq<bv32> := [
    0x6B6B51F4, 0x1C6C6162, 0x856530D8, 0xF262004E, 0x6C0695ED, 0x1B01A57B, 0x8208F4C1, 0xF50FC457,
    0x65B0D9C6, 0x12B7E950, 0x8BBEB8EA, 0xFCB9887C, 0x62DD1DDF, 0x15DA2D49, 0x8CD37CF3, 0xFBD44C65]
  const ROW_6: seq<bv32> := [
    0x4DB26158, 0x3AB551CE, 0xA3BC0074, 0xD4BB30E2, 0x4ADFA541, 0x3DD895D7, 0xA4D1C46D, 0xD3D6F4FB,
    0x4369E96A, 0x346ED9FC, 0xAD678846, 0xDA60B8D0, 0x44042D73, 0x33031DE5, 0xAA0A4C5F, 0xDD0D7CC9]
  const ROW_7: seq<bv32> := [
    0x5005713C, 0x270241AA, 0xBE0B1010, 0xC90C2086, 0x5768B525, 0x206F85B3, 0xB966D409, 0xCE61E49F,
    0x5EDEF90E, 0x29D9C998, 0xB0D09822, 0xC7D7A8B4, 0x59B33D17, 0x2EB40D81, 0xB7BD5C3B, 0xC0BA6CAD]
  const ROW_8: seq<bv32> := [
    0xEDB88320, 0x9ABFB3B6, 0x03B6E20C, 0x74B1D29A, 0xEAD54739, 0x9DD277AF, 0x04DB2615, 0x73DC1683,
    0xE3630B12, 0x94643B84, 0x0D6D6A3E, 0x7A6A5AA8, 0xE40ECF0B, 0x9309FF9D, 0x0A00AE27, 0x7D079EB1]
  const ROW_9: seq<bv32> := [
    0xF00F9344, 0x8708A3D2, 0x1E01F268, 0x6906C2FE, 0xF762575D, 0x806567CB, 0x196C3671, 0x6E6B06E7,
    0xFED41B76, 0x89D32BE0, 0x10DA7A5A, 0x67DD4ACC, 0xF9B9DF6F, 0x8EBEEFF9, 0x17B7BE43, 0x60B08ED5]
  const ROW_A: seq<bv32> := [
    0xD6D6A3E8, 0xA1D1937E, 0x38D8C2C4, 0x4FDFF252, 0xD1BB67F1, 0xA6BC5767, 0x3FB506DD, 0x48B2364B,
    0xD80D2BDA, 0xAF0A1B4C, 0x36034AF6, 0x41047A60, 0xDF60EFC3, 0xA867DF55, 0x316E8EEF, 0x4669BE79]
  const ROW_B: seq<bv32> := [
    0xCB61B38C, 0xBC66831A, 0x256FD2A0, 0x5268E236, 0xCC0C7795, 0xBB0B4703, 0x220216B9, 0x5505262F,
    0xC5BA3BBE, 0xB2BD0B28, 0x2BB45A92, 0x5CB36A04, 0xC2D7FFA7, 0xB5D0CF31, 0x2CD99E8B, 0x5BDEAE1D]
  const ROW_C: seq<bv32> := [
    0x9B64C2B0, 0xEC63F226, 0x756AA39C, 0x026D930A, 0x9C0906A9, 0xEB0E363F, 0x72076785, 0x05005713,
    0x95BF4A82, 0xE2B87A14, 0x7BB12BAE, 0x0CB61B38, 0x92D28E9B, 0xE5D5BE0D, 0x7CDCEFB7, 0x0BDBDF21]
  const ROW_D: seq<bv32> := [
    0x86D3D2D4, 0xF1D4E242, 0x68DDB3F8, 0x1FDA836E, 0x81BE16CD, 0xF6B9265B, 0x6FB077E1, 0x18B74777,
    0x88085AE6, 0xFF0F6A70, 0x66063BCA, 0x11010B5C, 0x8F659EFF, 0xF862AE69, 0x616BFFD3, 0x166CCF45]
  const ROW_E: seq<bv32> := [
    0xA00AE278, 0xD70DD2EE, 0x4E048354, 0x3903B3C2, 0xA7672661, 0xD06016F7, 0x4969474D, 0x3E6E77DB,
    0xAED16A4A, 0xD9D65ADC, 0x40DF0B66, 0x37D83BF0, 0xA9BCAE53, 0xDEBB9EC5, 0x47B2CF7F, 0x30B5FFE9]
  const ROW_F: seq<bv32> := [
    0xBDBDF21C, 0xCABAC28A, 0x53B39330, 0x24B4A3A6, 0xBAD03605, 0xCDD70693, 0x54DE5729, 0x23D967BF,
    0xB3667A2E, 0xC4614AB8, 0x5D681B02, 0x2A6F2B94, 0xB40BBE37, 0xC30C8EA1, 0x5A05DF1B, 0x2D02EF8D]

  function Row(hi: bv8): seq<bv32> {
    match hi
    case 0 => ROW_0
    case 1 => ROW_1
    case 2 => ROW_2
    case 3 => ROW_3
    case 4 => ROW_4
    case 5 => ROW_5
    case 6 => ROW_6
    case 7 => ROW_7
    case 8 => ROW_8
    case 9 => ROW_9
    case 10 => ROW_A
    case 11 => ROW_B
    case 12 => ROW_C
    case 13 => ROW_D
    case 14 => ROW_E
    case _ => ROW_F
  }

  function CrcTable(x: bv8): bv32 {
    RowSize(x >> 4);
    NibbleIndex(x & 0xF);
    Row(x >> 4)[(x & 0xF) as nat]
  }

  lemma RowSize(hi: bv8)
    ensures |Row(hi)| == 16
  {
  }

  lemma NibbleIndex(lo: bv8)
    requires lo < 16
    ensures lo as nat < 16
  {
  }

  /** A row is the first row, shifted by its own first entry. */
  ghost predicate IsRow(row: seq<bv32>, head: bv32) {
    && |row| == 16 && row[0] == head
    && forall j | 0 <= j < 16 :: row[j] == Xor(head, ROW_0[j])
  }

  lemma Row0()
    ensures IsRow(ROW_0, Shift8(0x00))
  {
  }

  lemma Heads0()
    ensures Shift8(0x10) == 0x1DB71064
    ensures Shift8(0x20) == 0x3B6E20C8
    ensures Shift8(0x30) == 0x26D930AC
    ensures Shift8(0x40) == 0x76DC4190
    ensures Shift8(0x50) == 0x6B6B51F4
  {
  }

  lemma Heads1()
    ensures Shift8(0x60) == 0x4DB26158
    ensures Shift8(0x70) == 0x5005713C
    ensures Shift8(0x80) == 0xEDB88320
    ensures Shift8(0x90) == 0xF00F9344
    ensures Shift8(0xA0) == 0xD6D6A3E8
  {
  }

  lemma Heads2()
    ensures Shift8(0xB0) == 0xCB61B38C
    ensures Shift8(0xC0) == 0x9B64C2B0
    ensures Shift8(0xD0) == 0x86D3D2D4
    ensures Shift8(0xE0) == 0xA00AE278
    ensures Shift8(0xF0) == 0xBDBDF21C
  {
  }

  lemma Row1()
    ensures IsRow(ROW_1, Shift8(0x10))
  {
    hide Shift8;
    Heads0();
  }

  lemma Row2()
    ensures IsRow(ROW_2, Shift8(0x20))
  {
    hide Shift8;
    Heads0();
  }

  lemma Row3()
    ensures IsRow(ROW_3, Shift8(0x30))
  {
    hide Shift8;
    Heads0();
  }

  lemma Row4()
    ensures IsRow(ROW_4, Shift8(0x40))
  {
    hide Shift8;
    Heads0();
  }

  lemma Row5()
    ensures IsRow(ROW_5, Shift8(0x50))
  {
    hide Shift8;
    Heads0();
  }

  lemma Row6()
    ensures IsRow(ROW_6, Shift8(0x60))
  {
    hide Shift8;
    Heads1();
  }

  lemma Row7()
    ensures IsRow(ROW_7, Shift8(0x70))
  {
    hide Shift8;
    Heads1();
  }

  lemma Row8()
    ensures IsRow(ROW_8, Shift8(0x80))
  {
    hide Shift8;
    Heads1();
  }

  lemma Row9()
    ensures IsRow(ROW_9, Shift8(0x90))
  {
    hide Shift8;
    Heads1();
  }

  lemma RowA()
    ensures IsRow(ROW_A, Shift8(0xA0))
  {
    hide Shift8;
    Heads1();
  }

  lemma RowB()
    ensures IsRow(ROW_B, Shift8(0xB0))
  {
    hide Shift8;
    Heads2();
  }

  lemma RowC()
    ensures IsRow(ROW_C, Shift8(0xC0))
  {
    hide Shift8;
    Heads2();
  }

  lemma RowD()
    ensures IsRow(ROW_D, Shift8(0xD0))
  {
    hide Shift8;
    Heads2();
  }

  lemma RowE()
    ensures IsRow(ROW_E, Shift8(0xE0))
  {
    hide Shift8;
    Heads2();
  }

  lemma RowF()
    ensures IsRow(ROW_F, Shift8(0xF0))
  {
    hide Shift8;
    Heads2();
  }

  lemma FirstRow0()
    ensures ROW_0[1] == Shift8(1)
    ensures ROW_0[2] == Shift8(2)
    ensures ROW_0[3] == Shift8(3)
  {
  }

  lemma FirstRow1()
    ensures ROW_0[4] == Shift8(4)
    ensures ROW_0[5] == Shift8(5)
    ensures ROW_0[6] == Shift8(6)
    ensures ROW_0[7] == Shift8(7)
  {
  }

  lemma FirstRow2()
    ensures ROW_0[8] == Shift8(8)
    ensures ROW_0[9] == Shift8(9)
    ensures ROW_0[10] == Shift8(10)
    ensures ROW_0[11] == Shift8(11)
  {
  }

  lemma FirstRow3()
    ensures ROW_0[12] == Shift8(12)
    ensures ROW_0[13] == Shift8(13)
    ensures ROW_0[14] == Shift8(14)
    ensures ROW_0[15] == Shift8(15)
  {
  }

  lemma FirstRowEntry(lo: bv8)
    requires lo < 16
    ensures lo as nat < 16 && ROW_0[lo as nat] == Shift8(lo as bv32)
  {
    hide Shift8;
    Row0();
    FirstRow0();
    FirstRow1();
    FirstRow2();
    FirstRow3();
    match lo {
      case 0 =>
      case 1 =>
      case 2 =>
      case 3 =>
      case 4 =>
      case 5 =>
      case 6 =>
      case 7 =>
      case 8 =>
      case 9 =>
      case 10 =>
      case 11 =>
      case 12 =>
      case 13 =>
      case 14 =>
      case _ =>
    }
  }

  lemma RowHead(hi: bv8)
    requires hi < 16
    ensures IsRow(Row(hi), Shift8((hi as bv32) << 4))
  {
    hide Shift8, IsRow;
    match hi {
      case 0 => Row0();
      case 1 => Row1();
      case 2 => Row2();
      case 3 => Row3();
      case 4 => Row4();
      case 5 => Row5();
      case 6 => Row6();
      case 7 => Row7();
      case 8 => Row8();
      case 9 => Row9();
      case 10 => RowA();
      case 11 => RowB();
      case 12 => RowC();
      case 13 => RowD();
      case 14 => RowE();
      case _ => RowF();
    }
  }

  lemma Nibbles(x: bv8)
    ensures x >> 4 < 16 && x & 0xF < 16
    ensures Xor(((x >> 4) as bv32) << 4, (x & 0xF) as bv32) == x as bv32
  {
  }

  /** Every one of the 256 entries is what eight bit steps make of its index. */
  lemma TableIsShift8(x: bv8)
    ensures CrcTable(x) == Shift8(x as bv32)
  {
    hide Shift8, Row, Xor;
    var hi, lo := x >> 4, x & 0xF;
    Nibbles(x);
    RowHead(hi);
    FirstRowEntry(lo);
    ShiftLinear((hi as bv32) << 4, lo as bv32);
  }

  // ---------- a byte at a time is a bit at a time ----------

  function BitSteps(c: bv32, n: nat): bv32
    decreases n
  {
    if n == 0 then c else BitSteps(BitStep(c), n - 1)
  }

  function Shrs(c: bv32, n: nat): bv32
    decreases n
  {
    if n == 0 then c else Shrs(Shr(c), n - 1)
  }

  lemma LowBit(data: bv32)
    ensures Xor(data & 1, data & 0xFFFFFFFE) == data
    ensures BitStep(data & 0xFFFFFFFE) == Shr(data)
  {
    assert (data & 1) ^ (data & 0xFFFFFFFE) == data;
    assert !Odd(data & 0xFFFFFFFE);
  }

  /** Feeding the bits in one at a time is feeding them in together and then stepping; bits beyond
    * the `n`-th stay behind in the register. */
  lemma {:induction false} SerialIsTogether(c: bv32, data: bv32, n: nat)
    ensures BitSteps(Xor(c, data), n) == Xor(Serial(c, data, n), Shrs(data, n))
    decreases n
  {
    hide Xor, BitStep, Shr;
    if n > 0 {
      LowBit(data);
      XorAssoc(c, data & 1, data & 0xFFFFFFFE);
      BitLinear(Xor(c, data & 1), data & 0xFFFFFFFE);
      SerialIsTogether(BitStep(Xor(c, data & 1)), Shr(data), n - 1);
    }
  }

  lemma EightSteps(c: bv32)
    ensures BitSteps(c, 8) == Shift8(c)
  {
    hide BitStep;
    var a := c;
    assert BitSteps(a, 8) == BitSteps(BitStep(a), 7);
    a := BitStep(a);
    assert BitSteps(a, 7) == BitSteps(BitStep(a), 6);
    a := BitStep(a);
    assert BitSteps(a, 6) == BitSteps(BitStep(a), 5);
    a := BitStep(a);
    assert BitSteps(a, 5) == BitSteps(BitStep(a), 4);
    a := BitStep(a);
    assert BitSteps(a, 4) == BitSteps(BitStep(a), 3);
    a := BitStep(a);
    assert BitSteps(a, 3) == BitSteps(BitStep(a), 2);
    a := BitStep(a);
    assert BitSteps(a, 2) == BitSteps(BitStep(a), 1);
    a := BitStep(a);
    assert BitSteps(a, 1) == BitSteps(BitStep(a), 0);
  }

  lemma ByteShiftedOut(b: bv8)
    ensures Shrs(b as bv32, 8) == 0
  {
    var a := b as bv32;
    assert Shrs(a, 8) == Shrs(Shr(Shr(Shr(Shr(a)))), 4);
    assert Shr(Shr(Shr(Shr(a)))) == a >> 4;
    var d := a >> 4;
    assert Shrs(d, 4) == Shr(Shr(Shr(Shr(d))));
    assert Shr(Shr(Shr(Shr(d)))) == d >> 4;
  }

  lemma ByteAtOnce(c: bv32, b: bv8)
    ensures Serial(c, b as bv32, 8) == Shift8(Xor(c, b as bv32))
  {
    hide Shift8, Serial, Xor, BitSteps, Shrs;
    SerialIsTogether(c, b as bv32, 8);
    EightSteps(Xor(c, b as bv32));
    ByteShiftedOut(b);
    XorSelf(Serial(c, b as bv32, 8));
  }

  lemma LowXor(c: bv32, b: bv8)
    ensures Low(Xor(c, b as bv32)) == ((c & 0xFF) as bv8 ^ b) as bv32
    ensures Shr8(Xor(c, b as bv32)) == Shr8(c)
  {
  }

  /** The table step computes what eight serial steps compute. */
  lemma TableStep(c: bv32, b: bv8)
    ensures Xor(Shr8(c), CrcTable((c & 0xFF) as bv8 ^ b)) == Serial(c, b as bv32, 8)
  {
    hide Shift8, Serial, Xor, CrcTable, Shr8, Low;
    var x := (c & 0xFF) as bv8 ^ b;
    ByteAtOnce(c, b);
    ShiftSplits(Xor(c, b as bv32));
    LowXor(c, b);
    TableIsShift8(x);
  }

  // ---------- CalculateCrc ----------

  function Wide(c: bv32): bv64 {
    c as bv64
  }

  function WideXor(a: bv64, b: bv64): bv64 {
    a ^ b
  }

  function WideShr8(a: bv64): bv64 {
    a >> 8
  }

  /** `(UINT8) Crc` */
  function LowByte(acc: bv64): bv8 {
    (acc & 0xFF) as bv8
  }

  /** The loop body on the accumulator, which has the width of UINTN. */
  function CrcStep(acc: bv64, b: bv8): bv64 {
    WideXor(WideShr8(acc), Wide(CrcTable(LowByte(acc) ^ b)))
  }

  lemma WideStep(c: bv32, b: bv8)
    ensures CrcStep(Wide(c), b) == Wide(Serial(c, b as bv32, 8))
  {
    hide CrcTable, Serial, Wide, WideXor, WideShr8, LowByte, Xor, Shr8;
    TableStep(c, b);
    WideLow(c);
    WidenXor(c, CrcTable((c & 0xFF) as bv8 ^ b));
  }

  lemma WideLow(c: bv32)
    ensures LowByte(Wide(c)) == (c & 0xFF) as bv8
  {
  }

  lemma WidenXor(c: bv32, t: bv32)
    ensures WideXor(WideShr8(Wide(c)), Wide(t)) == Wide(Xor(Shr8(c), t))
  {
  }

  lemma WideEnd(c: bv32)
    ensures (Wide(c) ^ 0xFFFFFFFF) <= 0xFFFFFFFF
    ensures (Wide(c) ^ 0xFFFFFFFF) as bv32 == Xor(c, 0xFFFFFFFF)
  {
  }

  lemma {:induction false} RunAppend(c: bv32, x: seq<bv8>, y: seq<bv8>)
    ensures Run(c, x + y) == Run(Run(c, x), y)
    decreases |x|
  {
    hide Serial;
    if x == [] {
      assert x + y == y;
    } else {
      assert (x + y)[1..] == x[1..] + y;
      RunAppend(Serial(c, x[0] as bv32, 8), x[1..], y);
    }
  }

  lemma RunOne(c: bv32, b: bv8)
    ensures Run(c, [b]) == Serial(c, b as bv32, 8)
  {
    hide Serial;
    assert Run(c, [b]) == Run(Serial(c, b as bv32, 8), []);
  }

  /** The table-driven loop, with its accumulator of 64 bits. */
  method CalculateCrc(pt: seq<bv8>, size: nat) returns (crc: bv32)
    requires size <= |pt|
    ensures crc == Checksum(pt[..size])
  {
    hide Run, Serial, Xor, CrcStep, Wide;
    var acc: bv64 := 0xFFFFFFFF;
    ghost var c: bv32 := 0xFFFFFFFF;
    RunEmpty(c);
    WideConst();
    var left, i := size, 0;
    while left != 0
      invariant i + left == size
      invariant acc == Wide(c) && c == Run(0xFFFFFFFF, pt[..i])
      decreases left
    {
      WideStep(c, pt[i]);
      RunOne(c, pt[i]);
      RunAppend(0xFFFFFFFF, pt[..i], [pt[i]]);
      assert pt[..i + 1] == pt[..i] + [pt[i]];
      acc := CrcStep(acc, pt[i]);
      c := Serial(c, pt[i] as bv32, 8);
      i := i + 1;
      left := left - 1;
    }
    WideEnd(c);
    acc := acc ^ 0xFFFFFFFF;
    crc := acc as bv32;
  }

  lemma RunEmpty(c: bv32)
    ensures Run(c, []) == c
  {
  }

  lemma WideConst()
    ensures Wide(0xFFFFFFFF) == 0xFFFFFFFF
  {
  }

  // ---------- what the checksum detects ----------

  lemma SerialInjective(c: bv32, d: bv32, b: bv8)
    ensures Serial(c, b as bv32, 8) == Serial(d, b as bv32, 8) ==> c == d
  {
    hide Serial, Shift8, Xor;
    ByteAtOnce(c, b);
    ByteAtOnce(d, b);
    ShiftInjective(Xor(c, b as bv32), Xor(d, b as bv32));
    XorCancel(c, d, b as bv32);
  }

  lemma XorCancel(c: bv32, d: bv32, b: bv32)
    ensures Xor(c, b) == Xor(d, b) ==> c == d
  {
    hide Xor;
    XorAssoc(c, b, b);
    XorAssoc(d, b, b);
    XorSelf(b);
    XorSelf(c);
    XorSelf(d);
  }

  lemma {:induction false} RunInjective(c: bv32, d: bv32, bytes: seq<bv8>)
    requires Run(c, bytes) == Run(d, bytes)
    ensures c == d
    decreases |bytes|
  {
    hide Serial;
    if bytes != [] {
      RunInjective(Serial(c, bytes[0] as bv32, 8), Serial(d, bytes[0] as bv32, 8), bytes[1..]);
      SerialInjective(c, d, bytes[0]);
    }
  }

  // ---------- bursts of bits ----------

  /** The lowest `n` bits, lowest first. */
  function BitsOf(data: bv32, n: nat): (r: seq<bool>)
    ensures |r| == n
    decreases n
  {
    if n == 0 then [] else [Odd(data)] + BitsOf(Shr(data), n - 1)
  }

  /** The bits of a message, in the order in which they are taken in. */
  function Bits(bytes: seq<bv8>): (r: seq<bool>)
    ensures |r| == 8 * |bytes|
    decreases |bytes|
  {
    if bytes == [] then [] else BitsOf(bytes[0] as bv32, 8) + Bits(bytes[1..])
  }

  function BitWord(bit: bool): bv32 {
    if bit then 1 else 0
  }

  function RunBits(c: bv32, bits: seq<bool>): bv32
    decreases |bits|
  {
    if bits == [] then c else RunBits(BitStep(Xor(c, BitWord(bits[0]))), bits[1..])
  }

  lemma {:induction false} RunBitsAppend(c: bv32, x: seq<bool>, y: seq<bool>)
    ensures RunBits(c, x + y) == RunBits(RunBits(c, x), y)
    decreases |x|
  {
    hide BitStep, Xor;
    if x == [] {
      assert x + y == y;
    } else {
      assert (x + y)[1..] == x[1..] + y;
      RunBitsAppend(BitStep(Xor(c, BitWord(x[0]))), x[1..], y);
    }
  }

  lemma OddIsLowBit(data: bv32)
    ensures BitWord(Odd(data)) == data & 1
  {
  }

  lemma {:induction false} SerialIsRunBits(c: bv32, data: bv32, n: nat)
    ensures Serial(c, data, n) == RunBits(c, BitsOf(data, n))
    decreases n
  {
    hide BitStep, Xor, Shr, Odd;
    if n > 0 {
      OddIsLowBit(data);
      SerialIsRunBits(BitStep(Xor(c, data & 1)), Shr(data), n - 1);
      assert BitsOf(data, n)[1..] == BitsOf(Shr(data), n - 1);
    }
  }

  lemma {:induction false} RunIsRunBits(c: bv32, bytes: seq<bv8>)
    ensures Run(c, bytes) == RunBits(c, Bits(bytes))
    decreases |bytes|
  {
    hide Serial, BitsOf;
    if bytes != [] {
      var first := bytes[0] as bv32;
      SerialIsRunBits(c, first, 8);
      RunIsRunBits(Serial(c, first, 8), bytes[1..]);
      RunBitsAppend(c, BitsOf(first, 8), Bits(bytes[1..]));
    }
  }

  lemma {:induction false} RunBitsInjective(c: bv32, d: bv32, bits: seq<bool>)
    requires RunBits(c, bits) == RunBits(d, bits)
    ensures c == d
    decreases |bits|
  {
    hide BitStep, Xor;
    if bits != [] {
      var e := BitWord(bits[0]);
      RunBitsInjective(BitStep(Xor(c, e)), BitStep(Xor(d, e)), bits[1..]);
      BitStepInjective(Xor(c, e), Xor(d, e));
      XorCancel(c, d, e);
    }
  }

  lemma {:induction false} ShrsZero(n: nat)
    ensures Shrs(0, n) == 0
  {
    if n > 0 {
      ShrsZero(n - 1);
    }
  }

  lemma {:induction false} ShrsAdd(v: bv32, a: nat, b: nat)
    ensures Shrs(v, a + b) == Shrs(Shrs(v, a), b)
    decreases a
  {
    hide Shr;
    if a > 0 {
      ShrsAdd(Shr(v), a - 1, b);
    }
  }

  function Shr4(a: bv32): bv32 {
    a >> 4
  }

  lemma ShrsFour(v: bv32)
    ensures Shrs(v, 4) == Shr4(v)
  {
    assert Shrs(v, 4) == Shr(Shr(Shr(Shr(v))));
  }

  lemma ShrsTwelve(v: bv32)
    ensures Shrs(v, 12) == Shr4(Shr4(Shr4(v)))
  {
    hide Shrs, Shr4;
    ShrsAdd(v, 4, 8);
    ShrsAdd(Shr4(v), 4, 4);
    ShrsFour(v);
    ShrsFour(Shr4(v));
    ShrsFour(Shr4(Shr4(v)));
  }

  lemma SevenNibbles(v: bv32)
    requires v >= 0x80000000
    ensures Shr(Shr(Shr(Shr4(Shr4(Shr4(Shr4(Shr4(Shr4(Shr4(v)))))))))) == 1
  {
    assert v >> 4 >> 4 >> 4 >> 4 >> 4 >> 4 >> 4 == v >> 28;
  }

  lemma ShrsThree(v: bv32)
    ensures Shrs(v, 3) == Shr(Shr(Shr(v)))
  {
  }

  /** The top bit takes 31 shifts to the bottom. */
  lemma TopBitStays(v: bv32, m: nat)
    requires TopSet(v) && m <= 31
    ensures Shrs(v, m) != 0
  {
    SevenNibbles(v);
    hide Shrs, Shr4, Shr;
    var a := Shr4(Shr4(Shr4(v)));
    var b := Shr4(Shr4(Shr4(a)));
    ShrsAdd(v, 12, 19);
    ShrsAdd(a, 12, 7);
    ShrsAdd(b, 4, 3);
    ShrsTwelve(v);
    ShrsTwelve(a);
    ShrsFour(b);
    ShrsThree(Shr4(b));
    ShrsAdd(v, m, 31 - m);
    ShrsZero(31 - m);
  }

  lemma StepOfDifference(c: bv32, d: bv32, x: bool, y: bool)
    ensures Xor(BitStep(Xor(c, BitWord(x))), BitStep(Xor(d, BitWord(y))))
         == BitStep(Xor(Xor(c, d), BitWord(x != y)))
  {
    hide BitStep, Xor, BitWord;
    BitLinear(Xor(c, BitWord(x)), Xor(d, BitWord(y)));
    XorSwap(c, BitWord(x), d, BitWord(y));
    BitWordXor(x, y);
  }

  lemma BitWordXor(x: bool, y: bool)
    ensures Xor(BitWord(x), BitWord(y)) == BitWord(x != y)
  {
  }

  predicate TopSet(v: bv32) {
    v >= 0x80000000
  }

  /** A step either moves the difference down or sets its top bit. */
  lemma DifferenceStep(v: bv32, bit: bool)
    ensures var w := BitStep(Xor(v, BitWord(bit))); w == Shr(v) || TopSet(w)
    ensures v == 0 && bit ==> TopSet(BitStep(Xor(v, BitWord(bit))))
    ensures v == 0 && !bit ==> BitStep(Xor(v, BitWord(bit))) == 0
  {
  }

  /** The word has a bit at position `m` or above. */
  predicate Reaches(v: bv32, m: nat) {
    Shrs(v, m) != 0
  }

  lemma SameReachesNone(c: bv32, m: nat)
    ensures !Reaches(Xor(c, c), m)
  {
    XorSelf(c);
    ShrsZero(m);
  }

  lemma DifferenceMoves(c: bv32, d: bv32, x: bool, y: bool, m: nat)
    requires 0 < m <= 31 && Reaches(Xor(c, d), m)
    ensures Reaches(Xor(BitStep(Xor(c, BitWord(x))), BitStep(Xor(d, BitWord(y)))), m - 1)
  {
    hide Xor, BitStep, Shr, TopSet, BitWord;
    StepOfDifference(c, d, x, y);
    DifferenceStep(Xor(c, d), x != y);
    var w := BitStep(Xor(Xor(c, d), BitWord(x != y)));
    if TopSet(w) {
      TopBitStays(w, m - 1);
    }
  }

  /** A difference with a bit at position `m` or above takes more than `m` bits to vanish. */
  lemma {:induction false} DifferenceStays(c: bv32, d: bv32, x: seq<bool>, y: seq<bool>, m: nat)
    requires |x| == |y| <= m <= 31 && Reaches(Xor(c, d), m)
    ensures RunBits(c, x) != RunBits(d, y)
    decreases |x|
  {
    hide Xor, BitStep, BitWord, Reaches;
    if x == [] {
      SameReachesNone(c, m);
    } else {
      DifferenceMoves(c, d, x[0], y[0], m);
      var c', d' := BitStep(Xor(c, BitWord(x[0]))), BitStep(Xor(d, BitWord(y[0])));
      DifferenceStays(c', d', x[1..], y[1..], m - 1);
    }
  }

  /** From the same register, different bits lead to different registers, up to 32 of them. */
  lemma {:induction false} BurstStays(c: bv32, x: seq<bool>, y: seq<bool>)
    requires |x| == |y| <= 32 && x != y
    ensures RunBits(c, x) != RunBits(c, y)
    decreases |x|
  {
    hide Xor, BitStep, Shr, Shrs, TopSet, BitWord;
    if x[0] == y[0] {
      assert x == [x[0]] + x[1..] && y == [y[0]] + y[1..];
      BurstStays(BitStep(Xor(c, BitWord(x[0]))), x[1..], y[1..]);
    } else {
      StepOfDifference(c, c, x[0], y[0]);
      XorSelf(c);
      DifferenceStep(0, true);
      var c', d' := BitStep(Xor(c, BitWord(x[0]))), BitStep(Xor(c, BitWord(y[0])));
      TopBitStays(Xor(c', d'), 31);
      DifferenceStays(c', d', x[1..], y[1..], 31);
    }
  }

  lemma {:induction false} BitsAt(m: seq<bv8>, k: nat)
    requires k < |m|
    ensures Bits(m)[8 * k..8 * k + 8] == BitsOf(m[k] as bv32, 8)
    decreases k
  {
    hide BitsOf;
    if k > 0 {
      BitsAt(m[1..], k - 1);
      assert Bits(m)[8..] == Bits(m[1..]);
      assert Bits(m)[8..][8 * (k - 1)..8 * (k - 1) + 8] == Bits(m)[8 * k..8 * k + 8];
    }
  }

  /** Bytes are the same if and only if their bits are. */
  lemma BytesByBits(m: seq<bv8>, m': seq<bv8>, k: nat)
    requires k < |m| && k < |m'|
    ensures m[k] == m'[k] <==> Bits(m)[8 * k..8 * k + 8] == Bits(m')[8 * k..8 * k + 8]
  {
    hide BitsOf, Bits;
    BitsAt(m, k);
    BitsAt(m', k);
    ByteBits(m[k], m'[k]);
  }

  /** The messages differ, and only in `n` consecutive bits from bit `at`. */
  ghost predicate DifferWithin(m: seq<bv8>, m': seq<bv8>, at: nat, n: nat) {
    && |m| == |m'| && m != m' && at + n <= 8 * |m|
    && forall j | 0 <= j < 8 * |m| && !(at <= j < at + n) :: Bits(m)[j] == Bits(m')[j]
  }

  /** Any change confined to 32 consecutive bits changes the checksum. */
  lemma BurstDetected(m: seq<bv8>, m': seq<bv8>, at: nat, n: nat)
    requires DifferWithin(m, m', at, n) && n <= 32
    ensures Checksum(m) != Checksum(m')
  {
    hide Xor, Run, RunBits, Bits;
    var start: bv32 := 0xFFFFFFFF;
    var b, b' := Bits(m), Bits(m');
    var pre, x, y, post := b[..at], b[at..at + n], b'[at..at + n], b[at + n..];
    assert b == pre + x + post && b' == pre + y + post;
    BitsDiffer(m, m');
    RunIsRunBits(start, m);
    RunIsRunBits(start, m');
    RunBitsAppend(start, pre + x, post);
    RunBitsAppend(start, pre + y, post);
    RunBitsAppend(start, pre, x);
    RunBitsAppend(start, pre, y);
    BurstStays(RunBits(start, pre), x, y);
    if Checksum(m) == Checksum(m') {
      XorCancel(Run(start, m), Run(start, m'), start);
      RunBitsInjective(RunBits(start, pre + x), RunBits(start, pre + y), post);
    }
  }

  lemma ByteBits(x: bv8, y: bv8)
    ensures BitsOf(x as bv32, 8) == BitsOf(y as bv32, 8) ==> x == y
  {
    hide BitsOf, RunBits, Serial, Shift8, Xor;
    SerialIsRunBits(0, x as bv32, 8);
    SerialIsRunBits(0, y as bv32, 8);
    ByteAtOnce(0, x);
    ByteAtOnce(0, y);
    XorSelf(x as bv32);
    XorSelf(y as bv32);
    ShiftInjective(x as bv32, y as bv32);
  }

  lemma {:induction false} BitsDiffer(m: seq<bv8>, m': seq<bv8>)
    requires |m| == |m'| && m != m'
    ensures Bits(m) != Bits(m')
    decreases |m|
  {
    hide BitsOf;
    assert m == [m[0]] + m[1..] && m' == [m'[0]] + m'[1..];
    assert Bits(m)[..8] == BitsOf(m[0] as bv32, 8) && Bits(m')[..8] == BitsOf(m'[0] as bv32, 8);
    assert Bits(m)[8..] == Bits(m[1..]) && Bits(m')[8..] == Bits(m'[1..]);
    if m[0] == m'[0] {
      BitsDiffer(m[1..], m'[1..]);
    } else {
      ByteBits(m[0], m'[0]);
    }
  }
}
