/** Sealing and checking the headers of the UEFI tables (`crc.c`). */
module TableHeader {
  import opened Crc32
  import opened CrcResidue

  const HEADER_SIZE: nat := 24
  const CRC_AT: nat := 16

  function Byte(v: bv32, k: nat): bv8
    requires k < 4
  {
    match k
    case 0 => (v & 0xFF) as bv8
    case 1 => ((v >> 8) & 0xFF) as bv8
    case 2 => ((v >> 16) & 0xFF) as bv8
    case 3 => (v >> 24) as bv8
  }

  function Word(b0: bv8, b1: bv8, b2: bv8, b3: bv8): bv32 {
    b0 as bv32 | (b1 as bv32 << 8) | (b2 as bv32 << 16) | (b3 as bv32 << 24)
  }

  lemma WordOfBytes(v: bv32)
    ensures Word(Byte(v, 0), Byte(v, 1), Byte(v, 2), Byte(v, 3)) == v
  {
  }

  lemma BytesOfWord(b0: bv8, b1: bv8, b2: bv8, b3: bv8)
    ensures var v := Word(b0, b1, b2, b3);
            Byte(v, 0) == b0 && Byte(v, 1) == b1 && Byte(v, 2) == b2 && Byte(v, 3) == b3
  {
  }

  /** The CRC32 field of a header, stored with the lowest byte first. */
  function Stored(h: seq<bv8>): bv32
    requires |h| >= HEADER_SIZE
  {
    Word(h[CRC_AT], h[CRC_AT + 1], h[CRC_AT + 2], h[CRC_AT + 3])
  }

  function WithCrc(h: seq<bv8>, v: bv32): (r: seq<bv8>)
    requires |h| >= HEADER_SIZE
    ensures |r| == |h|
    ensures forall k | 0 <= k < |h| :: r[k] == if CRC_AT <= k < CRC_AT + 4 then Byte(v, k - CRC_AT) else h[k]
  {
    h[..CRC_AT] + [Byte(v, 0), Byte(v, 1), Byte(v, 2), Byte(v, 3)] + h[CRC_AT + 4..]
  }

  /** The checksum of the first `size` bytes, taken with the CRC32 field cleared. */
  function Computed(h: seq<bv8>, size: nat): bv32
    requires HEADER_SIZE <= |h| && size <= |h|
  {
    Checksum(WithCrc(h, 0)[..size])
  }

  predicate Sealed(h: seq<bv8>, size: nat)
    requires HEADER_SIZE <= |h| && size <= |h|
  {
    Stored(h) == Computed(h, size)
  }

  lemma WithCrcTwice(h: seq<bv8>, v: bv32, w: bv32)
    requires |h| >= HEADER_SIZE
    ensures WithCrc(WithCrc(h, v), w) == WithCrc(h, w)
    ensures Stored(WithCrc(h, v)) == v
    ensures WithCrc(h, Stored(h)) == h
  {
    hide Byte, Word;
    WordOfBytes(v);
    BytesOfWord(h[CRC_AT], h[CRC_AT + 1], h[CRC_AT + 2], h[CRC_AT + 3]);
  }

  /** EFI_TABLE_HEADER: a signature of eight bytes, and four words. */
  function Header(signature: seq<bv8>, revision: bv32, headerSize: bv32, crc32: bv32, reserved: bv32): (h: seq<bv8>)
    requires |signature| == 8
    ensures |h| == 24
  {
    signature + FourBytes(revision) + FourBytes(headerSize) + FourBytes(crc32) + FourBytes(reserved)
  }

  lemma ByteIsFourBytes(v: bv32, k: nat)
    requires k < 4
    ensures Byte(v, k) == FourBytes(v)[k]
  {
  }

  /** The field that is read and written is the one named CRC32, and the checksum is taken with zero in
    * it. */
  lemma HeaderFields(signature: seq<bv8>, revision: bv32, headerSize: bv32, crc32: bv32, reserved: bv32,
                     rest: seq<bv8>, v: bv32, size: nat)
    requires |signature| == 8 && size <= 24 + |rest|
    ensures var h := Header(signature, revision, headerSize, crc32, reserved) + rest;
      && Stored(h) == crc32
      && WithCrc(h, v) == Header(signature, revision, headerSize, v, reserved) + rest
      && Computed(h, size) == Checksum((Header(signature, revision, headerSize, 0, reserved) + rest)[..size])
  {
    hide FourBytes, Byte, Word, Checksum;
    WithHeader(signature, revision, headerSize, crc32, reserved, rest, v);
    WithHeader(signature, revision, headerSize, crc32, reserved, rest, 0);
    var h := Header(signature, revision, headerSize, crc32, reserved) + rest;
    assert h[16..20] == FourBytes(crc32);
    assert forall k | 0 <= k < 4 :: h[16 + k] == h[16..20][k];
    ByteIsFourBytes(crc32, 0);
    ByteIsFourBytes(crc32, 1);
    ByteIsFourBytes(crc32, 2);
    ByteIsFourBytes(crc32, 3);
    WordOfBytes(crc32);
  }

  lemma WithHeader(signature: seq<bv8>, revision: bv32, headerSize: bv32, crc32: bv32, reserved: bv32,
                   rest: seq<bv8>, v: bv32)
    requires |signature| == 8
    ensures WithCrc(Header(signature, revision, headerSize, crc32, reserved) + rest, v)
         == Header(signature, revision, headerSize, v, reserved) + rest
  {
    hide FourBytes, Byte;
    var h := Header(signature, revision, headerSize, crc32, reserved) + rest;
    var g := Header(signature, revision, headerSize, v, reserved) + rest;
    forall k | 0 <= k < |h|
      ensures WithCrc(h, v)[k] == g[k]
    {
      if 16 <= k < 20 {
        ByteIsFourBytes(v, k - 16);
      }
    }
  }

  method StoreCrc(hdr: array<bv8>, v: bv32)
    requires hdr.Length >= HEADER_SIZE
    modifies hdr
    ensures hdr[..] == WithCrc(old(hdr[..]), v)
  {
    hide Byte;
    hdr[CRC_AT] := Byte(v, 0);
    hdr[CRC_AT + 1] := Byte(v, 1);
    hdr[CRC_AT + 2] := Byte(v, 2);
    hdr[CRC_AT + 3] := Byte(v, 3);
  }

  method SetCrcAltSize(size: nat, hdr: array<bv8>)
    requires HEADER_SIZE <= hdr.Length && size <= hdr.Length
    modifies hdr
    ensures hdr[..] == WithCrc(old(hdr[..]), Computed(old(hdr[..]), size))
    ensures Sealed(hdr[..], size)
  {
    hide Byte, Word, Stored, WithCrc, Checksum;
    StoreCrc(hdr, 0);
    ghost var cleared := hdr[..];
    var crc := CalculateCrc(hdr[..], size);
    StoreCrc(hdr, crc);
    WithCrcTwice(old(hdr[..]), 0, crc);
    WithCrcTwice(old(hdr[..]), crc, 0);
  }

  method CheckCrcAltSize(maxSize: nat, size: nat, hdr: array<bv8>) returns (f: bool)
    requires HEADER_SIZE <= hdr.Length && size <= hdr.Length
    modifies hdr
    ensures hdr[..] == old(hdr[..])
    ensures f <==> size != 0 && (maxSize == 0 || size <= maxSize) && Sealed(hdr[..], size)
  {
    hide Byte, Word, Stored, WithCrc, Checksum;
    if size == 0 {
      return false;
    }
    if maxSize != 0 && size > maxSize {
      return false;
    }
    var orgCrc := Stored(hdr[..]);
    StoreCrc(hdr, 0);
    var crc := CalculateCrc(hdr[..], size);
    StoreCrc(hdr, orgCrc);
    WithCrcTwice(old(hdr[..]), 0, orgCrc);
    f := orgCrc == crc;
  }

  /** The CRC32 field has no bit in this window. */
  predicate BesideField(at: nat, n: nat) {
    at + n <= 8 * CRC_AT || 8 * (CRC_AT + 4) <= at
  }

  /** A byte without a bit in the window is the same in both. */
  lemma SameBeside(h: seq<bv8>, h': seq<bv8>, at: nat, n: nat, k: nat)
    requires DifferWithin(h, h', at, n) && k < |h| && (8 * k + 8 <= at || at + n <= 8 * k)
    ensures h[k] == h'[k]
  {
    hide Bits;
    assert Bits(h)[8 * k..8 * k + 8] == Bits(h')[8 * k..8 * k + 8];
    BytesByBits(h, h', k);
  }

  lemma FieldKept(h: seq<bv8>, h': seq<bv8>, at: nat, n: nat)
    requires HEADER_SIZE <= |h| && DifferWithin(h, h', at, n) && BesideField(at, n)
    ensures Stored(h) == Stored(h')
  {
    assert |h| == |h'|;
    hide DifferWithin, Word;
    SameBeside(h, h', at, n, CRC_AT);
    SameBeside(h, h', at, n, CRC_AT + 1);
    SameBeside(h, h', at, n, CRC_AT + 2);
    SameBeside(h, h', at, n, CRC_AT + 3);
  }

  /** Outside the window, the cleared messages have the same bits. */
  lemma ClearedBits(h: seq<bv8>, h': seq<bv8>, size: nat, at: nat, n: nat, k: nat, i: nat)
    requires HEADER_SIZE <= |h| && k < size <= |h| && i < 8
    requires DifferWithin(h, h', at, n) && !(at <= 8 * k + i < at + n)
    ensures Bits(WithCrc(h, 0)[..size])[8 * k + i] == Bits(WithCrc(h', 0)[..size])[8 * k + i]
  {
    var c, c' := WithCrc(h, 0)[..size], WithCrc(h', 0)[..size];
    hide Bits, WithCrc;
    if CRC_AT <= k < CRC_AT + 4 {
      BytesByBits(c, c', k);
      SliceAt(c, c, k, i);
      SliceAt(c', c', k, i);
    } else {
      BytesByBits(c, h, k);
      BytesByBits(c', h', k);
      SliceAt(c, h, k, i);
      SliceAt(c', h', k, i);
    }
  }

  lemma SliceAt(m: seq<bv8>, m': seq<bv8>, k: nat, i: nat)
    requires k < |m| && k < |m'| && i < 8
    requires Bits(m)[8 * k..8 * k + 8] == Bits(m')[8 * k..8 * k + 8]
    ensures Bits(m)[8 * k + i] == Bits(m')[8 * k + i] == Bits(m)[8 * k..8 * k + 8][i]
  {
    hide Bits;
    assert Bits(m')[8 * k..8 * k + 8][i] == Bits(m')[8 * k + i];
  }

  lemma DifferentByte(h: seq<bv8>, h': seq<bv8>) returns (k: nat)
    requires |h| == |h'| && h != h'
    ensures k < |h| && h[k] != h'[k]
  {
    k :| k < |h| && h[k] != h'[k];
  }

  /** Clearing the field keeps the difference where it was. */
  lemma DifferCleared(h: seq<bv8>, h': seq<bv8>, size: nat, at: nat, n: nat)
    requires HEADER_SIZE <= |h| && size <= |h|
    requires DifferWithin(h, h', at, n) && at + n <= 8 * size && BesideField(at, n)
    ensures |h| == |h'| && DifferWithin(WithCrc(h, 0)[..size], WithCrc(h', 0)[..size], at, n)
  {
    var k := DifferentByte(h, h');
    var c, c' := WithCrc(h, 0)[..size], WithCrc(h', 0)[..size];
    assert k < size && !(CRC_AT <= k < CRC_AT + 4) by {
      if k >= size || CRC_AT <= k < CRC_AT + 4 {
        SameBeside(h, h', at, n, k);
      }
    }
    assert c[k] == h[k] && c'[k] == h'[k];
    hide WithCrc, Bits;
    forall j | 0 <= j < 8 * size && !(at <= j < at + n)
      ensures Bits(c)[j] == Bits(c')[j]
    {
      ClearedBits(h, h', size, at, n, j / 8, j % 8);
    }
  }

  /** A change within 32 consecutive covered bits, outside the CRC32 field, breaks the seal. */
  lemma ChangeDetected(h: seq<bv8>, h': seq<bv8>, size: nat, at: nat, n: nat)
    requires HEADER_SIZE <= |h| && size <= |h| && Sealed(h, size)
    requires DifferWithin(h, h', at, n) && n <= 32 && at + n <= 8 * size && BesideField(at, n)
    ensures |h| == |h'| && !Sealed(h', size)
  {
    hide Stored, Checksum, WithCrc, DifferWithin;
    DifferCleared(h, h', size, at, n);
    BurstDetected(WithCrc(h, 0)[..size], WithCrc(h', 0)[..size], at, n);
    FieldKept(h, h', at, n);
  }

  /** So does any change of the CRC32 field alone. */
  lemma FieldChangeDetected(h: seq<bv8>, size: nat, v: bv32)
    requires HEADER_SIZE <= |h| && size <= |h| && Sealed(h, size) && v != Stored(h)
    ensures !Sealed(WithCrc(h, v), size)
  {
    WithCrcTwice(h, v, 0);
  }
}
