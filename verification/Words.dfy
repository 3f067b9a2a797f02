/** The machine's words, and copying memory. */
module Words {
  type Byte = b: int | 0 <= b < 0x100
  type Char16 = c: int | 0 <= c < 0x1_0000
  type Word = w: int | 0 <= w < 0x1_0000_0000_0000_0000

  method CopyMem<T>(dest: array<T>, at: nat, src: seq<T>)
    requires at + |src| <= dest.Length
    modifies dest
    ensures dest[..] == old(dest[..at]) + src + old(dest[at + |src|..])
  {
    forall i | 0 <= i < |src| {
      dest[at + i] := src[i];
    }
  }
}
