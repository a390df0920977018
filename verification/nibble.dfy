/** The per-byte permutation of the cipher: each nibble is bit-reversed through
    the `fourbitreverse` table (Program.cs:6-12) and the two nibbles trade
    places (Program.cs:136, Program.cs:147). */
module NibbleReverse {
  import opened BankTypes

  /** `fourbitreverse`: entry `n` is the four bits of `n` in reverse order. */
  const FourBitReverse: seq<byte> := [
    0x0, 0x8, 0x4, 0xC,
    0x2, 0xA, 0x6, 0xE,
    0x1, 0x9, 0x5, 0xD,
    0x3, 0xB, 0x7, 0xF
  ]

  /** The byte permutation as written: the table applied to the high nibble
      lands in the low nibble, and the table applied to the low nibble is
      shifted into the high one. C# evaluates the shift in `int` and casts
      back to `byte`; the table entries are below 16, so eight bits suffice. */
  function Rev(b: byte): byte
  {
    FourBitReverse[(b >> 4) as int] | (FourBitReverse[(b % 16) as int] << 4)
  }

  /** Independent reference: bit `i` of the result is bit `7 - i` of `b`. */
  function ReverseBits(b: byte): byte
  {
    ((b & 0x01) << 7) | ((b & 0x02) << 5) | ((b & 0x04) << 3) | ((b & 0x08) << 1) |
    ((b & 0x10) >> 1) | ((b & 0x20) >> 3) | ((b & 0x40) >> 5) | ((b & 0x80) >> 7)
  }

  /** Reversal of the four low bits of a nibble, computed bit by bit. */
  function ReverseNibbleBits(n: byte): byte
  {
    ((n & 1) << 3) | ((n & 2) << 1) | ((n & 4) >> 1) | ((n & 8) >> 3)
  }

  /** Every table entry is the bit reversal of its index. */
  lemma TableReversesNibbles(n: byte)
    requires n < 16
    ensures FourBitReverse[n as int] == ReverseNibbleBits(n)
    ensures FourBitReverse[n as int] < 16
  {
    if n == 0 {} else if n == 1 {} else if n == 2 {} else if n == 3 {}
    else if n == 4 {} else if n == 5 {} else if n == 6 {} else if n == 7 {}
    else if n == 8 {} else if n == 9 {} else if n == 10 {} else if n == 11 {}
    else if n == 12 {} else if n == 13 {} else if n == 14 {} else {}
  }

  /** The table-driven permutation is full 8-bit bit reversal: reversing
      each nibble and swapping the two nibbles reverses the whole byte. */
  lemma RevIsBitReversal(b: byte)
    ensures Rev(b) == ReverseBits(b)
  {
    TableReversesNibbles(b >> 4);
    TableReversesNibbles(b % 16);
    assert Rev(b) == ReverseNibbleBits(b >> 4) | (ReverseNibbleBits(b % 16) << 4);
  }

  /** Applying the permutation twice gives the byte back. */
  lemma RevInvolution(b: byte)
    ensures Rev(Rev(b)) == b
  {
    RevIsBitReversal(b);
    RevIsBitReversal(Rev(b));
  }

  /** Bit reversal moves bits without combining them, so it distributes over
      XOR. */
  lemma RevXor(a: byte, b: byte)
    ensures Rev(a ^ b) == Rev(a) ^ Rev(b)
  {
    RevIsBitReversal(a);
    RevIsBitReversal(b);
    RevIsBitReversal(a ^ b);
  }

  /** Only zero maps to zero. */
  lemma RevZero(b: byte)
    ensures Rev(b) == 0 <==> b == 0
  {
    RevIsBitReversal(b);
  }
}
