/** One bank file through the decryptor (`DecryptBankFile`, Program.cs:62-156):
    locate the payload, then either decrypt it in place or guess the start of
    the key. Reading and writing files and printing messages are left to the
    caller; the mode and the key arrive as parameters. */
module Decryptor {
  import opened BankTypes
  import opened NibbleReverse
  import opened Cipher
  import opened ByteSearch
  import opened Locator

  /** What the command line selected: decryption with a key, or `--guess`.
      The key holds one character per UTF-16 code unit of the C# string, as
      `KeyFromCodeUnits` builds it. */
  datatype Mode = DecryptWith(key: string) | GuessKey

  /** A UTF-16 code unit, the element of a C# string. */
  type CodeUnit = x: int | 0 <= x < 0x1_0000

  /** The model's key for a C# key given as its code units: one character
      per code unit, whose code is that unit's low byte. The length, and with
      it the period of the key (`encryptionKey.Length` at Program.cs:148), and
      every byte the decryptor XORs with (the `(byte)` cast of the unit) are
      those of the C# string. */
  function KeyFromCodeUnits(units: seq<CodeUnit>): (key: string)
    ensures |key| == |units|
    ensures forall i :: 0 <= i < |units| ==> key[i] as int == units[i] % 256
    ensures forall i :: 0 <= i < |units| ==> LowBytes(key)[i] == (units[i] % 256) as byte
  {
    seq(|units|, i requires 0 <= i < |units| => (units[i] % 256) as char)
  }

  /** A key outside the Basic Multilingual Plane, such as U+1F600, is two
      code units in C# (0xD83D, 0xDE00): the decryptor cycles over two key
      characters, with codes 0x3D and 0x00, not one. */
  lemma SurrogatePairKey()
    ensures var key := KeyFromCodeUnits([0xD83D, 0xDE00]);
      |key| == |LowBytes(key)| == 2 && key[0] as int == 0x3D && key[1] as int == 0x00
  {
  }

  /** What one file produces. The flags are the two advisory warnings
      (Program.cs:116-119 and Program.cs:150-153): they are reported, but the
      output is produced either way. */
  datatype Outcome =
    | Decrypted(contents: seq<byte>, looksUnencrypted: bool, decryptedOk: bool)
    | Guessed(keyStart: string, looksUnencrypted: bool)

  /** A source-level precondition from `Main` (Program.cs:234-238): decrypting
      needs a non-empty key. */
  predicate ValidMode(mode: Mode)
  {
    mode.DecryptWith? ==> |mode.key| > 0
  }

  /** The guessed key bytes as the characters the program prints. */
  function GuessedKeyString(payload: seq<byte>): (s: string)
    requires |payload| >= |ExpectedFormat|
    ensures |s| == |ExpectedFormat|
    ensures forall i :: 0 <= i < |s| ==> s[i] as int == GuessKeyPrefix(payload)[i] as int
    ensures LowBytes(s) == GuessKeyPrefix(payload)
  {
    var g := GuessKeyPrefix(payload);
    var s := seq(|g|, i requires 0 <= i < |g| => ByteChar(g[i]));
    assert forall i :: 0 <= i < |g| ==> LowBytes(s)[i] == g[i];
    s
  }

  /** C#'s `(char)` cast of a byte: the character whose code is the byte.
      Its `(byte)` cast gives the byte back. */
  function ByteChar(b: byte): (c: char)
    ensures c as int == b as int
    ensures LowByte(c) == b
  {
    ByteIntRoundTrip(b);
    (b as int) as char
  }

  /** A byte read as an integer is below 256 and converts back to itself. */
  lemma ByteIntRoundTrip(b: byte)
    ensures 0 <= b as int < 256
    ensures (b as int % 256) as byte == b
  {
    assert b as int % 256 == b as int;
  }

  /** Program.cs:148 XORs in `int`: the byte with the whole 16-bit code
      unit `hi:lo`, and only then casts to `byte`. Keeping the low eight bits
      of that XOR is the same as XORing with the low byte alone. */
  lemma XorThenCast(r: byte, hi: byte, lo: byte)
    ensures (((r as bv16) ^ ((hi as bv16 << 8) | lo as bv16)) & 0xFF) as byte == r ^ lo
  {
  }

  /** A key character whose code is the unit `hi:lo` has `lo` as its
      `(byte)` cast. */
  lemma UnitLowByte(hi: byte, lo: byte, c: char)
    requires c as int == hi as int * 256 + lo as int
    ensures LowByte(c) == lo
  {
    LowDigit(hi as int, lo as int);
    assert c as int % 256 == lo as int % 256;
    assert LowByte(c) == (lo as int % 256) as byte;
    ByteIntRoundTrip(lo);
  }

  lemma LowDigit(h: int, l: int)
    ensures (h * 256 + l) % 256 == l % 256
  {
  }

  /** The key step of Program.cs:148 as C# computes it, `(byte)(reversed ^
      key[i])` on the full code unit, equals the model's XOR of `reversed`
      with the key character's low byte. */
  lemma CastOfXor(r: byte, hi: byte, lo: byte, c: char)
    requires c as int == hi as int * 256 + lo as int
    ensures (((r as bv16) ^ ((hi as bv16 << 8) | lo as bv16)) & 0xFF) as byte == r ^ LowByte(c)
  {
    XorThenCast(r, hi, lo);
    UnitLowByte(hi, lo, c);
  }

  /** The decrypted file: bytes before `offset` are kept, the `count` bytes
      from `offset` are decrypted with key phase 0 at `offset`. */
  function DecryptRegion(raw: seq<byte>, offset: nat, count: nat, key: seq<byte>): (out: seq<byte>)
    requires |key| > 0 && offset + count <= |raw|
    ensures |out| == |raw|
    ensures out[..offset] == raw[..offset]
    ensures out[offset..offset + count] == Decrypt(raw[offset..offset + count], key)
    ensures out[offset + count..] == raw[offset + count..]
  {
    var d := Decrypt(raw[offset..offset + count], key);
    var out := raw[..offset] + d + raw[offset + count..];
    assert out[offset..offset + count] == d;
    out
  }

  /** Decrypt mode once the region is known (Program.cs:143-154). The loop
      bound is the `uint` difference `size - padding`, which equals the
      number of bytes from `offset` to the end of the file. */
  function DecryptOutcome(raw: seq<byte>, g: Region, key: seq<byte>): (o: Outcome)
    requires |key| > 0 && |raw| <= MaxArrayLength
    requires g.offset + 4 <= |raw| && g.size - g.padding == |raw| - g.offset
    ensures o.Decrypted?
    ensures o.contents == DecryptRegion(raw, g.offset, |raw| - g.offset, key)
    ensures o.looksUnencrypted == g.looksUnencrypted
    ensures o.decryptedOk <==> o.contents[g.offset..g.offset + 4] == ExpectedFormat
  {
    var count := ToUInt32(g.size - g.padding);
    assert g.offset + count == |raw|;
    var out := DecryptRegion(raw, g.offset, count, key);
    Decrypted(out, g.looksUnencrypted, out[g.offset..g.offset + 4] == ExpectedFormat)
  }

  /** Guess mode once the region is known (Program.cs:128-140): the buffer
      is only read. */
  function GuessOutcome(raw: seq<byte>, g: Region): (o: Outcome)
    requires g.offset + 4 <= |raw|
    ensures o.Guessed?
    ensures |o.keyStart| == |ExpectedFormat|
    ensures forall i :: 0 <= i < |o.keyStart| ==> o.keyStart[i] as int == GuessKeyPrefix(raw[g.offset..])[i] as int
    ensures LowBytes(o.keyStart) == GuessKeyPrefix(raw[g.offset..])
    ensures o.looksUnencrypted == g.looksUnencrypted
  {
    Guessed(GuessedKeyString(raw[g.offset..]), g.looksUnencrypted)
  }

  /** The selected mode once the region is known. */
  function ModeOutcome(raw: seq<byte>, g: Region, mode: Mode): (o: Outcome)
    requires |raw| <= MaxArrayLength && ValidMode(mode)
    requires g.offset + 4 <= |raw| && g.size - g.padding == |raw| - g.offset
    ensures o.Guessed? <==> mode.GuessKey?
  {
    if mode.GuessKey? then GuessOutcome(raw, g)
    else DecryptOutcome(raw, g, LowBytes(mode.key))
  }

  /** The whole per-file pipeline: locate, then run the selected mode. Every
      failure comes from the locator. */
  function ProcessBank(raw: seq<byte>, mode: Mode): (r: Result<Outcome>)
    requires |raw| <= MaxArrayLength && ValidMode(mode)
    ensures r.Err? <==> Locate(raw).Err?
    ensures r.Err? ==> r.error == Locate(raw).error
    ensures r.Ok? ==> r.value == ModeOutcome(raw, Locate(raw).value, mode)
  {
    match Locate(raw)
    case Err(e) => Err(e)
    case Ok(g) => Ok(ModeOutcome(raw, g, mode))
  }

  /** The in-place loop of Program.cs:144-149 on a copy of the buffer: each
      step rewrites one byte and touches nothing else. */
  method DecryptLoop(contents: seq<byte>, offset: nat, count: nat, key: seq<byte>) returns (out: seq<byte>)
    requires |key| > 0 && offset + count <= |contents|
    ensures out == DecryptRegion(contents, offset, count, key)
  {
    out := contents;
    var i := 0;
    while i < count
      invariant 0 <= i <= count
      invariant |out| == |contents|
      invariant out[..offset] == contents[..offset]
      invariant forall j :: 0 <= j < i ==> out[offset + j] == Rev(contents[offset + j]) ^ key[j % |key|]
      invariant out[offset + i..] == contents[offset + i..]
    {
      var b := out[offset + i];
      var reversed := Rev(b);
      out := out[offset + i := reversed ^ key[i % |key|]];
      i := i + 1;
    }
    var d := DecryptRegion(contents, offset, count, key);
    forall j | 0 <= j < |out|
      ensures out[j] == d[j]
    {
      if j < offset {
        assert out[j] == out[..offset][j];
      } else if j >= offset + count {
        assert out[j] == out[offset + count..][j - offset - count];
      } else {
        assert out[offset + (j - offset)] == Rev(contents[offset + (j - offset)]) ^ key[(j - offset) % |key|];
      }
    }
  }

  /** The padding loop of Program.cs:110-111: step over zero bytes from
      `start`. The source loop has no bound, so reaching the end of the file
      (`k == |raw|`) is where it would index past the array. */
  method SkipPadding(raw: seq<byte>, start: nat) returns (k: nat)
    requires start <= |raw|
    ensures start <= k <= |raw|
    ensures k == |raw| <==> SkipZeros(raw, start).None?
    ensures k < |raw| ==> SkipZeros(raw, start) == Some(k)
  {
    k := start;
    while k < |raw| && raw[k] == 0
      invariant start <= k <= |raw|
      invariant SkipZeros(raw, k) == SkipZeros(raw, start)
    {
      k := k + 1;
    }
  }

  /** Program.cs:107-116 as the program runs them: the padding loop, then
      the four-byte span at the payload offset. */
  method FindPayloadRegion(raw: seq<byte>, pos: nat, size: nat) returns (r: Result<Region>)
    requires pos + 10 + size == |raw|
    ensures r == FindPayload(raw, pos, size)
  {
    var offset := SkipPadding(raw, pos + 10);
    if offset == |raw| {
      return Err(PaddingOutOfRange);
    }
    if offset + 4 > |raw| {
      return Err(PayloadOutOfRange);
    }
    var padding := offset - (pos + 10);
    r := Ok(Region(pos, size, padding, offset, raw[offset..offset + 4] == ExpectedFormat));
  }

  /** Program.cs:77-119 step by step: the marker found by the nested-loop
      search, the size check, and the padding skipped one byte at a time. */
  method LocateRegion(raw: seq<byte>) returns (r: Result<Region>)
    requires |raw| <= MaxArrayLength
    ensures r == Locate(raw)
  {
    if |raw| < 4 {
      return Err(HeaderOutOfRange);
    }
    if raw[..4] != BankHeader {
      return Err(NotABank);
    }
    assert CheckHeader(raw) == Ok(());
    var found := FindInArray(raw, SndHeader);
    var pos: int := if found.Some? then found.value else -1;
    if pos <= 0 || pos + 10 >= |raw| {
      assert FindMarker(raw) == Err(NoValidMarker);
      return Err(NoValidMarker);
    }
    assert FindMarker(raw) == Ok(pos);
    var sized := CheckSize(raw, pos);
    if sized.Err? {
      return Err(sized.error);
    }
    assert Locate(raw) == FindPayload(raw, pos, sized.value);
    r := FindPayloadRegion(raw, pos, sized.value);
  }

  /** Lines 128-155 as the program runs them: guess from the first four
      payload bytes, or decrypt with the loop. */
  method RunMode(raw: seq<byte>, g: Region, mode: Mode) returns (o: Outcome)
    requires |raw| <= MaxArrayLength && ValidMode(mode)
    requires g.offset + 4 <= |raw| && g.size - g.padding == |raw| - g.offset
    ensures o == ModeOutcome(raw, g, mode)
  {
    if mode.GuessKey? {
      return GuessOutcome(raw, g);
    }
    var key := LowBytes(mode.key);
    var count := ToUInt32(g.size - g.padding);
    assert g.offset + count == |raw|;
    var out := DecryptLoop(raw, g.offset, count, key);
    assert out == DecryptOutcome(raw, g, key).contents;
    o := Decrypted(out, g.looksUnencrypted, out[g.offset..g.offset + 4] == ExpectedFormat);
  }

  /** `DecryptBankFile` as the program runs it. It computes exactly what
      `ProcessBank` describes. */
  method DecryptBankFile(raw: seq<byte>, mode: Mode) returns (r: Result<Outcome>)
    requires |raw| <= MaxArrayLength && ValidMode(mode)
    ensures r == ProcessBank(raw, mode)
  {
    var located := LocateRegion(raw);
    if located.Err? {
      return Err(located.error);
    }
    var o := RunMode(raw, located.value, mode);
    return Ok(o);
  }
}
