/** The region locator (Program.cs:77-119): checks the "RIFF" header, finds the
    "\0\0SND " marker, reads the little-endian payload size after it, checks
    the size against the file length, and skips the zero padding in front of
    the encrypted bytes. C#'s 32-bit `int` and `uint` arithmetic is written
    out explicitly. */
module Locator {
  import opened BankTypes
  import opened ByteSearch
  import Cipher

  /** `BankHeader`: "RIFF" as ASCII codes. */
  const BankHeader: seq<byte> := [0x52, 0x49, 0x46, 0x46]

  /** `SNDHeader`: two zero bytes, then "SND " as ASCII codes. */
  const SndHeader: seq<byte> := [0, 0, 0x53, 0x4E, 0x44, 0x20]

  /** The constants spell "RIFF" and "\0\0SND ". */
  lemma HeaderSpelling()
    ensures |BankHeader| == |"RIFF"| && |SndHeader| == |"\0\0SND "|
    ensures forall i :: 0 <= i < 4 ==> BankHeader[i] as int == "RIFF"[i] as int
    ensures forall i :: 0 <= i < 6 ==> SndHeader[i] as int == "\0\0SND "[i] as int
  {
  }

  const TwoTo32: int := 0x1_0000_0000
  const TwoTo31: int := 0x8000_0000

  /** Unchecked conversion to C#'s 32-bit `int`: keep the value modulo 2^32
      and read the top bit as the sign. */
  function ToInt32(x: int): (r: int)
    ensures -TwoTo31 <= r < TwoTo31
    ensures -TwoTo31 <= x < TwoTo31 ==> r == x
    ensures TwoTo31 <= x < TwoTo32 ==> r == x - TwoTo32
  {
    var m := x % TwoTo32;
    if m >= TwoTo31 then m - TwoTo32 else m
  }

  /** Unchecked conversion to C#'s 32-bit `uint`. */
  function ToUInt32(x: int): (r: nat)
    ensures r < TwoTo32
    ensures 0 <= x < TwoTo32 ==> r == x
    ensures -TwoTo32 <= x < 0 ==> r == x + TwoTo32
  {
    x % TwoTo32
  }

  /** Reference reading of four bytes as a little-endian unsigned integer. */
  function LittleEndian32(s: seq<byte>): nat
    requires |s| == 4
  {
    s[0] as nat + 0x100 * s[1] as nat + 0x1_0000 * s[2] as nat + 0x100_0000 * s[3] as nat
  }

  /** The size read of Program.cs:92-97 as C# evaluates it: every byte is
      widened to `int`, shifted and summed in 32-bit signed arithmetic (the
      top byte's shift can go negative), and the sum is cast to `uint`. The
      result is nevertheless exactly the little-endian value. */
  function ReadSize(b6: byte, b7: byte, b8: byte, b9: byte): (r: nat)
    ensures r == b6 as int + 0x100 * b7 as int + 0x1_0000 * b8 as int + 0x100_0000 * b9 as int
    ensures r < TwoTo32
  {
    var low := ToInt32(ToInt32(b6 as int + ToInt32(b7 as int * 0x100)) + ToInt32(b8 as int * 0x1_0000));
    LowBytesShift(b6, b7, b8);
    TopByteShift(b9, low);
    ToUInt32(ToInt32(low + ToInt32(b9 as int * 0x100_0000)))
  }

  /** The three lower bytes shifted and summed in `int` never overflow. */
  lemma LowBytesShift(b6: byte, b7: byte, b8: byte)
    ensures ToInt32(ToInt32(b6 as int + ToInt32(b7 as int * 0x100)) + ToInt32(b8 as int * 0x1_0000))
      == b6 as int + 0x100 * b7 as int + 0x1_0000 * b8 as int
  {
    var n6, n7, n8 := b6 as int, b7 as int, b8 as int;
    assert 0 <= n6 < 0x100 && 0 <= n7 < 0x100 && 0 <= n8 < 0x100;
  }

  /** The top byte shifted into bit 24 of an `int`: negative when its top bit
      is set, and adding the lower three bytes never overflows. */
  lemma TopByteShift(b9: byte, low: int)
    requires 0 <= low < 0x100_0000
    ensures ToUInt32(ToInt32(low + ToInt32(b9 as int * 0x100_0000))) == low + 0x100_0000 * b9 as int
  {
    var x := b9 as int * 0x100_0000;
    if b9 < 0x80 {
      assert ToInt32(x) == x;
    } else {
      assert ToInt32(x) == x - TwoTo32;
      assert ToInt32(low + x - TwoTo32) == low + x - TwoTo32;
    }
  }

  /** The index of the first non-zero byte at or after `i`, or nothing when
      the bytes are zero up to the end, where the unbounded padding loop of
      Program.cs:111 would index past the array. */
  function SkipZeros(raw: seq<byte>, i: nat): (r: Option<nat>)
    decreases |raw| - i
    ensures r.Some? ==> i <= r.value < |raw| && raw[r.value] != 0
    ensures r.Some? ==> forall j :: i <= j < r.value ==> raw[j] == 0
    ensures r.None? <==> forall j :: i <= j < |raw| ==> raw[j] == 0
  {
    if i >= |raw| then None
    else if raw[i] != 0 then Some(i)
    else SkipZeros(raw, i + 1)
  }

  /** Where the payload sits in a bank file. */
  datatype Region = Region(
    markerPos: nat,         // first byte of "\0\0SND "
    size: nat,              // declared size: padding plus payload
    padding: nat,           // zero bytes skipped after the size field
    offset: nat,            // first payload byte
    looksUnencrypted: bool  // the payload already starts "FSB5" (advisory)
  )

  predicate HasBankHeader(raw: seq<byte>)
  {
    |raw| >= 4 && raw[..4] == BankHeader
  }

  /** The first marker is neither at offset 0 nor within 10 bytes of the end. */
  predicate HasValidMarker(raw: seq<byte>)
  {
    var m := FirstMatch(raw, SndHeader);
    m.Some? && 0 < m.value && m.value + 10 < |raw|
  }

  function MarkerPos(raw: seq<byte>): nat
    requires HasValidMarker(raw)
  {
    FirstMatch(raw, SndHeader).value
  }

  function DeclaredSize(raw: seq<byte>): nat
    requires HasValidMarker(raw)
  {
    var p := MarkerPos(raw);
    LittleEndian32(raw[p + 6..p + 10])
  }

  predicate SizeMatches(raw: seq<byte>)
    requires HasValidMarker(raw)
  {
    MarkerPos(raw) + 10 + DeclaredSize(raw) == |raw|
  }

  /** `k` is the first non-zero byte at or after the size field. */
  predicate IsPayloadStart(raw: seq<byte>, start: nat, k: nat)
  {
    start <= k < |raw| && raw[k] != 0 && forall j :: start <= j < k ==> raw[j] == 0
  }

  /** Step 1 (Program.cs:77-81): the "RIFF" header, read through a 4-byte
      span that throws on a shorter file. */
  function CheckHeader(raw: seq<byte>): (r: Result<()>)
    ensures r.Ok? <==> HasBankHeader(raw)
    ensures r.Err? ==> r.error == (if |raw| < 4 then HeaderOutOfRange else NotABank)
  {
    if |raw| < 4 then Err(HeaderOutOfRange)
    else if raw[..4] != BankHeader then Err(NotABank)
    else Ok(())
  }

  /** Step 2 (Program.cs:84-89): the first marker, with `-1` standing for a
      missing one as `GetValueOrDefault(-1)` does. */
  function FindMarker(raw: seq<byte>): (r: Result<nat>)
    ensures r.Ok? <==> HasValidMarker(raw)
    ensures r.Ok? ==> r.value == MarkerPos(raw)
    ensures r.Err? ==> r.error == NoValidMarker
  {
    var pos: int := match FirstMatch(raw, SndHeader) case Some(p) => p case None => -1;
    if pos <= 0 || pos + 10 >= |raw| then Err(NoValidMarker)
    else Ok(pos)
  }

  /** Step 3 (Program.cs:92-105): the declared size, checked against the
      length with the `uint` sum of Program.cs:98. */
  function CheckSize(raw: seq<byte>, pos: nat): (r: Result<nat>)
    requires 0 < pos && pos + 10 < |raw| <= MaxArrayLength
    ensures var declared := LittleEndian32(raw[pos + 6..pos + 10]);
      && (r.Ok? <==> pos + 10 + declared == |raw|)
      && (r.Ok? ==> r.value == declared)
      && (r.Err? ==> r.error == SizeMismatch(declared, |raw| - 10 - pos))
  {
    var size := ReadSize(raw[pos + 6], raw[pos + 7], raw[pos + 8], raw[pos + 9]);
    SizeField(raw, pos);
    assert size == LittleEndian32(raw[pos + 6..pos + 10]);
    var expectedFileSize := ToUInt32(ToUInt32(pos) + 10 + size);
    NoFalseSizeMatch(pos, size, |raw|);
    assert expectedFileSize == |raw| <==> pos + 10 + size == |raw|;
    if expectedFileSize != |raw| then Err(SizeMismatch(size, |raw| - 10 - pos))
    else Ok(size)
  }

  /** Every byte from `from` to the end is zero. */
  predicate ZeroesToEnd(raw: seq<byte>, from: nat)
  {
    forall j :: from <= j < |raw| ==> raw[j] == 0
  }

  /** `g` describes the payload after a size field ending at `pos + 10`:
      its offset is the first non-zero byte, the padding is the zero run
      before it, four bytes can be read from it, and the loop count
      `size - padding` reaches exactly the end of the file. */
  predicate PayloadRegion(raw: seq<byte>, pos: nat, size: nat, g: Region)
  {
    && g.markerPos == pos && g.size == size
    && g.offset == pos + 10 + g.padding
    && IsPayloadStart(raw, pos + 10, g.offset)
    && g.offset + 4 <= |raw|
    && g.size - g.padding == |raw| - g.offset
    && (g.looksUnencrypted <==> raw[g.offset..g.offset + 4] == Cipher.ExpectedFormat)
  }

  /** The checks before the padding scan all pass. */
  predicate HeaderMarkerSizeOk(raw: seq<byte>)
  {
    HasBankHeader(raw) && HasValidMarker(raw) && SizeMatches(raw)
  }

  lemma SizeField(raw: seq<byte>, pos: nat)
    requires pos + 10 <= |raw|
    ensures LittleEndian32(raw[pos + 6..pos + 10]) ==
      raw[pos + 6] as int + 0x100 * raw[pos + 7] as int + 0x1_0000 * raw[pos + 8] as int + 0x100_0000 * raw[pos + 9] as int
  {
    var f := raw[pos + 6..pos + 10];
    assert f[0] == raw[pos + 6] && f[1] == raw[pos + 7] && f[2] == raw[pos + 8] && f[3] == raw[pos + 9];
  }

  /** Step 4 (Program.cs:110-119): skip the zero padding, then read the
      first four payload bytes through a span that throws when fewer remain. */
  function FindPayload(raw: seq<byte>, pos: nat, size: nat): (r: Result<Region>)
    requires pos + 10 + size == |raw|
    ensures r.Err? ==> r.error == PaddingOutOfRange || r.error == PayloadOutOfRange
    ensures r == Err(PaddingOutOfRange) <==> ZeroesToEnd(raw, pos + 10)
    ensures !ZeroesToEnd(raw, pos + 10) ==>
      (r.Ok? <==> SkipZeros(raw, pos + 10).value + 4 <= |raw|)
    ensures r.Ok? ==> PayloadRegion(raw, pos, size, r.value)
  {
    match SkipZeros(raw, pos + 10)
    case None => Err(PaddingOutOfRange)
    case Some(offset) =>
      var padding := offset - (pos + 10);
      if offset + 4 > |raw| then Err(PayloadOutOfRange)
      else Ok(Region(pos, size, padding, offset, raw[offset..offset + 4] == Cipher.ExpectedFormat))
  }

  /** The region locator: the four steps in order, the first failure wins.
      The caller holds a .NET array, so the length is at most
      `MaxArrayLength`. */
  function Locate(raw: seq<byte>): (r: Result<Region>)
    requires |raw| <= MaxArrayLength
    ensures |raw| < 4 ==> r == Err(HeaderOutOfRange)
    ensures |raw| >= 4 && !HasBankHeader(raw) ==> r == Err(NotABank)
    ensures HasBankHeader(raw) && !HasValidMarker(raw) ==> r == Err(NoValidMarker)
    ensures HasBankHeader(raw) && HasValidMarker(raw) && !SizeMatches(raw) ==>
      r == Err(SizeMismatch(DeclaredSize(raw), |raw| - 10 - MarkerPos(raw)))
    ensures HeaderMarkerSizeOk(raw) ==>
      (r == Err(PaddingOutOfRange) <==> ZeroesToEnd(raw, MarkerPos(raw) + 10))
    ensures r == Err(PayloadOutOfRange) ==> HeaderMarkerSizeOk(raw)
    ensures HeaderMarkerSizeOk(raw) && r.Err? ==>
      r.error == PaddingOutOfRange || r.error == PayloadOutOfRange
    ensures HeaderMarkerSizeOk(raw) && !ZeroesToEnd(raw, MarkerPos(raw) + 10) ==>
      (r.Ok? <==> SkipZeros(raw, MarkerPos(raw) + 10).value + 4 <= |raw|)
    ensures r.Ok? ==>
      HeaderMarkerSizeOk(raw) && PayloadRegion(raw, MarkerPos(raw), DeclaredSize(raw), r.value)
  {
    match CheckHeader(raw)
    case Err(e) => Err(e)
    case Ok(_) =>
      match FindMarker(raw)
      case Err(e) => Err(e)
      case Ok(pos) =>
        match CheckSize(raw, pos)
        case Err(e) => Err(e)
        case Ok(size) => FindPayload(raw, pos, size)
  }

  /** A bank file is accepted exactly when it has the header, a valid
      marker, a matching size, and a non-zero byte after the padding with at
      least four bytes from it to the end; the payload then starts there. */
  lemma LocateAccepts(raw: seq<byte>, k: nat)
    requires |raw| <= MaxArrayLength
    requires HeaderMarkerSizeOk(raw)
    requires IsPayloadStart(raw, MarkerPos(raw) + 10, k)
    ensures Locate(raw).Ok? <==> k + 4 <= |raw|
    ensures Locate(raw).Ok? ==> Locate(raw).value.offset == k
  {
    var pos := MarkerPos(raw);
    assert CheckHeader(raw) == Ok(());
    assert FindMarker(raw) == Ok(pos);
    assert DeclaredSize(raw) == LittleEndian32(raw[pos + 6..pos + 10]);
    assert CheckSize(raw, pos) == Ok(DeclaredSize(raw));
    assert Locate(raw) == FindPayload(raw, pos, DeclaredSize(raw));
    var first := SkipZeros(raw, pos + 10);
    assert first.Some? by {
      assert raw[k] != 0;
    }
    PayloadStartUnique(raw, pos + 10, first.value, k);
  }

  /** There is only one first non-zero byte. */
  lemma PayloadStartUnique(raw: seq<byte>, start: nat, k1: nat, k2: nat)
    requires IsPayloadStart(raw, start, k1) && IsPayloadStart(raw, start, k2)
    ensures k1 == k2
  {
  }

  /** The `uint` sum of Program.cs:98 can wrap, but never into a false
      acceptance: for a marker inside a .NET array and a 32-bit size, the
      wrapped sum equals the length exactly when the true sum does. */
  lemma NoFalseSizeMatch(pos: nat, size: nat, len: nat)
    requires pos + 10 < len <= MaxArrayLength && size < TwoTo32
    ensures ToUInt32(ToUInt32(pos) + 10 + size) == len <==> pos + 10 + size == len
  {
    if pos + 10 + size >= TwoTo32 {
      assert ToUInt32(pos + 10 + size) == pos + 10 + size - TwoTo32;
    }
  }
}
