/** Whole-file properties of the decryptor: a bank file built the way the
    format lays it out ("RIFF" prefix, "\0\0SND " marker, little-endian size,
    zero padding, encrypted payload) is located exactly, decrypts back to its
    plaintext, and gives up the start of its key in guess mode. */
module BankFacts {
  import opened BankTypes
  import opened Cipher
  import opened ByteSearch
  import opened Locator
  import opened Decryptor

  function Zeros(n: nat): (s: seq<byte>)
    ensures |s| == n && forall i :: 0 <= i < n ==> s[i] == 0
  {
    seq(n, i => 0)
  }

  /** A size field that declares `padding` zero bytes and a payload of
      `bodyLen` bytes. */
  predicate DeclaresSize(sizeField: seq<byte>, padding: nat, bodyLen: nat)
  {
    |sizeField| == 4 && LittleEndian32(sizeField) == padding + bodyLen
  }

  /** Everything in front of the payload: prefix, marker, size field, padding. */
  function BankHead(prefix: seq<byte>, sizeField: seq<byte>, padding: nat): seq<byte>
  {
    prefix + SndHeader + sizeField + Zeros(padding)
  }

  function BuildBank(prefix: seq<byte>, sizeField: seq<byte>, padding: nat, body: seq<byte>): seq<byte>
  {
    BankHead(prefix, sizeField, padding) + body
  }

  /** A prefix in which the marker cannot start: no two adjacent zero bytes,
      and it does not end in zero. */
  predicate NoZeroPair(prefix: seq<byte>)
  {
    && |prefix| > 0 && prefix[|prefix| - 1] != 0
    && forall i :: 0 <= i < |prefix| - 1 ==> prefix[i] != 0 || prefix[i + 1] != 0
  }

  /** No occurrence of the marker starts inside the prefix. A window that
      starts there ends inside the marker placed after it, so this depends on
      the prefix alone. */
  predicate NoEarlierMarker(prefix: seq<byte>)
  {
    forall j :: 0 <= j < |prefix| ==> !MatchesAt(prefix + SndHeader, SndHeader, j)
  }

  /** What a bank file may hold in front of its marker: the "RIFF" header
      and any bytes in which no marker starts. */
  predicate GoodPrefix(prefix: seq<byte>)
  {
    |prefix| >= 4 && prefix[..4] == BankHeader && NoEarlierMarker(prefix)
  }

  /** Where the parts of a bank file lie, without saying how it was put
      together: the header, the first marker at `p`, the size field, the
      zero padding, and the payload up to the end. */
  predicate LaidOut(raw: seq<byte>, p: nat, sizeField: seq<byte>, padding: nat, body: seq<byte>)
  {
    && |raw| == p + 10 + padding + |body|
    && |raw| >= 4 && raw[..4] == BankHeader
    && FirstMatch(raw, SndHeader) == Some(p)
    && raw[p + 6..p + 10] == sizeField
    && (forall j :: p + 10 <= j < p + 10 + padding ==> raw[j] == 0)
    && raw[p + 10 + padding..] == body
  }

  /** The marker placed right after a prefix is the first one found exactly
      when no marker starts inside the prefix. */
  lemma MarkerFirstExactly(raw: seq<byte>, prefix: seq<byte>)
    requires |prefix| + 6 <= |raw| && raw[..|prefix| + 6] == prefix + SndHeader
    ensures FirstMatch(raw, SndHeader) == Some(|prefix|) <==> NoEarlierMarker(prefix)
  {
    var p := |prefix|;
    var ps := prefix + SndHeader;
    forall j | 0 <= j <= p
      ensures MatchesAt(raw, SndHeader, j) <==> MatchesAt(ps, SndHeader, j)
    {
      assert raw[j..j + 6] == ps[j..j + 6];
    }
    assert ps[p..p + 6] == SndHeader;
    if NoEarlierMarker(prefix) {
      FirstMatchFromIsFirst(raw, SndHeader, 0, p);
    }
  }

  /** A prefix with no two adjacent zero bytes and no trailing zero is one
      in which no marker starts, since the marker begins with two zeros. */
  lemma ZeroPairFreeHasNoEarlierMarker(prefix: seq<byte>)
    requires NoZeroPair(prefix)
    ensures NoEarlierMarker(prefix)
  {
    var ps := prefix + SndHeader;
    assert ps[..|prefix| + 6] == ps && ps[..|prefix|] == prefix;
    assert ps[|prefix|..|prefix| + 6] == SndHeader;
    MarkerFirstAfterPrefix(ps, prefix);
  }

  /** The marker placed right after such a prefix is the first one found. */
  lemma MarkerFirstAfterPrefix(raw: seq<byte>, prefix: seq<byte>)
    requires NoZeroPair(prefix) && |prefix| + 6 <= |raw|
    requires raw[..|prefix|] == prefix && raw[|prefix|..|prefix| + 6] == SndHeader
    ensures FirstMatch(raw, SndHeader) == Some(|prefix|)
  {
    assert MatchesAt(raw, SndHeader, |prefix|);
    forall j | 0 <= j < |prefix|
      ensures !MatchesAt(raw, SndHeader, j)
    {
      assert raw[j..j + 6][0] == raw[j] && raw[j..j + 6][1] == raw[j + 1];
      assert raw[j] == prefix[j];
      if j + 1 < |prefix| {
        assert raw[j + 1] == prefix[j + 1];
        assert prefix[j] != 0 || prefix[j + 1] != 0;
      }
    }
  }

  /** The parts of the head, each at its place. */
  lemma HeadLayout(prefix: seq<byte>, sizeField: seq<byte>, padding: nat)
    requires |sizeField| == 4
    ensures var head := BankHead(prefix, sizeField, padding);
      var p := |prefix|;
      && |head| == p + 10 + padding
      && head[..p] == prefix
      && head[p..p + 6] == SndHeader
      && head[p + 6..p + 10] == sizeField
      && (forall j :: p + 10 <= j < p + 10 + padding ==> head[j] == 0)
  {
    var p := |prefix|;
    var ps := prefix + SndHeader;
    var psf := ps + sizeField;
    var head := psf + Zeros(padding);
    assert head == BankHead(prefix, sizeField, padding);
    forall j | 0 <= j < p + 10
      ensures head[j] == psf[j]
    {
    }
    assert head[..p] == psf[..p] == prefix;
    assert head[p..p + 6] == psf[p..p + 6] == SndHeader;
    assert head[p + 6..p + 10] == psf[p + 6..p + 10] == sizeField;
    forall j | p + 10 <= j < p + 10 + padding
      ensures head[j] == 0
    {
      assert head[j] == Zeros(padding)[j - p - 10];
    }
  }

  /** A built bank file has its parts where `LaidOut` says. */
  lemma BuiltBankLayout(prefix: seq<byte>, sizeField: seq<byte>, padding: nat, body: seq<byte>)
    requires GoodPrefix(prefix) && |sizeField| == 4
    ensures var raw := BuildBank(prefix, sizeField, padding, body);
      && LaidOut(raw, |prefix|, sizeField, padding, body)
      && raw[..|prefix| + 10 + padding] == BankHead(prefix, sizeField, padding)
  {
    var p := |prefix|;
    var head := BankHead(prefix, sizeField, padding);
    HeadLayout(prefix, sizeField, padding);
    var raw := head + body;
    assert raw == BuildBank(prefix, sizeField, padding, body);
    assert raw[..|head|] == head;
    assert raw[..p] == head[..p];
    assert raw[p..p + 6] == head[p..p + 6];
    assert raw[..p + 6] == raw[..p] + raw[p..p + 6];
    MarkerFirstExactly(raw, prefix);
    assert raw[..4] == head[..p][..4];
    assert raw[p + 6..p + 10] == head[p + 6..p + 10];
    forall j | p + 10 <= j < p + 10 + padding
      ensures raw[j] == 0
    {
      assert raw[j] == head[j];
    }
  }

  /** A laid-out file passes the header, marker and size checks, and its
      payload starts right after the padding. */
  lemma LaidOutPassesChecks(raw: seq<byte>, p: nat, sizeField: seq<byte>, padding: nat, body: seq<byte>)
    requires |raw| <= MaxArrayLength && LaidOut(raw, p, sizeField, padding, body) && 0 < p
    requires DeclaresSize(sizeField, padding, |body|)
    requires |body| >= 4 && body[0] != 0
    ensures HeaderMarkerSizeOk(raw) && MarkerPos(raw) == p && DeclaredSize(raw) == padding + |body|
    ensures IsPayloadStart(raw, p + 10, p + 10 + padding)
    ensures raw[p + 10 + padding..p + 14 + padding] == body[..4]
  {
    var k := p + 10 + padding;
    assert HasBankHeader(raw) && HasValidMarker(raw) && MarkerPos(raw) == p;
    assert DeclaredSize(raw) == padding + |body|;
    assert raw[k] == body[0];
  }

  /** The locator's answer on any file whose marker, size field and payload
      start are known. */
  lemma LocateLaidOut(raw: seq<byte>, p: nat, sizeField: seq<byte>, padding: nat, body: seq<byte>)
    requires |raw| <= MaxArrayLength && LaidOut(raw, p, sizeField, padding, body) && 0 < p
    requires DeclaresSize(sizeField, padding, |body|)
    requires |body| >= 4 && body[0] != 0
    ensures Locate(raw) == Ok(Region(p, padding + |body|, padding, p + 10 + padding, body[..4] == ExpectedFormat))
  {
    var k := p + 10 + padding;
    LaidOutPassesChecks(raw, p, sizeField, padding, body);
    LocateAccepts(raw, k);
    var g := Locate(raw).value;
    assert g.markerPos == p && g.size == padding + |body|;
    assert g.offset == k && g.padding == padding;
    assert g == Region(p, padding + |body|, padding, k, body[..4] == ExpectedFormat);
  }

  /** The locator finds exactly the layout a bank file is built with: the
      marker after the prefix, the declared size, the padding, and the
      payload right after it, provided the first payload byte is not zero. */
  lemma LocateBuiltBank(prefix: seq<byte>, sizeField: seq<byte>, padding: nat, body: seq<byte>)
    requires GoodPrefix(prefix) && DeclaresSize(sizeField, padding, |body|)
    requires |body| >= 4 && body[0] != 0
    requires |prefix| + 10 + padding + |body| <= MaxArrayLength
    ensures var raw := BuildBank(prefix, sizeField, padding, body);
      Locate(raw) == Ok(Region(|prefix|, padding + |body|, padding, |prefix| + 10 + padding,
                              body[..4] == ExpectedFormat))
  {
    BuiltBankLayout(prefix, sizeField, padding, body);
    LocateLaidOut(BuildBank(prefix, sizeField, padding, body), |prefix|, sizeField, padding, body);
  }

  /** Decrypt mode on any accepted file: the bytes before the payload are
      kept, the payload is decrypted from key phase 0, and the success flag
      says whether the decrypted payload starts "FSB5". */
  lemma DecryptModeResult(raw: seq<byte>, key: string)
    requires |raw| <= MaxArrayLength && |key| > 0
    ensures Locate(raw).Ok? ==>
      var offset := Locate(raw).value.offset;
      var plain := Decrypt(raw[offset..], LowBytes(key));
      var r := ProcessBank(raw, DecryptWith(key));
      && r.Ok?
      && r.value.contents == raw[..offset] + plain
      && (r.value.decryptedOk <==> plain[..4] == ExpectedFormat)
  {
    if Locate(raw).Ok? {
      DecryptModeOutcome(raw, Locate(raw).value, key);
    }
  }

  lemma DecryptModeOutcome(raw: seq<byte>, g: Region, key: string)
    requires |raw| <= MaxArrayLength && |key| > 0
    requires g.offset + 4 <= |raw| && g.size - g.padding == |raw| - g.offset
    ensures var plain := Decrypt(raw[g.offset..], LowBytes(key));
      var o := ModeOutcome(raw, g, DecryptWith(key));
      && o.Decrypted?
      && o.contents == raw[..g.offset] + plain
      && (o.decryptedOk <==> plain[..4] == ExpectedFormat)
  {
    var kb := LowBytes(key);
    var o := DecryptOutcome(raw, g, kb);
    var plain := Decrypt(raw[g.offset..], kb);
    DecryptRegionToEnd(raw, g.offset, kb);
    assert o.contents[g.offset..g.offset + 4] == plain[..4];
  }

  /** Decrypting from `offset` to the end keeps the head and replaces the
      tail by its decryption. */
  lemma DecryptRegionToEnd(raw: seq<byte>, offset: nat, key: seq<byte>)
    requires |key| > 0 && offset <= |raw|
    ensures DecryptRegion(raw, offset, |raw| - offset, key) == raw[..offset] + Decrypt(raw[offset..], key)
  {
    var out := DecryptRegion(raw, offset, |raw| - offset, key);
    assert raw[offset..offset + (|raw| - offset)] == raw[offset..];
    assert out == out[..offset] + out[offset..|raw|];
  }

  /** Decrypt mode restores a bank file encrypted under the same key, as long
      as the key's first byte differs from the plaintext's first byte; the
      success flag is set exactly when the plaintext starts "FSB5". */
  lemma DecryptsBuiltBank(prefix: seq<byte>, sizeField: seq<byte>, padding: nat, plain: seq<byte>, key: string)
    requires GoodPrefix(prefix) && DeclaresSize(sizeField, padding, |plain|) && |plain| >= 4
    requires |key| > 0 && LowBytes(key)[0] != plain[0]
    requires |prefix| + 10 + padding + |plain| <= MaxArrayLength
    ensures var r := ProcessBank(BuildBank(prefix, sizeField, padding, Encrypt(plain, LowBytes(key))), DecryptWith(key));
      && r.Ok?
      && r.value.contents == BuildBank(prefix, sizeField, padding, plain)
      && (r.value.decryptedOk <==> plain[..4] == ExpectedFormat)
  {
    var kb := LowBytes(key);
    var body := Encrypt(plain, kb);
    EncryptedByteZero(plain[0], kb[0]);
    LocateBuiltBank(prefix, sizeField, padding, body);
    BuiltBankLayout(prefix, sizeField, padding, body);
    var raw := BuildBank(prefix, sizeField, padding, body);
    DecryptModeResult(raw, key);
    DecryptEncrypt(plain, kb);
  }

  /** Guess mode on a bank file whose plaintext starts "FSB5" returns the
      first four bytes of the cyclic key, as long as the key does not start
      with 'F'. */
  lemma GuessesBuiltBank(prefix: seq<byte>, sizeField: seq<byte>, padding: nat, plain: seq<byte>, key: seq<byte>)
    requires GoodPrefix(prefix) && DeclaresSize(sizeField, padding, |plain|)
    requires |plain| >= 4 && plain[..4] == ExpectedFormat
    requires |key| > 0 && key[0] != plain[0]
    requires |prefix| + 10 + padding + |plain| <= MaxArrayLength
    ensures var r := ProcessBank(BuildBank(prefix, sizeField, padding, Encrypt(plain, key)), GuessKey);
      && r.Ok?
      && LowBytes(r.value.keyStart) == seq(4, i requires 0 <= i < 4 => key[i % |key|])
      && |r.value.keyStart| == 4
      && forall i :: 0 <= i < 4 ==> r.value.keyStart[i] as int == key[i % |key|] as int
  {
    var body := Encrypt(plain, key);
    EncryptedByteZero(plain[0], key[0]);
    LocateBuiltBank(prefix, sizeField, padding, body);
    BuiltBankLayout(prefix, sizeField, padding, body);
    GuessRecoversKey(plain, key);
  }

  /** The padding heuristic's known failure: when the key's first byte equals
      the plaintext's first byte (a key starting with 'F'), the first
      encrypted byte is zero and the locator places the payload too late, if
      it accepts the file at all. */
  lemma KeyMatchingFirstByteMisplacesPayload(prefix: seq<byte>, sizeField: seq<byte>, padding: nat, plain: seq<byte>, key: seq<byte>)
    requires GoodPrefix(prefix) && DeclaresSize(sizeField, padding, |plain|) && |plain| >= 4
    requires |key| > 0 && key[0] == plain[0]
    requires |prefix| + 10 + padding + |plain| <= MaxArrayLength
    ensures var raw := BuildBank(prefix, sizeField, padding, Encrypt(plain, key));
      Locate(raw).Ok? ==> Locate(raw).value.offset > |prefix| + 10 + padding
  {
    var body := Encrypt(plain, key);
    EncryptedByteZero(plain[0], key[0]);
    BuiltBankLayout(prefix, sizeField, padding, body);
    var raw := BuildBank(prefix, sizeField, padding, body);
    var k := |prefix| + 10 + padding;
    assert raw[k] == raw[k..][0];
    assert forall j :: |prefix| + 10 <= j <= k ==> raw[j] == 0;
    assert HasValidMarker(raw) ==> MarkerPos(raw) == |prefix|;
  }

  /** The guessed key, fed back as the key, decrypts the first four payload
      bytes to "FSB5": guess mode and decrypt mode agree. */
  lemma GuessThenDecrypt(raw: seq<byte>)
    requires |raw| <= MaxArrayLength
    ensures var guess := ProcessBank(raw, GuessKey);
      guess.Ok? ==>
        && |guess.value.keyStart| == 4
        && var r := ProcessBank(raw, DecryptWith(guess.value.keyStart));
           r.Ok? && r.value.decryptedOk
  {
    if Locate(raw).Err? {
      return;
    }
    var g := Locate(raw).value;
    var s := ProcessBank(raw, GuessKey).value.keyStart;
    var payload := raw[g.offset..];
    assert LowBytes(s) == GuessKeyPrefix(payload);
    DecryptModeResult(raw, s);
    GuessedKeyDecrypts(payload);
  }

  /** A file of zero bytes is not a bank. */
  lemma AllZeroIsNotABank(n: nat)
    requires 4 <= n <= MaxArrayLength
    ensures Locate(Zeros(n)) == Err(NotABank)
  {
    assert Zeros(n)[..4][0] != BankHeader[0];
  }

  /** "RIFF" followed by zeros has no marker. */
  lemma HeaderWithoutMarker(n: nat)
    requires n <= MaxArrayLength - 4
    ensures Locate(BankHeader + Zeros(n)) == Err(NoValidMarker)
  {
    var raw := BankHeader + Zeros(n);
    assert raw[..4] == BankHeader;
    forall j | 0 <= j
      ensures !MatchesAt(raw, SndHeader, j)
    {
      if j + 6 <= |raw| {
        assert raw[j..j + 6][2] == raw[j + 2];
        if j + 2 < 4 {
          assert raw[j + 2] == BankHeader[j + 2];
        } else {
          assert raw[j + 2] == Zeros(n)[j + 2 - 4];
        }
      }
    }
  }

  /** A prefix of the shape real banks have: "RIFF", a little-endian chunk
      size whose high bytes are zero, and the form tag "FEV ". The zeros of
      the size do not start a marker. */
  lemma RiffChunkPrefix()
    ensures GoodPrefix(BankHeader + [0x0C, 0, 0, 0, 0x46, 0x45, 0x56, 0x20])
  {
    var prefix := BankHeader + [0x0C, 0, 0, 0, 0x46, 0x45, 0x56, 0x20];
    var ps := prefix + SndHeader;
    assert prefix[..4] == BankHeader;
    assert SndHeader[2] == 0x53;
    forall j | 0 <= j < |prefix|
      ensures !MatchesAt(ps, SndHeader, j)
    {
      if j + 2 < |prefix| {
        assert ps[j + 2] == prefix[j + 2];
      } else {
        assert ps[j + 2] == SndHeader[j + 2 - |prefix|];
      }
      assert ps[j + 2] != 0x53;
      assert ps[j..j + 6][2] != SndHeader[2];
    }
  }

  /** A marker at offset 16 declaring 8 bytes with only 6 after the size
      field is a size mismatch that reports both numbers. */
  lemma SizeMismatchExample()
    ensures var prefix := BankHeader + seq(12, i => 1 as byte);
      Locate(BuildBank(prefix, [8, 0, 0, 0], 0, seq(6, i => 1 as byte))) == Err(SizeMismatch(8, 6))
  {
    var prefix := BankHeader + seq(12, i => 1 as byte);
    var body := seq(6, i => 1 as byte);
    assert prefix[..4] == BankHeader;
    assert NoZeroPair(prefix);
    ZeroPairFreeHasNoEarlierMarker(prefix);
    BuiltBankLayout(prefix, [8, 0, 0, 0], 0, body);
    var raw := BuildBank(prefix, [8, 0, 0, 0], 0, body);
    assert HasBankHeader(raw) && HasValidMarker(raw) && MarkerPos(raw) == 16;
    assert LittleEndian32([8, 0, 0, 0]) == 8;
    assert DeclaredSize(raw) == 8;
  }
}
