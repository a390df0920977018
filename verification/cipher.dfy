/** The two-stage byte cipher on the payload (Program.cs:122-155): decryption
    permutes each byte with `Rev` and XORs it with the key byte at the current
    phase; encryption, as the comment at Program.cs:122-126 describes it, XORs
    first and permutes second. The key phase is the byte's index in the
    payload, so it starts at 0 on the first byte after the padding. */
module Cipher {
  import opened BankTypes
  import opened NibbleReverse

  /** The key byte used at payload index `i`: the key repeats cyclically. */
  function KeyAt(key: seq<byte>, i: nat): byte
    requires |key| > 0
  {
    key[i % |key|]
  }

  function DecryptByte(b: byte, k: byte): byte
  {
    Rev(b) ^ k
  }

  function EncryptByte(x: byte, k: byte): byte
  {
    Rev(x ^ k)
  }

  /** Applies a per-byte cipher step to `s`, whose first byte sits at key
      phase `phase`; the phase advances by one per byte. */
  function KeyedMap(step: (byte, byte) -> byte, s: seq<byte>, key: seq<byte>, phase: nat): (r: seq<byte>)
    requires |key| > 0
    decreases |s|
    ensures |r| == |s|
    ensures forall i :: 0 <= i < |s| ==> r[i] == step(s[i], KeyAt(key, phase + i))
  {
    if |s| == 0 then []
    else [step(s[0], KeyAt(key, phase))] + KeyedMap(step, s[1..], key, phase + 1)
  }

  /** The payload decryption of the decryptor: phase 0 at the payload start. */
  function Decrypt(payload: seq<byte>, key: seq<byte>): (r: seq<byte>)
    requires |key| > 0
    ensures |r| == |payload|
    ensures forall i :: 0 <= i < |payload| ==> r[i] == Rev(payload[i]) ^ key[i % |key|]
  {
    KeyedMap(DecryptByte, payload, key, 0)
  }

  function Encrypt(plain: seq<byte>, key: seq<byte>): (r: seq<byte>)
    requires |key| > 0
    ensures |r| == |plain|
    ensures forall i :: 0 <= i < |plain| ==> r[i] == Rev(plain[i] ^ key[i % |key|])
  {
    KeyedMap(EncryptByte, plain, key, 0)
  }

  lemma DecryptEncryptByte(x: byte, k: byte)
    ensures DecryptByte(EncryptByte(x, k), k) == x
  {
    RevInvolution(x ^ k);
  }

  lemma EncryptDecryptByte(b: byte, k: byte)
    ensures EncryptByte(DecryptByte(b, k), k) == b
  {
    RevInvolution(b);
  }

  /** Round trip: decrypting an encrypted payload with the same non-empty key
      restores it. */
  lemma {:induction false} DecryptEncrypt(plain: seq<byte>, key: seq<byte>)
    requires |key| > 0
    ensures Decrypt(Encrypt(plain, key), key) == plain
  {
    var c := Encrypt(plain, key);
    var d := Decrypt(c, key);
    forall i | 0 <= i < |plain|
      ensures d[i] == plain[i]
    {
      DecryptEncryptByte(plain[i], key[i % |key|]);
    }
  }

  /** The other direction: every payload is the encryption of its decryption,
      so decryption loses nothing. */
  lemma {:induction false} EncryptDecrypt(payload: seq<byte>, key: seq<byte>)
    requires |key| > 0
    ensures Encrypt(Decrypt(payload, key), key) == payload
  {
    var d := Decrypt(payload, key);
    var c := Encrypt(d, key);
    forall i | 0 <= i < |payload|
      ensures c[i] == payload[i]
    {
      EncryptDecryptByte(payload[i], key[i % |key|]);
    }
  }

  /** Decryption is not its own inverse: applying it twice leaves every byte
      XORed with its key byte and that key byte's reversal. */
  lemma {:induction false} DecryptTwice(payload: seq<byte>, key: seq<byte>)
    requires |key| > 0
    ensures forall i :: 0 <= i < |payload| ==>
      Decrypt(Decrypt(payload, key), key)[i] == payload[i] ^ key[i % |key|] ^ Rev(key[i % |key|])
  {
    var d := Decrypt(payload, key);
    var dd := Decrypt(d, key);
    forall i | 0 <= i < |payload|
      ensures dd[i] == payload[i] ^ key[i % |key|] ^ Rev(key[i % |key|])
    {
      DecryptTwiceByte(payload[i], key[i % |key|]);
    }
  }

  lemma DecryptTwiceByte(b: byte, k: byte)
    ensures DecryptByte(DecryptByte(b, k), k) == b ^ k ^ Rev(k)
  {
    RevOfDecrypted(b, k);
    XorShuffle(b, Rev(k), k);
  }

  lemma RevOfDecrypted(b: byte, k: byte)
    ensures Rev(Rev(b) ^ k) == b ^ Rev(k)
  {
    RevXor(Rev(b), k);
    RevInvolution(b);
  }

  lemma XorShuffle(a: byte, b: byte, c: byte)
    ensures (a ^ b) ^ c == (a ^ c) ^ b
  {
  }

  /** So decrypting twice is the identity only for keys whose bytes are
      palindromic bit patterns; the one-byte key "A" is not. */
  lemma DecryptTwiceCounterexample()
    ensures Decrypt(Decrypt([0x00], [0x41]), [0x41]) == [0xC3]
  {
    DecryptTwice([0x00], [0x41]);
    RevIsBitReversal(0x41);
  }

  /** "FSB5", the first four bytes of a correctly decrypted payload
      (`SNDExpectedFormat`), as ASCII codes. */
  const ExpectedFormat: seq<byte> := [0x46, 0x53, 0x42, 0x35]

  /** The constant spells "FSB5". */
  lemma ExpectedFormatSpelling()
    ensures |ExpectedFormat| == |"FSB5"|
    ensures forall i :: 0 <= i < 4 ==> ExpectedFormat[i] as int == "FSB5"[i] as int
  {
  }

  /** Guess mode: the key bytes that would make the first four payload bytes
      decrypt to "FSB5". */
  function GuessKeyPrefix(payload: seq<byte>): (g: seq<byte>)
    requires |payload| >= |ExpectedFormat|
    ensures |g| == |ExpectedFormat|
    ensures forall i :: 0 <= i < |g| ==> DecryptByte(payload[i], g[i]) == ExpectedFormat[i]
  {
    seq(|ExpectedFormat|, i requires 0 <= i < |ExpectedFormat| => Rev(payload[i]) ^ ExpectedFormat[i])
  }

  /** The guessed bytes are the only ones that make the prefix decrypt to
      "FSB5": the guess is correct exactly when the plaintext starts "FSB5". */
  lemma GuessUnique(payload: seq<byte>, key: seq<byte>)
    requires |payload| >= 4 && |key| > 0
    ensures Decrypt(payload, key)[..4] == ExpectedFormat <==>
      forall i :: 0 <= i < 4 ==> GuessKeyPrefix(payload)[i] == key[i % |key|]
  {
    var d := Decrypt(payload, key);
    var g := GuessKeyPrefix(payload);
    if d[..4] == ExpectedFormat {
      forall i | 0 <= i < 4
        ensures g[i] == key[i % |key|]
      {
        assert d[i] == ExpectedFormat[i];
      }
    }
    if forall i :: 0 <= i < 4 ==> g[i] == key[i % |key|] {
      assert forall i :: 0 <= i < 4 ==> d[..4][i] == ExpectedFormat[i];
    }
  }

  /** The guessed bytes, used as a four-byte key, decrypt the start of the
      payload to "FSB5". */
  lemma GuessedKeyDecrypts(payload: seq<byte>)
    requires |payload| >= 4
    ensures Decrypt(payload, GuessKeyPrefix(payload))[..4] == ExpectedFormat
  {
    var g := GuessKeyPrefix(payload);
    var d := Decrypt(payload, g);
    forall i | 0 <= i < 4
      ensures d[..4][i] == ExpectedFormat[i]
    {
      assert i % |g| == i;
      assert DecryptByte(payload[i], g[i]) == ExpectedFormat[i];
    }
  }

  /** Key recovery: if a payload is the encryption under `key` of a
      plaintext starting "FSB5", guess mode returns the first four bytes of
      the cyclic key. */
  lemma GuessRecoversKey(plain: seq<byte>, key: seq<byte>)
    requires |plain| >= 4 && |key| > 0
    requires plain[..4] == ExpectedFormat
    ensures GuessKeyPrefix(Encrypt(plain, key)) == seq(4, i requires 0 <= i < 4 => key[i % |key|])
  {
    var c := Encrypt(plain, key);
    DecryptEncrypt(plain, key);
    GuessUnique(c, key);
  }

  /** An encrypted byte is zero exactly when the plaintext byte equals its
      key byte. The first payload byte is "F", so a key starting with 'F'
      encrypts it to zero and the locator takes it for padding. */
  lemma EncryptedByteZero(x: byte, k: byte)
    ensures EncryptByte(x, k) == 0 <==> x == k
  {
    RevZero(x ^ k);
    XorZero(x, k);
  }

  lemma XorZero(a: byte, b: byte)
    ensures a ^ b == 0 <==> a == b
  {
  }
}
