# FMOD bank decryptor — a Dafny model

FMODBankDecryptor reads an encrypted FMOD `.bank` file and writes it back
decrypted, or, in `--guess` mode, prints the first four characters of the
key. This project models the per-file core, `DecryptBankFile` and its
helpers in `Program.cs`, in two parts.

- **Region locator.** The file must start with `RIFF`. The decryptor then
  searches for the first `00 00 'S' 'N' 'D' ' '` marker with `FindInArray`.
  Next it reads the little-endian 32-bit size that follows the marker. It
  requires `marker + 10 + size` to equal the file length, and then skips
  the zero padding in front of the encrypted payload.
- **Byte transform.**
  - Each payload byte goes through the `fourbitreverse` nibble table, with
    the two nibbles swapped, and is then XORed with the key byte at index
    `i mod |key|`. The key phase starts at 0 on the first byte after the
    padding.
  - Guess mode recovers the first four key bytes, assuming the payload
    decrypts to `FSB5`.

Modules, one file each:

| file | module | contents |
|---|---|---|
| `bank_types.dfy` | `BankTypes` | bytes, `Option`, `Result`, the refusal reasons, the .NET array size limit, the `(byte)` cast of a `char` |
| `search.dfy` | `ByteSearch` | `FindInArray` as the nested loop it is, and its reference `FirstMatch` |
| `nibble.dfy` | `NibbleReverse` | the nibble table, the byte permutation `Rev`, and its identification with 8-bit bit reversal |
| `cipher.dfy` | `Cipher` | payload decryption and encryption, the round trips, key guessing |
| `locator.dfy` | `Locator` | the header, marker, size and padding checks, with C#'s `int`/`uint` arithmetic written out |
| `decryptor.dfy` | `Decryptor` | the whole per-file pipeline as a function (`ProcessBank`) and as the program runs it (`DecryptBankFile`) |
| `bank_facts.dfy` | `BankFacts` | whole-file theorems about bank files built in the layout above |

Several paths end in an exception in the code, and the model reports each as
an error value of its own:

- a file shorter than four bytes makes the header span throw:
  `HeaderOutOfRange`;
- an all-zero tail makes the padding loop index past the array:
  `PaddingOutOfRange`;
- fewer than four bytes after the padding make the sanity-check span throw:
  `PayloadOutOfRange`.

The file's other refusals are early `return`s. They are `NotABank`,
`NoValidMarker` and `SizeMismatch`, the last carrying the two numbers the
message prints.

The two advisory warnings are boolean flags on the outcome, and the output
is produced either way:
- the payload already starts `FSB5` (Program.cs:116-119);
- the decrypted payload does not start `FSB5` (Program.cs:150-153).

## Model

| member | source | states |
|---|---|---|
| BankTypes.LowBytes | Program.cs:148 | Each key character becomes the byte of its `(byte)` cast, its low eight bits, and the key keeps its length. `Decryptor.CastOfXor` shows that XORing with these bytes equals the source's cast of the XOR with the whole character. |
| ByteSearch.FindInArray | Program.cs:36-52 | The nested-loop search returns exactly the reference `FirstMatch`, and a returned index is an occurrence of the term. |
| ByteSearch.FirstMatch | Program.cs:36-52 | There is no result exactly when the term is empty, longer than the data, or occurs nowhere. A result is an occurrence with no earlier occurrence. |
| ByteSearch.FirstMatchFrom | Program.cs:39-50 | Searching from a start index gives an occurrence at or after it with none in between, or none at all when nothing at or after it matches. |
| ByteSearch.FirstMatchFromIsFirst | Program.cs:39-49 | If index `i` matches and nothing between the start and `i` does, the search returns `i`. |
| NibbleReverse.TableReversesNibbles | Program.cs:6-12 | Each entry of `fourbitreverse` is the bit reversal of its 4-bit index and is below 16. |
| NibbleReverse.RevIsBitReversal | Program.cs:147 | The table lookup on both nibbles plus the nibble swap is exactly 8-bit bit reversal, checked against an independent bit-by-bit definition. |
| NibbleReverse.RevInvolution | Program.cs:147 | The byte permutation undoes itself. |
| NibbleReverse.RevXor | Program.cs:122-126 | The permutation distributes over XOR. |
| NibbleReverse.RevZero | Program.cs:147 | Only the zero byte permutes to zero. |
| Cipher.ExpectedFormatSpelling | Program.cs:20-23 | The four expected payload bytes are the character codes of "FSB5". |
| Cipher.Decrypt | Program.cs:144-149 | Payload byte `i` decrypts to its permutation XORed with key byte `i mod |key|`, and the length is kept. |
| Cipher.Encrypt | Program.cs:122-126 | Encryption as the source comment describes it: XOR with the cyclic key first, then the permutation. |
| Cipher.DecryptEncrypt | Program.cs:122-149 | Decrypting an encrypted payload with the same non-empty key restores it. |
| Cipher.EncryptDecrypt | Program.cs:122-149 | Every payload is the encryption of its decryption, so decryption loses nothing. |
| Cipher.DecryptTwice | Program.cs:144-149 | Decrypting twice XORs each byte with its key byte and that key byte's reversal, so in general it is not the identity. |
| Cipher.DecryptTwiceCounterexample | Program.cs:144-149 | With the one-byte key "A", decrypting the byte 0 twice gives 0xC3, not 0. |
| Cipher.GuessKeyPrefix | Program.cs:128-138 | The four guessed key bytes are those under which the first four payload bytes decrypt to "FSB5". |
| Cipher.GuessUnique | Program.cs:128-138 | The payload decrypts to "FSB5" under a key exactly when the key's cyclic first four bytes are the guessed ones. |
| Cipher.GuessedKeyDecrypts | Program.cs:128-153 | The guessed bytes, used as the key, decrypt the first four payload bytes to "FSB5". |
| Cipher.GuessRecoversKey | Program.cs:128-138 | On the encryption of a plaintext starting "FSB5", the guess is the first four bytes of the cyclic key. |
| Cipher.EncryptedByteZero | Program.cs:107-111 | An encrypted byte is zero exactly when the plaintext byte equals its key byte. |
| Locator.HeaderSpelling | Program.cs:14-19 | The header bytes are the character codes of "RIFF", and the marker bytes are two zeros followed by the codes of "SND ". |
| Locator.ReadSize | Program.cs:92-97 | The size read in signed 32-bit `int` arithmetic, cast to `uint`, is exactly the little-endian value of the four bytes and below 2^32, even when the top byte's shift goes negative. |
| Locator.NoFalseSizeMatch | Program.cs:98-105 | The wrapped `uint` sum `marker + 10 + size` equals the file length exactly when the true sum does. |
| Locator.SkipZeros | Program.cs:110-112 | Gives the first non-zero byte at or after the start with only zeros before it. Gives nothing exactly when all bytes to the end are zero, the case where the loop indexes past the array. |
| Locator.CheckHeader | Program.cs:77-81 | Passes exactly when the file has at least four bytes and starts "RIFF". Otherwise the error is `HeaderOutOfRange` for a short file and `NotABank` for any other. |
| Locator.FindMarker | Program.cs:84-89 | Passes exactly when the first marker exists, is not at offset 0 and has more than 10 bytes from it to the end. It then returns the marker position. |
| Locator.CheckSize | Program.cs:92-105 | Passes exactly when marker + 10 + declared size is the file length. It then returns the declared size, and otherwise reports the declared and the actual size. |
| Locator.FindPayload | Program.cs:107-119 | Fails with `PaddingOutOfRange` exactly when the bytes after the size field are all zero. Otherwise it succeeds exactly when at least four bytes remain from the first non-zero byte, which becomes the payload offset, and fails with `PayloadOutOfRange` when fewer remain. |
| Locator.Locate | Program.cs:77-119 | Each refusal happens exactly when its check is the first to fail, and reports the right reason. A file passing the first three checks is refused only with `PaddingOutOfRange` or `PayloadOutOfRange`. If it has a non-zero byte after the size field, it is accepted exactly when four bytes remain from the first such byte, and refused with `PayloadOutOfRange` otherwise. An accepted file has the region the checks describe. |
| Locator.LocateAccepts | Program.cs:77-119 | Once header, marker and size pass, the file is accepted exactly when at least four bytes remain from the first non-zero byte after the size field. The payload then starts at that byte. |
| Decryptor.XorThenCast | Program.cs:148 | The low eight bits of a byte XORed with a 16-bit code unit are the byte XORed with the unit's low byte. |
| Decryptor.UnitLowByte | Program.cs:148 | A character whose code is the unit `hi * 256 + lo` casts to the byte `lo`. |
| Decryptor.CastOfXor | Program.cs:148 | The source's `(byte)(reversed ^ key[i])`, computed on the whole code unit, equals `reversed` XORed with the key character's cast. This is the order of operations the model uses. |
| Decryptor.KeyFromCodeUnits | Program.cs:148 | A C# key given as UTF-16 code units becomes a model key of the same length, so it has the same period. Each character's code is the unit's low byte, so the same bytes are XORed. |
| Decryptor.SurrogatePairKey | Program.cs:148 | The key U+1F600, two code units in C#, becomes a model key of period two, with character codes 0x3D and 0x00. |
| Decryptor.ByteChar | Program.cs:137 | The `(char)` cast of a byte is the character whose code is that byte, and its `(byte)` cast gives the byte back. |
| Decryptor.GuessedKeyString | Program.cs:131-139 | The four printed characters have as codes exactly the guessed key bytes, all below 256, and cast back to them. |
| Decryptor.DecryptRegion | Program.cs:143-149 | Bytes before the offset and after the region are kept, and the region is decrypted from key phase 0. |
| Decryptor.DecryptLoop | Program.cs:143-149 | The in-place loop computes exactly `DecryptRegion`. |
| Decryptor.DecryptOutcome | Program.cs:143-154 | The `uint` loop bound `size - padding` reaches the end of the file. The success flag is set exactly when the decrypted payload starts "FSB5". |
| Decryptor.GuessOutcome | Program.cs:128-140 | Guess mode reports four characters whose codes are the guessed key bytes of the payload, together with the advisory flag, and produces no file contents. |
| Decryptor.ModeOutcome | Program.cs:128-155 | The selected mode decides which kind of outcome is produced. |
| Decryptor.ProcessBank | Program.cs:62-156 | A file fails exactly when the locator refuses it, with the locator's reason. Otherwise the outcome is that of the selected mode on the located region. |
| Decryptor.SkipPadding | Program.cs:110-112 | The byte-by-byte padding loop stops at the first non-zero byte after the start. It reaches the end of the file exactly when only zeros follow, which is where the source loop indexes past the array. |
| Decryptor.FindPayloadRegion | Program.cs:107-119 | The padding loop followed by the four-byte span at the payload offset computes exactly `FindPayload`. |
| Decryptor.LocateRegion | Program.cs:77-119 | The header test, the nested-loop marker search, the size check through `CheckSize` and the padding loop together compute exactly `Locate`. |
| Decryptor.RunMode | Program.cs:128-155 | The mode as the program runs it, with the decryption loop, computes exactly `ModeOutcome`. |
| Decryptor.DecryptBankFile | Program.cs:62-156 | The per-file routine as the program runs it computes exactly `ProcessBank`. |
| BankFacts.MarkerFirstExactly | Program.cs:84 | The marker placed right after a prefix is the first one found exactly when no marker starts inside the prefix. |
| BankFacts.MarkerFirstAfterPrefix | Program.cs:84 | After a prefix with no two adjacent zero bytes and no trailing zero, the marker placed there is the first one found. |
| BankFacts.ZeroPairFreeHasNoEarlierMarker | Program.cs:84 | Such a prefix is one in which no marker starts. This is one sufficient case, not the general condition. |
| BankFacts.RiffChunkPrefix | Program.cs:84 | A prefix shaped like a real bank's, "RIFF", a chunk size with zero high bytes, then "FEV ", qualifies even though it holds adjacent zeros. |
| BankFacts.LocateLaidOut | Program.cs:77-119 | On a file with a header, first marker, consistent size field, zero padding and non-zero first payload byte, the locator returns exactly that marker, size, padding and offset. |
| BankFacts.LocateBuiltBank | Program.cs:77-119 | A bank file assembled from a "RIFF" prefix in which no marker starts, then the marker, size field, padding and payload, is located exactly as assembled when the payload has at least four bytes and its first byte is not zero. |
| BankFacts.DecryptModeResult | Program.cs:143-153 | Decrypt mode on an accepted file keeps everything before the payload and decrypts the payload to the end. It flags success exactly when the result starts "FSB5". |
| BankFacts.DecryptsBuiltBank | Program.cs:62-156 | Decrypting a bank file encrypted under the same key, with a plaintext at least four bytes long, gives back the plaintext file, with success flagged exactly when the plaintext starts "FSB5". This holds for any "RIFF" prefix in which no marker starts, whenever the key's first byte differs from the plaintext's first byte. |
| BankFacts.GuessesBuiltBank | Program.cs:128-139 | Guess mode on an encrypted bank file whose plaintext starts "FSB5" prints four characters whose codes are the first four bytes of the cyclic key. This holds for any "RIFF" prefix in which no marker starts, whenever the key's first byte is not 'F'. |
| BankFacts.KeyMatchingFirstByteMisplacesPayload | Program.cs:107-112 | For any "RIFF" prefix in which no marker starts, when the key's first byte equals the plaintext's first byte, the locator, if it accepts the file at all, places the payload strictly after its true start: the first encrypted byte is zero and is taken for padding. |
| BankFacts.GuessThenDecrypt | Program.cs:128-153 | Decrypting with the guessed four-character key always passes the "FSB5" check. |
| BankFacts.AllZeroIsNotABank | Program.cs:77-81 | A file of four or more zero bytes is refused as not a bank. |
| BankFacts.HeaderWithoutMarker | Program.cs:84-89 | "RIFF" followed only by zeros is refused for want of a marker. |
| BankFacts.SizeMismatchExample | Program.cs:98-105 | A marker at 16 declaring 8 bytes with 6 present is refused, reporting 8 and 6. |

## Left out

- `Main` and its argument parsing, the global configuration fields, `DebugLog` and all console output are left out. The mode and key are parameters, and `Decryptor.ValidMode` states the one check `Main` makes for this core (Program.cs:234-238): a key is needed unless guessing.
- `CheckPathForBanks`, `WriteDecryptedBankFile`, `File.ReadAllBytes` and directory handling are left out, because they are file-system I/O. The model takes the file's bytes and returns the bytes that would be written.
- A failed file read (Program.cs:67-75) is left out; it is I/O.
- Locator.Locate: requires the file to be no longer than the largest .NET byte array (`MaxArrayLength`), and so do the members built on it. `File.ReadAllBytes` cannot return a longer one. Below that length no `int` index or sum of the locator can overflow, and the one `uint` sum that can wrap (Program.cs:98) is modelled.
- The key of `Decryptor.Mode` is a Dafny string with one character per UTF-16 code unit of the C# key, not the key's Unicode characters. A C# `char` is a code unit, while a Dafny `char` is a Unicode scalar value, so a character outside the Basic Multilingual Plane is two C# chars and changes the key's period. `KeyFromCodeUnits` builds the model key from the code units, keeping their number and low bytes, which is all the decryptor reads: `Decryptor.CastOfXor` shows the cast of the XOR with the whole unit keeps only the low byte. Lone surrogates have no Dafny `char`, which is why the character carries the low byte rather than the unit itself.
- An exception at any point ends the C# program, so later files are not processed. The model reports the exception as an error for the one file; what happens to other files belongs to the left-out directory loop.
- Decryption in place is modelled on an immutable sequence. The loop method returns the new contents instead of mutating an array.
