/** Shared vocabulary of the bank decryptor: bytes, the optional and fallible
    results the locator and the search return, and the ways a bank file can be
    refused. */
module BankTypes {

  /** One byte of a bank file; C#'s `byte`. */
  type byte = bv8

  /** C#'s nullable `int?`, as returned by the marker search. */
  datatype Option<+T> = None | Some(value: T)

  /** Why a bank file produces no output. The first four are the early
      `return`s of the decryptor; the `OutOfRange` ones are the exceptions the
      C# code throws when a span or an index leaves the array. */
  datatype BankError =
    | HeaderOutOfRange          // fewer than 4 bytes: the header span throws
    | NotABank                  // the first four bytes are not "RIFF"
    | NoValidMarker             // no "\0\0SND " marker, at offset 0, or too close to the end
    | SizeMismatch(declared: nat, actual: int)  // marker + 10 + declared size is not the file length
    | PaddingOutOfRange         // the zero-padding scan runs off the end of the file
    | PayloadOutOfRange         // fewer than 4 bytes after the padding: the sanity span throws

  datatype Result<+T> = Ok(value: T) | Err(error: BankError)

  /** The largest length of a .NET byte array; `File.ReadAllBytes` never
      returns more. Every `int` computation of the decryptor stays in range
      below it. */
  const MaxArrayLength: nat := 0x7FFF_FFC7

  /** C#'s `(byte)` cast of a `char`: only the low eight bits survive. */
  function LowByte(c: char): byte
  {
    (c as int % 256) as byte
  }

  /** A C# string as the bytes the decryptor XORs with. */
  function LowBytes(s: string): (r: seq<byte>)
    ensures |r| == |s|
    ensures forall i :: 0 <= i < |s| ==> r[i] == LowByte(s[i])
  {
    seq(|s|, i requires 0 <= i < |s| => LowByte(s[i]))
  }
}
