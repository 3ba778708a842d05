/**
  Shared vocabulary of the Sigma-protocol library: bytes, the fixed label and
  challenge widths, the domain separator, and the error taxonomy.
*/
module Lib {

  type byte = x: int | 0 <= x < 256

  /** Width in bytes of a session or protocol label. */
  const LABEL_LENGTH: nat := 32

  /** Width in bytes of a Fiat-Shamir challenge. */
  const CHALLENGE_LENGTH: nat := 32

  /** The domain separator, the ASCII bytes of "zkpstd/sigma/0.1". */
  const DOMSEP: seq<byte> := AsciiBytes("zkpstd/sigma/0.1")

  type Label = s: seq<byte> | |s| == LABEL_LENGTH witness seq(LABEL_LENGTH, i => 0)

  type Challenge = s: seq<byte> | |s| == CHALLENGE_LENGTH witness seq(CHALLENGE_LENGTH, i => 0)

  predicate IsAscii(s: string) {
    forall i :: 0 <= i < |s| ==> s[i] < 128 as char
  }

  /** The byte string a Rust `b"..."` literal denotes. */
  function AsciiBytes(s: string): (r: seq<byte>)
    requires IsAscii(s)
    ensures |r| == |s|
    ensures forall i :: 0 <= i < |s| ==> r[i] == s[i] as int
  {
    seq(|s|, i requires 0 <= i < |s| => s[i] as int)
  }

  /** The domain separator byte by byte, as ASCII codes. */
  lemma DomsepBytes()
    ensures DOMSEP == [122, 107, 112, 115, 116, 100, 47, 115, 105, 103, 109, 97, 47, 48, 46, 49]
  {
  }

  /**
    Both ways a Sigma protocol can fail. `ChallengeConversionFailure` is the
    retryable one: the challenge bytes do not name a scalar of the field.
  */
  datatype SigmaError = VerificationFailed | ChallengeConversionFailure

  datatype Option<+T> = None | Some(value: T)

  datatype Result<+T> = Ok(value: T) | Err(error: SigmaError)
}
