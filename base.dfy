/** Shared vocabulary: optional values, results, bytes and string predicates. */
module Base {

  datatype Option<+T> = None | Some(value: T)

  datatype Result<+T, +E> = Success(value: T) | Failure(error: E)

  /** One octet, as Rust's u8. */
  type byte = b: int | 0 <= b < 256

  type Bytes = seq<byte>

  /** The lower-case hexadecimal alphabet that digest encoders produce. */
  predicate IsHexDigit(c: char) {
    '0' <= c <= '9' || 'a' <= c <= 'f'
  }

  predicate IsHex(s: string) {
    forall i :: 0 <= i < |s| ==> IsHexDigit(s[i])
  }

  type HexString = s: string | IsHex(s)

  /** A run of n zero digits; the witness of the fixed-length digest types. */
  function Zeros(n: nat): (s: string)
    ensures |s| == n && IsHex(s)
  {
    seq(n, _ => '0')
  }

  /** Hex encoding of a SHA-1 digest (20 bytes). */
  type Sha1Hex = s: HexString | |s| == 40
    witness Zeros(40)

  /** Hex encoding of a SHA-512 digest (64 bytes). */
  type Sha512Hex = s: HexString | |s| == 128
    witness Zeros(128)

  predicate StartsWith(s: string, prefix: string) {
    |prefix| <= |s| && s[..|prefix|] == prefix
  }

  predicate EndsWith(s: string, suffix: string) {
    |suffix| <= |s| && s[|s| - |suffix|..] == suffix
  }
}
