/** Checksum verification: the algorithm is chosen from the expected
    string's prefix and the computed integrity string must equal it exactly. */
module Integrity {
  import opened Base

  /** An integrity string of the SHA-512 kind always carries this tag. */
  type Sha512Sri = s: string | StartsWith(s, "sha512-")
    witness "sha512-"

  /** The digest primitives, given as functions of the bytes hashed:
      SHA-1 as lower-case hex, SHA-512 as lower-case hex, and SHA-512 as
      the integrity string "sha512-" followed by its encoded digest. */
  datatype Crypto = Crypto(
    sha1Hex: Bytes -> Sha1Hex,
    sha512Hex: Bytes -> Sha512Hex,
    sha512Sri: Bytes -> Sha512Sri)

  /** Exactly two algorithms are supported. */
  datatype Algorithm = Sha1 | Sha512

  /** SHA-1 when the expected string starts with "sha1", SHA-512 otherwise. */
  function SelectAlgorithm(expected: string): (alg: Algorithm)
    ensures alg == Sha1 <==> StartsWith(expected, "sha1")
    ensures alg == Sha512 <==> !StartsWith(expected, "sha1")
  {
    if StartsWith(expected, "sha1") then Sha1 else Sha512
  }

  /** The integrity string of data under an algorithm: "sha1-" and the SHA-1
      hex digest, or the SHA-512 integrity string. */
  function CalcHash(crypto: Crypto, data: Bytes, alg: Algorithm): (h: string)
    ensures alg == Sha1 ==> |h| == 45 && StartsWith(h, "sha1-") && h[5..] == crypto.sha1Hex(data)
    ensures alg == Sha512 ==> StartsWith(h, "sha512-") && h == crypto.sha512Sri(data)
  {
    match alg
    case Sha1 => "sha1-" + crypto.sha1Hex(data)
    case Sha512 => crypto.sha512Sri(data)
  }

  /** Whether the response has the expected integrity, and on a mismatch the
      integrity string that was computed instead. */
  function VerifyChecksum(crypto: Crypto, response: Bytes, expected: string): (r: (bool, Option<string>))
    ensures r.0 <==> CalcHash(crypto, response, SelectAlgorithm(expected)) == expected
    ensures r.0 <==> r.1 == None
    ensures !r.0 ==> r.1 == Some(CalcHash(crypto, response, SelectAlgorithm(expected)))
    ensures !r.0 ==> r.1.value != expected
  {
    var computed := CalcHash(crypto, response, SelectAlgorithm(expected));
    if computed == expected then (true, None) else (false, Some(computed))
  }

  /** A SHA-512 integrity string never selects SHA-1: its fourth character is '5'. */
  lemma Sha512TagSelectsSha512(s: Sha512Sri)
    ensures SelectAlgorithm(s) == Sha512
  {
    assert s[3] == s[..7][3] == '5';
  }

  /** The SHA-512 integrity string of the bytes themselves is accepted. */
  lemma VerifyAcceptsOwnSha512(crypto: Crypto, response: Bytes)
    ensures VerifyChecksum(crypto, response, crypto.sha512Sri(response)) == (true, None)
  {
    Sha512TagSelectsSha512(crypto.sha512Sri(response));
  }

  /** "sha1-" followed by the SHA-1 hex digest of the bytes is accepted. */
  lemma VerifyAcceptsOwnSha1(crypto: Crypto, response: Bytes)
    ensures VerifyChecksum(crypto, response, "sha1-" + crypto.sha1Hex(response)) == (true, None)
  {
    var expected := "sha1-" + crypto.sha1Hex(response);
    assert expected[..4] == "sha1";
  }

  /** Bytes whose SHA-512 integrity differs from the expected one are
      rejected, and the integrity of the bytes actually received is reported. */
  lemma VerifyRejectsOtherSha512(crypto: Crypto, original: Bytes, received: Bytes)
    requires crypto.sha512Sri(original) != crypto.sha512Sri(received)
    ensures VerifyChecksum(crypto, received, crypto.sha512Sri(original))
         == (false, Some(crypto.sha512Sri(received)))
  {
    Sha512TagSelectsSha512(crypto.sha512Sri(original));
  }

  /** Only two shapes of expected string can ever verify: "sha1-" followed by
      exactly 40 hex digits, or a string tagged "sha512-". An expected string
      starting "sha1" without the dash, or carrying any other tag, is rejected
      whatever the bytes. */
  lemma VerifiedShapes(crypto: Crypto, response: Bytes, expected: string)
    requires VerifyChecksum(crypto, response, expected).0
    ensures (StartsWith(expected, "sha1-") && |expected| == 45 && IsHex(expected[5..]))
         || StartsWith(expected, "sha512-")
  {
    if SelectAlgorithm(expected) == Sha1 {
      assert expected[5..] == crypto.sha1Hex(response);
    }
  }
}
