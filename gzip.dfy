/** Gzip decompression into a buffer sized from the stream's footer. */
module Gzip {
  import opened Base

  /** The trailer field that records the uncompressed length modulo 2^32
      (field ISIZE, section 2.3.1 of RFC 1952) is the last four bytes. */
  const FooterSize: nat := 4

  const TwoTo32: nat := 0x1_0000_0000

  /** The little-endian u32 held by the last four bytes of the stream. */
  function Isize(gz: Bytes): (n: nat)
    requires |gz| >= FooterSize
    ensures n < TwoTo32
  {
    var k := |gz| - FooterSize;
    (gz[k] as int) + 256 * ((gz[k + 1] as int) + 256 * ((gz[k + 2] as int) + 256 * (gz[k + 3] as int)))
  }

  /** Four little-endian bytes of a u32, least significant first. */
  function LittleEndian32(n: nat): (b: Bytes)
    requires n < TwoTo32
    ensures |b| == 4
  {
    [n % 256, n / 256 % 256, n / 65536 % 256, n / 16777216]
  }

  /** The byte weights of the footer are 1, 2^8, 2^16 and 2^24. */
  lemma IsizeWeights(gz: Bytes)
    requires |gz| >= FooterSize
    ensures var k := |gz| - 4;
      Isize(gz) == (gz[k] as int) + 256 * (gz[k + 1] as int) + 65536 * (gz[k + 2] as int) + 16777216 * (gz[k + 3] as int)
  {
  }

  /** Reading the footer undoes writing it: every u32 survives the trip,
      whatever bytes precede it. */
  lemma IsizeOfFooter(body: Bytes, n: nat)
    requires n < TwoTo32
    ensures Isize(body + LittleEndian32(n)) == n
  {
    var gz := body + LittleEndian32(n);
    var k := |gz| - FooterSize;
    assert gz[k..] == LittleEndian32(n);
    var q := n / 256;
    var r := q / 256;
    assert n / 65536 == r;
    assert n / 16777216 == r / 256;
    assert r == r % 256 + 256 * (r / 256);
    assert q == q % 256 + 256 * r;
    assert n == n % 256 + 256 * q;
  }

  /** Writing the decoded footer gives back its four bytes. */
  lemma FooterOfIsize(gz: Bytes)
    requires |gz| >= FooterSize
    ensures LittleEndian32(Isize(gz)) == gz[|gz| - FooterSize..]
  {
    var k := |gz| - FooterSize;
    var n := Isize(gz);
    var inner := (gz[k + 2] as int) + 256 * (gz[k + 3] as int);
    var mid := (gz[k + 1] as int) + 256 * inner;
    assert n / 256 == mid && n % 256 == (gz[k] as int);
    assert mid / 256 == inner && mid % 256 == (gz[k + 1] as int);
    assert inner / 256 == (gz[k + 3] as int) && inner % 256 == (gz[k + 2] as int);
    assert n / 65536 == mid / 256;
    assert n / 16777216 == inner / 256;
  }

  /** The decompression engine, given as the bytes a gzip member decodes to,
      or None when the stream is malformed. */
  type Inflate = Bytes -> Option<Bytes>

  datatype DecompressError =
    | FooterUnderflow   // fewer than four bytes: the footer offset underflows
    | EngineFailed      // the engine reported bad data or a size mismatch

  /** What decompression yields: the decoded member when the stream is long
      enough to hold a footer and decodes to exactly ISIZE bytes. */
  function Gunzip(inflate: Inflate, gz: Bytes): (r: Result<Bytes, DecompressError>)
    ensures |gz| < FooterSize <==> r == Failure(FooterUnderflow)
    ensures r.Success? <==> |gz| >= FooterSize && inflate(gz).Some? && |inflate(gz).value| == Isize(gz)
    ensures r.Success? ==> |r.value| == Isize(gz) && inflate(gz) == Some(r.value)
  {
    if |gz| < FooterSize then Failure(FooterUnderflow)
    else match inflate(gz)
      case Some(content) =>
        if |content| == Isize(gz) then Success(content) else Failure(EngineFailed)
      case None => Failure(EngineFailed)
  }

  /** The engine filling a preallocated buffer in place: it succeeds only
      when the decoded member fits the buffer exactly, and then the buffer
      holds the decoded bytes. */
  method DecompressInto(inflate: Inflate, gz: Bytes, outbuf: array<byte>) returns (ok: bool)
    modifies outbuf
    ensures ok <==> inflate(gz).Some? && |inflate(gz).value| == outbuf.Length
    ensures ok ==> outbuf[..] == inflate(gz).value
  {
    match inflate(gz)
    case None =>
      ok := false;
    case Some(content) =>
      ok := |content| == outbuf.Length;
      if ok {
        forall i | 0 <= i < outbuf.Length {
          outbuf[i] := content[i];
        }
      }
  }

  /** Reads ISIZE from the footer, allocates a zeroed buffer of exactly
      that many bytes and has the engine fill it. */
  method DecompressGzip(inflate: Inflate, gz: Bytes) returns (r: Result<Bytes, DecompressError>)
    ensures r == Gunzip(inflate, gz)
    ensures r.Success? ==> |gz| >= FooterSize && |r.value| == Isize(gz)
  {
    if |gz| < FooterSize {
      return Failure(FooterUnderflow);
    }
    var isize := Isize(gz);
    var outbuf := new byte[isize];
    var ok := DecompressInto(inflate, gz, outbuf);
    if !ok {
      return Failure(EngineFailed);
    }
    return Success(outbuf[..]);
  }
}
