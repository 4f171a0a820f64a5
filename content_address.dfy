/** Content addressing: where a digest of a given kind lives inside the store. */
module ContentAddress {
  import opened Base

  /** The three kinds of object the store holds. */
  datatype FileType = Exec | NonExec | Index

  /** The file-name suffix that tells the kinds apart. */
  function Suffix(kind: FileType): (suffix: string) {
    match kind
    case Exec => "-exec"
    case NonExec => ""
    case Index => "-index.json"
  }

  /** The sharded relative path of a digest: its first two hex characters
      name a directory, the rest of the digest plus the kind's suffix name
      the file inside it. */
  function ContentPathFromHex(kind: FileType, hex: string): (p: string)
    requires |hex| >= 2
    ensures |p| == |hex| + 1 + |Suffix(kind)|
    ensures p[..2] == hex[..2] && p[2] == '/'
    ensures p[3..|hex| + 1] == hex[2..]
    ensures p[3..] == hex[2..] + Suffix(kind)
    ensures EndsWith(p, Suffix(kind))
  {
    hex[..2] + "/" + hex[2..] + Suffix(kind)
  }

  /** The kind a file name announces by its suffix, the longest suffix
      first; a name with neither suffix is NonExec. */
  function KindOfName(name: string): (kind: FileType)
    ensures EndsWith(name, Suffix(kind))
    ensures kind == Index <==> EndsWith(name, Suffix(Index))
  {
    if EndsWith(name, Suffix(Index)) then Index
    else if EndsWith(name, Suffix(Exec)) then Exec
    else NonExec
  }

  /** Reads a content path back into its kind and digest; None when the
      string is not the content path of any hex digest. */
  function ParseContentPath(p: string): (r: Option<(FileType, HexString)>)
    ensures r.Some? ==> |r.value.1| >= 2 && ContentPathFromHex(r.value.0, r.value.1) == p
  {
    if |p| < 3 || p[2] != '/' then None
    else
      var name := p[3..];
      var kind := KindOfName(name);
      var stem := name[..|name| - |Suffix(kind)|];
      var hex := p[..2] + stem;
      if IsHex(hex) then
        ContentPathOfLayout(p, kind, stem);
        Some((kind, hex))
      else None
  }

  /** A string made of a two-character shard, '/', a stem and a kind's
      suffix is the content path of the shard and the stem together. */
  lemma ContentPathOfLayout(p: string, kind: FileType, stem: string)
    requires |p| >= 3 && p[2] == '/'
    requires EndsWith(p[3..], Suffix(kind)) && stem == p[3..][..|p| - 3 - |Suffix(kind)|]
    ensures ContentPathFromHex(kind, p[..2] + stem) == p
  {
    var name := p[3..];
    ContentPathOfSplit(kind, p[..2], stem);
    assert name == stem + Suffix(kind);
    assert p == p[..2] + "/" + name;
  }

  /** A name made of hex digits has no '-' and so ends in no non-empty suffix. */
  lemma HexEndsWithNoSuffix(name: string, kind: FileType)
    requires IsHex(name)
    requires kind != NonExec
    ensures !EndsWith(name, Suffix(kind))
  {
    var i := |name| - |Suffix(kind)|;
    if 0 <= i {
      assert name[i..][0] == name[i];
    }
  }

  /** A hex digest followed by a kind's suffix announces that kind. */
  lemma KindOfHexName(rest: string, kind: FileType)
    requires IsHex(rest)
    ensures KindOfName(rest + Suffix(kind)) == kind
  {
    var name := rest + Suffix(kind);
    match kind
    case NonExec =>
      assert name == rest;
      HexEndsWithNoSuffix(rest, Index);
      HexEndsWithNoSuffix(rest, Exec);
    case Exec =>
      assert name[|name| - 1] == 'c';
      assert name[|name| - 5..] == Suffix(Exec);
    case Index =>
      assert name[|name| - 11..] == Suffix(Index);
  }

  /** A string laid out as a content path of a hex digest parses to that
      kind and digest. */
  lemma ParseContentPathOfLayout(p: string, kind: FileType, hex: string)
    requires IsHex(hex) && |hex| >= 2
    requires |p| >= 3 && p[2] == '/' && p[..2] == hex[..2] && p[3..] == hex[2..] + Suffix(kind)
    ensures ParseContentPath(p) == Some((kind, hex))
  {
    var name := p[3..];
    KindOfHexName(hex[2..], kind);
    assert name[..|name| - |Suffix(kind)|] == hex[2..];
    assert hex[..2] + hex[2..] == hex;
  }

  /** Parsing undoes ContentPathFromHex on every hex digest and every kind. */
  lemma ParseContentPathOfContentPath(kind: FileType, hex: string)
    requires IsHex(hex) && |hex| >= 2
    ensures ParseContentPath(ContentPathFromHex(kind, hex)) == Some((kind, hex))
  {
    ParseContentPathOfLayout(ContentPathFromHex(kind, hex), kind, hex);
  }

  /** Content paths of hex digests collide only when kind and digest agree. */
  lemma ContentPathInjective(k1: FileType, h1: string, k2: FileType, h2: string)
    requires IsHex(h1) && |h1| >= 2
    requires IsHex(h2) && |h2| >= 2
    ensures ContentPathFromHex(k1, h1) == ContentPathFromHex(k2, h2) <==> k1 == k2 && h1 == h2
  {
    ParseContentPathOfContentPath(k1, h1);
    ParseContentPathOfContentPath(k2, h2);
  }

  /** For any one digest string the three kinds give three different paths. */
  lemma ContentPathKindsDistinct(hex: string)
    requires |hex| >= 2
    ensures ContentPathFromHex(Exec, hex) != ContentPathFromHex(NonExec, hex)
    ensures ContentPathFromHex(Exec, hex) != ContentPathFromHex(Index, hex)
    ensures ContentPathFromHex(NonExec, hex) != ContentPathFromHex(Index, hex)
  {
  }

  /** Digest strings of one length give different paths whenever they differ. */
  lemma ContentPathHexDistinct(kind: FileType, h1: string, h2: string)
    requires |h1| == |h2| >= 2
    requires h1 != h2
    ensures ContentPathFromHex(kind, h1) != ContentPathFromHex(kind, h2)
  {
    assert h1 == h1[..2] + h1[2..];
    assert h2 == h2[..2] + h2[2..];
  }

  /** Splitting a digest after its first two characters gives the shard. */
  lemma ContentPathOfSplit(kind: FileType, head: string, rest: string)
    requires |head| == 2
    ensures ContentPathFromHex(kind, head + rest) == head + "/" + rest + Suffix(kind)
  {
    assert (head + rest)[..2] == head;
    assert (head + rest)[2..] == rest;
  }

  /** The repository's unit test: the digest "12" + rest, with rest the
      38 characters the test uses, lands in shard "12" under each kind.
      The rest is a parameter pinned by the precondition so that the proof
      works on one concatenation instead of unfolding 40-character literals. */
  lemma ContentPathUnitTest(rest: string)
    requires rest == "34567890abcdef1234567890abcdef12345678"
    ensures ContentPathFromHex(NonExec, "12" + rest) == "12/" + rest
    ensures ContentPathFromHex(Exec, "12" + rest) == "12/" + rest + "-exec"
    ensures ContentPathFromHex(Index, "12" + rest) == "12/" + rest + "-index.json"
  {
    ContentPathOfSplit(NonExec, "12", rest);
    ContentPathOfSplit(Exec, "12", rest);
    ContentPathOfSplit(Index, "12", rest);
  }
}
