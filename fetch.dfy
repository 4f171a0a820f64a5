/** The fetch pipeline: verify the downloaded bytes, decompress them,
    extract the archive into the store and write the package index. */
module Fetch {
  import opened Base
  import opened ContentAddress
  import opened Integrity
  import opened Gzip
  import opened Tarball

  /** The collaborators the pipeline calls and this model does not define:
      the digests, the gzip engine, the tar reader, and the integrity-string
      parser that yields the hex form of the expected digest. */
  datatype Env = Env(
    crypto: Crypto,
    inflate: Inflate,
    readTar: Bytes -> seq<TarItem>,
    integrityHex: string -> Option<HexString>)

  /** The step whose failure aborted (unwrap) the pipeline. */
  datatype Stage =
    | Download        // the HTTP request
    | Decompress      // decompress_gzip
    | ParseIntegrity  // parsing the expected integrity string
    | IndexLocation   // slicing a digest shorter than two characters
    | Extract         // extract_tarball

  /** The one error returned as such is a failed verification; every other
      failure aborts the call. */
  datatype FetchError = VerificationFailed | Panic(stage: Stage)

  /** The store location of the package index of an expected integrity. */
  function IndexPath(hex: string): (path: string)
    requires |hex| >= 2
  {
    StorePath(ContentPathFromHex(Index, hex))
  }

  /** The outcome of fetching an archive whose download gave response, and
      the store it leaves behind. */
  function FetchResult(env: Env, response: Option<Bytes>, integrity: string, files: map<string, StoreFile>)
    : (outcome: (Result<map<string, string>, FetchError>, map<string, StoreFile>))
  {
    if response.None? then (Failure(Panic(Download)), files)
    else
      var body := response.value;
      if !VerifyChecksum(env.crypto, body, integrity).0 then (Failure(VerificationFailed), files)
      else match Gunzip(env.inflate, body)
        case Failure(_) => (Failure(Panic(Decompress)), files)
        case Success(tar) =>
          match env.integrityHex(integrity)
          case None => (Failure(Panic(ParseIntegrity)), files)
          case Some(hex) =>
            if |hex| < 2 then (Failure(Panic(IndexLocation)), files)
            else
              var (extracted, after) :=
                Extraction(env.crypto.sha512Hex, ContentPathFromHex(Index, hex), env.readTar(tar), files);
              match extracted
              case Success(index) => (Success(index), after)
              case Failure(_) => (Failure(Panic(Extract)), after)
  }

  /** Verification gates everything: bytes that fail it yield the
      verification error and the store is left exactly as it was. */
  lemma VerificationGatesStore(env: Env, body: Bytes, integrity: string, files: map<string, StoreFile>)
    requires !VerifyChecksum(env.crypto, body, integrity).0
    ensures FetchResult(env, Some(body), integrity, files) == (Failure(VerificationFailed), files)
  {
  }

  /** The verification error is returned exactly when downloaded bytes fail
      verification. */
  lemma VerificationFailedIff(env: Env, response: Option<Bytes>, integrity: string, files: map<string, StoreFile>)
    ensures FetchResult(env, response, integrity, files).0 == Failure(VerificationFailed)
        <==> response.Some? && !VerifyChecksum(env.crypto, response.value, integrity).0
  {
  }

  /** Only extraction touches the store: any failure before it leaves the
      store as it was. */
  lemma StoreUntouchedBeforeExtraction(
    env: Env, response: Option<Bytes>, integrity: string, files: map<string, StoreFile>)
    ensures var (r, after) := FetchResult(env, response, integrity, files);
      r.Failure? && r.error != Panic(Extract) ==> after == files
  {
  }

  /** A successful fetch verified the bytes, decompressed them to exactly
      ISIZE bytes, returned the index of the archive's entries and stored it
      under the index path of the expected integrity's digest; the existing
      files of the store are unchanged. */
  lemma FetchSuccess(env: Env, response: Option<Bytes>, integrity: string, files: map<string, StoreFile>)
    requires FetchResult(env, response, integrity, files).0.Success?
    ensures response.Some? && VerifyChecksum(env.crypto, response.value, integrity) == (true, None)
    ensures Gunzip(env.inflate, response.value).Success?
    ensures |Gunzip(env.inflate, response.value).value| == Isize(response.value)
    ensures env.integrityHex(integrity).Some? && |env.integrityHex(integrity).value| >= 2
    ensures var (r, after) := FetchResult(env, response, integrity, files);
      var items := env.readTar(Gunzip(env.inflate, response.value).value);
      var hex := env.integrityHex(integrity).value;
      var es := WellFormedEntries(items);
      && AllWellFormed(items)
      && r.value == FileMap(env.crypto.sha512Hex, es)
      && after.Keys == files.Keys + ObjectPaths(env.crypto.sha512Hex, es) + {IndexPath(hex)}
      && after[IndexPath(hex)] == IndexFile(r.value)
      && (forall p :: p in files && p != IndexPath(hex) ==> after[p] == files[p])
  {
  }

  /** The package index never lands on a content object's path, so writing
      it cannot replace an object. */
  lemma IndexPathIsNoObjectPath(sha512Hex: Bytes -> Sha512Hex, hex: HexString, contents: Bytes)
    requires |hex| >= 2
    ensures IndexPath(hex) != ObjectPath(sha512Hex, contents)
  {
    var index := ContentPathFromHex(Index, hex);
    var obj := ContentPathFromHex(NonExec, sha512Hex(contents));
    assert StorePath(index)[|StoreDir| + 1..] == index;
    assert StorePath(obj)[|StoreDir| + 1..] == obj;
    ContentPathInjective(Index, hex, NonExec, sha512Hex(contents));
  }

  /** Fetching the same archive again, into the store the first fetch left,
      gives the same outcome and leaves the same store: nothing new is
      written, so a caller may simply retry. */
  lemma FetchIdempotent(env: Env, response: Option<Bytes>, integrity: string, files: map<string, StoreFile>)
    ensures var once := FetchResult(env, response, integrity, files);
      FetchResult(env, response, integrity, once.1) == once
  {
    if response.Some? && VerifyChecksum(env.crypto, response.value, integrity).0 {
      var body := response.value;
      if Gunzip(env.inflate, body).Success? {
        var tar := Gunzip(env.inflate, body).value;
        if env.integrityHex(integrity).Some? && |env.integrityHex(integrity).value| >= 2 {
          var hex := env.integrityHex(integrity).value;
          ExtractionIdempotent(env.crypto.sha512Hex, ContentPathFromHex(Index, hex), env.readTar(tar), files);
        }
      }
    }
  }

  /** fetch_tarball with the download's outcome as input: verify, then
      decompress, find the index location, and extract into the store. */
  method FetchTarball(env: Env, store: Store, response: Option<Bytes>, integrity: string)
    returns (r: Result<map<string, string>, FetchError>)
    modifies store
    ensures (r, store.files) == FetchResult(env, response, integrity, old(store.files))
  {
    if response.None? {
      return Failure(Panic(Download));
    }
    var body := response.value;
    var (verified, _) := VerifyChecksum(env.crypto, body, integrity);
    if !verified {
      return Failure(VerificationFailed);
    }
    var decompressed := DecompressGzip(env.inflate, body);
    if decompressed.Failure? {
      return Failure(Panic(Decompress));
    }
    var parsed := env.integrityHex(integrity);
    if parsed.None? {
      return Failure(Panic(ParseIntegrity));
    }
    var hex := parsed.value;
    if |hex| < 2 {
      return Failure(Panic(IndexLocation));
    }
    var indexLocation := ContentPathFromHex(Index, hex);
    var extracted := ExtractTarball(env.crypto.sha512Hex, store, indexLocation, env.readTar(decompressed.value));
    if extracted.Failure? {
      return Failure(Panic(Extract));
    }
    return Success(extracted.value);
  }
}
