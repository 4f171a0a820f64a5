# tarball-fetcher-rs, modelled in Dafny

The library fetches one package tarball and stores it in a pnpm-style
content-addressable store. It downloads the archive and checks it against
an expected integrity string. Only then does it gunzip the archive and
walk its tar entries. Each entry's bytes are written under a path derived
from their SHA-512 digest, unless something is already stored there. The
library records a map from each entry's path, without the archive's root
directory, to that object path. It writes this map as the package index
under a path derived from the expected integrity, and returns it.

The model follows the library's parts:

- `ContentAddress`: `content_path_from_hex` and the three file kinds, with
  a parser that reads a content path back. The parser gives the
  round-trip and injectivity lemmas.
- `Integrity`: `verify_checksum` and `calc_hash`. SHA-1, SHA-512 and the
  SHA-512 integrity string are parameters (`Crypto`). Their result types
  carry what the digest libraries guarantee: hex digests of 40 and 128
  lower-case hex digits, and the `sha512-` tag.
- `Gzip`: the ISIZE footer decode and `decompress_gzip`. The method
  allocates an array of exactly ISIZE bytes, and the engine fills it in
  place. The engine is a parameter (`Inflate`).
- `Tarball`: `extract_tarball`, as a loop over the items of a tar reader.
  The file system is a `Store` class whose `files` map the method updates.
  The index and the resulting store are also described by functions
  (`FileMap`, `Stored`, `Extraction`), and the lemmas are about those
  functions.
- `Fetch`: the stage order of `fetch_tarball`. The download's outcome
  (`Option<Bytes>`) is an input. The tar reader and the integrity-string
  parser are parameters (`Env`). Each `unwrap` in `fetch_tarball`'s own
  body (src/lib.rs:29, 38, 39 and 41) is modelled as `Panic(stage)`, and so
  is the two-character digest slice of `content_path_from_hex`
  (src/lib.rs:181) reached from src/lib.rs:40. The `unwrap` on
  `verify_checksum` (src/lib.rs:30) cannot fail, because `calc_hash` always
  returns `Ok`. The `unwrap` calls inside `extract_tarball` are left out;
  see "## Left out". The one error the library returns as a value is
  `VerificationFailed`.

Behaviours of the code that the model keeps as written:

- On a digest mismatch the code returns a generic "verification failed"
  error. The computed digest from `verify_checksum` is dropped.
- Every tar entry is indexed, directories included. There is no
  entry-type filter.
- Every object is stored as non-executable (`NonExec`). The `Exec` kind is
  never used.
- Short gzip input and a failing engine abort the call. They do not come
  back as a typed error.
- Files are created in place, with no temporary file and rename.

One detail of the code: the SHA-1 integrity it computes is `sha1-`
followed by the hex digest, not the base64 form. So a string can verify
under SHA-1 only if it has the shape `sha1-` plus 40 hex digits
(`VerifiedShapes`).

## Model

| member | source | states |
|---|---|---|
| `ContentAddress.ContentPathFromHex` | src/lib.rs:179-192 | The path is the first two digest characters, '/', the rest of the digest, then the kind's suffix: "" for NonExec, "-exec" for Exec, "-index.json" for Index. |
| `ContentAddress.ParseContentPath` | src/lib.rs:179-192 | Inverse partner: any kind and hex digest it recovers from a string rebuild exactly that string through ContentPathFromHex. |
| `ContentAddress.ParseContentPathOfContentPath` | src/lib.rs:179-192 | Round trip: parsing the content path of any hex digest (two or more digits) of any kind gives back that kind and digest. |
| `ContentAddress.ContentPathInjective` | src/lib.rs:179-192 | For hex digests, two content paths are equal if and only if their kinds and digests are equal. |
| `ContentAddress.ContentPathKindsDistinct` | src/lib.rs:183-187 | For one digest string the three kinds give three pairwise different paths. |
| `ContentAddress.ContentPathHexDistinct` | src/lib.rs:181-189 | Different digest strings of the same length give different paths under the same kind. |
| `ContentAddress.ContentPathOfSplit` | src/lib.rs:179-192 | A digest written as two characters plus a rest lands at those characters, '/', the rest and the suffix. |
| `ContentAddress.ContentPathUnitTest` | src/lib.rs:194-211 | The three paths the unit test expects for the digest "1234567890abcdef1234567890abcdef12345678". |
| `Integrity.SelectAlgorithm` | src/lib.rs:57-61 | SHA-1 exactly when the expected string starts with "sha1", SHA-512 in every other case; no third branch. |
| `Integrity.CalcHash` | src/lib.rs:72-90 | SHA-1 yields "sha1-" followed by the 40-digit hex digest (45 characters); SHA-512 yields the sha512-tagged integrity string. |
| `Integrity.VerifyChecksum` | src/lib.rs:48-70 | Verified exactly when the computed string equals the expected one exactly; then no digest is reported, otherwise the computed string is reported and it differs from the expected one. |
| `Integrity.VerifyAcceptsOwnSha512` | src/lib.rs:57-69 | The SHA-512 integrity string of the bytes themselves gives (true, None). |
| `Integrity.VerifyAcceptsOwnSha1` | src/lib.rs:57-81 | "sha1-" plus the SHA-1 hex digest of the bytes gives (true, None). |
| `Integrity.VerifyRejectsOtherSha512` | src/lib.rs:57-69 | Bytes with a different SHA-512 integrity give (false, Some(integrity of the bytes received)). |
| `Integrity.VerifiedShapes` | src/lib.rs:57-90 | Only "sha1-" plus 40 hex digits, or a "sha512-" string, can ever verify. |
| `Gzip.Isize` | src/lib.rs:103-107 | The footer value read from the last four bytes is below 2^32. |
| `Gzip.IsizeWeights` | src/lib.rs:103-107 | ISIZE is b[n-4] + 2^8 b[n-3] + 2^16 b[n-2] + 2^24 b[n-1] (little-endian). |
| `Gzip.IsizeOfFooter` | src/lib.rs:103-107 | Any u32 written little-endian after any bytes is read back unchanged. |
| `Gzip.FooterOfIsize` | src/lib.rs:103-107 | Writing the decoded value little-endian gives back the four footer bytes. |
| `Gzip.Gunzip` | src/lib.rs:98-117 | Input shorter than four bytes fails with the footer underflow. Decompression succeeds exactly when the engine decodes the stream to ISIZE bytes, and its output is that decoded member. |
| `Gzip.DecompressInto` | src/lib.rs:109-114 | The engine fills the preallocated buffer only when the decoded member has exactly the buffer's length; the buffer then holds it. |
| `Gzip.DecompressGzip` | src/lib.rs:98-117 | Allocates exactly ISIZE bytes and returns what Gunzip specifies; a success has length ISIZE. |
| `Tarball.EntryKeyStripsRoot` | src/lib.rs:136-138 | An entry's index key is its path without the first component. |
| `Tarball.EntryKeyExample` | src/lib.rs:136-138 | "root-seg/lib/index.js" is indexed as "lib/index.js". |
| `Tarball.ObjectPathIsNonExec` | src/lib.rs:140-146 | Every object path is the store directory plus the NonExec content path of the entry's SHA-512 hex digest; Exec is never used. |
| `Tarball.FileMap` | src/lib.rs:127-163 | The index's keys are exactly the entries' stripped paths. |
| `Tarball.FileMapLastWins` | src/lib.rs:160-163 | A key maps to the object path of the last entry with that key (later insertions overwrite). |
| `Tarball.ObjectPathsMembers` | src/lib.rs:145-146 | A path is among the object paths exactly when some entry's bytes address it. |
| `Tarball.WriteIfAbsent` | src/lib.rs:147-152 | One object write adds only its path, keeps every existing file, and puts the bytes at a path that was empty. |
| `Tarball.Stored` | src/lib.rs:145-152 | Write-if-absent: existing files keep their contents; the only new paths are the entries' object paths. |
| `Tarball.StoredCreatesFirst` | src/lib.rs:147-152 | A missing object is created holding exactly the bytes of the first entry addressing it. |
| `Tarball.StoredWhenPresent` | src/lib.rs:147-152 | When every object is already present, nothing is written. |
| `Tarball.StoredIdempotent` | src/lib.rs:147-152 | A second pass over the same entries adds no content object. |
| `Tarball.ExtractionStops` | src/lib.rs:129-134 | An unreadable item after readable ones fails the extraction, with exactly the objects of the entries before it written and no index. |
| `Tarball.ExtractionIdempotent` | src/lib.rs:119-171 | Extracting again into the resulting store gives the same index and the same store; the index file is rewritten with the same map. |
| `Tarball.Store.Exists` | src/lib.rs:147 | True exactly when something is stored at the path. |
| `Tarball.Store.Write` | src/lib.rs:150-151 | Creates or replaces the file at the path and touches no other path. |
| `Tarball.ExtractTarball` | src/lib.rs:119-171 | The loop's result and the new store are those of Extraction: the objects of the entries read before the first unreadable item, write-if-absent; then, when every item was readable, the last-wins index, written at the store directory plus the location given. |
| `Fetch.VerificationGatesStore` | src/lib.rs:30-36 | Bytes that fail verification give VerificationFailed and an untouched store. |
| `Fetch.VerificationFailedIff` | src/lib.rs:29-36 | VerificationFailed is returned if and only if the downloaded bytes fail verification. |
| `Fetch.StoreUntouchedBeforeExtraction` | src/lib.rs:29-45 | Every failure other than one inside extraction leaves the store unchanged. |
| `Fetch.FetchSuccess` | src/lib.rs:29-45 | A success implies that verification passed and that decompression gave ISIZE bytes. The returned index is the index of all entries. The store gains exactly the entries' objects plus the index file, at the store directory plus the Index content path of the expected integrity's hex digest. |
| `Fetch.IndexPathIsNoObjectPath` | src/lib.rs:40-41 | The package index path never equals a content object's path. |
| `Fetch.FetchIdempotent` | src/lib.rs:24-46 | Fetching again into the store the first fetch left gives the same outcome and the same store. |
| `Fetch.FetchTarball` | src/lib.rs:24-46 | The stages run in the source's order: download, verify, decompress, parse the integrity, locate the index, extract. The outcome and the new store are those the FetchResult function defines. |

## Left out

- The HTTP request and the process-wide client (`OnceLock`) are left out, because they are network I/O. The download's outcome is an input, and a failed download is `Panic(Download)`.
- `spawn_blocking`, async/await and the napi bindings are left out. The pipeline runs as one sequential call.
- SHA-1, SHA-512, SRI formatting, base64 and the `ssri` integrity parser are uninterpreted function parameters. Their result types record only the lengths, the hex alphabet and the `sha512-` tag.
- The libdeflate engine is a function parameter that yields the decoded bytes or fails. The engine is assumed to fill the whole buffer when it succeeds. The source ignores the byte count `gzip_decompress` returns (src/lib.rs:112-114), and a success that writes fewer bytes than ISIZE is not modelled: the model treats a decoded member of any other length as a failure.
- The model does not parse tar headers. The reader is a function that yields entries (path components and bytes) or `Malformed`. A failing `entries()`, a failing entry and a failing `read_to_end` all become `Malformed`.
- `entry.path().unwrap()` and `to_str().unwrap()` panic only on non-UTF-8 paths. The model has no such case, because components are strings. Rust's path normalisation is not modelled: the components come already split, and keys are joined with '/'.
- The index file holds the map value itself, not its serde_json text.
- Directories are implicit, so `create_dir_all` is not modelled. File-system failures are left out too: the `create_dir_all(..).unwrap()` and `File::create(..).unwrap()` calls (src/lib.rs:149-150 and 167), `write_all` and `fs::write` always succeed.
- Integer widths: ISIZE is bounded by 2^32 and kept as an unbounded `nat`, which is what `as usize` gives on the 32-bit and 64-bit targets.
- Under a SHA-512 collision, the object keeps the bytes of the first entry written. The model does not check that colliding entries have equal bytes, and neither does the source.
- Several fetches running at once against one store are not modelled.
