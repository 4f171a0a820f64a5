/** Tarball extraction into the content-addressable store. */
module Tarball {
  import opened Base
  import opened ContentAddress

  /** The directory, relative to the working directory, that holds the store. */
  const StoreDir: string := "pnpm-store"

  /** A path below the store directory. */
  function StorePath(relative: string): (path: string)
  {
    StoreDir + "/" + relative
  }

  /** One archive entry as the tar reader yields it: its path, split into
      components, and its bytes. */
  datatype Entry = Entry(components: seq<string>, contents: Bytes)

  /** The tar reader's stream: an entry, or a header or body it could not read. */
  datatype TarItem = Item(entry: Entry) | Malformed

  /** A file of the store: a content object or a package index. */
  datatype StoreFile = Content(bytes: Bytes) | IndexFile(index: map<string, string>)

  /** Path components joined with '/'. */
  function JoinPath(components: seq<string>): (path: string)
  {
    if |components| == 0 then ""
    else if |components| == 1 then components[0]
    else components[0] + "/" + JoinPath(components[1..])
  }

  /** The index key of an entry: its path without the first component. */
  function EntryKey(e: Entry): (key: string)
  {
    JoinPath(if |e.components| == 0 then [] else e.components[1..])
  }

  /** The synthetic root directory of a registry archive is dropped. */
  lemma EntryKeyStripsRoot(root: string, rest: seq<string>, contents: Bytes)
    ensures EntryKey(Entry([root] + rest, contents)) == JoinPath(rest)
  {
    assert ([root] + rest)[1..] == rest;
  }

  /** An entry recorded as "root-seg/lib/index.js" is indexed as "lib/index.js". */
  lemma EntryKeyExample(contents: Bytes)
    ensures EntryKey(Entry(["root-seg", "lib", "index.js"], contents)) == "lib/index.js"
  {
    EntryKeyStripsRoot("root-seg", ["lib", "index.js"], contents);
    assert ["root-seg", "lib", "index.js"][1..] == ["lib", "index.js"];
    assert ["lib", "index.js"][1..] == ["index.js"];
  }

  /** Where an entry's bytes are stored: their SHA-512 hex digest, always
      addressed as a non-executable object. */
  function ObjectPath(sha512Hex: Bytes -> Sha512Hex, contents: Bytes): (path: string)
  {
    StorePath(ContentPathFromHex(NonExec, sha512Hex(contents)))
  }

  /** Every object path reads back as the non-executable content path of the
      entry's digest: the executable kind is never used. */
  lemma ObjectPathIsNonExec(sha512Hex: Bytes -> Sha512Hex, contents: Bytes)
    ensures var p := ObjectPath(sha512Hex, contents);
      StartsWith(p, StoreDir + "/")
      && ParseContentPath(p[|StoreDir| + 1..]) == Some((NonExec, sha512Hex(contents)))
  {
    var rel := ContentPathFromHex(NonExec, sha512Hex(contents));
    assert (StoreDir + "/" + rel)[|StoreDir| + 1..] == rel;
    ParseContentPathOfContentPath(NonExec, sha512Hex(contents));
  }

  /** The entries the reader yields before its first malformed item. */
  function WellFormedEntries(items: seq<TarItem>): (es: seq<Entry>)
  {
    if items == [] then []
    else match items[0]
      case Malformed => []
      case Item(e) => [e] + WellFormedEntries(items[1..])
  }

  predicate AllWellFormed(items: seq<TarItem>)
  {
    forall j :: 0 <= j < |items| ==> items[j].Item?
  }

  /** The first i items were all read, as the entries done. */
  predicate ReadPrefix(items: seq<TarItem>, i: nat, done: seq<Entry>)
  {
    i <= |items| && |done| == i && forall j :: 0 <= j < i ==> items[j] == Item(done[j])
  }

  /** The well-formed entries of an archive whose first items were read as
      done continue with the well-formed entries of the items after them. */
  lemma {:induction false} WellFormedEntriesFrom(items: seq<TarItem>, i: nat, done: seq<Entry>)
    requires ReadPrefix(items, i, done)
    ensures WellFormedEntries(items) == done + WellFormedEntries(items[i..])
    ensures AllWellFormed(items) <==> AllWellFormed(items[i..])
  {
    if i == 0 {
      assert items[i..] == items;
    } else {
      assert ReadPrefix(items[1..], i - 1, done[1..]);
      WellFormedEntriesFrom(items[1..], i - 1, done[1..]);
      assert items[1..][i - 1..] == items[i..];
      assert done == [done[0]] + done[1..];
      assert forall j :: 1 <= j < |items| ==> items[j] == items[1..][j - 1];
    }
  }

  /** The package index built from the entries, one insertion per entry in
      order, so that a later entry with the same key replaces an earlier one.
      Its keys are exactly the entries' keys. */
  function FileMap(sha512Hex: Bytes -> Sha512Hex, es: seq<Entry>): (m: map<string, string>)
    ensures m.Keys == set j | 0 <= j < |es| :: EntryKey(es[j])
  {
    if es == [] then map[]
    else
      var prev := es[..|es| - 1];
      var last := es[|es| - 1];
      var m := FileMap(sha512Hex, prev)[EntryKey(last) := ObjectPath(sha512Hex, last.contents)];
      assert forall j :: 0 <= j < |prev| ==> prev[j] == es[j];
      m
  }

  lemma FileMapAppend(sha512Hex: Bytes -> Sha512Hex, es: seq<Entry>, e: Entry)
    ensures FileMap(sha512Hex, es + [e]) == FileMap(sha512Hex, es)[EntryKey(e) := ObjectPath(sha512Hex, e.contents)]
  {
    assert (es + [e])[..|es|] == es;
  }

  /** The position of the last entry with the given key, or -1. */
  function LastWithKey(es: seq<Entry>, key: string): (j: int)
    ensures -1 <= j < |es|
    ensures j >= 0 ==> EntryKey(es[j]) == key
    ensures forall l :: j < l < |es| ==> EntryKey(es[l]) != key
  {
    if es == [] then -1
    else if EntryKey(es[|es| - 1]) == key then |es| - 1
    else LastWithKey(es[..|es| - 1], key)
  }

  /** Last entry wins: a key is in the index exactly when some entry has it,
      and then it maps to the object path of the last such entry. */
  lemma {:induction false} FileMapLastWins(sha512Hex: Bytes -> Sha512Hex, es: seq<Entry>, key: string)
    ensures key in FileMap(sha512Hex, es) <==> LastWithKey(es, key) >= 0
    ensures key in FileMap(sha512Hex, es) ==>
      FileMap(sha512Hex, es)[key] == ObjectPath(sha512Hex, es[LastWithKey(es, key)].contents)
  {
    if es != [] && EntryKey(es[|es| - 1]) != key {
      FileMapLastWins(sha512Hex, es[..|es| - 1], key);
    }
  }

  /** The paths of the objects the entries address. */
  function ObjectPaths(sha512Hex: Bytes -> Sha512Hex, es: seq<Entry>): (paths: set<string>)
  {
    if es == [] then {}
    else ObjectPaths(sha512Hex, es[..|es| - 1]) + {ObjectPath(sha512Hex, es[|es| - 1].contents)}
  }

  /** A path is among the object paths exactly when some entry's bytes are
      stored under it. */
  lemma {:induction false} ObjectPathsMembers(sha512Hex: Bytes -> Sha512Hex, es: seq<Entry>, p: string)
    ensures p in ObjectPaths(sha512Hex, es)
        <==> exists j :: 0 <= j < |es| && p == ObjectPath(sha512Hex, es[j].contents)
  {
    if es != [] {
      var prev := es[..|es| - 1];
      ObjectPathsMembers(sha512Hex, prev, p);
      if p in ObjectPaths(sha512Hex, prev) {
        var j :| 0 <= j < |prev| && p == ObjectPath(sha512Hex, prev[j].contents);
        assert prev[j] == es[j];
      }
      if exists j :: 0 <= j < |es| && p == ObjectPath(sha512Hex, es[j].contents) {
        var j :| 0 <= j < |es| && p == ObjectPath(sha512Hex, es[j].contents);
        if j < |prev| {
          assert prev[j] == es[j];
        }
      }
    }
  }

  /** One object write: the bytes go to path only if nothing is there yet. */
  function WriteIfAbsent(files: map<string, StoreFile>, path: string, contents: Bytes)
    : (after: map<string, StoreFile>)
    ensures after.Keys == files.Keys + {path}
    ensures forall p :: p in files ==> after[p] == files[p]
    ensures path !in files ==> after[path] == Content(contents)
  {
    if path in files then files else files[path := Content(contents)]
  }

  /** The store after writing the entries' objects in order, each only if
      nothing is at its path yet. Existing files keep their contents and the
      only new paths are the entries' object paths. */
  function Stored(sha512Hex: Bytes -> Sha512Hex, files: map<string, StoreFile>, es: seq<Entry>)
    : (after: map<string, StoreFile>)
    ensures after.Keys == files.Keys + ObjectPaths(sha512Hex, es)
    ensures forall p :: p in files ==> after[p] == files[p]
  {
    if es == [] then files
    else
      var last := es[|es| - 1];
      WriteIfAbsent(Stored(sha512Hex, files, es[..|es| - 1]), ObjectPath(sha512Hex, last.contents), last.contents)
  }

  lemma StoredAppend(sha512Hex: Bytes -> Sha512Hex, files: map<string, StoreFile>, es: seq<Entry>, e: Entry)
    ensures Stored(sha512Hex, files, es + [e])
         == WriteIfAbsent(Stored(sha512Hex, files, es), ObjectPath(sha512Hex, e.contents), e.contents)
  {
    assert (es + [e])[..|es|] == es;
  }

  /** A path that no entry's bytes hash to is not among the object paths. */
  lemma {:induction false} ObjectPathsMissing(sha512Hex: Bytes -> Sha512Hex, es: seq<Entry>, path: string)
    requires forall l :: 0 <= l < |es| ==> ObjectPath(sha512Hex, es[l].contents) != path
    ensures path !in ObjectPaths(sha512Hex, es)
  {
    if es != [] {
      var prev := es[..|es| - 1];
      assert forall l :: 0 <= l < |prev| ==> prev[l] == es[l];
      ObjectPathsMissing(sha512Hex, prev, path);
    }
  }

  /** A missing object is created holding the bytes of the first entry that
      addresses it. */
  lemma {:induction false} StoredCreatesFirst(
    sha512Hex: Bytes -> Sha512Hex, files: map<string, StoreFile>, es: seq<Entry>, j: nat)
    requires j < |es|
    requires ObjectPath(sha512Hex, es[j].contents) !in files
    requires forall l :: 0 <= l < j ==> ObjectPath(sha512Hex, es[l].contents) != ObjectPath(sha512Hex, es[j].contents)
    ensures var path := ObjectPath(sha512Hex, es[j].contents);
      path in Stored(sha512Hex, files, es) && Stored(sha512Hex, files, es)[path] == Content(es[j].contents)
    decreases |es|, 1
  {
    var prev := es[..|es| - 1];
    if j < |prev| {
      StoredCreatesEarlier(sha512Hex, files, es, j);
    } else {
      ObjectPathsMissing(sha512Hex, prev, ObjectPath(sha512Hex, es[j].contents));
    }
  }

  /** The induction step of StoredCreatesFirst for an entry before the last. */
  lemma {:induction false} StoredCreatesEarlier(
    sha512Hex: Bytes -> Sha512Hex, files: map<string, StoreFile>, es: seq<Entry>, j: nat)
    requires j < |es| - 1
    requires ObjectPath(sha512Hex, es[j].contents) !in files
    requires forall l :: 0 <= l < j ==> ObjectPath(sha512Hex, es[l].contents) != ObjectPath(sha512Hex, es[j].contents)
    ensures var path := ObjectPath(sha512Hex, es[j].contents);
      path in Stored(sha512Hex, files, es) && Stored(sha512Hex, files, es)[path] == Content(es[j].contents)
    decreases |es|, 0
  {
    var prev := es[..|es| - 1];
    assert forall l :: 0 <= l <= j ==> prev[l] == es[l];
    StoredCreatesFirst(sha512Hex, files, prev, j);
  }

  /** Writing objects that are all present already changes nothing. */
  lemma {:induction false} StoredWhenPresent(
    sha512Hex: Bytes -> Sha512Hex, files: map<string, StoreFile>, es: seq<Entry>)
    requires ObjectPaths(sha512Hex, es) <= files.Keys
    ensures Stored(sha512Hex, files, es) == files
  {
    if es != [] {
      var prev := es[..|es| - 1];
      StoredWhenPresent(sha512Hex, files, prev);
    }
  }

  /** A second pass over the same entries writes no object. */
  lemma StoredIdempotent(sha512Hex: Bytes -> Sha512Hex, files: map<string, StoreFile>, es: seq<Entry>)
    ensures Stored(sha512Hex, Stored(sha512Hex, files, es), es) == Stored(sha512Hex, files, es)
  {
    StoredWhenPresent(sha512Hex, Stored(sha512Hex, files, es), es);
  }

  /** The result of extraction and the store it leaves: the well-formed
      entries' objects are written; when every item was readable the index
      is written under the given location and returned, otherwise the
      extraction fails with the objects written so far left in place. */
  function Extraction(
    sha512Hex: Bytes -> Sha512Hex, indexLocation: string, items: seq<TarItem>, files: map<string, StoreFile>)
    : (outcome: (Result<map<string, string>, ()>, map<string, StoreFile>))
  {
    var es := WellFormedEntries(items);
    var written := Stored(sha512Hex, files, es);
    if AllWellFormed(items) then
      var index := FileMap(sha512Hex, es);
      (Success(index), written[StorePath(indexLocation) := IndexFile(index)])
    else
      (Failure(()), written)
  }

  /** Extraction stops at the first unreadable item, with the objects of
      the entries before it written and no index. */
  lemma ExtractionStops(
    sha512Hex: Bytes -> Sha512Hex, indexLocation: string, items: seq<TarItem>, files: map<string, StoreFile>,
    i: nat, done: seq<Entry>)
    requires ReadPrefix(items, i, done) && i < |items| && items[i].Malformed?
    ensures Extraction(sha512Hex, indexLocation, items, files) == (Failure(()), Stored(sha512Hex, files, done))
  {
    WellFormedEntriesFrom(items, i, done);
    assert items[i..][0] == Malformed;
    assert done + [] == done;
  }

  /** When every item is readable, extraction writes all the objects and
      then the index of all the entries under the given location. */
  lemma ExtractionCompletes(
    sha512Hex: Bytes -> Sha512Hex, indexLocation: string, items: seq<TarItem>, files: map<string, StoreFile>,
    done: seq<Entry>)
    requires ReadPrefix(items, |items|, done)
    ensures Extraction(sha512Hex, indexLocation, items, files)
      == (Success(FileMap(sha512Hex, done)), Stored(sha512Hex, files, done)[StorePath(indexLocation) := IndexFile(FileMap(sha512Hex, done))])
  {
    WellFormedEntriesFrom(items, |items|, done);
    assert done + [] == done;
  }

  /** Extracting the same archive twice gives the same index and the same
      store as extracting it once: the second pass writes no object and
      rewrites the index file with the same map. */
  lemma ExtractionIdempotent(
    sha512Hex: Bytes -> Sha512Hex, indexLocation: string, items: seq<TarItem>, files: map<string, StoreFile>)
    ensures var once := Extraction(sha512Hex, indexLocation, items, files);
      Extraction(sha512Hex, indexLocation, items, once.1) == once
  {
    var es := WellFormedEntries(items);
    var written := Stored(sha512Hex, files, es);
    if AllWellFormed(items) {
      var ip := StorePath(indexLocation);
      var index := FileMap(sha512Hex, es);
      var after := written[ip := IndexFile(index)];
      StoredWhenPresent(sha512Hex, after, es);
      assert after[ip := IndexFile(index)] == after;
    } else {
      StoredWhenPresent(sha512Hex, written, es);
    }
  }

  /** The file system below the working directory: file paths and what they hold. */
  class Store {
    var files: map<string, StoreFile>

    constructor (files: map<string, StoreFile>)
      ensures this.files == files
    {
      this.files := files;
    }

    method Exists(path: string) returns (b: bool)
      ensures b <==> path in files
    {
      b := path in files;
    }

    /** Creates or replaces the file at path. */
    method Write(path: string, file: StoreFile)
      modifies this
      ensures files == old(files)[path := file]
    {
      files := files[path := file];
    }
  }

  /** Walks the archive, writes each entry's bytes under its digest unless
      an object is already there, records key to object path with the last
      entry winning, then writes the index under the store directory. */
  method ExtractTarball(
    sha512Hex: Bytes -> Sha512Hex, store: Store, indexLocation: string, items: seq<TarItem>)
    returns (r: Result<map<string, string>, ()>)
    modifies store
    ensures (r, store.files) == Extraction(sha512Hex, indexLocation, items, old(store.files))
  {
    var casFileMap: map<string, string> := map[];
    ghost var done: seq<Entry> := [];
    var i := 0;
    while i < |items|
      invariant ReadPrefix(items, i, done)
      invariant casFileMap == FileMap(sha512Hex, done)
      invariant store.files == Stored(sha512Hex, old(store.files), done)
    {
      if items[i].Malformed? {
        ExtractionStops(sha512Hex, indexLocation, items, old(store.files), i, done);
        return Failure(());
      }
      var entry := items[i].entry;
      var filePath := ObjectPath(sha512Hex, entry.contents);
      ghost var before := store.files;
      var present := store.Exists(filePath);
      if !present {
        store.Write(filePath, Content(entry.contents));
      }
      assert store.files == WriteIfAbsent(before, filePath, entry.contents);
      StoredAppend(sha512Hex, old(store.files), done, entry);
      FileMapAppend(sha512Hex, done, entry);
      casFileMap := casFileMap[EntryKey(entry) := filePath];
      done := done + [entry];
      i := i + 1;
    }
    ExtractionCompletes(sha512Hex, indexLocation, items, old(store.files), done);
    store.Write(StorePath(indexLocation), IndexFile(casFileMap));
    return Success(casFileMap);
  }
}
