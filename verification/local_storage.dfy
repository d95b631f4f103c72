/** The older file store (src/localStorage/LocalStorage.ts): every YAML file under the
    configured path holds an array of payloads, or an object with a single key whose
    value is that array. Entries are loaded file by file, new entries without a file
    are placed in an orphanage file when committing, and a commit rewrites or removes
    each file that holds a changed, deleted or new entry.

    The file system is a parameter: `read` stands for reading and parsing a file,
    `validate` for the configured JSON schema, `digest` for MD5, `pathIsFile` for
    `stat(path).isFile()` and `resolve` for `path.resolve`. A commit returns the file
    actions it performs instead of performing them.
 */
module LegacyStorage {
  import opened Wrappers
  import opened Json
  import opened Strings
  import opened Sorting
  import opened LocalStorageEntries
  import opened Yaml
  import Hash
  import Text
  import EntitySchemas

  // ------------------------------------------------------------- file contents

  const InvalidFormat := "Invalid local storage file format"
  const NotAnObject := "Cannot convert undefined or null to object"

  /** `normalizeLocalStorageFile(file)`: an array is the list of payloads; an object
      with exactly one key holding an array is that array. A single key holding `null`
      fails in `nonNullable` (an empty message), `null` itself fails in `Object.keys`,
      and everything else is an invalid format. */
  function Normalize(file: Value): (r: Result<seq<Value>>)
    ensures r.Success? <==> file.Arr? || (file.Obj? && |file.fields| == 1 && file.fields[0].1.Arr?)
    ensures file.Arr? ==> r == Success(file.items)
    ensures file.Obj? && |file.fields| == 1 && file.fields[0].1.Arr? ==> r == Success(file.fields[0].1.items)
    ensures Nullish(file) ==> r == Failure(NotAnObject)
    ensures file.Obj? && |file.fields| == 1 && Nullish(file.fields[0].1) ==> r == Failure("")
    ensures r.Failure? && !Nullish(file) && !(file.Obj? && |file.fields| == 1 && Nullish(file.fields[0].1)) ==>
      r == Failure(InvalidFormat)
  {
    match file
    case Arr(items) => Success(items)
    case Null => Failure(NotAnObject)
    case Undefined => Failure(NotAnObject)
    case Obj(fs) =>
      if |fs| != 1 then Failure(InvalidFormat)
      else if Nullish(fs[0].1) then Failure("")
      else if fs[0].1.Arr? then Success(fs[0].1.items)
      else Failure(InvalidFormat)
    case _ => Failure(InvalidFormat)
  }

  /** Normalising is idempotent: the normalised array, and the single-key object
      wrapping it, normalise to the same payloads. */
  lemma NormalizeIdempotent(file: Value, key: string)
    requires Normalize(file).Success?
    ensures Normalize(Arr(Normalize(file).value)) == Normalize(file)
    ensures Normalize(Obj([(key, Arr(Normalize(file).value))])) == Normalize(file)
  {
  }

  /** The payload an array item stands for. Items are objects in every file the schema
      accepts; anything else is taken as the empty payload. */
  function PayloadOf(v: Value): (p: Fields)
    ensures v.Obj? ==> p == v.fields
    ensures !v.Obj? ==> p == []
  {
    if v.Obj? then v.fields else []
  }

  /** `nonNullable` over the items: the payloads, or an empty error at the first `null`
      or `undefined` item. */
  function Payloads(items: seq<Value>): (r: Result<seq<Fields>>)
    ensures r.Success? <==> forall i :: 0 <= i < |items| ==> !Nullish(items[i])
    ensures r.Failure? ==> r.error == ""
    ensures r.Success? ==> |r.value| == |items| && forall i :: 0 <= i < |items| ==> r.value[i] == PayloadOf(items[i])
  {
    if |items| == 0 then Success([])
    else if Nullish(items[0]) then Failure("")
    else
      var rest := Payloads(items[1..]);
      assert forall i :: 1 <= i < |items| ==> items[i] == items[1..][i - 1];
      if rest.Failure? then Failure("")
      else Success([PayloadOf(items[0])] + rest.value)
  }

  // --------------------------------------------------------------------- store

  /** What reading and parsing a file gives. */
  datatype ReadOutcome = Missing | Unreadable(error: string) | Parsed(document: Value)

  /** The file system and the libraries the store calls. */
  datatype Io = Io(
    read: string -> ReadOutcome,
    validate: Value -> bool,
    digest: string -> string,
    pathIsFile: Result<bool>,
    resolve: (string, string) -> string)

  /** The store: the configured path, whether `fetch` ran, the files already read, and
      the entries in insertion order. */
  datatype LegacyStore = LegacyStore(path: string, fetched: bool, fetchedFiles: set<string>, entries: seq<LocalEntry>)

  function NewStore(path: string): (s: LegacyStore)
    ensures s.path == path && !s.fetched && s.fetchedFiles == {} && s.entries == []
  {
    LegacyStore(path, false, {}, [])
  }

  /** The entries loaded from a file: CLEAN, in the file's order, each knowing its file
      and its position there. */
  function Loaded(filePath: string, payloads: seq<Fields>): (es: seq<LocalEntry>)
    ensures |es| == |payloads|
    ensures forall i :: 0 <= i < |es| ==> es[i] == LocalEntry(Some(filePath), None, Some(i), payloads[i], LClean)
  {
    seq(|payloads|, i requires 0 <= i < |payloads| => LocalEntry(Some(filePath), None, Some(i), payloads[i], LClean))
  }

  /** `r` is `s` after reading `filePath`: the file is marked as read and entries were
      appended, every one of them a CLEAN entry of that file. */
  predicate ReadInto(s: LegacyStore, r: LegacyStore, filePath: string) {
    r.path == s.path && r.fetched == s.fetched
    && r.fetchedFiles == s.fetchedFiles + {filePath}
    && |s.entries| <= |r.entries| && r.entries[..|s.entries|] == s.entries
    && forall i :: |s.entries| <= i < |r.entries| ==> r.entries[i].filePath == Some(filePath) && r.entries[i].state == LClean
  }

  /** The document of a file that was read: when the schema accepts it, its payloads
      are appended; the file is marked as read in both cases. */
  function LoadDocument(s: LegacyStore, filePath: string, document: Value, validate: Value -> bool): (r: Result<LegacyStore>)
    ensures !validate(document) ==> r == Success(s.(fetchedFiles := s.fetchedFiles + {filePath}))
    ensures validate(document) ==>
      (r.Success? <==> Normalize(document).Success? && Payloads(Normalize(document).value).Success?)
    ensures r.Success? && validate(document) ==>
      r.value.entries == s.entries + Loaded(filePath, Payloads(Normalize(document).value).value)
    ensures r.Success? ==> ReadInto(s, r.value, filePath)
  {
    if !validate(document) then Success(s.(fetchedFiles := s.fetchedFiles + {filePath}))
    else
      var items :- Normalize(document);
      var payloads :- Payloads(items);
      var added := Loaded(filePath, payloads);
      var r := s.(entries := s.entries + added, fetchedFiles := s.fetchedFiles + {filePath});
      assert r.entries[..|s.entries|] == s.entries;
      assert forall i :: |s.entries| <= i < |r.entries| ==> r.entries[i] == added[i - |s.entries|];
      Success(r)
  }

  /** The error `readFile` rejects with for a file that does not exist. */
  function NoSuchFile(filePath: string): string {
    "ENOENT: no such file or directory, open '" + filePath + "'"
  }

  /** Reading the file cannot fail: it does not exist, or it parses, and a document
      the schema accepts normalises to items none of which is `null` or `undefined`. */
  predicate Loadable(filePath: string, io: Io) {
    match io.read(filePath)
    case Missing => true
    case Unreadable(_) => false
    case Parsed(document) =>
      !io.validate(document) || (Normalize(document).Success? && Payloads(Normalize(document).value).Success?)
  }

  /** No property of the payload, at any depth, is `null` or `undefined`, so `toYAML`
      accepts it. */
  predicate Serializable(p: Fields) {
    NoNullMembers(Obj(p))
  }

  predicate AllSerializable(es: seq<LocalEntry>) {
    forall i :: 0 <= i < |es| ==> Serializable(es[i].payload)
  }

  /** A loadable file whose payloads `toYAML` accepts. */
  predicate CleanFile(filePath: string, io: Io) {
    Loadable(filePath, io)
    && (io.read(filePath).Parsed? && io.validate(io.read(filePath).document) ==>
          forall p :: p in Payloads(Normalize(io.read(filePath).document).value).value ==> Serializable(p))
  }

  /** `#fetchFile(filePath)` as written: a file already read is skipped; otherwise it is
      read, which fails when it does not exist. */
  function FetchFileAsWritten(s: LegacyStore, filePath: string, io: Io): (r: Result<LegacyStore>)
    ensures filePath in s.fetchedFiles ==> r == Success(s)
    ensures filePath !in s.fetchedFiles && io.read(filePath).Missing? ==> r == Failure(NoSuchFile(filePath))
    ensures !io.read(filePath).Missing? ==> r == FetchFile(s, filePath, io)
  {
    if filePath in s.fetchedFiles then Success(s)
    else
      match io.read(filePath)
      case Missing => Failure(NoSuchFile(filePath))
      case Unreadable(e) => Failure(e)
      case Parsed(document) => LoadDocument(s, filePath, document, io.validate)
  }

  /** `#fetchFile(filePath)` with a file that does not exist yet read as an empty one:
      nothing is loaded and the file is marked as read. Reading a file twice loads it
      once. */
  function FetchFile(s: LegacyStore, filePath: string, io: Io): (r: Result<LegacyStore>)
    ensures filePath in s.fetchedFiles ==> r == Success(s)
    ensures filePath !in s.fetchedFiles && io.read(filePath).Missing? ==> r == Success(s.(fetchedFiles := s.fetchedFiles + {filePath}))
    ensures filePath !in s.fetchedFiles && io.read(filePath).Unreadable? ==> r == Failure(io.read(filePath).error)
    ensures filePath !in s.fetchedFiles && io.read(filePath).Parsed? ==>
      r == LoadDocument(s, filePath, io.read(filePath).document, io.validate)
    ensures r.Success? ==> r.value == s || ReadInto(s, r.value, filePath)
    ensures r.Success? ==> filePath in r.value.fetchedFiles
    ensures r.Success? <==> filePath in s.fetchedFiles || Loadable(filePath, io)
  {
    if filePath in s.fetchedFiles then Success(s)
    else
      match io.read(filePath)
      case Missing => Success(s.(fetchedFiles := s.fetchedFiles + {filePath}))
      case Unreadable(e) => Failure(e)
      case Parsed(document) => LoadDocument(s, filePath, document, io.validate)
  }

  lemma FetchFileIdempotent(s: LegacyStore, filePath: string, io: Io)
    requires FetchFile(s, filePath, io).Success?
    ensures FetchFile(FetchFile(s, filePath, io).value, filePath, io) == FetchFile(s, filePath, io)
  {
  }

  /** The files of `files`, read one after the other. */
  function FetchAll(s: LegacyStore, files: seq<string>, io: Io): (r: Result<LegacyStore>)
    ensures r.Success? ==> r.value.path == s.path && r.value.fetched == s.fetched
    ensures r.Success? ==> r.value.fetchedFiles == s.fetchedFiles + set f | f in files
    ensures r.Success? ==> |s.entries| <= |r.value.entries| && r.value.entries[..|s.entries|] == s.entries
    ensures r.Success? ==> forall i :: |s.entries| <= i < |r.value.entries| ==>
      r.value.entries[i].state == LClean && r.value.entries[i].filePath.Some? && r.value.entries[i].filePath.value in files
    ensures r.Success? <==> forall f :: f in files && f !in s.fetchedFiles ==> Loadable(f, io)
    decreases |files|
  {
    if |files| == 0 then Success(s)
    else
      FetchAllLoadable(s, files, io);
      var next :- FetchFile(s, files[0], io);
      assert next.fetchedFiles == s.fetchedFiles + {files[0]};
      var r :- FetchAll(next, files[1..], io);
      FetchAllStep(s, next, r, files);
      Success(r)
  }

  /** Every file of the list reads without an error exactly when the first one does
      and every other file not read by then does. */
  lemma FetchAllLoadable(s: LegacyStore, files: seq<string>, io: Io)
    requires |files| > 0
    ensures (forall f :: f in files && f !in s.fetchedFiles ==> Loadable(f, io)) <==>
      (files[0] in s.fetchedFiles || Loadable(files[0], io))
      && (forall f :: f in files[1..] && f !in s.fetchedFiles + {files[0]} ==> Loadable(f, io))
  {
    assert forall f :: f in files <==> f == files[0] || f in files[1..];
  }

  lemma FetchAllStep(s: LegacyStore, next: LegacyStore, r: LegacyStore, files: seq<string>)
    requires |files| > 0
    requires next == s || ReadInto(s, next, files[0])
    requires files[0] in next.fetchedFiles
    requires r.path == next.path && r.fetched == next.fetched
    requires r.fetchedFiles == next.fetchedFiles + set f | f in files[1..]
    requires |next.entries| <= |r.entries| && r.entries[..|next.entries|] == next.entries
    requires forall i :: |next.entries| <= i < |r.entries| ==>
      r.entries[i].state == LClean && r.entries[i].filePath.Some? && r.entries[i].filePath.value in files[1..]
    ensures r.path == s.path && r.fetched == s.fetched
    ensures r.fetchedFiles == s.fetchedFiles + set f | f in files
    ensures |s.entries| <= |r.entries| && r.entries[..|s.entries|] == s.entries
    ensures forall i :: |s.entries| <= i < |r.entries| ==>
      r.entries[i].state == LClean && r.entries[i].filePath.Some? && r.entries[i].filePath.value in files
  {
    assert (set f | f in files) == {files[0]} + set f | f in files[1..];
    assert next.fetchedFiles == s.fetchedFiles + {files[0]};
    assert r.entries[..|s.entries|] == next.entries[..|s.entries|];
    forall i | |s.entries| <= i < |r.entries|
      ensures r.entries[i].state == LClean && r.entries[i].filePath.Some? && r.entries[i].filePath.value in files
    {
      if i < |next.entries| {
        assert r.entries[i] == r.entries[..|next.entries|][i];
      }
    }
  }

  /** The YAML files of a listing, in order. */
  function YamlFiles(listing: seq<string>): (r: seq<string>)
    ensures forall f :: f in r <==> f in listing && Text.IsYamlFile(f)
  {
    if |listing| == 0 then []
    else
      var rest := YamlFiles(listing[1..]);
      assert forall f :: f in listing <==> f == listing[0] || f in listing[1..];
      if Text.IsYamlFile(listing[0]) then [listing[0]] + rest else rest
  }

  /** `fetch()`: the first call reads every YAML file of the listing under the
      configured path; later calls do nothing. */
  function Fetch(s: LegacyStore, listing: seq<string>, io: Io): (r: Result<LegacyStore>)
    ensures s.fetched ==> r == Success(s)
    ensures r.Success? ==> r.value.fetched && r.value.path == s.path
    ensures r.Success? && !s.fetched ==> r.value.fetchedFiles == s.fetchedFiles + set f | f in listing && Text.IsYamlFile(f)
    ensures r.Success? ==> |s.entries| <= |r.value.entries| && r.value.entries[..|s.entries|] == s.entries
    ensures !s.fetched ==>
      (r.Success? <==> forall f :: f in listing && Text.IsYamlFile(f) && f !in s.fetchedFiles ==> Loadable(f, io))
  {
    if s.fetched then Success(s)
    else
      var files := YamlFiles(listing);
      var r :- FetchAll(s, files, io);
      assert (set f | f in files) == set f | f in listing && Text.IsYamlFile(f);
      Success(r.(fetched := true))
  }

  /** Fetching happens once: after a successful fetch, fetching again, whatever the
      listing, changes nothing. */
  lemma FetchOnce(s: LegacyStore, listing: seq<string>, later: seq<string>, io: Io)
    requires Fetch(s, listing, io).Success?
    ensures Fetch(Fetch(s, listing, io).value, later, io) == Fetch(s, listing, io)
  {
  }

  /** `new(payload)`: a NEW entry with no file yet. */
  function New(s: LegacyStore, payload: Fields): (r: LegacyStore)
    ensures r.path == s.path && r.fetched == s.fetched && r.fetchedFiles == s.fetchedFiles
    ensures |r.entries| == |s.entries| + 1 && r.entries[..|s.entries|] == s.entries
    ensures var e := r.entries[|s.entries|];
      e.state == LNew && e.filePath == None && e.index == None && e.hash == None && e.payload == payload
  {
    s.(entries := s.entries + [NewLocalEntry(None, None, None, payload, None)])
  }

  // -------------------------------------------------------------------- orphans

  /** The files entries belong to, in entry order, repeats included. */
  function Paths(es: seq<LocalEntry>): (r: seq<string>)
    ensures forall f :: f in r <==> exists i :: 0 <= i < |es| && es[i].filePath == Some(f)
  {
    if |es| == 0 then []
    else
      var rest := Paths(es[1..]);
      assert forall i :: 1 <= i < |es| ==> es[i] == es[1..][i - 1];
      if es[0].filePath.Some? then [es[0].filePath.value] + rest else rest
  }

  lemma NoPaths(es: seq<LocalEntry>)
    requires forall i :: 0 <= i < |es| ==> es[i].filePath.None?
    ensures Paths(es) == []
  {
    if |es| > 0 {
      assert forall i :: 0 <= i < |es[1..]| ==> es[1..][i] == es[i + 1];
      NoPaths(es[1..]);
    }
  }

  /** `#getUsedFiles()`: the distinct files the entries belong to. */
  function UsedFiles(es: seq<LocalEntry>): (r: seq<string>)
    ensures Distinct(r)
    ensures forall f :: f in r <==> exists i :: 0 <= i < |es| && es[i].filePath == Some(f)
  {
    Uniq(Paths(es))
  }

  /** A file name matching `/(?:common|shared)/`. */
  predicate Shared(f: string) {
    Contains(f, "common") || Contains(f, "shared")
  }

  /** `files.find(...)`: the position of the first shared file, or `|files|`. */
  function FirstShared(files: seq<string>): (i: nat)
    ensures i <= |files|
    ensures i < |files| ==> Shared(files[i])
    ensures forall j :: 0 <= j < i ==> !Shared(files[j])
  {
    if |files| == 0 then 0
    else if Shared(files[0]) then 0
    else 1 + FirstShared(files[1..])
  }

  /** `#resolveOrphanagePath()`: the only file in use; otherwise the configured path
      when it is a file; otherwise the first file in use whose name mentions `common`
      or `shared`; otherwise `shared.yml` in the configured directory. */
  function ResolveOrphanagePath(s: LegacyStore, io: Io): (r: Result<string>)
    ensures var files := UsedFiles(s.entries);
      && (|files| == 1 ==> r == Success(files[0]))
      && (|files| != 1 ==> (r.Failure? <==> io.pathIsFile.Failure?))
      && (|files| != 1 && io.pathIsFile == Success(true) ==> r == Success(s.path))
      && (|files| != 1 && io.pathIsFile == Success(false) ==>
            ((r.Success? && (exists k :: 0 <= k < |files| && Shared(files[k])))
               ==> (r.value in files && Shared(r.value) && forall j :: 0 <= j < FirstIndex(files, r.value) ==> !Shared(files[j]))))
      && (|files| != 1 && io.pathIsFile == Success(false) && (forall k :: 0 <= k < |files| ==> !Shared(files[k])) ==>
            r == Success(io.resolve(s.path, "shared.yml")))
  {
    var files := UsedFiles(s.entries);
    if |files| == 1 then Success(files[0])
    else
      var isFile :- io.pathIsFile;
      if isFile then Success(s.path)
      else
        var k := FirstShared(files);
        if k < |files| then
          FirstIndexUnique(files, files[k], k);
          Success(files[k])
        else Success(io.resolve(s.path, "shared.yml"))
  }

  predicate HasOrphans(es: seq<LocalEntry>) {
    exists i :: 0 <= i < |es| && es[i].filePath.None?
  }

  /** `#eliminateOrphans()`: when some entry has no file, every such entry is given the
      orphanage file; nothing else changes. */
  function EliminateOrphans(s: LegacyStore, io: Io): (r: Result<LegacyStore>)
    ensures !HasOrphans(s.entries) ==> r == Success(s)
    ensures r.Failure? ==> HasOrphans(s.entries) && ResolveOrphanagePath(s, io).Failure?
    ensures HasOrphans(s.entries) && ResolveOrphanagePath(s, io).Failure? ==> r == Failure(ResolveOrphanagePath(s, io).error)
    ensures r.Success? ==> !HasOrphans(r.value.entries)
    ensures r.Success? ==> r.value.path == s.path && r.value.fetched == s.fetched && r.value.fetchedFiles == s.fetchedFiles
    ensures r.Success? ==> |r.value.entries| == |s.entries|
    ensures r.Success? ==> forall i :: 0 <= i < |s.entries| ==>
      r.value.entries[i] == s.entries[i].(filePath := r.value.entries[i].filePath)
      && (s.entries[i].filePath.Some? ==> r.value.entries[i] == s.entries[i])
    ensures r.Success? && HasOrphans(s.entries) ==>
      (ResolveOrphanagePath(s, io).Success?
       && forall i :: 0 <= i < |s.entries| && s.entries[i].filePath.None? ==>
            r.value.entries[i].filePath == Some(ResolveOrphanagePath(s, io).value))
  {
    if !HasOrphans(s.entries) then Success(s)
    else
      var p :- ResolveOrphanagePath(s, io);
      Success(s.(entries := seq(|s.entries|, i requires 0 <= i < |s.entries| =>
        if s.entries[i].filePath.None? then s.entries[i].(filePath := Some(p)) else s.entries[i])))
  }

  // ---------------------------------------------------------------------- commit

  predicate Pending(st: LocalState) {
    st == LDirty || st == LKilled || st == LNew
  }

  /** Some entry of the file was changed, deleted or created. */
  predicate HasWork(es: seq<LocalEntry>, filePath: string) {
    exists i :: 0 <= i < |es| && es[i].filePath == Some(filePath) && Pending(es[i].state)
  }

  /** An entry of the file that is written back: neither frozen nor deleted. */
  predicate Kept(e: LocalEntry, filePath: string) {
    e.filePath == Some(filePath) && e.state != Freezed && e.state != LKilled
  }

  function PayloadHash(digest: string -> string, e: LocalEntry): string {
    Hash.Hash(digest, Obj(e.payload))
  }

  /** Every kept entry of the file gets the hash of its payload; the other entries are
      untouched. */
  function Rehash(es: seq<LocalEntry>, filePath: string, digest: string -> string): (r: seq<LocalEntry>)
    ensures |r| == |es|
    ensures forall i :: 0 <= i < |es| ==> r[i] == es[i].(hash := r[i].hash)
    ensures forall i :: 0 <= i < |es| ==> r[i].hash == (if Kept(es[i], filePath) then Some(PayloadHash(digest, es[i])) else es[i].hash)
  {
    seq(|es|, i requires 0 <= i < |es| =>
      if Kept(es[i], filePath) then es[i].(hash := Some(PayloadHash(digest, es[i]))) else es[i])
  }

  /** The kept entries of the file, in entry order. */
  function KeptOf(es: seq<LocalEntry>, filePath: string): (r: seq<LocalEntry>)
    ensures forall e :: e in r <==> e in es && Kept(e, filePath)
    ensures |r| == 0 <==> forall i :: 0 <= i < |es| ==> !Kept(es[i], filePath)
  {
    if |es| == 0 then []
    else
      var rest := KeptOf(es[1..], filePath);
      assert forall e :: e in es <==> e == es[0] || e in es[1..];
      assert forall i :: 1 <= i < |es| ==> es[i] == es[1..][i - 1];
      if Kept(es[0], filePath) then [es[0]] + rest else rest
  }

  /** The position an entry is written at: its index in the file, new entries last. */
  function IndexKey(e: LocalEntry): int {
    if e.index.Some? then e.index.value else EntitySchemas.MaxSafeInteger
  }

  /** What is written for an entry: its payload with the `hash` property set. */
  function WrittenValue(e: LocalEntry): Value {
    Obj(Spread(e.payload, [("hash", if e.hash.Some? then Str(e.hash.value) else Undefined)]))
  }

  /** The array a file is written as: the kept entries by index, each written out. */
  function Documents(kept: seq<LocalEntry>): (docs: seq<Value>)
    ensures |docs| == |kept|
  {
    var sorted := SortBy(kept, IndexKey);
    seq(|sorted|, i requires 0 <= i < |sorted| => WrittenValue(sorted[i]))
  }

  datatype FileAction = Unlink(path: string) | Write(path: string, contents: Node)

  /** The part of `#commitFile` after the file was read: hashes are set, and the file
      is removed when nothing of it is kept, or written otherwise. */
  function CommitLoaded(s: LegacyStore, filePath: string, digest: string -> string): (r: Result<(LegacyStore, FileAction)>)
    ensures r.Success? ==> r.value.0 == s.(entries := Rehash(s.entries, filePath, digest))
    ensures r.Success? ==> r.value.1.path == filePath
    ensures r.Success? ==> (r.value.1.Unlink? <==> forall i :: 0 <= i < |s.entries| ==> !Kept(s.entries[i], filePath))
    ensures r.Failure? ==> r.error == ""
    ensures r.Success? && r.value.1.Write? ==>
      ToYaml(Arr(Documents(KeptOf(Rehash(s.entries, filePath, digest), filePath)))) == Success(r.value.1.contents)
  {
    var es := Rehash(s.entries, filePath, digest);
    var kept := KeptOf(es, filePath);
    assert forall i :: 0 <= i < |es| ==> (Kept(es[i], filePath) <==> Kept(s.entries[i], filePath));
    if |kept| == 0 then Success((s.(entries := es), Unlink(filePath)))
    else
      var node :- YamlOf(Arr(Documents(kept)));
      Success((s.(entries := es), Write(filePath, node)))
  }

  /** `toYAML`, whose only failure is a `null` or `undefined` property. */
  function YamlOf(v: Value): (r: Result<Node>)
    ensures r == ToYaml(v)
    ensures r.Failure? ==> r.error == ""
  {
    CollectEmpty(v);
    ToYaml(v)
  }

  lemma {:induction false} CollectEmpty(v: Value)
    ensures ToYaml(v).Failure? ==> ToYaml(v).error == ""
    decreases v
  {
    match v
    case Arr(items) =>
      forall i | 0 <= i < |items| ensures ToYaml(items[i]).Failure? ==> ToYaml(items[i]).error == "" {
        CollectEmpty(items[i]);
      }
      CollectErrors(seq(|items|, i requires 0 <= i < |items| => ToYaml(items[i])));
    case Obj(fs) =>
      var ks := SortStrings(Keys(fs));
      var rs := seq(|ks|, i requires 0 <= i < |ks| =>
        var j := Find(fs, ks[i]);
        if j < |fs| && !Nullish(fs[j].1) then ToYaml(fs[j].1) else Failure(""));
      forall i | 0 <= i < |ks| ensures rs[i].Failure? ==> rs[i].error == "" {
        var j := Find(fs, ks[i]);
        if j < |fs| && !Nullish(fs[j].1) {
          CollectEmpty(fs[j].1);
        }
      }
      CollectErrors(rs);
    case _ =>
  }

  /** `Collect` fails with the error of one of the results. */
  lemma {:induction false} CollectErrors<T>(rs: seq<Result<T>>)
    requires forall i :: 0 <= i < |rs| ==> rs[i].Failure? ==> rs[i].error == ""
    ensures Collect(rs).Failure? ==> Collect(rs).error == ""
    decreases |rs|
  {
    if |rs| > 0 && rs[0].Success? {
      assert forall i :: 0 <= i < |rs[1..]| ==> rs[1..][i] == rs[i + 1];
      CollectErrors(rs[1..]);
    }
  }

  /** `#commitFile(filePath)` as written: the fetch before the commit fails for a file
      that does not exist yet. */
  function CommitFileAsWritten(s: LegacyStore, filePath: string, io: Io): (r: Result<(LegacyStore, Option<FileAction>)>)
    ensures !HasWork(s.entries, filePath) ==> r == Success((s, None))
    ensures HasWork(s.entries, filePath) && filePath !in s.fetchedFiles && io.read(filePath).Missing? ==>
      r == Failure(NoSuchFile(filePath))
  {
    if !HasWork(s.entries, filePath) then Success((s, None))
    else
      var loaded :- FetchFileAsWritten(s, filePath, io);
      var done :- CommitLoaded(loaded, filePath, io.digest);
      Success((done.0, Some(done.1)))
  }

  /** `r` is `s` after committing `filePath`: entries of other files are untouched,
      entries of the file change at most their hash, and any added entry is a CLEAN
      entry of the file. */
  predicate CommittedFile(s: LegacyStore, r: LegacyStore, filePath: string) {
    r.path == s.path && r.fetched == s.fetched && s.fetchedFiles <= r.fetchedFiles
    && |s.entries| <= |r.entries|
    && (forall i :: 0 <= i < |s.entries| ==> r.entries[i] == s.entries[i].(hash := r.entries[i].hash))
    && (forall i :: 0 <= i < |s.entries| && s.entries[i].filePath != Some(filePath) ==> r.entries[i] == s.entries[i])
    && (forall i :: |s.entries| <= i < |r.entries| ==> r.entries[i].filePath == Some(filePath) && r.entries[i].state == LClean)
  }

  /** `#commitFile(filePath)`: nothing happens unless an entry of the file is DIRTY,
      KILLED or NEW; then the file is read (once), the hash of every kept entry is set,
      and the file is removed when nothing of it is kept, or rewritten otherwise. */
  function CommitFile(s: LegacyStore, filePath: string, io: Io): (r: Result<(LegacyStore, Option<FileAction>)>)
    ensures !HasWork(s.entries, filePath) ==> r == Success((s, None))
    ensures r.Success? ==> CommittedFile(s, r.value.0, filePath)
    ensures r.Success? && HasWork(s.entries, filePath) ==>
      && r.value.1.Some? && r.value.1.value.path == filePath
      && (r.value.1.value.Unlink? <==> forall i :: 0 <= i < |r.value.0.entries| ==> !Kept(r.value.0.entries[i], filePath))
      && (forall i :: 0 <= i < |r.value.0.entries| && Kept(r.value.0.entries[i], filePath) ==>
            r.value.0.entries[i].hash == Some(PayloadHash(io.digest, r.value.0.entries[i])))
    ensures r.Success? && r.value.1.Some? && r.value.1.value.Write? ==>
      ToYaml(Arr(Documents(KeptOf(r.value.0.entries, filePath)))) == Success(r.value.1.value.contents)
    ensures !io.read(filePath).Missing? ==> r == CommitFileAsWritten(s, filePath, io)
    ensures HasWork(s.entries, filePath) && filePath !in s.fetchedFiles && !Loadable(filePath, io) ==>
      r == Failure(FetchFile(s, filePath, io).error)
    ensures r.Failure? ==> FailsAt(s, filePath, io, r.error)
    ensures AllSerializable(s.entries) && Ready(s, filePath, io) ==> r.Success? && AllSerializable(r.value.0.entries)
  {
    if !HasWork(s.entries, filePath) then Success((s, None))
    else
      CommitClean(s, filePath, io);
      var loaded :- FetchFile(s, filePath, io);
      var done :- CommitLoaded(loaded, filePath, io.digest);
      CommitAfterRead(s, loaded, filePath, io.digest);
      Success((done.0, Some(done.1)))
  }

  /** Committing the file may fail with `err`: it has pending work, and `err` is the
      error of reading it for the first time, or the empty error of writing it. */
  predicate FailsAt(s: LegacyStore, filePath: string, io: Io, err: string) {
    HasWork(s.entries, filePath) && ((filePath !in s.fetchedFiles && !Loadable(filePath, io)) || err == "")
  }

  /** The file was read before, or reading it is clean. */
  predicate Ready(s: LegacyStore, filePath: string, io: Io) {
    filePath in s.fetchedFiles || CleanFile(filePath, io)
  }

  /** Reading the file and then rehashing its entries commits that file only, leaves
      the same entries kept, and gives each kept entry the hash of its payload. */
  lemma CommitAfterRead(s: LegacyStore, loaded: LegacyStore, filePath: string, digest: string -> string)
    requires loaded == s || ReadInto(s, loaded, filePath)
    ensures var es := Rehash(loaded.entries, filePath, digest);
      && CommittedFile(s, loaded.(entries := es), filePath)
      && (forall i :: 0 <= i < |es| ==> (Kept(es[i], filePath) <==> Kept(loaded.entries[i], filePath)))
      && (forall i :: 0 <= i < |es| && Kept(es[i], filePath) ==> es[i].hash == Some(PayloadHash(digest, es[i])))
  {
    var es := Rehash(loaded.entries, filePath, digest);
    assert forall i :: 0 <= i < |es| ==> es[i].payload == loaded.entries[i].payload && es[i].state == loaded.entries[i].state;
    if loaded != s {
      forall i | 0 <= i < |s.entries| ensures loaded.entries[i] == s.entries[i] {
        assert loaded.entries[..|s.entries|][i] == loaded.entries[i];
      }
    }
  }

  /** With every payload serialisable and the file clean or read before, both the
      read and the write of the file succeed, and the payloads stay serialisable. */
  lemma CommitClean(s: LegacyStore, filePath: string, io: Io)
    ensures AllSerializable(s.entries) && Ready(s, filePath, io) ==>
      && FetchFile(s, filePath, io).Success?
      && CommitLoaded(FetchFile(s, filePath, io).value, filePath, io.digest).Success?
      && AllSerializable(Rehash(FetchFile(s, filePath, io).value.entries, filePath, io.digest))
  {
    if AllSerializable(s.entries) && Ready(s, filePath, io) {
      FetchClean(s, filePath, io);
      CommitLoadedClean(FetchFile(s, filePath, io).value, filePath, io.digest);
    }
  }

  /** Reading a clean file, or one read before, keeps every payload serialisable. */
  lemma FetchClean(s: LegacyStore, filePath: string, io: Io)
    requires AllSerializable(s.entries)
    requires Ready(s, filePath, io)
    ensures FetchFile(s, filePath, io).Success? && AllSerializable(FetchFile(s, filePath, io).value.entries)
  {
    if filePath !in s.fetchedFiles && io.read(filePath).Parsed? && io.validate(io.read(filePath).document) {
      var payloads := Payloads(Normalize(io.read(filePath).document).value).value;
      LoadedClean(s.entries, filePath, payloads);
    }
  }

  /** Appending the entries loaded from serialisable payloads keeps every payload
      serialisable. */
  lemma LoadedClean(es: seq<LocalEntry>, filePath: string, payloads: seq<Fields>)
    requires AllSerializable(es)
    requires forall p :: p in payloads ==> Serializable(p)
    ensures AllSerializable(es + Loaded(filePath, payloads))
  {
    var added := Loaded(filePath, payloads);
    forall i | 0 <= i < |es + added| ensures Serializable((es + added)[i].payload) {
      if i >= |es| {
        assert (es + added)[i] == added[i - |es|];
        assert payloads[i - |es|] in payloads;
      }
    }
  }

  /** With every payload serialisable, writing the file back cannot fail, and the
      rehashed payloads stay serialisable. */
  lemma CommitLoadedClean(s: LegacyStore, filePath: string, digest: string -> string)
    requires AllSerializable(s.entries)
    ensures CommitLoaded(s, filePath, digest).Success?
    ensures AllSerializable(Rehash(s.entries, filePath, digest))
  {
    var es := Rehash(s.entries, filePath, digest);
    var kept := KeptOf(es, filePath);
    assert AllSerializable(es);
    forall e | e in kept ensures Serializable(e.payload) && e.hash.Some? {
      var i :| 0 <= i < |es| && es[i] == e;
      assert Kept(s.entries[i], filePath);
    }
    DocumentsClean(kept);
    NoNullConverts(Arr(Documents(kept)));
  }

  /** The documents of kept entries, each hashed and serialisable, have no `null` or
      `undefined` property. */
  lemma DocumentsClean(kept: seq<LocalEntry>)
    requires forall e :: e in kept ==> Serializable(e.payload) && e.hash.Some?
    ensures NoNullMembers(Arr(Documents(kept)))
  {
    var sorted := SortBy(kept, IndexKey);
    var docs := Documents(kept);
    forall i | 0 <= i < |docs| ensures NoNullMembers(docs[i]) {
      assert sorted[i] in multiset(kept);
      WrittenClean(sorted[i]);
    }
  }

  /** What is written for a hashed entry with a serialisable payload has no `null` or
      `undefined` property. */
  lemma WrittenClean(e: LocalEntry)
    requires Serializable(e.payload) && e.hash.Some?
    ensures NoNullMembers(WrittenValue(e))
  {
    var b := [("hash", Str(e.hash.value))];
    var fs := Spread(e.payload, b);
    assert b[..0] == [] && b[|b| - 1] == b[0];
    assert Spread(e.payload, []) == e.payload;
    assert fs == Put(e.payload, "hash", Str(e.hash.value));
    forall i | 0 <= i < |fs| ensures !Nullish(fs[i].1) && NoNullMembers(fs[i].1) {
      if fs[i] in e.payload {
        var j :| 0 <= j < |e.payload| && e.payload[j] == fs[i];
      }
    }
  }

  /** The commits of `files`, one after the other, with the actions they perform. */
  function CommitFiles(s: LegacyStore, files: seq<string>, io: Io): (r: Result<(LegacyStore, seq<FileAction>)>)
    ensures r.Success? ==> r.value.0.path == s.path && |s.entries| <= |r.value.0.entries|
    ensures r.Success? ==> forall i :: 0 <= i < |s.entries| ==> r.value.0.entries[i].filePath == s.entries[i].filePath
    ensures r.Success? ==> forall i :: |s.entries| <= i < |r.value.0.entries| ==> r.value.0.entries[i].filePath.Some?
    ensures r.Success? ==> forall a :: a in r.value.1 ==> a.path in files
    ensures r.Success? && Distinct(files) ==> forall f :: f in files ==> (HasWork(s.entries, f) <==> exists a :: a in r.value.1 && a.path == f)
    ensures r.Failure? ==> exists f :: f in files && FailsAt(s, f, io, r.error)
    ensures AllSerializable(s.entries) && (forall f :: f in files ==> Ready(s, f, io)) ==> r.Success?
    decreases |files|
  {
    if |files| == 0 then Success((s, []))
    else
      var first :- CommitFile(s, files[0], io);
      var later := CommitFiles(first.0, files[1..], io);
      CommitFilesCarry(s, first.0, files, io, if later.Failure? then later.error else "");
      var rest :- later;
      var actions := (if first.1.Some? then [first.1.value] else []) + rest.1;
      CommitFilesFrame(s, first.0, rest.0, files, first.1, rest.1);
      CommitFilesStep(s, first.0, files, first.1, rest.1, io.digest);
      Success((rest.0, actions))
  }

  /** What the commits of the later files keep of the store after the first carries
      back to the store before it: the path, the file of every entry, the file of
      every added entry, and actions only on files of the list. */
  lemma CommitFilesFrame(s: LegacyStore, mid: LegacyStore, last: LegacyStore, files: seq<string>,
                         action: Option<FileAction>, later: seq<FileAction>)
    requires |files| > 0 && CommittedFile(s, mid, files[0])
    requires action.Some? ==> action.value.path == files[0]
    requires last.path == mid.path && |mid.entries| <= |last.entries|
    requires forall i :: 0 <= i < |mid.entries| ==> last.entries[i].filePath == mid.entries[i].filePath
    requires forall i :: |mid.entries| <= i < |last.entries| ==> last.entries[i].filePath.Some?
    requires forall a :: a in later ==> a.path in files[1..]
    ensures last.path == s.path && |s.entries| <= |last.entries|
    ensures forall i :: 0 <= i < |s.entries| ==> last.entries[i].filePath == s.entries[i].filePath
    ensures forall i :: |s.entries| <= i < |last.entries| ==> last.entries[i].filePath.Some?
    ensures forall a :: a in (if action.Some? then [action.value] else []) + later ==> a.path in files
  {
    assert forall f :: f in files[1..] ==> f in files;
    forall i | |s.entries| <= i < |last.entries| ensures last.entries[i].filePath.Some? {
      if i < |mid.entries| {
        assert mid.entries[i].filePath == Some(files[0]);
      }
    }
  }

  lemma CommitFilesStep(s: LegacyStore, mid: LegacyStore, files: seq<string>, action: Option<FileAction>, later: seq<FileAction>, digest: string -> string)
    requires |files| > 0
    requires CommittedFile(s, mid, files[0])
    requires HasWork(s.entries, files[0]) <==> action.Some?
    requires action.Some? ==> action.value.path == files[0]
    requires forall a :: a in later ==> a.path in files[1..]
    requires Distinct(files[1..]) ==> forall f :: f in files[1..] ==> (HasWork(mid.entries, f) <==> exists a :: a in later && a.path == f)
    ensures Distinct(files) ==> forall f :: f in files ==>
      (HasWork(s.entries, f) <==> exists a :: a in (if action.Some? then [action.value] else []) + later && a.path == f)
  {
    var actions := (if action.Some? then [action.value] else []) + later;
    if Distinct(files) {
      assert Distinct(files[1..]) by {
        forall i, j | 0 <= i < j < |files[1..]| ensures files[1..][i] != files[1..][j] {
          assert files[1..][i] == files[i + 1] && files[1..][j] == files[j + 1];
        }
      }
      forall f | f in files
        ensures HasWork(s.entries, f) <==> exists a :: a in actions && a.path == f
      {
        if f == files[0] {
          assert f !in files[1..] by {
            forall j | 0 <= j < |files[1..]| ensures files[1..][j] != f {
              assert files[1..][j] == files[j + 1];
            }
          }
          if HasWork(s.entries, f) {
            assert action.value in actions;
          }
        } else {
          assert f in files[1..];
          OtherFileWork(s, mid, files[0], f);
          if exists a :: a in actions && a.path == f {
            var a :| a in actions && a.path == f;
            assert a in later;
          }
        }
      }
    }
  }

  /** What the commits of the later files promise carries back over the commit of the
      first: a failure on a later file is one on a file of the list, and clean later
      files stay clean. */
  lemma CommitFilesCarry(s: LegacyStore, mid: LegacyStore, files: seq<string>, io: Io, err: string)
    requires |files| > 0 && CommittedFile(s, mid, files[0])
    ensures (exists f :: f in files[1..] && FailsAt(mid, f, io, err)) ==> exists f :: f in files && FailsAt(s, f, io, err)
    ensures (forall f :: f in files ==> Ready(s, f, io)) ==> forall f :: f in files[1..] ==> Ready(mid, f, io)
  {
    WorkShrinks(s, mid, files[0]);
    assert forall f :: f in files[1..] ==> f in files;
  }

  /** Committing a file adds no pending work to any file. */
  lemma WorkShrinks(s: LegacyStore, mid: LegacyStore, filePath: string)
    requires CommittedFile(s, mid, filePath)
    ensures forall f :: HasWork(mid.entries, f) ==> HasWork(s.entries, f)
  {
    forall f | HasWork(mid.entries, f) ensures HasWork(s.entries, f) {
      var i :| 0 <= i < |mid.entries| && mid.entries[i].filePath == Some(f) && Pending(mid.entries[i].state);
      assert i < |s.entries|;
      assert mid.entries[i].state == s.entries[i].state && mid.entries[i].filePath == s.entries[i].filePath;
    }
  }

  /** Committing one file leaves the pending work of every other file as it was. */
  lemma OtherFileWork(s: LegacyStore, mid: LegacyStore, filePath: string, other: string)
    requires CommittedFile(s, mid, filePath) && other != filePath
    ensures HasWork(mid.entries, other) <==> HasWork(s.entries, other)
  {
    if HasWork(s.entries, other) {
      var i :| 0 <= i < |s.entries| && s.entries[i].filePath == Some(other) && Pending(s.entries[i].state);
      assert mid.entries[i] == s.entries[i];
    }
    if HasWork(mid.entries, other) {
      var i :| 0 <= i < |mid.entries| && mid.entries[i].filePath == Some(other) && Pending(mid.entries[i].state);
      assert i < |s.entries|;
      assert mid.entries[i].state == s.entries[i].state && mid.entries[i].filePath == s.entries[i].filePath;
    }
  }

  /** `commit()`: orphans are given a file, then every file in use is committed. The
      source starts the file commits together; each reads and writes only the entries
      of its own file, so committing them one after the other gives the same result.
      Afterwards no entry is without a file, and exactly the files with a changed,
      deleted or new entry are written or removed. */
  function Commit(s: LegacyStore, io: Io): (r: Result<(LegacyStore, seq<FileAction>)>)
    ensures r.Success? ==> !HasOrphans(r.value.0.entries)
    ensures r.Success? ==> EliminateOrphans(s, io).Success?
    ensures r.Success? ==> forall f ::
      (exists a :: a in r.value.1 && a.path == f) <==> HasWork(EliminateOrphans(s, io).value.entries, f)
    ensures HasOrphans(s.entries) && ResolveOrphanagePath(s, io).Failure? ==> r == Failure(ResolveOrphanagePath(s, io).error)
    ensures r.Failure? ==>
      (HasOrphans(s.entries) && ResolveOrphanagePath(s, io).Failure?)
      || (EliminateOrphans(s, io).Success? && exists f :: FailsAt(EliminateOrphans(s, io).value, f, io, r.error))
    ensures
      (EliminateOrphans(s, io).Success? && AllSerializable(s.entries)
       && forall f :: f in UsedFiles(EliminateOrphans(s, io).value.entries) ==> Ready(EliminateOrphans(s, io).value, f, io))
      ==> r.Success?
  {
    var placed :- EliminateOrphans(s, io);
    PlacedSerializable(s, placed);
    CommitInUse(placed, io)
  }

  /** The commits of every file in use: exactly the files with pending work are
      written or removed, a failure comes from one of them, and with every payload
      serialisable and every file clean or read before, nothing fails. */
  function CommitInUse(s: LegacyStore, io: Io): (r: Result<(LegacyStore, seq<FileAction>)>)
    ensures r.Success? && !HasOrphans(s.entries) ==> !HasOrphans(r.value.0.entries)
    ensures r.Success? ==> forall f :: (exists a :: a in r.value.1 && a.path == f) <==> HasWork(s.entries, f)
    ensures r.Failure? ==> exists f :: FailsAt(s, f, io, r.error)
    ensures AllSerializable(s.entries) && (forall f :: f in UsedFiles(s.entries) ==> Ready(s, f, io)) ==> r.Success?
  {
    var files := UsedFiles(s.entries);
    var r :- CommitFiles(s, files, io);
    WorkInUse(s.entries);
    NoOrphansAfter(s.entries, r.0.entries);
    Success(r)
  }

  /** Placing orphans changes no payload. */
  lemma PlacedSerializable(s: LegacyStore, placed: LegacyStore)
    requires |placed.entries| == |s.entries|
    requires forall i :: 0 <= i < |s.entries| ==> placed.entries[i] == s.entries[i].(filePath := placed.entries[i].filePath)
    ensures AllSerializable(s.entries) ==> AllSerializable(placed.entries)
  {
  }

  /** A file with pending work is a file in use. */
  lemma WorkInUse(es: seq<LocalEntry>)
    ensures forall f :: HasWork(es, f) ==> f in UsedFiles(es)
  {
    forall f | HasWork(es, f) ensures f in UsedFiles(es) {
      var i :| 0 <= i < |es| && es[i].filePath == Some(f) && Pending(es[i].state);
    }
  }

  /** Entries that keep their files, followed by entries that have one, leave no
      orphan. */
  lemma NoOrphansAfter(es: seq<LocalEntry>, later: seq<LocalEntry>)
    requires |es| <= |later|
    requires forall i :: 0 <= i < |es| ==> later[i].filePath == es[i].filePath
    requires forall i :: |es| <= i < |later| ==> later[i].filePath.Some?
    ensures !HasOrphans(es) ==> !HasOrphans(later)
  {
    if !HasOrphans(es) {
      forall i | 0 <= i < |later| ensures later[i].filePath.Some? {
        if i < |es| {
          assert later[i].filePath == es[i].filePath;
        }
      }
    }
  }

  // ------------------------------------------------------------------- finding

  /** A store whose entries are all new, under a configured directory: the orphans go
      to `shared.yml` there, which does not exist yet. The code as written fails
      reading it, while the corrected commit goes on to write it. */
  lemma MissingOrphanage(s: LegacyStore, io: Io)
    requires |s.entries| > 0
    requires forall i :: 0 <= i < |s.entries| ==> s.entries[i].filePath.None? && s.entries[i].state == LNew
    requires io.pathIsFile == Success(false)
    requires io.resolve(s.path, "shared.yml") !in s.fetchedFiles
    requires io.read(io.resolve(s.path, "shared.yml")).Missing?
    ensures EliminateOrphans(s, io).Success?
    ensures var placed := EliminateOrphans(s, io).value;
      var shared := io.resolve(s.path, "shared.yml");
      && CommitFileAsWritten(placed, shared, io) == Failure(NoSuchFile(shared))
      && var fixed := CommitFile(placed, shared, io);
         (fixed.Failure? ==> fixed.error == "")
         && (fixed.Success? ==> fixed.value.1.Some? && fixed.value.1.value.Write? && fixed.value.1.value.path == shared)
  {
    var shared := io.resolve(s.path, "shared.yml");
    OrphansGoToShared(s, io);
    MissingFileCommit(EliminateOrphans(s, io).value, shared, io, 0);
  }

  /** Orphans of a store that has no files yet are placed in `shared.yml`. */
  lemma OrphansGoToShared(s: LegacyStore, io: Io)
    requires |s.entries| > 0
    requires forall i :: 0 <= i < |s.entries| ==> s.entries[i].filePath.None? && s.entries[i].state == LNew
    requires io.pathIsFile == Success(false)
    ensures EliminateOrphans(s, io).Success?
    ensures var placed := EliminateOrphans(s, io).value;
      && |placed.entries| > 0
      && placed.entries[0].filePath == Some(io.resolve(s.path, "shared.yml"))
      && placed.entries[0].state == LNew
      && placed.fetchedFiles == s.fetchedFiles
  {
    NoPaths(s.entries);
    assert UsedFiles(s.entries) == [];
    assert HasOrphans(s.entries) by {
      assert s.entries[0].filePath.None?;
    }
  }

  /** Committing a file that was never read and does not exist, while a new entry
      belongs to it. */
  lemma MissingFileCommit(placed: LegacyStore, shared: string, io: Io, i: nat)
    requires i < |placed.entries| && placed.entries[i].filePath == Some(shared) && placed.entries[i].state == LNew
    requires shared !in placed.fetchedFiles && io.read(shared).Missing?
    ensures CommitFileAsWritten(placed, shared, io) == Failure(NoSuchFile(shared))
    ensures var fixed := CommitFile(placed, shared, io);
      (fixed.Failure? ==> fixed.error == "")
      && (fixed.Success? ==> fixed.value.1.Some? && fixed.value.1.value.Write? && fixed.value.1.value.path == shared)
  {
    assert HasWork(placed.entries, shared);
    var fixed := CommitFile(placed, shared, io);
    if fixed.Success? {
      assert Kept(fixed.value.0.entries[i], shared);
    }
  }
}
