/** The YAML file store (src/localStorage/LocalStorageFile.ts): one file of YAML
    documents, one entity each, with a comment header naming the entity's type, its
    schema and the hash it had when written.

    The file system and the YAML library are parameters: reading gives the parsed
    documents, writing is the outcome a commit returns, and a written document is its
    comment and its ordered map of nodes.
 */
module LocalStorageFiles {
  import opened Wrappers
  import opened Strings
  import opened Json
  import opened Sorting
  import opened EntityTypes
  import opened EntitySchemas
  import opened SchemaRegistries
  import opened StorageEntries
  import opened EntityRegistries
  import opened CommentHeaders
  import opened Yaml
  import Hash

  /** A parsed YAML document: its value, the comment before the document and the
      comment before its contents. */
  datatype YamlDocument = YamlDocument(entity: Fields, commentBefore: Option<string>, contentsComment: Option<string>)

  /** What a document's header says: the saved hash ('' when absent), the schema path
      and the entity type. */
  datatype Header = Header(savedHash: string, schemaPath: Option<string>, savedType: Option<EntityType>)

  const Unresolved := "Can't resolve schema for entity."

  /** The document's comment, else its contents' comment. */
  function CommentOf(d: YamlDocument): (c: Option<string>)
    ensures d.commentBefore.Some? ==> c == d.commentBefore
    ensures c.None? <==> d.commentBefore.None? && d.contentsComment.None?
  {
    if d.commentBefore.Some? then d.commentBefore else d.contentsComment
  }

  /** The header of a comment: `hash` as saved, the `$schema=` path of
      `yaml-language-server`, and `type` when it names an entity type. */
  function ReadHeader(comment: Option<string>): (h: Header)
    ensures comment.None? ==> h == Header("", None, None)
    ensures comment.Some? ==> (var m := ParseAll(comment.value);
      && (h.savedHash == if "hash" in m then m["hash"] else "")
      && (h.savedType.Some? ==> "type" in m && Name(h.savedType.value) == m["type"])
      && (h.schemaPath.Some? ==> "yaml-language-server" in m))
  {
    match comment
    case None => Header("", None, None)
    case Some(c) =>
      var m := ParseAll(c);
      Header(
        if "hash" in m then m["hash"] else "",
        if "yaml-language-server" in m then SchemaPathOf(m["yaml-language-server"]) else None,
        if "type" in m then FromName(m["type"]) else None)
  }

  /** The header a commit writes reads back as what was written. */
  lemma HeaderReadsBack(writeType: bool, kind: EntityType, schemaPath: string, hash: string)
    requires Plain(schemaPath) && Plain(hash)
    ensures ReadHeader(Some(Join(HeaderLines(writeType, kind, schemaPath, hash), "\n")))
      == Header(hash, Some(schemaPath), if writeType then Some(kind) else None)
  {
    HeaderRoundTrip(writeType, kind, schemaPath, hash);
    NameRoundTrip(kind);
  }

  /** The first schema, in registration order, that validates the entity. */
  function FirstValid(schemas: seq<EntitySchema>, entity: Fields, ajv: Validator): (r: Option<EntitySchema>)
    ensures r.Some? ==> r.value in schemas && Validate(ajv, r.value, Obj(entity))
    ensures r.Some? ==> exists i :: (0 <= i < |schemas| && schemas[i] == r.value
      && forall j :: 0 <= j < i ==> !Validate(ajv, schemas[j], Obj(entity)))
    ensures r.None? <==> forall i :: 0 <= i < |schemas| ==> !Validate(ajv, schemas[i], Obj(entity))
  {
    if |schemas| == 0 then None
    else if Validate(ajv, schemas[0], Obj(entity)) then Some(schemas[0])
    else
      var r := FirstValid(schemas[1..], entity, ajv);
      assert forall i :: 1 <= i < |schemas| ==> schemas[i] == schemas[1..][i - 1];
      if r.Some? then
        var i :| 0 <= i < |schemas[1..]| && schemas[1..][i] == r.value
          && forall j :: 0 <= j < i ==> !Validate(ajv, schemas[1..][j], Obj(entity));
        assert schemas[i + 1] == r.value;
        r
      else r
  }

  /** The schema a document is checked against: the one of its saved type, else the one
      its schema path resolves to; when that lookup misses, the first schema that
      validates the entity. A header with neither type nor path resolves nothing. */
  function ChooseSchema(schemas: SchemaRegistry, h: Header, entity: Fields, ajv: Validator): (r: Result<EntitySchema>)
    ensures h.savedType.None? && h.schemaPath.None? ==> r == Failure(Unresolved)
    ensures h.savedType.Some? && GetSchema(schemas, h.savedType.value).Some? ==>
      r == Success(GetSchema(schemas, h.savedType.value).value)
    ensures h.savedType.None? && h.schemaPath.Some? && Resolve(schemas, h.schemaPath.value).Some? ==>
      r == Success(Resolve(schemas, h.schemaPath.value).value)
    ensures Looked(schemas, h) == Some(None) ==>
      (r.Success? <==> exists s :: s in AllSchemas(schemas) && Validate(ajv, s, Obj(entity)))
    ensures Looked(schemas, h) == Some(None) && r.Success? ==> Validate(ajv, r.value, Obj(entity))
    ensures r.Failure? ==> r.error == Unresolved
  {
    match Looked(schemas, h)
    case None => Failure(Unresolved)
    case Some(Some(s)) => Success(s)
    case Some(None) =>
      var found := FirstValid(AllSchemas(schemas), entity, ajv);
      if found.Some? then Success(found.value) else Failure(Unresolved)
  }

  /** The lookup the header asks for: none without type and path, else its answer. */
  function Looked(schemas: SchemaRegistry, h: Header): Option<Option<EntitySchema>> {
    if h.savedType.Some? then Some(GetSchema(schemas, h.savedType.value))
    else if h.schemaPath.Some? then Some(Resolve(schemas, h.schemaPath.value))
    else None
  }

  /** The entry a loaded document becomes: clean, with the saved hash, at its position
      in the file. */
  function LoadedEntry(file: string, kind: EntityType, entity: Fields, savedHash: string, index: nat): (e: Entry)
    ensures e.state == Clean && e.kind == kind && e.entity == entity && e.hash == Some(savedHash)
    ensures e.cookie == Cookie(Some(file), Some(index))
  {
    Entry(kind, Clean, entity, Some(savedHash), Cookie(Some(file), Some(index)), Undefined)
  }

  /** Document `i` loaded into `reg`: checked against its chosen schema, and set as a
      clean entry when that schema validates it. */
  function LoadDocument(reg: Registry, file: string, docs: seq<YamlDocument>, i: nat, ajv: Validator): (r: Result<Registry>)
    requires Valid(reg) && i < |docs|
    ensures r.Success? ==> Valid(r.value) && r.value.schemas == reg.schemas
    ensures r.Success? ==> All(r.value) == All(reg) || Grown(reg, r.value, file, docs, ajv, i)
  {
    var d := docs[i];
    var h := ReadHeader(CommentOf(d));
    var schema :- ChooseSchema(reg.schemas, h, d.entity, ajv);
    if Validate(ajv, schema, Obj(d.entity)) then
      var e := LoadedEntry(file, schema.kind, d.entity, h.savedHash, i);
      var out := Set(reg, e);
      if out.error.Some? then Failure(out.error.value)
      else
        ChosenIsRegistered(reg.schemas, h, d.entity, ajv);
        LoadedGrows(reg, file, docs, i, ajv, schema, e);
        Success(out.reg)
    else Success(reg)
  }

  lemma LoadedGrows(reg: Registry, file: string, docs: seq<YamlDocument>, i: nat, ajv: Validator,
                    schema: EntitySchema, e: Entry)
    requires Valid(reg) && i < |docs|
    requires schema in AllSchemas(reg.schemas) && Validate(ajv, schema, Obj(docs[i].entity))
    requires e == LoadedEntry(file, schema.kind, docs[i].entity, ReadHeader(CommentOf(docs[i])).savedHash, i)
    requires Set(reg, e).error.None?
    ensures Grown(reg, Set(reg, e).reg, file, docs, ajv, i)
  {
    var next := Set(reg, e).reg;
    assert All(next) == All(reg) + [e];
    assert All(next)[..|All(reg)|] == All(reg);
    assert All(next)[|All(reg)|] == e;
  }

  /** `next` holds one more entry than `reg`, loaded from document `i`. */
  predicate Grown(reg: Registry, next: Registry, file: string, docs: seq<YamlDocument>, ajv: Validator, i: nat) {
    && |All(next)| == |All(reg)| + 1 && All(next)[..|All(reg)|] == All(reg)
    && Admitted(reg.schemas, file, docs, ajv, All(next)[|All(reg)|], i)
    && All(next)[|All(reg)|].cookie.index == Some(i)
  }

  /** The documents from position `i` on, loaded in order into `reg`. */
  function LoadFrom(reg: Registry, file: string, docs: seq<YamlDocument>, i: nat, ajv: Validator): (r: Result<Registry>)
    requires Valid(reg) && i <= |docs|
    ensures r.Success? ==> Valid(r.value) && r.value.schemas == reg.schemas
    ensures r.Success? ==> |All(r.value)| >= |All(reg)| && All(r.value)[..|All(reg)|] == All(reg)
    ensures r.Success? ==> forall k :: |All(reg)| <= k < |All(r.value)| ==>
      Admitted(reg.schemas, file, docs, ajv, All(r.value)[k], i)
    ensures r.Success? ==> Increasing(All(r.value)[|All(reg)|..])
    decreases |docs| - i
  {
    if i == |docs| then Success(reg)
    else
      var one :- LoadDocument(reg, file, docs, i, ajv);
      var r := LoadFrom(one, file, docs, i + 1, ajv);
      if r.Success? && All(one) == All(reg) then
        LoadSkip(reg, one, r.value, file, docs, ajv, i);
        r
      else if r.Success? then
        LoadStep(reg, one, r.value, file, docs, ajv, i);
        r
      else r
  }

  /** A skipped document: the rest loads as if from `i`. */
  lemma LoadSkip(reg: Registry, mid: Registry, last: Registry, file: string, docs: seq<YamlDocument>, ajv: Validator, i: nat)
    requires mid.schemas == reg.schemas && All(mid) == All(reg)
    requires |All(last)| >= |All(mid)| && All(last)[..|All(mid)|] == All(mid)
    requires forall k :: |All(mid)| <= k < |All(last)| ==> Admitted(mid.schemas, file, docs, ajv, All(last)[k], i + 1)
    requires Increasing(All(last)[|All(mid)|..])
    ensures forall k :: |All(reg)| <= k < |All(last)| ==> Admitted(reg.schemas, file, docs, ajv, All(last)[k], i)
  {
    forall k | |All(reg)| <= k < |All(last)| ensures Admitted(reg.schemas, file, docs, ajv, All(last)[k], i) {
      AdmittedLater(reg.schemas, file, docs, ajv, All(last)[k], i);
    }
  }

  /** A loaded entry: clean, from document `j >= from` of this file, holding that
      document's entity and saved hash, of the type of a registered schema that
      validates it. */
  predicate Admitted(schemas: SchemaRegistry, file: string, docs: seq<YamlDocument>, ajv: Validator, e: Entry, from: nat) {
    && e.state == Clean && e.cookie.file == Some(file)
    && e.cookie.index.Some? && from <= e.cookie.index.value < |docs|
    && e.entity == docs[e.cookie.index.value].entity
    && e.hash == Some(ReadHeader(CommentOf(docs[e.cookie.index.value])).savedHash)
    && exists s :: s in AllSchemas(schemas) && s.kind == e.kind && Validate(ajv, s, Obj(e.entity))
  }

  /** Positions strictly increase: entries keep the order of their documents. */
  predicate Increasing(es: seq<Entry>) {
    forall a, b :: 0 <= a < b < |es| ==>
      es[a].cookie.index.Some? && es[b].cookie.index.Some? && es[a].cookie.index.value < es[b].cookie.index.value
  }

  /** A chosen schema is a registered one. */
  lemma ChosenIsRegistered(schemas: SchemaRegistry, h: Header, entity: Fields, ajv: Validator)
    requires ChooseSchema(schemas, h, entity, ajv).Success?
    ensures ChooseSchema(schemas, h, entity, ajv).value in AllSchemas(schemas)
  {
    var s := ChooseSchema(schemas, h, entity, ajv).value;
    var all := AllSchemas(schemas);
    match Looked(schemas, h)
    case Some(Some(x)) =>
      if h.savedType.Some? {
        var i :| 0 <= i < |schemas.entries| && schemas.entries[i] == (h.savedType.value, x);
        assert all[i] == x;
      } else {
        var i :| 0 <= i < |all| && all[i] == x && Contains(Normalize(all[i].filePath), Normalize(h.schemaPath.value))
          && forall j :: 0 <= j < i ==> !Contains(Normalize(all[j].filePath), Normalize(h.schemaPath.value));
      }
    case Some(None) =>
    case None =>
  }

  /** One loading step: the entry set first, then the rest. */
  lemma LoadStep(reg: Registry, mid: Registry, last: Registry, file: string, docs: seq<YamlDocument>, ajv: Validator,
                 i: nat)
    requires i < |docs| && mid.schemas == reg.schemas
    requires Grown(reg, mid, file, docs, ajv, i)
    requires |All(last)| >= |All(mid)| && All(last)[..|All(mid)|] == All(mid)
    requires forall k :: |All(mid)| <= k < |All(last)| ==> Admitted(mid.schemas, file, docs, ajv, All(last)[k], i + 1)
    requires Increasing(All(last)[|All(mid)|..])
    ensures |All(last)| >= |All(reg)| && All(last)[..|All(reg)|] == All(reg)
    ensures forall k :: |All(reg)| <= k < |All(last)| ==> Admitted(reg.schemas, file, docs, ajv, All(last)[k], i)
    ensures Increasing(All(last)[|All(reg)|..])
  {
    var n := |All(reg)|;
    var L, M := All(last), All(mid);
    var e := M[n];
    assert L[..n + 1] == M;
    assert L[n] == L[..n + 1][n];
    assert L[..n] == M[..n];
    forall k | n < k < |All(last)| ensures Admitted(reg.schemas, file, docs, ajv, All(last)[k], i) {
      AdmittedLater(reg.schemas, file, docs, ajv, All(last)[k], i);
    }
    var rest := All(last)[n + 1..];
    forall k | 0 <= k < |rest| ensures rest[k].cookie.index.Some? && rest[k].cookie.index.value > i {
      assert rest[k] == All(last)[n + 1 + k];
    }
    assert rest == All(last)[|All(mid)|..];
    IncreasingCons(All(last)[n..], rest, i);
  }

  lemma AdmittedLater(schemas: SchemaRegistry, file: string, docs: seq<YamlDocument>, ajv: Validator, e: Entry, i: nat)
    requires Admitted(schemas, file, docs, ajv, e, i + 1)
    ensures Admitted(schemas, file, docs, ajv, e, i)
  {
  }

  /** An entry at position `i` followed by increasing entries past `i` is increasing. */
  lemma IncreasingCons(tail: seq<Entry>, rest: seq<Entry>, i: nat)
    requires |tail| > 0 && rest == tail[1..] && tail[0].cookie.index == Some(i)
    requires forall k :: 0 <= k < |rest| ==> rest[k].cookie.index.Some? && rest[k].cookie.index.value > i
    requires Increasing(rest)
    ensures Increasing(tail)
  {
    assert forall a :: 1 <= a < |tail| ==> tail[a] == rest[a - 1];
  }

  /** The store: its file, the schemas, the registry of its entries, and whether the
      file has been read. */
  datatype FileStore = FileStore(filePath: string, registry: Registry, eof: bool, readCount: nat)

  predicate ValidStore(f: FileStore) {
    Valid(f.registry)
  }

  /** A store before its file is read. */
  function NewFileStore(filePath: string, schemas: SchemaRegistry): (f: FileStore)
    ensures ValidStore(f) && !f.eof && All(f.registry) == [] && f.registry.schemas == schemas
  {
    FileStore(filePath, EntityRegistries.EmptyRegistry(schemas), false, 0)
  }

  /** `#reindex()`: the first call reads the file and loads its documents; later calls
      do nothing. `read` is what reading the file gives: its parsed documents, or the
      read's error (a file that does not exist yet, say), which the call passes on.
      A failure leaves the file unread. */
  function Reindex(f: FileStore, read: Result<seq<YamlDocument>>, ajv: Validator): (r: Result<FileStore>)
    requires ValidStore(f)
    ensures f.eof ==> r == Success(f)
    ensures !f.eof && read.Failure? ==> r == Failure(read.error)
    ensures r.Success? ==> ValidStore(r.value) && r.value.eof && r.value.filePath == f.filePath
    ensures r.Success? ==> r.value.registry.schemas == f.registry.schemas
    ensures r.Success? ==> r.value.readCount == f.readCount + (if f.eof then 0 else 1)
    ensures r.Success? && !f.eof ==> read.Success? && forall k :: |All(f.registry)| <= k < |All(r.value.registry)| ==>
      Admitted(f.registry.schemas, f.filePath, read.value, ajv, All(r.value.registry)[k], 0)
  {
    if f.eof then Success(f)
    else if read.Failure? then Failure(read.error)
    else
      var reg :- LoadFrom(f.registry, f.filePath, read.value, 0, ajv);
      Success(f.(registry := reg, eof := true, readCount := f.readCount + 1))
  }

  /** The file is read at most once, whatever reading it would give by the second call. */
  lemma ReindexOnce(f: FileStore, read: Result<seq<YamlDocument>>, later: Result<seq<YamlDocument>>, ajv: Validator)
    requires ValidStore(f) && Reindex(f, read, ajv).Success?
    ensures Reindex(Reindex(f, read, ajv).value, later, ajv) == Reindex(f, read, ajv)
    ensures Reindex(f, read, ajv).value.readCount <= f.readCount + 1
  {
  }

  /** A document whose header names a registered type is loaded exactly when that
      type's schema validates it. */
  lemma TypedDocumentLoaded(f: FileStore, docs: seq<YamlDocument>, ajv: Validator, i: nat)
    requires ValidStore(f) && !f.eof && i < |docs|
    requires var h := ReadHeader(CommentOf(docs[i]));
      h.savedType.Some? && GetSchema(f.registry.schemas, h.savedType.value).Some?
    ensures var h := ReadHeader(CommentOf(docs[i]));
      ChooseSchema(f.registry.schemas, h, docs[i].entity, ajv)
        == Success(GetSchema(f.registry.schemas, h.savedType.value).value)
  {
  }

  /** `one(of, where)`: after reindexing, the registry's lookup. */
  function FindOne(f: FileStore, read: Result<seq<YamlDocument>>, ajv: Validator, of: EntityType, where: Fields): (r: Result<(FileStore, Option<Entry>)>)
    requires ValidStore(f)
    ensures r.Success? <==> Reindex(f, read, ajv).Success?
    ensures !f.eof && read.Failure? ==> r == Failure(read.error)
    ensures r.Success? ==> r.value.0 == Reindex(f, read, ajv).value
    ensures r.Success? && r.value.1.Some? ==> r.value.1.value.kind == of
  {
    var g :- Reindex(f, read, ajv);
    var e := One(g.registry, of, where);
    Success((g, e))
  }

  /** `all(of)`: after reindexing, every entry of the type, or every entry. */
  function FindAll(f: FileStore, read: Result<seq<YamlDocument>>, ajv: Validator, of: Option<EntityType>): (r: Result<(FileStore, seq<Entry>)>)
    requires ValidStore(f)
    ensures r.Success? <==> Reindex(f, read, ajv).Success?
    ensures !f.eof && read.Failure? ==> r == Failure(read.error)
    ensures r.Success? && of.Some? ==> forall k :: 0 <= k < |r.value.1| ==> r.value.1[k].kind == of.value
    ensures r.Success? && of.None? ==> r.value.1 == All(r.value.0.registry)
  {
    var g :- Reindex(f, read, ajv);
    if of.Some? then
      AllOfFilters(g.registry, of.value);
      Success((g, AllOf(g.registry, of.value)))
    else Success((g, All(g.registry)))
  }

  /** `new(of, entity)`: a NEW entry of this file, added when the type has a schema. */
  function AddNew(f: FileStore, of: EntityType, entity: Fields): (r: Result<(FileStore, Entry)>)
    requires ValidStore(f)
    ensures r.Failure? <==> GetSchema(f.registry.schemas, of).None?
    ensures r.Failure? ==> r.error == "Can't find \"" + Name(of) + "\" entity schema."
    ensures r.Success? ==> (var (g, e) := r.value;
      && ValidStore(g) && g.eof == f.eof && g.filePath == f.filePath
      && e.state == New && e.kind == of && e.entity == entity && e.hash.None?
      && e.cookie == Cookie(Some(f.filePath), None)
      && All(g.registry) == All(f.registry) + [e])
  {
    var e := Entry(of, New, entity, None, Cookie(Some(f.filePath), None), Undefined);
    if GetSchema(f.registry.schemas, of).None? then Failure("Can't find \"" + Name(of) + "\" entity schema.")
    else
      var out := Set(f.registry, e);
      Success((f.(registry := out.reg), e))
  }

  /** The hash of an entity, as written in headers. */
  function HashOf(digest: string -> string, entity: Fields): string {
    Hash.Hash(digest, Obj(entity))
  }

  /** An entry the file must be rewritten for: changed, deleted or new in this session,
      or holding an entity whose hash differs from the saved one. */
  predicate NeedsCommit(e: Entry, digest: string -> string) {
    e.state == Dirty || e.state == Killed || e.state == New || e.hash != Some(HashOf(digest, e.entity))
  }

  /** The position an entry is written at: its document index, new entries last. */
  function Position(e: Entry): int {
    if e.cookie.index.Some? then e.cookie.index.value else MaxSafeInteger
  }

  /** The entries that are written: all but the deleted ones, in order. */
  function Survivors(es: seq<Entry>): (r: seq<Entry>)
    ensures |r| <= |es|
    ensures forall k :: 0 <= k < |r| ==> r[k].state != Killed && r[k] in es
    ensures forall k :: 0 <= k < |es| && es[k].state != Killed ==> es[k] in r
  {
    if |es| == 0 then []
    else
      var rest := Survivors(es[1..]);
      assert forall k :: 1 <= k < |es| ==> es[k] == es[1..][k - 1];
      if es[0].state == Killed then rest else [es[0]] + rest
  }

  /** The entity types present. */
  function Kinds(es: seq<Entry>): set<EntityType> {
    set k | 0 <= k < |es| :: es[k].kind
  }

  /** The type comment is written only when the file mixes types. */
  predicate SingleType(es: seq<Entry>) {
    |Kinds(es)| <= 1
  }

  /** `#relativePosix` path conversion: backslashes become slashes and a leading drive
      letter `C:` becomes `/c`. */
  function ToPosix(path: string): (r: string)
    ensures '\\' !in r
  {
    var p := ReplaceAll(path, "\\", "/");
    ReplaceCharRemoves(path, '\\', '/');
    if |p| >= 2 && (IsAsciiUpper(p[0]) || IsAsciiLower(p[0])) && p[1] == ':' then
      "/" + [ToLowerChar(p[0])] + p[2..]
    else p
  }

  /** A written document: its comment header and its map of nodes. */
  datatype OutDocument = OutDocument(comment: string, contents: seq<(string, Node)>)

  /** The schema's property names in ascending `order`, ties kept in declaration
      order. */
  function SchemaOrder(props: seq<PropertyMeta>): (names: seq<string>)
    ensures |names| == |props|
    ensures forall n :: n in names <==> n in Names(props)
  {
    var sorted := SortBy(props, (p: PropertyMeta) => p.order);
    SameNames(sorted, props);
    Names(sorted)
  }

  function Names(props: seq<PropertyMeta>): (names: seq<string>)
    ensures |names| == |props| && forall k :: 0 <= k < |props| ==> names[k] == props[k].name
  {
    seq(|props|, k requires 0 <= k < |props| => props[k].name)
  }

  lemma SameNames(a: seq<PropertyMeta>, b: seq<PropertyMeta>)
    requires multiset(a) == multiset(b)
    ensures forall n :: n in Names(a) <==> n in Names(b)
  {
    forall n ensures n in Names(a) ==> n in Names(b) {
      if n in Names(a) {
        var k :| 0 <= k < |a| && Names(a)[k] == n;
        assert a[k] in multiset(b);
        var j :| 0 <= j < |b| && b[j] == a[k];
        assert Names(b)[j] == n;
      }
    }
    forall n ensures n in Names(b) ==> n in Names(a) {
      if n in Names(b) {
        var k :| 0 <= k < |b| && Names(b)[k] == n;
        assert b[k] in multiset(a);
        var j :| 0 <= j < |a| && a[j] == b[k];
        assert Names(a)[j] == n;
      }
    }
  }

  /** The strings of `s` that satisfy `keep`, in order. */
  function Filter(s: seq<string>, keep: string -> bool): (r: seq<string>)
    ensures |r| <= |s|
    ensures forall x :: x in r <==> x in s && keep(x)
  {
    if |s| == 0 then []
    else
      var rest := Filter(s[1..], keep);
      assert forall x :: x in s <==> x == s[0] || x in s[1..];
      if keep(s[0]) then [s[0]] + rest else rest
  }

  /** The keys `#toOrderedYamlMap` writes, in order: the schema's properties by
      `order`, then the entity's other keys in ascending order, each only when the
      entity has it. */
  function EmittedKeys(entity: Fields, props: seq<PropertyMeta>): (ks: seq<string>)
    ensures forall k :: k in ks <==> Has(entity, k)
  {
    var ordered := SchemaOrder(props);
    var extra := SortStrings(Filter(Keys(entity), k => k !in ordered));
    assert forall k :: k in extra <==> k in Keys(entity) && k !in ordered by {
      forall k ensures k in extra <==> k in Keys(entity) && k !in ordered {
        assert k in extra <==> k in multiset(extra);
      }
    }
    var ks := Filter(ordered + extra, k => Has(entity, k));
    assert forall k :: Has(entity, k) <==> k in Keys(entity) by {
      forall k ensures Has(entity, k) <==> k in Keys(entity) {
        KeyInKeys(entity, k);
      }
    }
    ks
  }

  lemma KeyInKeys(fs: Fields, k: string)
    ensures Has(fs, k) <==> k in Keys(fs)
  {
    if Has(fs, k) {
      FindHas(fs, k);
      var i := Find(fs, k);
      assert Keys(fs)[i] == k;
    }
    if k in Keys(fs) {
      var i :| 0 <= i < |fs| && Keys(fs)[i] == k;
      FindHas(fs, k);
    }
  }

  /** The schema's properties come first, in their order; the other keys follow,
      sorted. */
  lemma EmittedOrder(entity: Fields, props: seq<PropertyMeta>)
    ensures var ordered := SchemaOrder(props);
      EmittedKeys(entity, props)
        == Filter(ordered, k => Has(entity, k)) + SortStrings(Filter(Keys(entity), k => k !in ordered))
  {
    var ordered := SchemaOrder(props);
    var extra := SortStrings(Filter(Keys(entity), k => k !in ordered));
    forall k | k in extra ensures Has(entity, k) {
      assert k in multiset(extra);
      KeyInKeys(entity, k);
    }
    FilterAppend(ordered, extra, k => Has(entity, k));
    FilterAll(extra, k => Has(entity, k));
  }

  lemma {:induction false} FilterAppend(a: seq<string>, b: seq<string>, keep: string -> bool)
    ensures Filter(a + b, keep) == Filter(a, keep) + Filter(b, keep)
    decreases |a|
  {
    if |a| > 0 {
      assert (a + b)[1..] == a[1..] + b;
      FilterAppend(a[1..], b, keep);
      FilterUnfold(a + b, keep);
      FilterUnfold(a, keep);
      assert (a + b)[0] == a[0];
    } else {
      assert a + b == b;
    }
  }

  lemma FilterUnfold(s: seq<string>, keep: string -> bool)
    requires |s| > 0
    ensures Filter(s, keep) == (if keep(s[0]) then [s[0]] else []) + Filter(s[1..], keep)
  {
    if !keep(s[0]) {
      assert [] + Filter(s[1..], keep) == Filter(s[1..], keep);
    }
  }

  lemma {:induction false} FilterAll(s: seq<string>, keep: string -> bool)
    requires forall x :: x in s ==> keep(x)
    ensures Filter(s, keep) == s
    decreases |s|
  {
    if |s| > 0 {
      FilterAll(s[1..], keep);
    }
  }

  /** `#toOrderedYamlMap(entity, schema)`: each emitted key with its value as a node;
      a value that cannot be converted fails the whole map. */
  function OrderedMap(entity: Fields, props: seq<PropertyMeta>): (r: Result<seq<(string, Node)>>)
    ensures var ks := EmittedKeys(entity, props);
      r.Success? <==> forall k :: 0 <= k < |ks| ==> ToYaml(Get(entity, ks[k])).Success?
    ensures r.Success? ==> (var ks := EmittedKeys(entity, props);
      |r.value| == |ks| && forall k :: 0 <= k < |ks| ==>
        r.value[k].0 == ks[k] && Success(r.value[k].1) == ToYaml(Get(entity, ks[k])))
  {
    var ks := EmittedKeys(entity, props);
    var nodes :- Collect(MapSeq((k: string) => ToYaml(Get(entity, k)), ks));
    Success(seq(|ks|, k requires 0 <= k < |ks| => (ks[k], nodes[k])))
  }

  /** The schema path a header names: the schema's file relative to the file's
      directory, both in POSIX form. */
  function SchemaPathFor(filePath: string, schema: EntitySchema, dirname: string -> string,
                         relative: (string, string) -> string): string {
    relative(ToPosix(dirname(filePath)), ToPosix(schema.filePath))
  }

  /** The header `#toDocument` writes: the type when asked, the schema path, the hash
      of the entity. */
  function DocumentComment(schemaPath: string, e: Entry, writeType: bool, digest: string -> string): string {
    Join(HeaderLines(writeType, e.kind, schemaPath, HashOf(digest, e.entity)), "\n")
  }

  /** `#toDocument(entry, writeType)`: the header above the ordered map. */
  function ToDocument(schemas: SchemaRegistry, filePath: string, e: Entry, writeType: bool,
                      digest: string -> string, dirname: string -> string,
                      relative: (string, string) -> string): (r: Result<OutDocument>)
    ensures GetSchema(schemas, e.kind).None? ==> r == Failure("Can't find schema \"undefined\".")
    ensures r.Success? ==> (var schema := GetSchema(schemas, e.kind).value;
      && r.value.comment == DocumentComment(SchemaPathFor(filePath, schema, dirname, relative), e, writeType, digest)
      && Success(r.value.contents) == OrderedMap(e.entity, schema.properties))
    ensures GetSchema(schemas, e.kind).Some? ==>
      (r.Success? <==> OrderedMap(e.entity, GetSchema(schemas, e.kind).value.properties).Success?)
  {
    var schema := GetSchema(schemas, e.kind);
    if schema.None? then Failure("Can't find schema \"undefined\".")
    else
      var comment := DocumentComment(SchemaPathFor(filePath, schema.value, dirname, relative), e, writeType, digest);
      var contents :- OrderedMap(e.entity, schema.value.properties);
      Success(OutDocument(comment, contents))
  }

  /** Reading a written header back gives a clean entry with nothing to commit: its
      saved hash is the hash of its entity, and with the type comment it finds its own
      schema again. */
  lemma WrittenDocumentReadsClean(schemas: SchemaRegistry, filePath: string, e: Entry, writeType: bool,
                                  digest: string -> string, schemaPath: string, ajv: Validator, index: nat)
    requires GetSchema(schemas, e.kind).Some?
    requires Plain(schemaPath) && Plain(HashOf(digest, e.entity))
    ensures var h := ReadHeader(Some(DocumentComment(schemaPath, e, writeType, digest)));
      && h.savedHash == HashOf(digest, e.entity)
      && h.schemaPath == Some(schemaPath)
      && !NeedsCommit(LoadedEntry(filePath, e.kind, e.entity, h.savedHash, index), digest)
      && (writeType ==> ChooseSchema(schemas, h, e.entity, ajv) == Success(GetSchema(schemas, e.kind).value))
  {
    var comment := DocumentComment(schemaPath, e, writeType, digest);
    assert comment == Join(HeaderLines(writeType, e.kind, schemaPath, HashOf(digest, e.entity)), "\n");
    HeaderReadsBack(writeType, e.kind, schemaPath, HashOf(digest, e.entity));
    ReadsClean(schemas, filePath, e, writeType, digest, schemaPath, ajv, index, ReadHeader(Some(comment)));
  }

  lemma ReadsClean(schemas: SchemaRegistry, filePath: string, e: Entry, writeType: bool,
                   digest: string -> string, schemaPath: string, ajv: Validator, index: nat, h: Header)
    requires GetSchema(schemas, e.kind).Some?
    requires h == Header(HashOf(digest, e.entity), Some(schemaPath), if writeType then Some(e.kind) else None)
    ensures !NeedsCommit(LoadedEntry(filePath, e.kind, e.entity, h.savedHash, index), digest)
    ensures writeType ==> ChooseSchema(schemas, h, e.entity, ajv) == Success(GetSchema(schemas, e.kind).value)
  {
  }

  /** What a commit does to the file. */
  datatype Outcome = Skipped | Unlinked | Written(documents: seq<OutDocument>)

  /** `commit()`: after reindexing, nothing happens when no entry needs it; otherwise
      the file is removed when every entry is deleted, else rewritten with the
      surviving entries by position, new ones last. Entry states are left as they
      are. */
  function Commit(f: FileStore, read: Result<seq<YamlDocument>>, ajv: Validator,
                  digest: string -> string, dirname: string -> string,
                  relative: (string, string) -> string): (r: Result<(FileStore, Outcome)>)
    requires ValidStore(f)
    ensures Reindex(f, read, ajv).Failure? ==> r.Failure?
    ensures !f.eof && read.Failure? ==> r == Failure(read.error)
    ensures Reindex(f, read, ajv).Success? ==> (var g := Reindex(f, read, ajv).value;
      && (r.Success? <==> Plan(g, digest, dirname, relative).Success?)
      && (r.Success? ==> r.value == (g, Plan(g, digest, dirname, relative).value)))
  {
    var g :- Reindex(f, read, ajv);
    var out :- Plan(g, digest, dirname, relative);
    Success((g, out))
  }

  /** What a commit does once the file is loaded. */
  function Plan(g: FileStore, digest: string -> string, dirname: string -> string,
                relative: (string, string) -> string): (r: Result<Outcome>)
    ensures r.Failure? ==> Unwritable(g, digest, dirname, relative)
    ensures r.Success? ==> (var es := All(g.registry);
      && (r.value == Skipped <==> forall k :: 0 <= k < |es| ==> !NeedsCommit(es[k], digest))
      && (r.value == Unlinked <==>
            (exists k :: 0 <= k < |es| && NeedsCommit(es[k], digest))
            && forall k :: 0 <= k < |es| ==> es[k].state == Killed)
      && (r.value.Written? ==> |r.value.documents| == |Survivors(es)|))
  {
    var es := All(g.registry);
    if forall k :: 0 <= k < |es| ==> !NeedsCommit(es[k], digest) then Success(Skipped)
    else
      var keep := Survivors(es);
      AllKilled(es);
      if |keep| == 0 then
        Success(Unlinked)
      else
        var ordered := SortBy(keep, Position);
        var written := Documents(g, ordered, !SingleType(es), digest, dirname, relative);
        if written.Failure? then
          FailureIsUnwritable(g, ordered, digest, dirname, relative);
          Failure(written.error)
        else
          Success(Written(written.value))
  }

  /** Some surviving entry cannot be written. */
  predicate Unwritable(g: FileStore, digest: string -> string, dirname: string -> string,
                       relative: (string, string) -> string) {
    exists e :: e in Survivors(All(g.registry))
      && ToDocument(g.registry.schemas, g.filePath, e, !SingleType(All(g.registry)), digest, dirname, relative).Failure?
  }

  lemma FailureIsUnwritable(g: FileStore, ordered: seq<Entry>, digest: string -> string, dirname: string -> string,
                            relative: (string, string) -> string)
    requires multiset(ordered) == multiset(Survivors(All(g.registry)))
    requires Documents(g, ordered, !SingleType(All(g.registry)), digest, dirname, relative).Failure?
    ensures Unwritable(g, digest, dirname, relative)
  {
    var k :| 0 <= k < |ordered|
      && ToDocument(g.registry.schemas, g.filePath, ordered[k], !SingleType(All(g.registry)), digest, dirname, relative).Failure?;
    InMultiset(ordered, Survivors(All(g.registry)), k);
  }

  lemma InMultiset<T>(a: seq<T>, b: seq<T>, k: nat)
    requires multiset(a) == multiset(b) && k < |a|
    ensures a[k] in b
  {
    assert a[k] in multiset(a);
  }

  /** No entry survives exactly when every entry is deleted. */
  lemma AllKilled(es: seq<Entry>)
    ensures |Survivors(es)| == 0 <==> forall k :: 0 <= k < |es| ==> es[k].state == Killed
  {
    var keep := Survivors(es);
    if |keep| > 0 {
      assert keep[0] in es;
    }
  }

  /** The documents of the given entries, in order, or a failure when one of them
      cannot be written. */
  function Documents(g: FileStore, ordered: seq<Entry>, writeType: bool,
                     digest: string -> string, dirname: string -> string,
                     relative: (string, string) -> string): (r: Result<seq<OutDocument>>)
    ensures r.Success? ==> |r.value| == |ordered| && forall k :: 0 <= k < |ordered| ==>
      Success(r.value[k]) == ToDocument(g.registry.schemas, g.filePath, ordered[k], writeType, digest, dirname, relative)
    ensures r.Failure? ==> exists k :: (0 <= k < |ordered|
      && ToDocument(g.registry.schemas, g.filePath, ordered[k], writeType, digest, dirname, relative).Failure?)
  {
    var rs := MapSeq((e: Entry) => ToDocument(g.registry.schemas, g.filePath, e, writeType, digest, dirname, relative), ordered);
    DocumentsFailAt(g, ordered, writeType, digest, dirname, relative, rs);
    Collect(rs)
  }

  lemma DocumentsFailAt(g: FileStore, ordered: seq<Entry>, writeType: bool,
                        digest: string -> string, dirname: string -> string,
                        relative: (string, string) -> string, rs: seq<Result<OutDocument>>)
    requires |rs| == |ordered|
    requires forall k :: 0 <= k < |rs| ==>
      rs[k] == ToDocument(g.registry.schemas, g.filePath, ordered[k], writeType, digest, dirname, relative)
    ensures Collect(rs).Failure? ==> exists k :: (0 <= k < |ordered|
      && ToDocument(g.registry.schemas, g.filePath, ordered[k], writeType, digest, dirname, relative).Failure?)
  {
    if Collect(rs).Failure? {
      var k :| 0 <= k < |rs| && rs[k].Failure?;
      assert ToDocument(g.registry.schemas, g.filePath, ordered[k], writeType, digest, dirname, relative).Failure?;
    }
  }

  /** The written documents are the survivors' documents, in order of position. */
  lemma CommitOrder(g: FileStore, digest: string -> string, dirname: string -> string,
                    relative: (string, string) -> string)
    requires var r := Plan(g, digest, dirname, relative); r.Success? && r.value.Written?
    ensures var out := Plan(g, digest, dirname, relative).value;
      var es := All(g.registry);
      var ordered := SortBy(Survivors(es), Position);
      && SortedByKey(ordered, Position)
      && multiset(ordered) == multiset(Survivors(es))
      && forall k :: 0 <= k < |ordered| ==>
        Success(out.documents[k]) == ToDocument(g.registry.schemas, g.filePath, ordered[k], !SingleType(es), digest, dirname, relative)
  {
  }

  /** The file text: each document printed and trimmed at the end, separated by
      `---` lines, with a final line feed. */
  function FileText(render: OutDocument -> string, documents: seq<OutDocument>): (text: string)
    ensures |text| > 0 && text[|text| - 1] == '\n'
    ensures |documents| == 1 ==> text == TrimEnd(render(documents[0])) + "\n"
  {
    Join(MapSeq((d: OutDocument) => TrimEnd(render(d)), documents), "\n\n---\n\n") + "\n"
  }
}
