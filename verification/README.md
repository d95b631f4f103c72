# KickCat core in Dafny

KickCat keeps the issues, labels and milestones of a GitHub repository in sync with a
store of YAML files. This project models the logic of its core as pure Dafny functions
over immutable data and proves what that logic promises.

- **Values and hashing** (`json.dfy`, `hash.dfy`, `sorting.dfy`). A JavaScript value is a
  datatype. Objects keep their fields in insertion order. The canonical string behind
  the content hash sorts object keys and drops their names. The md5 digest is a function
  parameter.
- **Entities and schemas** (`entity_type.dfy`, `issue_state.dfy`, `entity_schema.dfy`,
  `schema_registry.dfy`). These cover the three entity types and the issue states, the
  parser for schema property metadata, and the schema registry with its path resolution.
- **Entries and the registry** (`storage_entry.dfy`, `local_storage_entry.dfy`,
  `entity_registry.dfy`, `storage.dfy`).
  - There are two state machines: the current DETACHED/NEW/CLEAN/DIRTY/KILLED one, and the
    older one that adds FREEZED and revive.
  - The multi-index registry answers `one` and `all`.
  - The storage interface is a record of operations.
- **Sync commands** (`commands.dfy`, `bindings.dfy`). These are push-all, pull and delete,
  in both their generic and their milestone forms, over two abstract storages, plus the
  entry bindings and the binding bag.
- **File store** (`comment_header.dfy`, `to_yaml.dfy`, `local_storage_file.dfy`). This covers:
  - the header comment written above each document, and how it is read back;
  - the choice of schema when a file is read;
  - which entries a commit writes, in which order, and with which key order;
  - the conversion to YAML nodes.
- **Legacy store** (`local_storage.dfy`, module `LegacyStorage`). It normalises the file
  format, fetches each file at most once, chooses the orphanage path and commits file by
  file.
- **GitHub storage** (`github_env.dfy`, `github_collections.dfy`, `github_storage.dfy`).
  - Owner, repository and token come from the environment and the git remote.
  - The issue, milestone and label collections run over an abstract API whose replies
    are parameters.
  - The storage answers from its cache before asking GitHub, and commits labels, then
    milestones, then issues.
- **CLI framework** (`cli_types.dfy`, `command_option.dfy`, `cli_command.dfy`,
  `routing.dfy`). It has the value types, option parsing, the option collection,
  commands, routes with glob-prefix matching, resolution and dispatch.
- **Utilities** (`strings.dfy`, `text.dfy`, `logging.dfy`). They are kebab, camel,
  capitalize, decapitalize, oneLine, isYAMLFile, omit, climb and the log-level facade.

Every operation of the source that can throw returns a `Result`. The failure carries the
source's own message, and `""` where the source throws an `Error` with an empty message.
Where the JavaScript engine raises a TypeError instead, three failures carry a text in the
engine's style (`WantedNumbers`, `LegacyStorage.NotAnObject`, `EntitySchemas.NoProperties`);
the others carry `""`, because their text depends on the engine and is not part of the
source. Asynchronous code is modelled sequentially. Every piece of I/O is a
function parameter: files, the YAML parser, Ajv compilation and validation, `path`, `git` and the
GitHub API.

## Model

| member | source | states |
|---|---|---|
| EntityTypes.FromName | src/EntityType.ts:11-15 | a text names an entity type exactly when it is one of the three names, and then names that type |
| EntityTypes.NameRoundTrip | src/EntityType.ts:11-15 | the three names are distinct: each type is recovered from its own name |
| EntityTypes.EntityTypeTypeAgrees | src/EntityType.ts:17-25 | the option type accepts exactly the texts the type guard accepts, and returns them unchanged |
| EntityTypes.EntityTypeTypeName | src/EntityType.ts:17-21 | the option type names itself `milestone\|label\|issue` |
| IssueStates.IssueStateIsSpelling | src/IssueState.ts:12-29 | the guard accepts a value exactly when it is the string of one of the two states, `open` or `closed`, so it is case-sensitive and rejects every non-string |
| CliTypes.ParseBoolean | src/cli/BooleanType.ts:9-20 | a value parses exactly when it is one of the eight words, is true exactly for the four true words, and otherwise fails with the boolean error |
| CliTypes.BooleanWordsDisjoint | src/cli/BooleanType.ts:9-17 | no word is both true and false, so the order of the two tests is irrelevant |
| CliTypes.BooleanCaseSensitive | src/cli/BooleanType.ts:14-20 | capitalised spellings of the words are rejected |
| CliTypes.ParseLiteral | src/cli/LiteralType.ts:18-22 | a literal accepts only its own string, and a numeric literal accepts no text, because the comparison is strict |
| CliTypes.ParseMembersFirst | src/cli/UnionType.ts:22-33 | the union loop from a member on succeeds iff a later member parses, yields the first such member's result, and fails with the message naming the value and the union |
| CliTypes.UnionParse | src/cli/UnionType.ts:22-37 | a union parses a value iff some member does, the first such member wins, and otherwise the error names the value and the union |
| CliTypes.EmptyUnionRejects | src/cli/UnionType.ts:22-37 | an empty union rejects every value, and its name is empty |
| CliTypes.StringTypeIdentity | src/cli/StringType.ts:10-12 | the string type accepts every text unchanged |
| CliTypes.StringMemberMakesUnionTotal | src/cli/UnionType.ts:22-33 | a union with the string type among its members accepts every text |
| CliTypes.StringLiteralRoundTrip | src/cli/LiteralType.ts:18-26 | a string literal parses its own name back to itself |
| CliTypes.NumberLiteralRejects | src/cli/LiteralType.ts:18-22 | a numeric literal rejects every text, its own digits included |
| Hash.SortedValues | src/hash.ts:21-24 | an object's values are taken in ascending key order, one per field |
| Hash.ObjectAsArray | src/hash.ts:17-26 | an object stringifies like the array of its values in key order |
| Hash.SameStringSameHash | src/hash.ts:12-14 | the digest depends only on the canonical string |
| Hash.KeyOrderIrrelevant | src/hash.ts:19-26 | two objects with the same keys and values, inserted in any order, stringify alike, so they hash alike |
| Hash.ArrayAppend | src/hash.ts:17 | array elements are joined with `\|`, so appending arrays concatenates their strings around a `\|` |
| Hash.Collisions | src/hash.ts:16-35 | the empty array, the empty object, undefined and `''` share a string, and so do null and `'null'` |
| Sorting.StrLeIsUnitOrder | src/hash.ts:22 | the string order is the lexicographic order of the strings' UTF-16 code units, the order `toSorted` uses without a comparator |
| Sorting.UnitsBefore | src/hash.ts:22 | a character earlier in code-unit order has a lower code unit at the first place the two encodings differ, whatever follows |
| Sorting.StrLeTotal | src/hash.ts:22 | the string order `toSorted` uses is total |
| Sorting.StrLeAntisymmetric | src/hash.ts:22 | the string order is antisymmetric |
| Sorting.StrLeTransitive | src/hash.ts:22 | the string order is transitive |
| Sorting.InsertString | src/hash.ts:22 | inserting into a sorted list keeps it sorted, and adds exactly the new string |
| Sorting.SortStrings | src/hash.ts:22 | `toSorted` returns a sorted permutation of its input |
| Sorting.SortedStringsUnique | src/hash.ts:22 | two sorted permutations of the same strings are equal, so the sorted keys do not depend on insertion order |
| Sorting.InsertBy | src/localStorage/LocalStorageFile.ts:127-130 | inserting by key keeps the list sorted by key, and adds exactly the new element |
| Sorting.InsertByKeepsOrder | src/localStorage/LocalStorageFile.ts:127-130 | an insertion puts the new element before the elements that share its key, and keeps their order |
| Sorting.SortBy | src/localStorage/LocalStorageFile.ts:127-130 | `sortBy` returns a permutation sorted by the key |
| Sorting.SortByStable | src/localStorage/LocalStorageFile.ts:127-130 | `sortBy` is stable: elements sharing a key keep their relative order |
| EntitySchemas.ParseProperty | src/EntitySchema.ts:59-71 | a property definition must be an object; `unique` holds exactly when `x-kickcat-unique` is true, and `order` is the given number or `MAX_SAFE_INTEGER` |
| EntitySchemas.OwnEntries | src/EntitySchema.ts:53-59 | `for…in` visits an object's fields in order, and an array's positions under their decimal names |
| EntitySchemas.ParseEntries | src/EntitySchema.ts:53-72 | the loop succeeds exactly when every definition is an object, and then yields one record per property |
| EntitySchemas.ParseProperties | src/EntitySchema.ts:49-73 | a schema without an object `properties` is invalid; otherwise every own property is parsed |
| EntitySchemas.NewEntitySchema | src/EntitySchema.ts:32-43 | construction fails exactly when Ajv cannot compile the schema or the properties cannot be parsed; a compile error comes first and is Ajv's; otherwise it keeps the type, path and schema as given |
| EntitySchemas.OnePerProperty | src/EntitySchema.ts:53-72 | each own property gives exactly one metadata record, in enumeration order and under its own name |
| SchemaRegistries.GetSchema | src/EntitySchemaRegistry.ts:19-21 | `get` answers exactly for registered types, with the schema registered for that type |
| SchemaRegistries.AddSchema | src/EntitySchemaRegistry.ts:23-25 | `add` keeps the map valid, makes `get(t)` the new schema, leaves every other type alone, keeps a known type's place and appends a new one |
| SchemaRegistries.AllSchemas | src/EntitySchemaRegistry.ts:15-17 | `all` lists one schema per registered type, in registration order |
| SchemaRegistries.ReplaceCharRemoves | src/EntitySchemaRegistry.ts:29 | replacing every backslash leaves none, and keeps the length |
| SchemaRegistries.ReplaceAllLeftmost | src/EntitySchemaRegistry.ts:29 | `replaceAll` is one left-to-right scan: the text before the leftmost occurrence is copied, that occurrence is replaced, and the scan resumes after it, so matches never overlap and a replacement is never rescanned |
| SchemaRegistries.ReplaceAllAbsent | src/EntitySchemaRegistry.ts:29 | with no occurrence left, the scan copies the rest unchanged |
| SchemaRegistries.ReplaceBackslashes | src/EntitySchemaRegistry.ts:29 | the first replacement turns each backslash into a slash and keeps every other character in place |
| SchemaRegistries.DeletionShortens | src/EntitySchemaRegistry.ts:29 | deleting `../` never lengthens the text |
| SchemaRegistries.Normalize | src/EntitySchemaRegistry.ts:28-30 | a normalised path is the slashed path with every `../` the scan meets deleted; it holds no backslash and is no longer than the input |
| SchemaRegistries.DeletionAddsNothing | src/EntitySchemaRegistry.ts:29 | deleting `../` introduces no character |
| SchemaRegistries.NormalizeSinglePass | src/EntitySchemaRegistry.ts:28-30 | the deletion is one pass, so `..././` normalises to `../` |
| SchemaRegistries.NormalizeBackslashes | src/EntitySchemaRegistry.ts:28-30 | Windows parent references are removed too, because slashes are substituted first |
| SchemaRegistries.ReplaceOnAbsent | src/EntitySchemaRegistry.ts:29 | a text without the pattern is left unchanged |
| SchemaRegistries.ResolveFrom | src/EntitySchemaRegistry.ts:31-34 | `resolve` finds the first schema in registration order whose normalised path contains the normalised query, and none when no path contains it |
| SchemaRegistries.ResolveEmpty | src/EntitySchemaRegistry.ts:27-35 | resolving `''` yields the first registered schema |
| EntityRegistries.KeyOf | src/EntityRegistry.ts:84-85 | only numbers and strings are index keys |
| EntityRegistries.KeyValue | src/EntityRegistry.ts:84-85 | every index key is the value of some number or string, read back unchanged |
| EntityRegistries.KindIds | src/EntityRegistry.ts:52-59 | the by-type set of a type holds exactly the positions of that type's entries, in order |
| EntityRegistries.EmptyRegistry | src/EntityRegistry.ts:23-25 | a new registry is empty and valid |
| EntityRegistries.AllOf | src/EntityRegistry.ts:37-44 | `all(t)` holds only entries of type `t` |
| EntityRegistries.AllOfFilters | src/EntityRegistry.ts:37-44 | `all(t)` equals `all()` filtered by type |
| EntityRegistries.One | src/EntityRegistry.ts:27-35 | `one` finds nothing for an empty filter; a hit has the asked type, is registered, and holds the asked key under the first filter property |
| EntityRegistries.OneUsesFirstKey | src/EntityRegistry.ts:30-34 | filter properties after the first are ignored |
| EntityRegistries.IndexProperties | src/EntityRegistry.ts:73-87 | the index loop points exactly the claimed slots at the new entry and leaves every other slot as it was |
| EntityRegistries.AddToCollections | src/EntityRegistry.ts:46-59 | the flat and by-type collections gain the entry at the end, other types are unchanged, and the registry stays valid |
| EntityRegistries.IndexStaysValid | src/EntityRegistry.ts:62-88 | pointing the claimed slots at the newest entry keeps the index valid |
| EntityRegistries.Set | src/EntityRegistry.ts:46-88 | `set` appends the entry to `all()` and `all(type)`, fails exactly when the type has no schema (after the collections have grown), and otherwise re-points the claimed slots |
| EntityRegistries.SetThenOne | src/EntityRegistry.ts:27-88 | after `set`, looking the type up by any indexed property and its value finds the new entry |
| EntityRegistries.SetKeepsOtherSlots | src/EntityRegistry.ts:73-87 | slots the new entry does not claim keep answering what they answered before |
| EntityRegistries.SetNeverRemoves | src/EntityRegistry.ts:46-50 | `set` never removes an entry, whether or not it throws |
| StorageEntries.NewEntry | src/EntityStorageEntry.ts:53-66 | the constructor keeps type, entity, hash and cookie as given, and the state defaults to DETACHED |
| StorageEntries.Change | src/EntityStorageEntry.ts:68-76 | only CLEAN or DIRTY entries change, and others fail with the state named; the entity gains the given properties, later ones winning; the entry becomes DIRTY and nothing else changes |
| StorageEntries.Substitute | src/commands/EntityStorageEntryBinding.ts:36 | substitution follows the same state rule as `change`, but replaces the entity wholesale |
| StorageEntries.Delete | src/EntityStorageEntry.ts:78-85 | CLEAN, DIRTY and KILLED entries become KILLED; NEW and DETACHED ones fail with the state named |
| StorageEntries.DeleteIdempotent | src/EntityStorageEntry.ts:78-85 | deleting twice is deleting once |
| StorageEntries.RunKeepsIdentity | src/EntityStorageEntry.ts:39-85 | no sequence of operations changes an entry's type, hash or cookie, and a KILLED entry stays as it is |
| StorageEntries.KilledIsAbsorbing | src/EntityStorageEntry.ts:68-85 | from KILLED, any change or substitution throws |
| Bindings.NewBinding | src/commands/EntityStorageEntryBinding.ts:22-30 | the strategy defaults to SUBSTITUTE |
| Bindings.Pull | src/commands/EntityStorageEntryBinding.ts:32-37 | only the target changes: merge applies the merge operation, and substitution succeeds exactly when the target is editable, replacing its entity with the source's |
| Bindings.PullKeepsSource | src/commands/EntityStorageEntryBinding.ts:32-37 | the source entry is never modified |
| Bindings.EmptyBag | src/commands/EntityStorageEntryBindingBag.ts:11 | a new bag holds no bindings |
| Bindings.Add | src/commands/EntityStorageEntryBindingBag.ts:17-19 | `add` appends exactly one binding |
| Bindings.PullFrom | src/commands/EntityStorageEntryBindingBag.ts:21-24 | pulling a run of bindings keeps the entry count and leaves untargeted entries alone |
| Bindings.PullAll | src/commands/EntityStorageEntryBindingBag.ts:21-24 | an empty bag changes nothing, and entries no binding targets are unchanged |
| Bindings.PullAllAdd | src/commands/EntityStorageEntryBindingBag.ts:17-24 | after `add(b)`, `pullAll` pulls the earlier bindings first and then `b` |
| LocalStorageEntries.NewLocalEntry | src/localStorage/LocalStorageEntry.ts:45-51 | the constructor keeps its options, and the state defaults to NEW |
| LocalStorageEntries.LocalChange | src/localStorage/LocalStorageEntry.ts:53-60 | CLEAN, DIRTY and NEW entries change, and others fail with the state named; the payload gains the given properties; CLEAN becomes DIRTY and other states are kept; nothing else changes |
| LocalStorageEntries.LocalDelete | src/localStorage/LocalStorageEntry.ts:62-68 | CLEAN and DIRTY become KILLED, NEW becomes FREEZED, and other states fail |
| LocalStorageEntries.Revive | src/localStorage/LocalStorageEntry.ts:70-75 | only a FREEZED entry revives, back to NEW |
| LocalStorageEntries.DeleteThenRevive | src/localStorage/LocalStorageEntry.ts:62-75 | deleting a NEW entry and reviving it restores the entry exactly |
| LocalStorageEntries.LocalKilledIsFinal | src/localStorage/LocalStorageEntry.ts:53-75 | a KILLED entry cannot be changed, deleted or revived |
| LocalStorageEntries.LocalRunKeepsPlace | src/localStorage/LocalStorageEntry.ts:45-75 | no operation sequence touches the file path, hash or index, and an entry that was ever saved never becomes NEW or FREEZED again |
| Storages.Probe | src/EntityStorage.ts:15-16 | `one` answers an entry of the side, the one the storage's lookup names |
| Storages.AddNew | src/EntityStorage.ts:19-20 | `new` appends a NEW entry with the entity and no saved hash, touches only its own side, and is recorded in the trace |
| Storages.ChangeAt | src/EntityStorage.ts:15-20 | changing a held entry succeeds exactly when it is editable, and stores the changed entry back |
| Storages.DeleteAt | src/EntityStorage.ts:15-20 | deleting a held entry succeeds exactly for CLEAN, DIRTY or KILLED entries, and leaves it KILLED |
| Storages.CommitOf | src/EntityStorage.ts:21 | a commit call is recorded and changes neither side's entries |
| Storages.Enumerate | src/EntityStorage.ts:17-18 | `all(of)` enumerates every entry of the asked type, each once, in storage order |
| Storages.CommitsAppend | src/EntityStorage.ts:21 | commits in a trace add up over concatenation |
| Commands.PushOne | src/commands/EntityPushAllCommand.ts:49-81 | one push iteration: an entry never pushed is created remotely; otherwise the remote lookup decides between deleting the orphan, skipping, updating the remote, or updating the local entry; only this entry and the remote side change, and nothing is committed |
| Commands.Reconcile | src/commands/EntityPushAllCommand.ts:67-80 | a local entry against its remote counterpart makes at most one change call, on that entry or on the remote one; both sides keep their sizes, every other local entry is untouched, and nothing is committed |
| Commands.PushDropsOrphan | src/commands/EntityPushAllCommand.ts:63-66 | a pushed entry without a remote counterpart is deleted locally |
| Commands.PushSkipsAgreeing | src/commands/EntityPushAllCommand.ts:70-71 | when the current hash equals the remote one, neither side changes |
| Commands.PushConverges | src/commands/EntityPushAllCommand.ts:68-79 | when the hashes differ, the side with the stale saved hash takes the other side's values |
| Commands.PushEach | src/commands/EntityPushAllCommand.ts:49-82 | the loop keeps the local entry count and issues no commit |
| Commands.PushEachSplits | src/commands/EntityPushAllCommand.ts:49-82 | entries are pushed one after another: pushing `a + b` is pushing `a`, then `b` |
| Commands.NoCommits | src/commands/EntityPushAllCommand.ts:49-82 | a trace without commit calls commits neither side |
| Commands.PushAllWith | src/commands/EntityPushAllCommand.ts:44-89 | the command pushes every enumerated local entry once, in enumeration order; it fails exactly when one of those pushes fails, with that error, and otherwise leaves the storages as the pushes did and then commits the local, then the remote storage, each exactly once |
| Commands.PushAll | src/commands/EntityPushAllCommand.ts:44-89 | `execute({ of })` pushes every local entry of the asked type (or every entry) once, in storage order; it fails with the first push's error, and otherwise commits local then remote, each exactly once |
| Commands.MilestonePushAll | src/commands/MilestonePushAllCommand.ts:37-76 | the milestone push pushes every local milestone once, in storage order, looking remote milestones up by number; it fails with the first push's error, and otherwise commits local then remote, each exactly once |
| Commands.MilestonePushSkipsOthers | src/commands/MilestonePushAllCommand.ts:40 | with no local milestones, the milestone push only commits both sides |
| Commands.EnumerateNone | src/commands/MilestonePushAllCommand.ts:40 | enumerating a type nobody has yields nothing |
| Commands.KeyFilter | src/commands/EntityPullCommand.ts:65 | the filter `{ [key]: value }` has one property holding the value |
| Commands.PullWith | src/commands/EntityPullCommand.ts:62-90 | pull fails when the remote has no match; otherwise it looks up remote then local, leaves the remote untouched, and ends with a local commit |
| Commands.PullOverwrites | src/commands/EntityPullCommand.ts:74-86 | pull creates the entity locally or overwrites every matching property, whatever the saved hash says, and fails only when the local entry cannot change |
| Commands.Pull | src/commands/EntityPullCommand.ts:62-90 | a missing remote entity fails with the message naming type, key and value; success commits only locally |
| Commands.MilestonePull | src/commands/MilestonePullCommand.ts:42-72 | a missing remote milestone fails with its number; success commits only locally |
| Commands.PullLeavesRemote | src/commands/EntityPullCommand.ts:62-90 | pull never mutates or commits the remote storage |
| Commands.DeleteWith | src/commands/EntityDeleteCommand.ts:53-70 | delete skips silently when nothing matches, and otherwise deletes the match and commits locally |
| Commands.EntityDelete | src/commands/EntityDeleteCommand.ts:53-70 | delete leaves the remote alone and commits the local storage at most once |
| Commands.MilestoneDelete | src/commands/MilestoneDeleteCommand.ts:38-53 | milestone delete leaves the remote alone and commits the local storage at most once |
| Commands.DeleteCommitsOnce | src/commands/EntityDeleteCommand.ts:59-69 | delete commits the local storage exactly when it found an entry, and never the remote |
| Yaml.ToYaml | src/toYAML.ts:14-45 | a string becomes a scalar, block-literal exactly when it holds a line feed; other non-containers become plain scalars; an array keeps its length; an object's pairs follow its sorted keys |
| Yaml.SortedKeyOf | src/toYAML.ts:34-39 | each key of an object appears among its sorted keys |
| Yaml.ToYamlFailsOnNull | src/toYAML.ts:38 | conversion fails exactly when some object, at any depth, has a `null` or `undefined` property |
| Yaml.NoNullConverts | src/toYAML.ts:38 | a value with no `null` or `undefined` property at any depth always converts, even when an object repeats a key |
| Yaml.ArrayFailsOnNull | src/toYAML.ts:23-30 | an array converts exactly when each element does |
| Yaml.ObjectFailsOnNull | src/toYAML.ts:32-42 | an object converts exactly when no property is nullish and each value converts |
| Yaml.ToYamlRoundTrip | src/toYAML.ts:14-45 | a value with sorted keys and no nullish property converts to a tree that reads back as the same value |
| Text.YamlSuffix | src/isYAMLFile.ts:7-9 | every name ending in `.yml` or `.yaml` is a YAML file name |
| Text.YamlStem | src/isYAMLFile.ts:7-9 | every name the test accepts is a stem followed by `.yml` or `.yaml` in lower case, so the test looks at the extension only |
| Text.Capitalize | src/capitalize.ts:10-14 | only the first character changes, to its ASCII upper case, and the length is kept |
| Text.Decapitalize | src/decapitalize.ts:7-11 | only the first character changes, to its ASCII lower case, and the length is kept |
| Text.CapitalizeIdempotent | src/capitalize.ts:10-14 | both conversions are idempotent, and each undoes the other on a first letter of the right case |
| Text.Undash | src/camel.ts:11 | joining the capitalised pieces removes every `-` and nothing else |
| Text.CapitalizeAll | src/camel.ts:11 | every piece is capitalised (ASCII mapping), in order, and no piece is added or dropped |
| Text.Camel | src/camel.ts:10-12 | `camel` removes every `-` and nothing else |
| Text.SplitUndash | src/camel.ts:11 | split, capitalise and join is the character-by-character `Undash` |
| Text.CamelIsUndash | src/camel.ts:10-12 | `camel` is `Undash` from an upper-case start, then decapitalised |
| Text.DashBeforeUpper | src/kebab.ts:11 | the first replacement only inserts characters |
| Text.DashBeforeWord | src/kebab.ts:13 | the second replacement only inserts characters |
| Text.Kebab | src/kebab.ts:7-16 | `kebab` leaves no ASCII upper-case letter and never shortens the identifier |
| Text.KebabKeepsLowerCase | src/kebab.ts:7-16 | an identifier without upper-case letters is unchanged |
| Text.DashAllAppend | src/kebab.ts:11 | inserting dashes distributes over concatenation, with a dash at the seam before an upper-case letter |
| Text.DashBeforeUpperOnCamel | src/kebab.ts:11 | on camel case, the first replacement dashes every upper-case letter after the first character |
| Text.DashBeforeWordOnDashed | src/kebab.ts:13 | once every upper-case letter is dashed, the second replacement changes nothing |
| Text.UndashDashed | src/camel.ts:11 | undashing the lower-cased dashed form restores each upper-case letter |
| Text.KebabOfCamel | src/kebab.ts:7-16 | on camel case, `kebab` dashes before each upper-case letter and lowers everything |
| Text.CamelKebabRoundTrip | src/camel.ts:10-12 | a camel-case identifier turned into kebab case and back is unchanged |
| Text.DropBreaks | src/oneLine.ts:7 | dropping a run of line breaks removes exactly the leading breaks |
| Text.OneLine | src/oneLine.ts:9-11 | the result holds no line break, is no longer than the input, and equals the input when it had none |
| Text.OneLineIdempotent | src/oneLine.ts:9-11 | folding twice is folding once |
| Text.OneLineRun | src/oneLine.ts:7-10 | each maximal run of breaks becomes exactly one space |
| Text.Omit | src/omit.ts:12-17 | the copy lacks the property, keeps every other property and its value, and is the record itself when the property was absent |
| Text.OmitIdempotent | src/omit.ts:12-17 | omitting twice is omitting once |
| Text.ClimbAsWritten | src/climb.ts:9-19 | as written, the walk stops after the path and its parent |
| Text.PosixDirnameShrinks | src/climb.ts:7-11 | the `dirname` climb imports keeps a path from the root under the root, and only the root `/` is its own parent |
| Text.NodeDirnameOnAB | src/climb.ts:11-16 | `dirname` takes `/a/b` to `/a` and then to `/`, which is its own parent, and takes a bare name to `.` |
| Text.Climb | src/climb.ts:9-19 | for a path from the root and a `dirname` like Node's, the intended walk lists the path and its ancestors, each the parent of the one before, strictly shortening, ending at the root |
| Text.ClimbStopsEarly | src/climb.ts:13-16 | for a path two levels below the root (such as `/a/b` under Node's `dirname`), the written walk misses the grandparent the intended walk reaches |
| CommentHeaders.FirstColon | src/localStorage/LocalStorageFile.ts:35 | the key of a comment line runs up to the first colon: the index found holds a colon and nothing before it does |
| CommentHeaders.CommentKey | src/localStorage/LocalStorageFile.ts:35 | the optional `#` and leading blanks are dropped from the key part; an empty part has no key; a part that starts with neither is its own key |
| CommentHeaders.ParseLineShape | src/localStorage/LocalStorageFile.ts:35-44 | a parsed line yields a non-empty key without a colon and a non-empty one-line value; a line without a colon yields nothing |
| CommentHeaders.SplitBreaks | src/localStorage/LocalStorageFile.ts:48 | splitting on runs of line breaks gives at least one piece and no piece holds a break |
| CommentHeaders.SplitJoin | src/localStorage/LocalStorageFile.ts:48 | lines without breaks joined with newlines split back into the same lines |
| CommentHeaders.Collate | src/localStorage/LocalStorageFile.ts:46-51 | `Object.fromEntries` over the parsed lines: every key of a parsed line is in the record, holding the value of the last line with that key, and every key in the record came from some parsed line |
| CommentHeaders.SchemaPathOf | src/localStorage/LocalStorageFile.ts:171-174 | the schema path read from `$schema=` is a non-empty single line |
| CommentHeaders.SchemaPathOfPrefix | src/localStorage/LocalStorageFile.ts:171-174 | the path written after `$schema=` is the path read back |
| CommentHeaders.HeaderLines | src/localStorage/LocalStorageFile.ts:224-228 | the header has three lines when the type is written and two otherwise |
| CommentHeaders.ReadLine | src/localStorage/LocalStorageFile.ts:35-44 | a header line written as ` key: value` parses back to exactly that key and value |
| CommentHeaders.ParseHeader | src/localStorage/LocalStorageFile.ts:46-51 | reading the written header comment is collating its three (or two) key/value pairs |
| CommentHeaders.HeaderRoundTrip | src/localStorage/LocalStorageFile.ts:224-228 | the written header reads back the hash, the schema path, and the type exactly when it was written |
| LocalStorageFiles.CommentOf | src/localStorage/LocalStorageFile.ts:161-164 | the document's own comment is preferred; the contents' comment is used only when the document has none; no comment at all only when neither has one |
| LocalStorageFiles.ReadHeader | src/localStorage/LocalStorageFile.ts:166-182 | the saved hash is the `hash` entry or empty, a saved type is a recognised `type` entry, and a schema path needs a `yaml-language-server` entry |
| LocalStorageFiles.HeaderReadsBack | src/localStorage/LocalStorageFile.ts:166-182 | the header written for a document reads back as its hash, its schema path and, when written, its type |
| LocalStorageFiles.FirstValid | src/localStorage/LocalStorageFile.ts:192 | `find` returns the first registered schema that validates the entity, and nothing exactly when none does |
| LocalStorageFiles.ChooseSchema | src/localStorage/LocalStorageFile.ts:184-195 | a saved type picks its schema, else a schema path is resolved, an unknown one falls back to the first validating schema, and no type and no path is an error |
| LocalStorageFiles.ChosenIsRegistered | src/localStorage/LocalStorageFile.ts:184-195 | the chosen schema is always one of the registered schemas |
| LocalStorageFiles.LoadedEntry | src/localStorage/LocalStorageFile.ts:198-209 | a loaded entry is clean, of the schema's type, keeps the saved hash, and remembers its file and document index |
| LocalStorageFiles.LoadDocument | src/localStorage/LocalStorageFile.ts:153-211 | reading one document keeps the registry valid and either leaves it as it was or adds an entry admitted from that document |
| LocalStorageFiles.LoadFrom | src/localStorage/LocalStorageFile.ts:153-211 | reading the documents keeps what was registered as a prefix and adds only entries admitted from the documents, in increasing document order |
| LocalStorageFiles.NewFileStore | src/localStorage/LocalStorageFile.ts:59-67 | a new file store has read nothing and holds no entries |
| LocalStorageFiles.Reindex | src/localStorage/LocalStorageFile.ts:146-214 | the file is read once: a store already at end of file is returned unchanged; otherwise a failed read (a file not written yet) fails with the read's error, and a successful one marks the file read, adding only admitted entries |
| LocalStorageFiles.ReindexOnce | src/localStorage/LocalStorageFile.ts:147-148 | reindexing twice reads the file only once, whatever the file holds by the second time |
| LocalStorageFiles.TypedDocumentLoaded | src/localStorage/LocalStorageFile.ts:186-187 | a document whose header names a registered type is loaded with that type's schema |
| LocalStorageFiles.FindOne | src/localStorage/LocalStorageFile.ts:69-74 | `one` reads the file first and returns an entry of the asked type, failing exactly when the reindex fails, with the read's own error when the file cannot be read |
| LocalStorageFiles.FindAll | src/localStorage/LocalStorageFile.ts:76-83 | `all` reads the file first, failing with the read's error when the file cannot be read, and returns entries of the asked type, or every entry when no type is asked |
| LocalStorageFiles.AddNew | src/localStorage/LocalStorageFile.ts:85-105 | `new` fails with the source's message exactly when the type has no schema; otherwise it appends one NEW entry, with no hash or index, holding the given entity |
| LocalStorageFiles.Survivors | src/localStorage/LocalStorageFile.ts:122 | the entries to commit are exactly the entries that are not KILLED |
| LocalStorageFiles.AllKilled | src/localStorage/LocalStorageFile.ts:122-125 | nothing survives exactly when every entry is KILLED |
| LocalStorageFiles.ToPosix | src/localStorage/LocalStorageFile.ts:264-267 | a path turned to POSIX form holds no backslash |
| LocalStorageFiles.SchemaOrder | src/localStorage/LocalStorageFile.ts:237-240 | the schema's keys sorted by their order: the same names, each once per property |
| LocalStorageFiles.EmittedKeys | src/localStorage/LocalStorageFile.ts:235-258 | the written map holds exactly the entity's own keys |
| LocalStorageFiles.EmittedOrder | src/localStorage/LocalStorageFile.ts:237-247 | the written keys are the schema's keys in order, then the entity's other keys sorted |
| LocalStorageFiles.OrderedMap | src/localStorage/LocalStorageFile.ts:235-258 | every written pair is an emitted key with its value turned to YAML, and the map fails exactly when one value cannot be |
| LocalStorageFiles.ToDocument | src/localStorage/LocalStorageFile.ts:216-232 | a missing schema fails with the source's message; otherwise the document carries the header comment and the ordered map, failing only when the map does |
| LocalStorageFiles.WrittenDocumentReadsClean | src/localStorage/LocalStorageFile.ts:216-232 | a written document reads back with its hash and schema path, loads as an entry that needs no commit, and with its type written loads under its own schema |
| LocalStorageFiles.Commit | src/localStorage/LocalStorageFile.ts:108-143 | commit reads the file first, fails with the read's error when the file cannot be read (a commit after `new` on a fresh path), and otherwise does what the plan for the read store says |
| LocalStorageFiles.Plan | src/localStorage/LocalStorageFile.ts:113-142 | skip exactly when no entry needs committing, unlink exactly when something does and every entry is KILLED, else write one document per surviving entry; failure only when some entry cannot be written |
| LocalStorageFiles.FailureIsUnwritable | src/localStorage/LocalStorageFile.ts:127-130 | a failure to build the documents means some surviving entry cannot be written |
| LocalStorageFiles.CommitOrder | src/localStorage/LocalStorageFile.ts:127-130 | the written documents are the surviving entries sorted by their document index, a permutation of them, the type written when the file mixes types |
| LocalStorageFiles.FileText | src/localStorage/LocalStorageFile.ts:132-135 | the file text always ends in a newline, and one document is its trimmed text plus a newline |
| LegacyStorage.Normalize | src/localStorage/LocalStorage.ts:181-192 | a file is a list of payloads, or a record with a single key holding that list; anything else fails, with the format error or the null-access error |
| LegacyStorage.NormalizeIdempotent | src/localStorage/LocalStorage.ts:181-192 | normalizing the normalized list, bare or under a single key, gives the same list |
| LegacyStorage.PayloadOf | src/localStorage/LocalStorage.ts:145 | an object item is its own payload; any other non-null item is the empty payload |
| LegacyStorage.Payloads | src/localStorage/LocalStorage.ts:140-149 | every item becomes one payload, in order, and a nullish item fails the read |
| LegacyStorage.NewStore | src/localStorage/LocalStorage.ts:45-55 | a new store has fetched nothing and holds no entries |
| LegacyStorage.Loaded | src/localStorage/LocalStorage.ts:140-149 | each payload becomes a CLEAN entry of that file at its own index |
| LegacyStorage.LoadDocument | src/localStorage/LocalStorage.ts:137-152 | a document that fails validation only marks the file fetched; a valid one appends its entries and fails exactly when it cannot be normalized |
| LegacyStorage.FetchFileAsWritten | src/localStorage/LocalStorage.ts:129-153 | as written, a file already fetched is skipped and a missing file fails the read |
| LegacyStorage.FetchFile | src/localStorage/LocalStorage.ts:129-153 | a file is read at most once; a missing file counts as an empty one; an unreadable one fails; otherwise its document is loaded and the file marked fetched; it succeeds exactly when the file was read before or reads without an error |
| LegacyStorage.FetchFileIdempotent | src/localStorage/LocalStorage.ts:130 | fetching a file twice is fetching it once |
| LegacyStorage.FetchAll | src/localStorage/LocalStorage.ts:70-72 | fetching the files marks each fetched, keeps the earlier entries as a prefix, and adds only CLEAN entries from those files; it fails exactly when some listed file not read before is unreadable, or validates without normalising to non-null items |
| LegacyStorage.FetchAllLoadable | src/localStorage/LocalStorage.ts:70-72 | every listed file reads without an error exactly when the first does and every later file not read by then does |
| LegacyStorage.YamlFiles | src/localStorage/LocalStorage.ts:71 | exactly the listed files that are YAML files are fetched |
| LegacyStorage.Fetch | src/localStorage/LocalStorage.ts:67-75 | a fetched store is left alone; otherwise every YAML file below the path is fetched and the store marked fetched, and the fetch fails exactly when one of those YAML files not read before cannot be read without an error |
| LegacyStorage.FetchOnce | src/localStorage/LocalStorage.ts:68 | a second fetch changes nothing, whatever the directory then lists |
| LegacyStorage.New | src/localStorage/LocalStorage.ts:77-79 | `new` appends one NEW entry with the payload and no file, index or hash, and changes nothing else |
| LegacyStorage.UsedFiles | src/localStorage/LocalStorage.ts:155-163 | the used files are each file some entry lives in, once |
| LegacyStorage.FirstShared | src/localStorage/LocalStorage.ts:175 | the first file whose name mentions `common` or `shared` |
| LegacyStorage.ResolveOrphanagePath | src/localStorage/LocalStorage.ts:165-178 | the only used file; else the configured path when it is a file; else the first shared file; else `shared.yml` under the path; failing only when the path cannot be inspected |
| LegacyStorage.EliminateOrphans | src/localStorage/LocalStorage.ts:114-127 | afterwards no entry lacks a file: orphans are given the orphanage path, entries with a file are untouched, and nothing else changes; it fails, with the orphanage path's error, exactly when there are orphans and that path cannot be resolved |
| LegacyStorage.Rehash | src/localStorage/LocalStorage.ts:95-97 | the hash of every entry kept in the file is recomputed from its payload, and nothing else changes |
| LegacyStorage.KeptOf | src/localStorage/LocalStorage.ts:89-93 | the entries written are exactly this file's entries that are neither FREEZED nor KILLED |
| LegacyStorage.CommitLoaded | src/localStorage/LocalStorage.ts:89-110 | the file is unlinked exactly when nothing in it is kept, else written with the kept payloads and their fresh hashes |
| LegacyStorage.CommitFileAsWritten | src/localStorage/LocalStorage.ts:81-112 | as written, a file with no work is left alone and a missing file with work fails the read |
| LegacyStorage.CommitFile | src/localStorage/LocalStorage.ts:81-112 | a file with no DIRTY, KILLED or NEW entry is left alone; otherwise it is unlinked exactly when nothing is kept, and every kept entry carries its payload's hash; a failure is the read error of a file not read before, or the empty error of `toYAML`; with null-free payloads and a clean file it cannot fail |
| LegacyStorage.CommitClean | src/localStorage/LocalStorage.ts:88-109 | with no `null` or `undefined` property in any payload, and a file read before or clean, both reading and writing the file succeed |
| LegacyStorage.CommitFiles | src/localStorage/LocalStorage.ts:60-64 | committing the files touches exactly the files that have work, and leaves every entry's file as it was; a failure is one a listed file with work can fail with, and with null-free payloads and every listed file clean or read before nothing fails |
| LegacyStorage.CommitInUse | src/localStorage/LocalStorage.ts:60-64 | committing every file in use writes or removes exactly the files with work; a failure comes from one of them; with null-free payloads and every file clean or read before nothing fails |
| LegacyStorage.Commit | src/localStorage/LocalStorage.ts:57-65 | after a commit no entry is an orphan, and a file is written or unlinked exactly when it has work once orphans are placed; files are committed through the corrected `#commitFile`, which reads a missing file as an empty one; it fails with the orphanage error when orphans cannot be placed, otherwise only as some file with work can fail, and never when every payload is null-free and every file in use is clean or read before |
| LegacyStorage.MissingOrphanage | src/localStorage/LocalStorage.ts:129-153 | new entries placed in a `shared.yml` that does not exist yet make the written commit fail, while the corrected one writes that file |
| GitHubEnv.FromEnv | src/gitHubStorage/GitHubEntityCollection.ts:77-80 | the owner half is always defined (empty when `GITHUB_REPOSITORY` is unset) |
| GitHubEnv.FromEnvReadsPair | src/gitHubStorage/GitHubEntityCollection.ts:77-80 | `GITHUB_REPOSITORY` set to `owner/repo` yields that owner and repository |
| GitHubEnv.StripGit | src/gitHubStorage/GitHubEntityCollection.ts:89 | one trailing `.git` is removed and nothing else changes |
| GitHubEnv.FromGit | src/gitHubStorage/GitHubEntityCollection.ts:86-109 | a remote that is neither SSH nor HTTP yields nothing; an HTTP one always yields a repository; an SSH one always yields an owner |
| GitHubEnv.SshRemote | src/gitHubStorage/GitHubEntityCollection.ts:91-96 | `git@host:owner/repo.git` yields that owner and repository |
| GitHubEnv.HttpsRemote | src/gitHubStorage/GitHubEntityCollection.ts:98-106 | `https://site/owner/repo`, with or without `.git`, yields that owner and repository |
| GitHubEnv.OwnerFromEnvironment | src/gitHubStorage/GitHubEntityCollection.ts:111-115 | `GITHUB_REPOSITORY_OWNER` wins when set, and with neither variable set there is no owner |
| GitHubEnv.Resolve | src/gitHubStorage/GitHubEntityCollection.ts:43-67 | no token and no `GITHUB_TOKEN` fails with the source's message; a failing git command fails; otherwise the repository and owner are the first defined of their sources, and the constructor fails exactly when one is undefined |
| GitHubEnv.ResolveKnown | src/gitHubStorage/GitHubEntityCollection.ts:56-66 | with a token and both halves found, the connection holds that token, owner and repository |
| GitHubEnv.ConnectAsWritten | src/gitHubStorage/GitHubEntityCollection.ts:53-66 | as written, the owner always comes from `GITHUB_REPOSITORY`, and is empty when that variable is unset |
| GitHubEnv.FromEnvIntended | src/gitHubStorage/GitHubEntityCollection.ts:77-80 | an unset `GITHUB_REPOSITORY` yields no owner and no repository; a set one reads as before |
| GitHubEnv.Connect | src/gitHubStorage/GitHubEntityCollection.ts:53-66 | with `GITHUB_REPOSITORY` set it agrees with the written constructor; without it the owner comes from `GITHUB_REPOSITORY_OWNER` or the git remote and the repository from the git remote |
| GitHubEnv.OwnerFromGitIgnored | src/gitHubStorage/GitHubEntityCollection.ts:62 | outside GitHub Actions with an SSH remote, the written constructor connects to owner `""` while the intended one uses the remote's owner |
| GitHubCollections.Unwrap | src/gitHubStorage/GitHubMilestoneCollection.ts:32-39 | a reply's data on success, its message on failure |
| GitHubCollections.AddIf | src/gitHubStorage/GitHubIssueCollection.ts:196-198 | an optional property is appended exactly when present, and no other property changes |
| GitHubCollections.ToIssue | src/gitHubStorage/GitHubIssueCollection.ts:190-201 | number (from `issue_number`) and title always, the body as description only when it is a string, the state only when it is an issue state |
| GitHubCollections.ToMilestone | src/gitHubStorage/GitHubMilestoneCollection.ts:97-109 | number, state and title always; description and due date only when not null, the due date read from `due_on` |
| GitHubCollections.ToLabel | src/gitHubStorage/GitHubLabelCollection.ts:88-97 | color and name always; the description only when not null |
| GitHubCollections.ToLabelReadsKnownKeys | src/gitHubStorage/GitHubLabelCollection.ts:88-97 | a label depends only on the reply's color, name and description |
| GitHubCollections.IssueGet | src/gitHubStorage/GitHubIssueCollection.ts:36-57 | a missing number fails; a found issue is converted; 301, 404 and 410 mean no issue; any other error is rethrown |
| GitHubCollections.IssueDelete | src/gitHubStorage/GitHubIssueCollection.ts:32-34 | deleting an issue is never supported |
| GitHubCollections.WantedNumbers | src/gitHubStorage/GitHubIssueCollection.ts:94 | the wanted dependencies are exactly the numbers among them, none when there are none, and a non-list fails |
| GitHubCollections.Dedupe | src/gitHubStorage/GitHubIssueCollection.ts:186 | `new Set` keeps each element once and loses none |
| GitHubCollections.Difference | src/gitHubStorage/GitHubIssueCollection.ts:97-100 | `difference` keeps exactly the elements of the first list that are not in the second |
| GitHubCollections.IdOf | src/gitHubStorage/GitHubIssueCollection.ts:169-182 | a found issue gives its id; 301, 404 and 410 give null; other errors are rethrown |
| GitHubCollections.LookUp | src/gitHubStorage/GitHubIssueCollection.ts:166-185 | one id per number, in order, failing exactly when one lookup fails |
| GitHubCollections.IssueIds | src/gitHubStorage/GitHubIssueCollection.ts:166-187 | the ids are distinct and exactly the numeric ids of the issues found |
| GitHubCollections.AllOk | src/gitHubStorage/GitHubIssueCollection.ts:106-134 | a batch of requests succeeds exactly when every request does |
| GitHubCollections.SendAll | src/gitHubStorage/GitHubIssueCollection.ts:106-134 | one request per dependency succeeds exactly when every dependency's request does |
| GitHubCollections.Relink | src/gitHubStorage/GitHubIssueCollection.ts:96-101 | the dependency step succeeds exactly when the current links can be read and every link of a missing wanted dependency and every unlink of an unwanted current one succeeds; it links exactly the former and unlinks exactly the latter |
| GitHubCollections.IssueSet | src/gitHubStorage/GitHubIssueCollection.ts:60-104 | `set` succeeds exactly when the issue has a title and a number and the update, the dependency lookups, the link read and every link and unlink request succeed; a missing title fails; an issue without a number is created (failing with the create request's message when that fails) and then fails at the dependency step; on success the issue is the updated one, the links added are the wanted ones not yet present and the links removed are the present ones no longer wanted |
| GitHubCollections.DependenciesConverge | src/gitHubStorage/GitHubIssueCollection.ts:97-101 | removing `current − wanted` and adding `wanted − current` leaves exactly the wanted set |
| GitHubCollections.IssueSetLinksWanted | src/gitHubStorage/GitHubIssueCollection.ts:94-101 | after a successful `set` the issue is blocked by exactly the wanted issues |
| GitHubCollections.MilestoneGet | src/gitHubStorage/GitHubMilestoneCollection.ts:41-60 | a missing number fails; a found milestone is converted; 404 means none; any other error is rethrown |
| GitHubCollections.DueOrEmpty | src/gitHubStorage/GitHubMilestoneCollection.ts:69 | a missing due date is sent as the empty string |
| GitHubCollections.MilestoneSet | src/gitHubStorage/GitHubMilestoneCollection.ts:62-94 | no number creates (and needs a title), a number updates, and the reply is converted |
| GitHubCollections.MilestoneDelete | src/gitHubStorage/GitHubMilestoneCollection.ts:32-39 | a missing number fails; otherwise the delete request's outcome |
| GitHubCollections.LabelGet | src/gitHubStorage/GitHubLabelCollection.ts:37-55 | a missing name fails; a found label is converted; 404 means none; any other error is rethrown |
| GitHubCollections.LabelSet | src/gitHubStorage/GitHubLabelCollection.ts:57-85 | an unknown label is created, a known one updated, and a failing lookup fails the set |
| GitHubCollections.LabelDelete | src/gitHubStorage/GitHubLabelCollection.ts:29-35 | a missing name fails; otherwise the delete request's outcome |
| GitHubStorages.Fetch | src/gitHubStorage/GitHubStorage.ts:121 | a lookup goes to the collection of the asked type |
| GitHubStorages.Put | src/gitHubStorage/GitHubStorage.ts:152 | a write goes to the collection of the entry's type, and an issue write yields the issue GitHub returned |
| GitHubStorages.Remove | src/gitHubStorage/GitHubStorage.ts:147 | a delete goes to the collection of the entry's type, and deleting an issue is not supported |
| GitHubStorages.AllEntries | src/gitHubStorage/GitHubStorage.ts:56-58 | listing a GitHub storage is never supported |
| GitHubStorages.Create | src/gitHubStorage/GitHubStorage.ts:89-109 | `new` fails exactly when the type has no schema; otherwise it appends one NEW entry of that type holding the entity |
| GitHubStorages.One | src/gitHubStorage/GitHubStorage.ts:114-143 | a cached match is returned without asking GitHub; otherwise GitHub's answer is cached as a CLEAN entry, nothing found is nothing, and a failed request or a missing schema fails |
| GitHubStorages.OneThenCached | src/gitHubStorage/GitHubStorage.ts:118-139 | an entity fetched once is found again in the cache by any indexed property, whatever GitHub would answer later |
| GitHubStorages.CreateThenOne | src/gitHubStorage/GitHubStorage.ts:89-118 | a new entry is found by `one` through any indexed property before it is committed |
| GitHubStorages.RequestFor | src/gitHubStorage/GitHubStorage.ts:145-154 | a KILLED entry becomes a deletion, any other a write, of its own type and entity |
| GitHubStorages.CommitOne | src/gitHubStorage/GitHubStorage.ts:145-154 | a KILLED entry is deleted and stays KILLED; a DIRTY or NEW one is written and becomes CLEAN with what GitHub returned; each fails exactly when its request fails |
| GitHubStorages.PendingIds | src/gitHubStorage/GitHubStorage.ts:65-67 | exactly the DIRTY, KILLED and NEW entries of one type, in registry order |
| GitHubStorages.CommitIds | src/gitHubStorage/GitHubStorage.ts:64-83 | committing the chosen entries succeeds exactly when each one's request does, replaces just those entries, and sends their requests in order |
| GitHubStorages.CommitOrder | src/gitHubStorage/GitHubStorage.ts:63-84 | every pending entry is committed once, labels before milestones before issues |
| GitHubStorages.Commit | src/gitHubStorage/GitHubStorage.ts:63-84 | commit succeeds exactly when every pending entry's request does; then no entry is DIRTY or NEW, KILLED entries stay KILLED, other entries are untouched, and requests go labels, then milestones, then issues |
| GitHubStorages.KilledIssueBlocksCommit | src/gitHubStorage/GitHubIssueCollection.ts:32-34 | a KILLED issue makes every commit fail |
| CommandOptions.NormalizeName | src/cli/CommandOption.ts:24-30 | the name is `--` followed by the trimmed name in kebab case, and a valid name yields no blank after the dashes |
| CommandOptions.KebabKeepsNoSpace | src/cli/CommandOption.ts:28-30 | kebab-casing a name without blanks introduces none |
| CommandOptions.UnwrapQuotes | src/cli/CommandOption.ts:38-50 | one pair of matching single or double quotes around the value is removed; anything else is left as it is |
| CommandOptions.QuoteRoundTrip | src/cli/CommandOption.ts:38-50 | quoting a value and unwrapping it gives the value back |
| CommandOptions.MatchToken | src/cli/CommandOption.ts:36 | a matched token starts with `--`; a bare flag is made of key characters only; a value is the quoted or unquoted text after `=`, and the token is then exactly `--`, a non-empty run of key characters, `=` and that value |
| CommandOptions.MatchWritten | src/cli/CommandOption.ts:36 | `--key=value` matches with that value |
| CommandOptions.MatchFlag | src/cli/CommandOption.ts:36 | `--key` matches as a flag without value |
| CommandOptions.MakeOption | src/cli/CommandOption.ts:61-81 | an option fails to build, with the source's message, exactly when its name (or tag) holds a blank; otherwise it keeps the normalized name, the tag, and each setting or its default; a default given as `undefined` counts as none |
| CommandOptions.FirstToken | src/cli/CommandOption.ts:93-95 | the first raw token the option's pattern accepts, or none |
| CommandOptions.RawValue | src/cli/CommandOption.ts:116-123 | the token's own value wins; otherwise a non-boolean option takes the next token unless it starts with `--` |
| CommandOptions.ParseOption | src/cli/CommandOption.ts:88-143 | an absent option is its default, the required error, or nothing; a malformed token fails; a boolean option with no or an empty value is true; any other option with no or an empty value (its own or the next token's) takes its default, else fails as required, else is skipped; a value is unwrapped and parsed by the option's type; only the option's tag ever changes; a default counts only when it is not `undefined` |
| CommandOptions.UndefinedDefaultIsNone | src/cli/CommandOption.ts:100-104 | a default given as `undefined` parses like no default: an absent required option is the required error, an absent optional one sets nothing |
| CommandOptions.ParseWritten | src/cli/CommandOption.ts:88-143 | `--name=value` for a string option stores exactly that value under the tag |
| CommandOptions.ParseFlag | src/cli/CommandOption.ts:128-131 | a bare boolean flag stores true under the tag |
| CommandOptions.ParseNextToken | src/cli/CommandOption.ts:116-123 | `--name value` for a string option stores the next token under the tag |
| CliCommands.Names | src/cli/CommandOptionCollection.ts:20-22 | iteration yields the options' names in collection order |
| CliCommands.Lookup | src/cli/CommandOptionCollection.ts:12-14 | `get` finds an option exactly when one is kept under that name, and it is the one kept there |
| CliCommands.Add | src/cli/CommandOptionCollection.ts:16-18 | after `add` the name maps to the new option, every other name is unchanged, a known name keeps its place and a new name goes last |
| CliCommands.BuildKeepsLastAndFirstOrder | src/cli/CommandOptionCollection.ts:16-22 | after adding options one by one, `get` answers the last added under each name, iteration yields each name once in order of first addition, and there are never more options than were added |
| CliCommands.MakeCommand | src/cli/Command.ts:23-26 | a new command has no options, keeps its action, and has the default description when none is given |
| CliCommands.ParseAll | src/cli/Command.ts:29-30 | the options are parsed in order, each on the result of the one before, and the first failure stops the parse |
| CliCommands.ParseAllAppend | src/cli/Command.ts:29-30 | parsing two runs of options is parsing the first and then the second on its result |
| CliCommands.Execute | src/cli/Command.ts:28-34 | every option is parsed before the action runs; a parse or action failure fails the command; the command answers false exactly when the action returns false |
| CliCommands.BadOptionSkipsAction | src/cli/Command.ts:28-34 | when an option fails to parse, the action is never consulted |
| Routing.Collapse | src/cli/Route.ts:16 | every run of `\s` characters becomes one space: the other characters stay in order, a space stands before exactly those of them that followed white space, and the end is blank exactly when it was |
| Routing.CollapsedFromUnique | src/cli/Route.ts:16 | those properties fix the collapsed text: two strings that both have them are equal |
| Routing.NormalizePath | src/cli/Route.ts:13-17 | a normalized path has no blank at either end, no blank other than a space, and no two spaces in a row; it keeps every other character of the input in order, and is the collapse of the trimmed input |
| Routing.NormalizeIdempotent | src/cli/Route.ts:13-17 | normalizing a normalized path changes nothing |
| Routing.MakeRoute | src/cli/Route.ts:33-39 | a route fails, with the source's message, exactly when the path has no ASCII letter, long s or Kelvin sign (the two fold to ASCII letters under the `iu` flags), digit, star or blank; otherwise it holds the normalized path |
| Routing.EmptyPathRejected | src/cli/Route.ts:9-11 | the empty path is not a command |
| Routing.MatchIsPrefixClosed | src/cli/Route.ts:19-24 | the pattern is anchored only at the start: a path matched by a route stays matched whatever follows it |
| Routing.LiteralMatch | src/cli/Route.ts:19-24 | a route without a star matches exactly the paths that start with it |
| Routing.SpecialRoutesMatchAll | src/cli/Route.ts:27-28 | the any and unknown routes match every path |
| Routing.FirstServing | src/cli/Router.ts:25-32 | the first endpoint that is the same route, or (neither being the unknown route) has the same path |
| Routing.AddRoute | src/cli/Router.ts:24-43 | a route served by no endpoint gets a new endpoint at the end; otherwise the first serving endpoint gains the command once and every other endpoint is unchanged |
| Routing.AddRouteIdempotent | src/cli/Router.ts:24-43 | adding the same route and command twice is adding it once |
| Routing.Matching | src/cli/Router.ts:51-62 | the endpoints consulted are registered, not the unknown route, and match the path |
| Routing.LastConcrete | src/cli/Router.ts:51-62 | the last matching endpoint that is neither the any nor the unknown route |
| Routing.ResolveLoop | src/cli/Router.ts:51-62 | the loop collects every matching endpoint's commands in order and keeps the route of the last concrete match, or the unknown route |
| Routing.UnknownEndpoint | src/cli/Router.ts:49 | the endpoint registered for the unknown route, if there is one |
| Routing.Resolve | src/cli/Router.ts:46-72 | the last concrete match gives the route, with all matching commands; without one the unknown endpoint's commands are appended; the route is unknown exactly when nothing concrete matched |
| Routing.AnyJoinsEveryResolution | src/cli/Router.ts:53-56 | an endpoint under the any route takes part in every resolution |
| Routing.Grow | src/cli/Router.ts:76-84 | the path grows word by word until a route without a star is resolved or the words run out |
| Routing.RunCommands | src/cli/Router.ts:88-92 | the commands run in order: every command before the last one run answered true, a run of a non-empty list runs at least one command, and a run that stops early stops on a command that answered false, so when every command answers true all of them run; the run succeeds exactly when every command it reaches executes without an error, and it returns the options the last command that ran left, each command having worked on the options of the one before |
| Routing.Dispatch | src/cli/Router.ts:74-93 | dispatch resolves the longest path it grows and records that route; it succeeds exactly when every command of that route it reaches executes without an error, runs them in order until one answers false, and returns the options the last of them left |
| Routing.FirstWordRoute | src/cli/Router.ts:78-83 | when the first word resolves to a route without a star, dispatch stops after that word |
| Logging.MakeFacade | src/logging/LoggerFacade.ts:15-18 | the level is the one given, OFF when none is |
| Logging.SeverityOf | src/logging/LoggerFacade.ts:20-38 | every method writes with a real severity, never OFF |
| Logging.Emit | src/logging/LoggerFacade.ts:20-38 | a call hands at most one line, its message with the method's own severity, and does so exactly when the level is in the method's list |
| Logging.WritesIffLevelAtMostSeverity | src/logging/LoggerFacade.ts:20-38 | a call writes exactly when the configured level is at most as strict as the method's severity |
| Logging.OffIsSilentDebugIsVerbose | src/logging/LoggerFacade.ts:17-38 | at OFF nothing is written; at DEBUG every call is |
| Logging.GatingIsMonotone | src/logging/LoggerFacade.ts:20-38 | what a level lets through, every more verbose level lets through; what a method writes, every more severe method writes |

## Left out

- File and network I/O. Reading, writing and unlinking files, listing directories and
  calling the GitHub API are parameters, or results the model returns for a caller to
  perform. The model never performs them.
- Concurrency. `Promise.all` over files and over entries is modelled as a sequential
  pass in list order. The source gives no order, and no interleaving is modelled.
- Console output and the concrete logger sink. `console.log` lines are dropped. The
  facade hands its lines to an abstract logger.
- Floating point. Numbers are integers, so `NumberType` and any numeric parsing beyond
  integers are not modelled.
- The md5 digest, the YAML parser and printer, Ajv schema compilation and validation,
  `dirname` and `path.relative` are uninterpreted function parameters. Only their use is
  modelled.
- JavaScript key order for integer-like keys. Objects keep insertion order even where
  JavaScript would list array-index keys first.
- Regular expressions are modelled by what they accept, read literally, except for the
  route's `*`. A route path containing other regular-expression metacharacters is not
  modelled as a regular expression.
- The case-insensitive option pattern compares ASCII letters only, with no Unicode case
  folding.
- Text.Capitalize: the upper-case mapping covers ASCII letters only. `toLocaleUpperCase`
  also maps other letters (`é` to `É`), can lengthen the text (`ß` to `SS`) and depends on
  the locale, so "the length is kept" is a property of the model, not of the source. The
  source also takes the first UTF-16 code unit, which leaves a character outside the Basic
  Multilingual Plane unchanged; the model changes none of those either.
- Text.Decapitalize: the lower-case mapping covers ASCII letters only. `toLocaleLowerCase`
  also maps other letters (`É` to `é`), can lengthen the text (`İ` becomes two characters)
  and depends on the locale.
- Text.CapitalizeAll: inherits the ASCII-only mapping of Text.Capitalize.
- Text.Camel: inherits the ASCII-only mappings. The length formula holds for the model;
  the source's can differ when a piece starts with a letter whose upper case is longer.
- Text.Kebab: the final `toLowerCase` lowers ASCII letters only. The source lowers every
  letter, so a non-ASCII upper-case letter stays upper case in the model. The two
  replacements match ASCII letters in the source as well, so they agree.
- Text.Climb: the intended walk is stated for paths from the root only, the kind the one
  caller passes (`__dirname` in `src/EntitySchema.ts`). From a relative path Node's
  `dirname` reaches `.`, which is longer than a one-letter name, so the walk's
  "strictly shortening" does not hold there.
- Routing.Dispatch: when an option fails to parse, the options written into the request
  before the failure are not returned. The result is only the failure.
- The help and UI classes of the CLI, and the application wiring with its dependency
  injection container, are outside the core.
- The `merge` strategy of a binding calls an entry method whose body is not part of this
  model. It is a function parameter.
- The two versions of the storage entry disagree. `src/EntityStorageEntry.ts` has no
  `clean`, `substitute` or `schema`. The model uses one entry record, and follows the
  state rule the tests give for substitute (only CLEAN or DIRTY, ending DIRTY). `clean`
  sets the state to CLEAN and replaces the entity.
- GitHubCollections.IssueIds: the paged `#getAllDependencyIds` loop is modelled as one
  `blockedBy` reply holding every page.
- GitHubStorages.Commit returns the committed entries and the requests sent, not a new
  store. Rebuilding the registry's index from entries whose entities GitHub replaced is
  not modelled. The source mutates the indexed entry objects in place.
- GitHubCollections.ToIssue reads `issue_number` from the reply, as the source does.
  It does not read the reply's `number`.
- GitHubEnv.Resolve: a failing `git remote get-url origin` fails the constructor even when
  the environment alone would have been enough. This matches the source, which runs the
  command unconditionally.
- LocalStorageFiles.LoadFrom: a document whose schema cannot be resolved makes the
  whole read fail. In the source, the entries of earlier documents stay registered
  after the throw. The model returns only the failure.
- LegacyStorage.PayloadOf: an array item that is neither an object nor nullish is taken
  as the empty payload. The source stores such an item itself as the payload, which only
  a file whose schema accepts non-object items can produce.
- LegacyStorage.FetchFile: a file whose items include a nullish one fails the read. In the
  source, the entries for the items before it stay registered after the throw. The model
  returns only the failure.
- LegacyStorage.CommitFile: a file whose kept payloads cannot be printed fails the commit.
  In the source, the kept entries already carry their new hashes when `toYAML` throws.
  The model returns only the failure.
- The Application test expects `--bar` as the options key, but the code stores options
  under their tag. The model follows the code.

## Findings

| source | as written | input that shows it | evidently intended | confidence | as-written member | corrected member |
|---|---|---|---|---|---|---|
| src/gitHubStorage/GitHubEntityCollection.ts:62 | the owner is `env.owner ?? …`, and `env.owner` is never undefined, because splitting `''` yields `['']`; the git remote's owner is never used | no `GITHUB_REPOSITORY`, no `GITHUB_REPOSITORY_OWNER`, remote `git@github.com:octo/cat.git` gives owner `""` | an unset `GITHUB_REPOSITORY` contributes no owner, so the remote's owner `octo` is used | high, not executed | GitHubEnv.ConnectAsWritten (shown by GitHubEnv.OwnerFromGitIgnored) | GitHubEnv.Connect |
| src/climb.ts:15 | the loop sets `folder = dirname(path)` instead of `dirname(folder)`, so it stops after the parent | `climb('/a/b')` gives `['/a/b', '/a']` | every ancestor up to the root: `['/a/b', '/a', '/']` | high, not executed | Text.ClimbAsWritten (shown by Text.ClimbStopsEarly) | Text.Climb |
| src/localStorage/LocalStorage.ts:88 | `#commitFile` reads the file before writing it, and `#fetchFile` fails when the file does not exist | a directory store holding only new entries: they are placed in `<path>/shared.yml`, which does not exist yet, so commit fails reading it | a missing orphanage file is created with the new entries | medium, not executed | LegacyStorage.CommitFileAsWritten (shown by LegacyStorage.MissingOrphanage) | LegacyStorage.CommitFile |
