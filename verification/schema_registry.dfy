/** The schemas known for each entity type, in registration order
    (src/EntitySchemaRegistry.ts). */
module SchemaRegistries {
  import opened Wrappers
  import opened Strings
  import opened EntityTypes
  import opened Json
  import opened EntitySchemas

  /** A `Map<EntityType, EntitySchema>`: each type once, in first-registration order. */
  datatype SchemaRegistry = SchemaRegistry(entries: seq<(EntityType, EntitySchema)>)

  predicate ValidRegistry(reg: SchemaRegistry) {
    forall i, j :: 0 <= i < j < |reg.entries| ==> reg.entries[i].0 != reg.entries[j].0
  }

  const EmptyRegistry := SchemaRegistry([])

  /** `get(t)`: the schema registered for `t`, or undefined. */
  function GetSchema(reg: SchemaRegistry, t: EntityType): (r: Option<EntitySchema>)
    ensures r.Some? <==> exists i :: 0 <= i < |reg.entries| && reg.entries[i].0 == t
    ensures r.Some? ==> exists i :: 0 <= i < |reg.entries| && reg.entries[i] == (t, r.value)
  {
    var i := Find(reg.entries, t);
    if i < |reg.entries| then Some(reg.entries[i].1) else None
  }

  /** `add(t, s)`: a new type goes last; a known type keeps its place and gets `s`. */
  function AddSchema(reg: SchemaRegistry, t: EntityType, s: EntitySchema): (r: SchemaRegistry)
    requires ValidRegistry(reg)
    ensures ValidRegistry(r)
    ensures GetSchema(r, t) == Some(s)
    ensures forall u :: u != t ==> GetSchema(r, u) == GetSchema(reg, u)
    ensures GetSchema(reg, t).Some? ==> |r.entries| == |reg.entries|
    ensures GetSchema(reg, t).None? ==> r.entries == reg.entries + [(t, s)]
  {
    var i := Find(reg.entries, t);
    if i < |reg.entries| then
      ReplaceKeepsOthers(reg, t, s, i);
      SchemaRegistry(reg.entries[i := (t, s)])
    else
      AppendKeepsOthers(reg, t, s);
      SchemaRegistry(reg.entries + [(t, s)])
  }

  lemma ReplaceKeepsOthers(reg: SchemaRegistry, t: EntityType, s: EntitySchema, i: nat)
    requires ValidRegistry(reg) && i < |reg.entries| && i == Find(reg.entries, t)
    ensures var r := SchemaRegistry(reg.entries[i := (t, s)]);
      && ValidRegistry(r) && GetSchema(r, t) == Some(s)
      && forall u :: u != t ==> GetSchema(r, u) == GetSchema(reg, u)
  {
    var r := SchemaRegistry(reg.entries[i := (t, s)]);
    assert forall x :: 0 <= x < |r.entries| ==> r.entries[x].0 == reg.entries[x].0;
    FindAt(r.entries, t, i);
    forall u | u != t ensures Find(r.entries, u) == Find(reg.entries, u) {
      SameTypesSameIndex(r.entries, reg.entries, u);
    }
  }

  /** The position of a type depends only on the types, not on the schemas. */
  lemma SameTypesSameIndex(a: seq<(EntityType, EntitySchema)>, b: seq<(EntityType, EntitySchema)>, u: EntityType)
    requires |a| == |b| && forall x :: 0 <= x < |a| ==> a[x].0 == b[x].0
    ensures Find(a, u) == Find(b, u)
  {
    var k := Find(b, u);
    if k < |b| {
      FindAt(a, u, k);
    }
  }

  lemma AppendKeepsOthers(reg: SchemaRegistry, t: EntityType, s: EntitySchema)
    requires ValidRegistry(reg) && Find(reg.entries, t) == |reg.entries|
    ensures var r := SchemaRegistry(reg.entries + [(t, s)]);
      && ValidRegistry(r) && GetSchema(r, t) == Some(s)
      && forall u :: u != t ==> GetSchema(r, u) == GetSchema(reg, u)
  {
    var r := SchemaRegistry(reg.entries + [(t, s)]);
    FindAt(r.entries, t, |reg.entries|);
    forall u | u != t ensures GetSchema(r, u) == GetSchema(reg, u) {
      var k := Find(reg.entries, u);
      if k < |reg.entries| {
        FindAt(r.entries, u, k);
      }
    }
  }

  /** `all`: every registered schema, one per type, in registration order. */
  function AllSchemas(reg: SchemaRegistry): (r: seq<EntitySchema>)
    ensures |r| == |reg.entries|
    ensures forall i :: 0 <= i < |r| ==> r[i] == reg.entries[i].1
  {
    seq(|reg.entries|, i requires 0 <= i < |reg.entries| => reg.entries[i].1)
  }

  /** `String.prototype.replaceAll` with a literal pattern: one left-to-right scan that
      replaces each occurrence it meets and never looks at a replacement again. */
  function ReplaceAll(s: string, pattern: string, replacement: string): string
    requires |pattern| > 0
  {
    if |s| == 0 then ""
    else if StartsWith(s, pattern) then replacement + ReplaceAll(s[|pattern|..], pattern, replacement)
    else [s[0]] + ReplaceAll(s[1..], pattern, replacement)
  }

  /** The scan copies the text before the leftmost occurrence, replaces that occurrence,
      and resumes after it: matches never overlap and a replacement is never rescanned. */
  lemma {:induction false} ReplaceAllLeftmost(s: string, pattern: string, replacement: string, i: nat)
    requires |pattern| > 0 && OccursAt(s, pattern, i)
    requires forall j :: 0 <= j < i ==> !OccursAt(s, pattern, j)
    ensures ReplaceAll(s, pattern, replacement)
         == s[..i] + replacement + ReplaceAll(s[i + |pattern|..], pattern, replacement)
    decreases i
  {
    if i == 0 {
      assert s[..|pattern|] == pattern;
    } else {
      var t := s[1..];
      OccursShift(s, pattern, i);
      ReplaceAllLeftmost(t, pattern, replacement, i - 1);
      ReplaceAllSkip(s, pattern, replacement);
      assert t[i - 1 + |pattern|..] == s[i + |pattern|..];
      assert s[..i] == [s[0]] + t[..i - 1];
    }
  }

  /** Dropping the first character moves every occurrence one place left. */
  lemma OccursShift(s: string, pattern: string, i: nat)
    requires 0 < i && OccursAt(s, pattern, i)
    requires forall j :: 0 <= j < i ==> !OccursAt(s, pattern, j)
    ensures OccursAt(s[1..], pattern, i - 1)
    ensures forall j :: 0 <= j < i - 1 ==> !OccursAt(s[1..], pattern, j)
  {
    var t := s[1..];
    assert t[i - 1..i - 1 + |pattern|] == s[i..i + |pattern|];
    forall j | 0 <= j < i - 1 ensures !OccursAt(t, pattern, j) {
      assert !OccursAt(s, pattern, j + 1);
      if j + |pattern| <= |t| {
        assert t[j..j + |pattern|] == s[j + 1..j + 1 + |pattern|];
      }
    }
  }

  /** Where the pattern does not start the text, its first character is copied. */
  lemma ReplaceAllSkip(s: string, pattern: string, replacement: string)
    requires |pattern| > 0 && |s| > 0 && !OccursAt(s, pattern, 0)
    ensures ReplaceAll(s, pattern, replacement) == [s[0]] + ReplaceAll(s[1..], pattern, replacement)
  {
    assert !StartsWith(s, pattern);
  }

  /** Without an occurrence of the pattern the text is copied unchanged. */
  lemma {:induction false} ReplaceAllAbsent(s: string, pattern: string, replacement: string)
    requires |pattern| > 0
    requires forall j :: 0 <= j < |s| ==> !OccursAt(s, pattern, j)
    ensures ReplaceAll(s, pattern, replacement) == s
  {
    if |s| > 0 {
      assert !OccursAt(s, pattern, 0);
      assert !StartsWith(s, pattern);
      var t := s[1..];
      forall j | 0 <= j < |t| ensures !OccursAt(t, pattern, j) {
        assert !OccursAt(s, pattern, j + 1);
        if j + |pattern| <= |t| {
          assert t[j..j + |pattern|] == s[j + 1..j + 1 + |pattern|];
        }
      }
      ReplaceAllAbsent(t, pattern, replacement);
    }
  }

  /** Deleting occurrences never lengthens the text. */
  lemma {:induction false} DeletionShortens(s: string, pattern: string)
    requires |pattern| > 0
    ensures |ReplaceAll(s, pattern, "")| <= |s|
  {
    if |s| > 0 {
      if StartsWith(s, pattern) {
        DeletionShortens(s[|pattern|..], pattern);
      } else {
        DeletionShortens(s[1..], pattern);
      }
    }
  }

  /** Every backslash turned into a slash, every other character kept. */
  function Slashed(s: string): (r: string)
    ensures |r| == |s| && '\\' !in r
  {
    seq(|s|, i requires 0 <= i < |s| => if s[i] == '\\' then '/' else s[i])
  }

  /** Replacing the one-character pattern `\` is the character-by-character `Slashed`. */
  lemma {:induction false} ReplaceBackslashes(s: string)
    ensures ReplaceAll(s, "\\", "/") == Slashed(s)
  {
    if |s| > 0 {
      ReplaceBackslashes(s[1..]);
      if StartsWith(s, "\\") {
        assert s[1..] == s[|"\\"|..];
      }
      assert Slashed(s) == [Slashed(s)[0]] + Slashed(s[1..]);
    }
  }

  /** Replacing a one-character pattern by another character leaves no occurrence. */
  lemma {:induction false} ReplaceCharRemoves(s: string, c: char, d: char)
    requires c != d
    ensures c !in ReplaceAll(s, [c], [d])
    ensures |ReplaceAll(s, [c], [d])| == |s|
  {
    if |s| > 0 {
      ReplaceCharRemoves(s[1..], c, d);
      if StartsWith(s, [c]) {
        assert s[|[c]|..] == s[1..];
      }
    }
  }

  /** `normalize` in `resolve`: backslashes become slashes, then each `../` the scan
      meets is deleted. */
  function Normalize(path: string): (r: string)
    ensures '\\' !in r
    ensures r == ReplaceAll(Slashed(path), "../", "")
    ensures |r| <= |path|
  {
    var slashed := ReplaceAll(path, "\\", "/");
    ReplaceBackslashes(path);
    var r := ReplaceAll(slashed, "../", "");
    DeletionAddsNothing(slashed, "../", '\\');
    DeletionShortens(slashed, "../");
    r
  }

  /** Deleting occurrences of a pattern never introduces a character. */
  lemma {:induction false} DeletionAddsNothing(s: string, pattern: string, c: char)
    requires |pattern| > 0 && c !in s
    ensures c !in ReplaceAll(s, pattern, "")
  {
    if |s| > 0 {
      if StartsWith(s, pattern) {
        DeletionAddsNothing(s[|pattern|..], pattern, c);
      } else {
        DeletionAddsNothing(s[1..], pattern, c);
      }
    }
  }

  /** The deletion is a single pass: the characters around a deleted `../` can close up
      into a new one, which stays. */
  lemma NormalizeSinglePass()
    ensures Normalize("..././") == "../"
  {
    var s := "..././";
    ReplaceOnAbsent(s, "\\", "/");
    assert ReplaceAll("/", "../", "") == "/";
    assert ReplaceAll("./", "../", "") == "./";
    assert s[1..][3..] == "./";
    assert ReplaceAll(s[1..], "../", "") == "./";
    assert ReplaceAll(s, "../", "") == "." + "./";
  }

  /** Backslash separators are read as slashes before the parent references go. */
  lemma NormalizeBackslashes()
    ensures Normalize("a\\..\\b") == "a/b"
  {
    BackslashesToSlashes();
    ParentReferenceDropped();
  }

  lemma BackslashesToSlashes()
    ensures ReplaceAll("a\\..\\b", "\\", "/") == "a/../b"
  {
    var t := "a\\..\\b";
    assert ReplaceAll("b", "\\", "/") == "b";
    assert "\\b"[1..] == "b";
    assert ReplaceAll("\\b", "\\", "/") == "/b";
    assert ReplaceAll(".\\b", "\\", "/") == "./b";
    assert ReplaceAll("..\\b", "\\", "/") == "../b";
    assert ReplaceAll(t[1..], "\\", "/") == "/../b";
  }

  lemma ParentReferenceDropped()
    ensures ReplaceAll("a/../b", "../", "") == "a/b"
  {
    assert ReplaceAll("b", "../", "") == "b";
    assert "../b"[3..] == "b";
    assert ReplaceAll("../b", "../", "") == "b";
    assert ReplaceAll("/../b", "../", "") == "/b";
  }

  /** A text without the pattern is left as it is. */
  lemma {:induction false} ReplaceOnAbsent(s: string, pattern: string, replacement: string)
    requires |pattern| == 1 && pattern[0] !in s
    ensures ReplaceAll(s, pattern, replacement) == s
  {
    if |s| > 0 {
      assert s[0] != pattern[0];
      ReplaceOnAbsent(s[1..], pattern, replacement);
    }
  }

  /** The first schema, in registration order, whose normalised file path contains the
      normalised query. */
  function ResolveFrom(schemas: seq<EntitySchema>, query: string): (r: Option<EntitySchema>)
    ensures r.Some? ==> exists i :: (0 <= i < |schemas| && schemas[i] == r.value
      && Contains(Normalize(schemas[i].filePath), query)
      && forall j :: 0 <= j < i ==> !Contains(Normalize(schemas[j].filePath), query))
    ensures r.None? ==> forall i :: 0 <= i < |schemas| ==> !Contains(Normalize(schemas[i].filePath), query)
  {
    if |schemas| == 0 then None
    else if Contains(Normalize(schemas[0].filePath), query) then Some(schemas[0])
    else
      var r := ResolveFrom(schemas[1..], query);
      assert forall i :: 1 <= i < |schemas| ==> schemas[i] == schemas[1..][i - 1];
      r
  }

  /** `resolve(path)`. */
  function Resolve(reg: SchemaRegistry, path: string): Option<EntitySchema> {
    ResolveFrom(AllSchemas(reg), Normalize(path))
  }

  /** Every text contains the empty text, so resolving '' finds the first schema. */
  lemma ResolveEmpty(reg: SchemaRegistry)
    requires |reg.entries| > 0
    ensures Resolve(reg, "") == Some(reg.entries[0].1)
  {
    assert Normalize("") == "";
    EverythingContainsEmpty(Normalize(reg.entries[0].1.filePath));
  }
}
