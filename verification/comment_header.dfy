/** The comment header the file store writes above each YAML document and reads back
    (src/localStorage/LocalStorageFile.ts): lines `key: value`, such as
    ` hash: …`, ` type: issue` and ` yaml-language-server: $schema=…`.
 */
module CommentHeaders {
  import opened Wrappers
  import opened Strings
  import opened EntityTypes

  /** The position of the first ':' in `s`, or `|s|` when there is none. */
  function FirstColon(s: string): (i: nat)
    ensures i <= |s|
    ensures i < |s| ==> s[i] == ':'
    ensures forall j :: 0 <= j < i ==> s[j] != ':'
    ensures ':' !in s[..i]
  {
    if |s| == 0 then 0 else if s[0] == ':' then 0 else 1 + FirstColon(s[1..])
  }

  predicate NoLineTerminator(s: string) {
    forall i :: 0 <= i < |s| ==> !IsLineTerminator(s[i])
  }

  /** The key group of `^#?\s*([^:]+):`, given everything before the first ':'. The
      engine prefers consuming '#' and as much white space as it can, then gives back
      what it must for the key to be non-empty; the key is always a non-empty suffix. */
  function CommentKey(p: string): (r: Option<string>)
    ensures r.None? <==> |p| == 0
    ensures r.Some? ==> 0 < |r.value| <= |p| && r.value == p[|p| - |r.value|..]
    ensures |p| > 0 && p[0] != '#' && !IsSpace(p[0]) ==> r == Some(p)
  {
    if |p| > 0 && p[0] == '#' then
      var q := p[1..];
      var t := TrimStart(q);
      if |t| > 0 then Some(t) else if |q| > 0 then Some(q[|q| - 1..]) else Some("#")
    else
      var t := TrimStart(p);
      if |t| > 0 then Some(t) else if |p| > 0 then Some(p[|p| - 1..]) else None
  }

  lemma KeyWithoutColon(p: string)
    requires ':' !in p
    ensures CommentKey(p).Some? ==> ':' !in CommentKey(p).value
  {
    var r := CommentKey(p);
    if r.Some? {
      NotInSuffix(p, r.value, ':');
    }
  }

  /** A character absent from a string is absent from each of its suffixes. */
  lemma NotInSuffix(p: string, k: string, c: char)
    requires c !in p && |k| <= |p| && k == p[|p| - |k|..]
    ensures c !in k
  {
    forall j | 0 <= j < |k| ensures k[j] != c {
      assert k[j] == p[|p| - |k| + j];
    }
  }

  /** The pair a line yields once split at its first ':', when both halves qualify. */
  function Pair(key: Option<string>, value: string): Option<(string, string)> {
    if key.None? || |value| == 0 || !NoLineTerminator(value) then None
    else Some((key.value, value))
  }

  /** `parseCommentBefore(line.trim())`: the regular expression
      `^#?\s*(?<key>[^:]+):\s*(?<value>.+)\s*$` on the trimmed line. The key is what
      precedes the first ':' (after an optional '#' and white space), the value what
      follows it after white space; both must be non-empty, and the value, matched by
      `.`, cannot hold a line terminator. */
  function ParseLine(raw: string): Option<(string, string)> {
    var line := Trim(raw);
    var c := FirstColon(line);
    if c == |line| then None else Pair(CommentKey(line[..c]), TrimStart(line[c + 1..]))
  }

  /** A parsed line has a non-empty key without ':' and a non-empty value on one line;
      a line without ':' yields nothing. */
  lemma ParseLineShape(raw: string)
    ensures var r := ParseLine(raw);
      && (r.Some? ==> |r.value.0| > 0 && ':' !in r.value.0)
      && (r.Some? ==> |r.value.1| > 0 && NoLineTerminator(r.value.1))
      && (':' !in Trim(raw) ==> r.None?)
  {
    var line := Trim(raw);
    var c := FirstColon(line);
    if c < |line| {
      KeyWithoutColon(line[..c]);
    }
  }

  predicate IsBreak(c: char) {
    c == '\r' || c == '\n'
  }

  /** The lines of a comment: the pieces between '\r' and '\n' characters. Splitting
      at runs of them, as the program does, gives the same pieces plus or minus empty
      ones, and an empty piece parses to nothing. */
  function SplitBreaks(s: string): (parts: seq<string>)
    ensures |parts| >= 1
    ensures forall i, j :: 0 <= i < |parts| && 0 <= j < |parts[i]| ==> !IsBreak(parts[i][j])
  {
    if |s| == 0 then [""]
    else
      var rest := SplitBreaks(s[1..]);
      if IsBreak(s[0]) then [""] + rest
      else
        var parts := [[s[0]] + rest[0]] + rest[1..];
        assert forall i :: 1 <= i < |parts| ==> parts[i] == rest[i];
        parts
  }

  /** Joining lines without breaks with '\n' and splitting again gives the lines back. */
  lemma {:induction false} SplitJoin(lines: seq<string>)
    requires |lines| >= 1
    requires forall i, j :: 0 <= i < |lines| && 0 <= j < |lines[i]| ==> !IsBreak(lines[i][j])
    ensures SplitBreaks(Join(lines, "\n")) == lines
    decreases |lines|, |lines[0]|
  {
    if |lines[0]| == 0 {
      if |lines| > 1 {
        assert Join(lines, "\n") == "\n" + Join(lines[1..], "\n");
        SplitJoin(lines[1..]);
        assert Join(lines, "\n")[1..] == Join(lines[1..], "\n");
        assert lines == [""] + lines[1..];
      }
    } else {
      var l0 := lines[0];
      var shorter := [l0[1..]] + lines[1..];
      assert shorter[1..] == lines[1..];
      if |lines| > 1 {
        assert Join(lines, "\n") == [l0[0]] + Join(shorter, "\n");
      }
      assert Join(lines, "\n") == [l0[0]] + Join(shorter, "\n");
      SplitJoin(shorter);
      assert Join(lines, "\n")[1..] == Join(shorter, "\n");
      assert [l0[0]] + l0[1..] == l0;
    }
  }

  /** The pair at `i` is the last one with its key. */
  predicate LastFor(pairs: seq<Option<(string, string)>>, i: int)
    requires 0 <= i < |pairs|
  {
    pairs[i].Some? && forall j :: i < j < |pairs| && pairs[j].Some? ==> pairs[j].value.0 != pairs[i].value.0
  }

  /** The pairs the lines yielded, in order, as a map: every key of a pair is in the
      map, holding the value of the last pair with that key. */
  function Collate(pairs: seq<Option<(string, string)>>): (m: map<string, string>)
    ensures |pairs| > 0 && pairs[|pairs| - 1].Some? ==>
      (var last := pairs[|pairs| - 1].value; last.0 in m && m[last.0] == last.1)
    ensures forall k :: k in m ==> exists i :: 0 <= i < |pairs| && pairs[i] == Some((k, m[k]))
    ensures forall i :: 0 <= i < |pairs| && pairs[i].Some? ==> pairs[i].value.0 in m
    ensures forall i :: 0 <= i < |pairs| && LastFor(pairs, i) ==> m[pairs[i].value.0] == pairs[i].value.1
    decreases |pairs|
  {
    if |pairs| == 0 then map[]
    else
      var front := pairs[..|pairs| - 1];
      var p := pairs[|pairs| - 1];
      assert pairs == front + [p];
      var m := Collate(front);
      CollateStep(front, p, m);
      if p.Some? then m[p.value.0 := p.value.1] else m
  }

  /** One more pair: its key is set to its value, and what held for the earlier pairs
      still holds for every key it does not override. */
  lemma CollateStep(front: seq<Option<(string, string)>>, p: Option<(string, string)>, m: map<string, string>)
    requires forall k :: k in m ==> exists i :: 0 <= i < |front| && front[i] == Some((k, m[k]))
    requires forall i :: 0 <= i < |front| && front[i].Some? ==> front[i].value.0 in m
    requires forall i :: 0 <= i < |front| && LastFor(front, i) ==> m[front[i].value.0] == front[i].value.1
    ensures var pairs := front + [p];
      var r := if p.Some? then m[p.value.0 := p.value.1] else m;
      && (forall k :: k in r ==> exists i :: 0 <= i < |pairs| && pairs[i] == Some((k, r[k])))
      && (forall i :: 0 <= i < |pairs| && pairs[i].Some? ==> pairs[i].value.0 in r)
      && (forall i :: 0 <= i < |pairs| && LastFor(pairs, i) ==> r[pairs[i].value.0] == pairs[i].value.1)
  {
    var pairs := front + [p];
    var r := if p.Some? then m[p.value.0 := p.value.1] else m;
    forall k | k in r ensures exists i :: 0 <= i < |pairs| && pairs[i] == Some((k, r[k])) {
      if p.Some? && k == p.value.0 {
        assert pairs[|front|] == Some((k, r[k]));
      } else {
        var i :| 0 <= i < |front| && front[i] == Some((k, m[k]));
        assert pairs[i] == front[i];
      }
    }
    forall i | 0 <= i < |pairs| && pairs[i].Some? ensures pairs[i].value.0 in r {
      if i < |front| {
        assert pairs[i] == front[i];
      }
    }
    forall i | 0 <= i < |pairs| && LastFor(pairs, i) ensures r[pairs[i].value.0] == pairs[i].value.1 {
      if i < |front| {
        assert pairs[i] == front[i];
        assert LastFor(front, i) by {
          forall j | i < j < |front| && front[j].Some? ensures front[j].value.0 != front[i].value.0 {
            assert pairs[j] == front[j];
          }
        }
        if p.Some? {
          assert pairs[|front|] == p;
        }
      }
    }
  }

  /** `parseAllCommentBefore(comment)`: every line parsed, later keys overriding. */
  function ParseAll(comment: string): map<string, string> {
    Collate(MapSeq(ParseLine, SplitBreaks(comment)))
  }

  /** The group of `/\$schema=(?<schema>.+)/u`: the text after the first `$schema=`
      that is followed by something, up to the first line terminator. */
  function SchemaPathOf(s: string): (r: Option<string>)
    ensures r.Some? ==> |r.value| > 0 && NoLineTerminator(r.value)
  {
    if |s| < 9 then None
    else if s[..8] == "$schema=" && !IsLineTerminator(s[8]) then Some(TakeLine(s[8..]))
    else SchemaPathOf(s[1..])
  }

  /** The longest prefix of `s` without a line terminator. */
  function TakeLine(s: string): (r: string)
    ensures r <= s && NoLineTerminator(r)
    ensures |r| < |s| ==> IsLineTerminator(s[|r|])
  {
    if |s| == 0 || IsLineTerminator(s[0]) then "" else [s[0]] + TakeLine(s[1..])
  }

  /** The comment `#toDocument` writes: the type (when the file mixes types), the
      schema path for editors, and the hash of the entity. */
  function HeaderLines(writeType: bool, kind: EntityType, schemaPath: string, hash: string): (lines: seq<string>)
    ensures |lines| == (if writeType then 3 else 2)
  {
    (if writeType then [HeaderLine("type", Name(kind))] else [])
    + [HeaderLine("yaml-language-server", "$schema=" + schemaPath), HeaderLine("hash", hash)]
  }

  /** One header line, ` key: value`. */
  function HeaderLine(key: string, value: string): string {
    " " + key + ": " + value
  }

  /** A header line of break-free parts has no break. */
  lemma HeaderLineUnbroken(key: string, value: string)
    requires forall j :: 0 <= j < |key| ==> !IsBreak(key[j])
    requires NoLineTerminator(value)
    ensures forall j :: 0 <= j < |HeaderLine(key, value)| ==> !IsBreak(HeaderLine(key, value)[j])
  {
    var l := HeaderLine(key, value);
    forall j | 0 <= j < |l| ensures !IsBreak(l[j]) {
      if 1 <= j < 1 + |key| {
        assert l[j] == key[j - 1];
      } else if j >= |key| + 3 {
        assert l[j] == value[j - |key| - 3];
      }
    }
  }

  /** A value that survives the header: non-empty, without a break or other line
      terminator, without white space at either end. */
  predicate Plain(s: string) {
    |s| > 0 && NoLineTerminator(s) && !IsSpace(s[0]) && !IsSpace(s[|s| - 1])
  }

  /** Trimming a space-led text whose ends are not white space gives the text. */
  lemma TrimPadded(body: string)
    requires |body| > 0 && !IsSpace(body[0]) && !IsSpace(body[|body| - 1])
    ensures TrimStart([' '] + body) == body && Trim([' '] + body) == body
  {
    assert ([' '] + body)[1..] == body;
  }

  lemma {:induction false} FirstColonAt(key: string, rest: string)
    requires ':' !in key && |rest| > 0 && rest[0] == ':'
    ensures FirstColon(key + rest) == |key|
  {
    if |key| > 0 {
      assert (key + rest)[1..] == key[1..] + rest;
      FirstColonAt(key[1..], rest);
    } else {
      assert key + rest == rest;
    }
  }

  /** A written line ` key: value` reads back as the pair. */
  lemma ReadLine(key: string, value: string)
    requires HeaderKey(key)
    requires Plain(value)
    ensures ParseLine(HeaderLine(key, value)) == Some((key, value))
  {
    var line := key + ": " + value;
    LineTrims(key, value);
    LineSplits(key, value);
    var c := FirstColon(line);
    assert CommentKey(line[..c]) == Some(key);
    assert Pair(CommentKey(line[..c]), TrimStart(line[c + 1..])) == Some((key, value));
  }

  /** Trimming a written line leaves `key: value`. */
  lemma LineTrims(key: string, value: string)
    requires HeaderKey(key)
    requires Plain(value)
    ensures Trim(HeaderLine(key, value)) == key + ": " + value
  {
    var body := key + ": " + value;
    assert HeaderLine(key, value) == [' '] + body;
    assert body[0] == key[0] && body[|body| - 1] == value[|value| - 1];
    TrimPadded(body);
  }

  /** The first ':' of `key: value` ends the key, and the value follows a space. */
  lemma LineSplits(key: string, value: string)
    requires HeaderKey(key)
    requires Plain(value)
    ensures var line := key + ": " + value;
      var c := FirstColon(line);
      c == |key| && line[..c] == key && TrimStart(line[c + 1..]) == value
  {
    var line := key + ": " + value;
    FirstColonAt(key, ": " + value);
    assert key + (": " + value) == line;
    assert line[..|key|] == key;
    assert line[|key| + 1..] == [' '] + value;
    TrimPadded(value);
  }

  /** What the header says is what the reader finds: the hash, the schema path and,
      when written, the type. */
  lemma HeaderRoundTrip(writeType: bool, kind: EntityType, schemaPath: string, hash: string)
    requires Plain(schemaPath) && Plain(hash)
    ensures var m := ParseAll(Join(HeaderLines(writeType, kind, schemaPath, hash), "\n"));
      && "hash" in m && m["hash"] == hash
      && "yaml-language-server" in m && SchemaPathOf(m["yaml-language-server"]) == Some(schemaPath)
      && (writeType <==> "type" in m)
      && (writeType ==> FromName(m["type"]) == Some(kind))
  {
    var server := "$schema=" + schemaPath;
    var typ := if writeType then Some(Name(kind)) else None;
    var pairs := HeaderPairs(typ, server, hash);
    ParseHeader(writeType, kind, schemaPath, hash);
    var m := ParseAll(Join(HeaderLines(writeType, kind, schemaPath, hash), "\n"));
    assert m == Collate(pairs);
    CollateHeader(pairs, server, hash, typ);
    SchemaPathOfPrefix(schemaPath);
    NameRoundTrip(kind);
  }

  /** The pairs a header yields, line by line. */
  function HeaderPairs(typ: Option<string>, server: string, hash: string): seq<Option<(string, string)>> {
    (if typ.Some? then [Some(("type", typ.value))] else [])
    + [Some(("yaml-language-server", server)), Some(("hash", hash))]
  }

  lemma ParseHeader(writeType: bool, kind: EntityType, schemaPath: string, hash: string)
    requires Plain(schemaPath) && Plain(hash)
    ensures ParseAll(Join(HeaderLines(writeType, kind, schemaPath, hash), "\n"))
      == Collate(HeaderPairs(if writeType then Some(Name(kind)) else None, "$schema=" + schemaPath, hash))
  {
    var lines := HeaderLines(writeType, kind, schemaPath, hash);
    LinesUnbroken(writeType, kind, schemaPath, hash);
    SplitJoin(lines);
    ParseAllLines(Join(lines, "\n"), lines);
    if writeType {
      TypedPairs(kind, schemaPath, hash);
    } else {
      UntypedPairs(kind, schemaPath, hash);
    }
  }

  /** A key the header can carry. */
  predicate HeaderKey(key: string) {
    |key| > 0 && ':' !in key && key[0] != '#' && !IsSpace(key[0])
  }

  lemma TypedPairs(kind: EntityType, schemaPath: string, hash: string)
    requires Plain(schemaPath) && Plain(hash)
    ensures MapSeq(ParseLine, HeaderLines(true, kind, schemaPath, hash))
      == HeaderPairs(Some(Name(kind)), "$schema=" + schemaPath, hash)
  {
    ServerClean(schemaPath);
    NameClean(kind);
    var server := "$schema=" + schemaPath;
    assert HeaderLines(true, kind, schemaPath, hash)
      == [HeaderLine("type", Name(kind)), HeaderLine("yaml-language-server", server), HeaderLine("hash", hash)];
    assert HeaderPairs(Some(Name(kind)), server, hash)
      == [Some(("type", Name(kind))), Some(("yaml-language-server", server)), Some(("hash", hash))];
    ReadThree("type", Name(kind), "yaml-language-server", "$schema=" + schemaPath, "hash", hash);
  }

  lemma UntypedPairs(kind: EntityType, schemaPath: string, hash: string)
    requires Plain(schemaPath) && Plain(hash)
    ensures MapSeq(ParseLine, HeaderLines(false, kind, schemaPath, hash))
      == HeaderPairs(None, "$schema=" + schemaPath, hash)
  {
    ServerClean(schemaPath);
    ReadTwo("yaml-language-server", "$schema=" + schemaPath, "hash", hash);
  }

  lemma ReadTwo(k1: string, v1: string, k2: string, v2: string)
    requires HeaderKey(k1) && HeaderKey(k2) && Plain(v1) && Plain(v2)
    ensures MapSeq(ParseLine, [HeaderLine(k1, v1), HeaderLine(k2, v2)]) == [Some((k1, v1)), Some((k2, v2))]
  {
    ReadLine(k1, v1);
    ReadLine(k2, v2);
    MapTwo(ParseLine, HeaderLine(k1, v1), HeaderLine(k2, v2), Some((k1, v1)), Some((k2, v2)));
  }

  lemma ReadThree(k1: string, v1: string, k2: string, v2: string, k3: string, v3: string)
    requires HeaderKey(k1) && HeaderKey(k2) && HeaderKey(k3) && Plain(v1) && Plain(v2) && Plain(v3)
    ensures MapSeq(ParseLine, [HeaderLine(k1, v1), HeaderLine(k2, v2), HeaderLine(k3, v3)])
      == [Some((k1, v1)), Some((k2, v2)), Some((k3, v3))]
  {
    ReadLine(k1, v1);
    ReadLine(k2, v2);
    ReadLine(k3, v3);
    MapThree(ParseLine, HeaderLine(k1, v1), HeaderLine(k2, v2), HeaderLine(k3, v3),
             Some((k1, v1)), Some((k2, v2)), Some((k3, v3)));
  }

  lemma MapTwo<A, B>(f: A -> B, a: A, b: A, fa: B, fb: B)
    requires f(a) == fa && f(b) == fb
    ensures MapSeq(f, [a, b]) == [fa, fb]
  {
  }

  lemma MapThree<A, B>(f: A -> B, a: A, b: A, c: A, fa: B, fb: B, fc: B)
    requires f(a) == fa && f(b) == fb && f(c) == fc
    ensures MapSeq(f, [a, b, c]) == [fa, fb, fc]
  {
  }

  /** `f` applied to each element. */
  function MapSeq<A, B>(f: A -> B, xs: seq<A>): (ys: seq<B>)
    ensures |ys| == |xs| && forall i :: 0 <= i < |xs| ==> ys[i] == f(xs[i])
  {
    seq(|xs|, i requires 0 <= i < |xs| => f(xs[i]))
  }

  lemma ParseAllLines(comment: string, lines: seq<string>)
    requires SplitBreaks(comment) == lines
    ensures ParseAll(comment) == Collate(MapSeq(ParseLine, lines))
  {
  }

  lemma ServerClean(schemaPath: string)
    requires Plain(schemaPath)
    ensures Plain("$schema=" + schemaPath)
  {
    var server := "$schema=" + schemaPath;
    assert server[|server| - 1] == schemaPath[|schemaPath| - 1];
    forall i | 0 <= i < |server| ensures !IsLineTerminator(server[i]) {
      if i >= 8 { assert server[i] == schemaPath[i - 8]; }
    }
  }

  lemma LinesUnbroken(writeType: bool, kind: EntityType, schemaPath: string, hash: string)
    requires Plain(schemaPath) && Plain(hash)
    ensures var lines := HeaderLines(writeType, kind, schemaPath, hash);
      forall i, j :: 0 <= i < |lines| && 0 <= j < |lines[i]| ==> !IsBreak(lines[i][j])
  {
    var lines := HeaderLines(writeType, kind, schemaPath, hash);
    ServerClean(schemaPath);
    HeaderLineUnbroken("yaml-language-server", "$schema=" + schemaPath);
    HeaderLineUnbroken("hash", hash);
    if writeType {
      NameClean(kind);
      HeaderLineUnbroken("type", Name(kind));
    }
  }

  lemma NameClean(kind: EntityType)
    ensures Plain(Name(kind)) && ':' !in Name(kind)
  {
  }

  /** The pairs of the header lines settle `yaml-language-server` and `hash`, and
      `type` exactly when a type line leads. */
  lemma CollateHeader(pairs: seq<Option<(string, string)>>, server: string, hash: string, typ: Option<string>)
    requires |pairs| == (if typ.Some? then 3 else 2)
    requires pairs[|pairs| - 2] == Some(("yaml-language-server", server))
    requires pairs[|pairs| - 1] == Some(("hash", hash))
    requires typ.Some? ==> pairs[0] == Some(("type", typ.value))
    ensures var m := Collate(pairs);
      && "hash" in m && m["hash"] == hash
      && "yaml-language-server" in m && m["yaml-language-server"] == server
      && (typ.Some? <==> "type" in m)
      && (typ.Some? ==> m["type"] == typ.value)
  {
    var front := pairs[..|pairs| - 1];
    var front2 := front[..|front| - 1];
    assert front[|front| - 1] == pairs[|pairs| - 2];
    var m2 := Collate(front2);
    if typ.Some? {
      assert front2[..0] == [];
      assert front2[0] == pairs[0];
      assert m2 == map["type" := typ.value];
    } else {
      assert front2 == [];
      assert m2 == map[];
    }
    assert Collate(front) == m2["yaml-language-server" := server];
    assert Collate(pairs) == m2["yaml-language-server" := server]["hash" := hash];
  }

  /** The schema path comes back from `$schema=<path>`. */
  lemma SchemaPathOfPrefix(path: string)
    requires |path| > 0 && NoLineTerminator(path)
    ensures SchemaPathOf("$schema=" + path) == Some(path)
  {
    var s := "$schema=" + path;
    assert s[..8] == "$schema=";
    assert s[8] == path[0];
    assert s[8..] == path;
    TakeLineAll(path);
  }

  lemma {:induction false} TakeLineAll(s: string)
    requires NoLineTerminator(s)
    ensures TakeLine(s) == s
  {
    if |s| > 0 {
      TakeLineAll(s[1..]);
      assert [s[0]] + s[1..] == s;
    }
  }
}
