/** Routes and the router of the command line (src/cli/Route.ts, src/cli/Router.ts).

    A route is a path of words, possibly with `*` wildcards, matched against the
    words typed so far. Its pattern is `^` followed by the path with each `*` read as
    `.*`, so a route matches every text that STARTS with something the path's glob
    describes. Two special routes both have the path `*`: `any`, whose commands join
    every request, and `unknown`, whose commands run when no other route matches.

    Routes are compared by identity in the program; here each route carries its kind,
    and the routes a program creates carry distinct numbers.
 */
module Routing {
  import opened Wrappers
  import opened Json
  import opened Strings
  import opened CliCommands

  datatype RouteKind = AnyRoute | UnknownRoute | Plain(id: nat)

  datatype Route = Route(path: string, kind: RouteKind)

  const Wildcard: char := '*'

  /** `Route.any` and `Route.unknown`. */
  const Any := Route("*", AnyRoute)
  const Unknown := Route("*", UnknownRoute)

  /** A character of the class `[a-z0-9*\s]` under the `iu` flags. With both
      flags a character matches `[a-z]` when its simple case folding lands in
      that range: the ASCII letters, LATIN SMALL LETTER LONG S (folds to `s`)
      and KELVIN SIGN (folds to `k`). */
  predicate IsPathChar(c: char) {
    IsAsciiUpper(c) || IsAsciiLower(c) || c == '\U{017F}' || c == '\U{212A}'
    || IsAsciiDigit(c) || c == Wildcard || IsSpace(c)
  }

  /** `isValidPath`: true when the path has NONE of those characters. The
      constructor throws exactly when this holds, so the name reads backwards. */
  predicate IsValidPath(path: string) {
    forall i :: 0 <= i < |path| ==> !IsPathChar(path[i])
  }

  // ------------------------------------------------------------- normalising

  /** White space only as single ASCII spaces, never two in a row. */
  predicate Squeezed(s: string) {
    && (forall i :: 0 <= i < |s| && IsSpace(s[i]) ==> s[i] == ' ')
    && (forall i :: 0 <= i < |s| - 1 ==> !(s[i] == ' ' && s[i + 1] == ' '))
  }

  /** For each character of `s` other than white space, whether white space comes
      right before it; `spaced` says whether the text before `s` ended in white space. */
  function Gaps(s: string, spaced: bool): seq<bool> {
    if |s| == 0 then []
    else if IsSpace(s[0]) then Gaps(s[1..], true)
    else [spaced] + Gaps(s[1..], false)
  }

  /** Whether `s` ends in white space. */
  predicate Trail(s: string) {
    |s| > 0 && IsSpace(s[|s| - 1])
  }

  /** What replacing every run of `\s` in `s` by one space must give: a squeezed
      string with the same other characters in the same order, white space before
      the same ones of them, and white space at the end exactly when `s` has it. */
  predicate CollapsedFrom(s: string, r: string) {
    && Squeezed(r)
    && NonSpace(r) == NonSpace(s)
    && Gaps(r, false) == Gaps(s, false)
    && (Trail(r) <==> Trail(s))
  }

  /** Replaces every run of `\s` characters by one space. */
  function Collapse(s: string): (r: string)
    ensures CollapsedFrom(s, r)
    ensures |r| <= |s|
    ensures |s| > 0 ==> |r| > 0 && (IsSpace(r[0]) <==> IsSpace(s[0]))
    decreases |s|
  {
    if |s| == 0 then []
    else if !IsSpace(s[0]) then
      var t := Collapse(s[1..]);
      var r := [s[0]] + t;
      CollapseCharStep(s, t, r);
      r
    else
      var rest := TrimStart(s);
      if |rest| == 0 then
        assert s[..|s|] == s;
        CollapseAllSpace(s);
        [' ']
      else
        var t := Collapse(rest);
        var r := [' '] + t;
        CollapseRunStep(s, rest, t, r);
        r
  }

  /** A character other than white space is kept in front of the collapsed rest. */
  lemma CollapseCharStep(s: string, t: string, r: string)
    requires |s| > 0 && !IsSpace(s[0])
    requires CollapsedFrom(s[1..], t) && |t| <= |s| - 1
    requires r == [s[0]] + t
    ensures CollapsedFrom(s, r)
    ensures |r| <= |s| && |r| > 0 && !IsSpace(r[0])
  {
    assert r[1..] == t;
    assert Trail(r) == (if |t| > 0 then Trail(t) else false);
    assert Trail(s) == (if |s| > 1 then Trail(s[1..]) else false);
  }

  /** A string of white space only becomes one space. */
  lemma CollapseAllSpace(s: string)
    requires |s| > 0 && AllSpace(s)
    ensures CollapsedFrom(s, [' '])
  {
    AllSpaceShape(s, false);
    assert [' '][1..] == [];
  }

  /** White space alone has no other characters, no gaps, and a blank end. */
  lemma {:induction false} AllSpaceShape(s: string, spaced: bool)
    requires |s| > 0 && AllSpace(s)
    ensures NonSpace(s) == [] && Gaps(s, spaced) == [] && Trail(s)
    decreases |s|
  {
    if |s| > 1 {
      AllSpaceShape(s[1..], true);
    }
  }

  /** A leading run of white space becomes one space in front of the collapsed rest. */
  lemma CollapseRunStep(s: string, rest: string, t: string, r: string)
    requires |s| > 0 && IsSpace(s[0]) && rest == TrimStart(s) && |rest| > 0
    requires CollapsedFrom(rest, t) && |t| <= |rest|
    requires |t| > 0 && !IsSpace(t[0])
    requires r == [' '] + t
    ensures CollapsedFrom(s, r)
    ensures |r| <= |s| && IsSpace(r[0])
  {
    RunSqueezed(t, r);
    RunNonSpace(s, rest, t, r);
    RunGaps(s, rest, t, r);
    RunTrail(s, rest, t, r);
  }

  lemma RunSqueezed(t: string, r: string)
    requires Squeezed(t) && |t| > 0 && !IsSpace(t[0]) && r == [' '] + t
    ensures Squeezed(r)
  {
    assert forall i :: 1 <= i < |r| ==> r[i] == t[i - 1];
  }

  lemma RunNonSpace(s: string, rest: string, t: string, r: string)
    requires rest == TrimStart(s) && NonSpace(t) == NonSpace(rest) && r == [' '] + t
    ensures NonSpace(r) == NonSpace(s)
  {
    assert r[1..] == t;
    NonSpaceTrimStart(s);
  }

  lemma RunGaps(s: string, rest: string, t: string, r: string)
    requires |s| > 0 && IsSpace(s[0]) && rest == TrimStart(s) && |rest| > 0
    requires |t| > 0 && !IsSpace(t[0]) && Gaps(t, false) == Gaps(rest, false)
    requires r == [' '] + t
    ensures Gaps(r, false) == Gaps(s, false)
  {
    assert r[1..] == t;
    GapsTrimStart(s, false);
    GapsFlag(t);
    GapsFlag(rest);
  }

  lemma RunTrail(s: string, rest: string, t: string, r: string)
    requires rest == TrimStart(s) && |rest| > 0
    requires |t| > 0 && (Trail(t) <==> Trail(rest)) && r == [' '] + t
    ensures Trail(r) <==> Trail(s)
  {
    assert rest[|rest| - 1] == s[|s| - 1];
    assert r[|r| - 1] == t[|t| - 1];
  }

  /** White space in front of `s` shows only in the flag of its first other character. */
  lemma GapsFlag(s: string)
    requires |s| > 0 && !IsSpace(s[0])
    ensures Gaps(s, true) == [true] + Gaps(s, false)[1..]
  {
  }

  /** A leading run of white space counts as one gap before what follows it. */
  lemma {:induction false} GapsTrimStart(s: string, spaced: bool)
    requires |s| > 0 && IsSpace(s[0])
    ensures Gaps(s, spaced) == Gaps(TrimStart(s), true)
    decreases |s|
  {
    if |s| > 1 && IsSpace(s[1]) {
      GapsTrimStart(s[1..], true);
    }
  }

  /** The string built from its other characters, its gap flags and its trailing flag. */
  function Assemble(ns: string, gaps: seq<bool>, trail: bool): string
    requires |ns| == |gaps|
  {
    if |ns| == 0 then (if trail then [' '] else [])
    else (if gaps[0] then [' '] else []) + [ns[0]] + Assemble(ns[1..], gaps[1..], trail)
  }

  lemma {:induction false} GapsLength(s: string, spaced: bool)
    ensures |Gaps(s, spaced)| == |NonSpace(s)|
    decreases |s|
  {
    if |s| > 0 {
      GapsLength(s[1..], IsSpace(s[0]));
    }
  }

  /** A squeezed string is determined by its other characters, gaps and trailing flag. */
  lemma {:induction false} Reassemble(r: string)
    requires Squeezed(r)
    ensures |NonSpace(r)| == |Gaps(r, false)|
    ensures r == Assemble(NonSpace(r), Gaps(r, false), Trail(r))
    decreases |r|
  {
    GapsLength(r, false);
    if |r| > 0 && !IsSpace(r[0]) {
      SqueezedTail(r);
      Reassemble(r[1..]);
      ReassembleChar(r, r[1..]);
    } else if |r| > 1 {
      SqueezedTail(r);
      SqueezedTail(r[1..]);
      assert r[1..][1..] == r[2..];
      assert r[0] == ' ' && !IsSpace(r[1]) by {
        assert !(r[0] == ' ' && r[1] == ' ');
      }
      Reassemble(r[2..]);
      ReassembleSpace(r, r[2..]);
    }
  }

  lemma SqueezedTail(r: string)
    requires Squeezed(r) && |r| > 0
    ensures Squeezed(r[1..])
  {
    var u := r[1..];
    forall i | 0 <= i < |u| - 1 ensures !(u[i] == ' ' && u[i + 1] == ' ') {
      assert u[i] == r[i + 1] && u[i + 1] == r[i + 2];
    }
  }

  /** A leading character other than white space goes in front of the rest. */
  lemma ReassembleChar(r: string, u: string)
    requires |r| > 0 && !IsSpace(r[0]) && u == r[1..]
    requires |NonSpace(u)| == |Gaps(u, false)| && u == Assemble(NonSpace(u), Gaps(u, false), Trail(u))
    requires |NonSpace(r)| == |Gaps(r, false)|
    ensures r == Assemble(NonSpace(r), Gaps(r, false), Trail(r))
  {
    assert NonSpace(r) == [r[0]] + NonSpace(u);
    assert Gaps(r, false) == [false] + Gaps(u, false);
    assert Trail(r) == Trail(u) by {
      assert |u| > 0 ==> r[|r| - 1] == u[|u| - 1];
    }
    assert r == [r[0]] + u;
  }

  /** A leading space is followed by a character other than white space, and both go
      in front of the rest. */
  lemma ReassembleSpace(r: string, w: string)
    requires |r| > 1 && r[0] == ' ' && !IsSpace(r[1]) && w == r[2..]
    requires |NonSpace(w)| == |Gaps(w, false)| && w == Assemble(NonSpace(w), Gaps(w, false), Trail(w))
    requires |NonSpace(r)| == |Gaps(r, false)|
    ensures r == Assemble(NonSpace(r), Gaps(r, false), Trail(r))
  {
    assert r[1..][1..] == w;
    assert NonSpace(r) == [r[1]] + NonSpace(w);
    assert Gaps(r, false) == [true] + Gaps(w, false);
    assert Trail(r) == Trail(w) by {
      assert |w| > 0 ==> r[|r| - 1] == w[|w| - 1];
    }
    assert r == [' '] + [r[1]] + w;
  }

  /** `CollapsedFrom` pins the result down: at most one string satisfies it. */
  lemma CollapsedFromUnique(s: string, a: string, b: string)
    requires CollapsedFrom(s, a) && CollapsedFrom(s, b)
    ensures a == b
  {
    Reassemble(a);
    Reassemble(b);
  }

  /** `normalizePath`: trimmed, with each run of white space made one space. */
  function NormalizePath(path: string): (r: string)
    ensures Normalized(r)
    ensures CollapsedFrom(Trim(path), r)
    ensures NonSpace(r) == NonSpace(path)
  {
    var t := Trim(path);
    NonSpaceTrim(path);
    CollapseTrimmed(t);
    Collapse(t)
  }

  lemma CollapseTrimmed(t: string)
    requires |t| > 0 ==> !IsSpace(t[0]) && !IsSpace(t[|t| - 1])
    ensures Normalized(Collapse(t))
  {
  }

  /** No white space but single spaces between words. */
  predicate Normalized(s: string) {
    Squeezed(s) && (|s| > 0 ==> !IsSpace(s[0]) && !IsSpace(s[|s| - 1]))
  }

  /** A squeezed string is its own collapse. */
  lemma CollapseNormalized(s: string)
    requires Squeezed(s)
    ensures Collapse(s) == s
  {
    CollapsedFromUnique(s, Collapse(s), s);
  }

  lemma NormalizeIdempotent(path: string)
    ensures NormalizePath(NormalizePath(path)) == NormalizePath(path)
  {
    NormalizedFixed(NormalizePath(path));
  }

  /** Normalising a path already in normal form gives it back. */
  lemma NormalizedFixed(p: string)
    requires Normalized(p)
    ensures NormalizePath(p) == p
  {
    if |p| > 0 {
      TrimmedAlready(p);
    }
    assert Trim(p) == p;
    CollapseNormalized(p);
  }

  /** The constructor: a path without any letter, digit, `*` or white space is
      rejected; otherwise the normalised path is kept. */
  function MakeRoute(path: string, id: nat): (r: Result<Route>)
    ensures r.Failure? <==> IsValidPath(path)
    ensures r.Failure? ==> r.error == "String \"" + path + "\" is not valid command."
    ensures r.Success? ==> r.value == Route(NormalizePath(path), Plain(id)) && Normalized(r.value.path)
  {
    if IsValidPath(path) then Failure("String \"" + path + "\" is not valid command.")
    else Success(Route(NormalizePath(path), Plain(id)))
  }

  /** The empty path is rejected. */
  lemma EmptyPathRejected(id: nat)
    ensures MakeRoute("", id).Failure?
  {
  }

  /** `hasWildcard`. */
  predicate HasWildcard(r: Route) {
    Wildcard in r.path
  }

  // ---------------------------------------------------------------- matching

  /** Whether some prefix of `s` matches the glob `p`, where `*` stands for any run of
      characters other than line terminators (a regular-expression `.*`). */
  predicate GlobPrefix(p: string, s: string)
    decreases |p|, |s|, 0
  {
    if |p| == 0 then true
    else if p[0] == Wildcard then StarThen(p[1..], s)
    else |s| > 0 && s[0] == p[0] && GlobPrefix(p[1..], s[1..])
  }

  /** A run of non-terminators, then the glob `p`. */
  predicate StarThen(p: string, s: string)
    decreases |p|, |s|, 1
  {
    GlobPrefix(p, s) || (|s| > 0 && !IsLineTerminator(s[0]) && StarThen(p, s[1..]))
  }

  /** `match(text)`. */
  predicate Match(r: Route, text: string) {
    GlobPrefix(r.path, text)
  }

  /** The match is anchored only at the start: what matches still matches with
      anything appended. */
  lemma {:induction false} MatchIsPrefixClosed(p: string, s: string, t: string)
    requires GlobPrefix(p, s)
    ensures GlobPrefix(p, s + t)
    decreases |p|, |s|, 0
  {
    if |p| > 0 {
      if p[0] == Wildcard {
        StarPrefixClosed(p[1..], s, t);
      } else {
        assert (s + t)[1..] == s[1..] + t;
        MatchIsPrefixClosed(p[1..], s[1..], t);
      }
    }
  }

  lemma {:induction false} StarPrefixClosed(p: string, s: string, t: string)
    requires StarThen(p, s)
    ensures StarThen(p, s + t)
    decreases |p|, |s|, 1
  {
    if GlobPrefix(p, s) {
      MatchIsPrefixClosed(p, s, t);
    } else {
      assert (s + t)[1..] == s[1..] + t;
      StarPrefixClosed(p, s[1..], t);
    }
  }

  /** Without a wildcard, a route matches exactly the texts that start with its path. */
  lemma {:induction false} LiteralMatch(p: string, s: string)
    requires Wildcard !in p
    ensures GlobPrefix(p, s) <==> StartsWith(s, p)
    decreases |p|
  {
    if |p| > 0 && |s| > 0 {
      LiteralMatch(p[1..], s[1..]);
      if StartsWith(s, p) {
        assert s[1..][..|p| - 1] == s[..|p|][1..];
      }
      if StartsWith(s[1..], p[1..]) && s[0] == p[0] {
        assert s[..|p|] == [s[0]] + s[1..][..|p| - 1];
      }
    }
  }

  /** `any` and `unknown` match every text. */
  lemma SpecialRoutesMatchAll(text: string)
    ensures Match(Any, text) && Match(Unknown, text)
  {
    assert Any.path[1..] == [];
  }

  // ------------------------------------------------------------------ router

  /** An endpoint: a route and the commands registered on it, by number. */
  datatype Endpoint = Endpoint(route: Route, commands: seq<nat>)

  /** No endpoint lists a command twice. */
  predicate NoRepeats(eps: seq<Endpoint>) {
    forall k :: 0 <= k < |eps| ==> forall i, j :: 0 <= i < j < |eps[k].commands| ==> eps[k].commands[i] != eps[k].commands[j]
  }

  /** The endpoint `add` merges into: the same route, or, when neither is `unknown`,
      the same path. */
  predicate Serves(e: Endpoint, route: Route) {
    e.route == route || (e.route.kind != UnknownRoute && route.kind != UnknownRoute && e.route.path == route.path)
  }

  function FirstServing(eps: seq<Endpoint>, route: Route): (i: nat)
    ensures i <= |eps|
    ensures i < |eps| ==> Serves(eps[i], route)
    ensures forall j :: 0 <= j < i ==> !Serves(eps[j], route)
  {
    if |eps| == 0 then 0
    else if Serves(eps[0], route) then 0
    else 1 + FirstServing(eps[1..], route)
  }

  /** `add(route, command)`: the command joins the first endpoint serving the route,
      or a new endpoint at the end; an endpoint never lists a command twice. */
  function AddRoute(eps: seq<Endpoint>, route: Route, cmd: nat): (r: seq<Endpoint>)
    requires NoRepeats(eps)
    ensures NoRepeats(r)
    ensures var i := FirstServing(eps, route);
      i == |eps| ==> r == eps + [Endpoint(route, [cmd])]
    ensures var i := FirstServing(eps, route);
      i < |eps| ==> (
        && |r| == |eps| && r[i].route == eps[i].route && cmd in r[i].commands
        && (forall j :: 0 <= j < |eps| && j != i ==> r[j] == eps[j])
        && r[i].commands == eps[i].commands + (if cmd in eps[i].commands then [] else [cmd]))
  {
    var i := FirstServing(eps, route);
    if i == |eps| then eps + [Endpoint(route, [cmd])]
    else if cmd in eps[i].commands then eps
    else eps[i := eps[i].(commands := eps[i].commands + [cmd])]
  }

  /** Registering the same command on the same route twice is the same as once. */
  lemma AddRouteIdempotent(eps: seq<Endpoint>, route: Route, cmd: nat)
    requires NoRepeats(eps)
    ensures AddRoute(AddRoute(eps, route, cmd), route, cmd) == AddRoute(eps, route, cmd)
  {
    var r := AddRoute(eps, route, cmd);
    var i := FirstServing(eps, route);
    if i == |eps| {
      assert Serves(r[|eps|], route);
      assert forall j :: 0 <= j < |eps| ==> r[j] == eps[j];
      FirstServingAfter(eps, r, route, |eps|);
    } else {
      FirstServingAfter(eps, r, route, i);
    }
  }

  lemma {:induction false} FirstServingAfter(eps: seq<Endpoint>, r: seq<Endpoint>, route: Route, i: nat)
    requires i < |r| && i <= |eps| && Serves(r[i], route)
    requires forall j :: 0 <= j < i ==> r[j] == eps[j] && !Serves(eps[j], route)
    ensures FirstServing(r, route) == i
    decreases i
  {
    if i > 0 {
      FirstServingAfter(eps[1..], r[1..], route, i - 1);
    }
  }

  /** The commands of the endpoints, in order. */
  function Flatten(eps: seq<Endpoint>): seq<nat> {
    if |eps| == 0 then [] else Flatten(eps[..|eps| - 1]) + eps[|eps| - 1].commands
  }

  lemma FlattenSnoc(m: seq<Endpoint>, e: Endpoint)
    ensures Flatten(m + [e]) == Flatten(m) + e.commands
  {
    assert (m + [e])[..|m|] == m;
  }

  /** The endpoints other than `unknown` whose route matches `path`, in order. */
  function Matching(eps: seq<Endpoint>, path: string): (r: seq<Endpoint>)
    ensures forall k :: 0 <= k < |r| ==> r[k] in eps && r[k].route.kind != UnknownRoute && Match(r[k].route, path)
  {
    if |eps| == 0 then []
    else
      var e := eps[|eps| - 1];
      Matching(eps[..|eps| - 1], path) + (if e.route.kind != UnknownRoute && Match(e.route, path) then [e] else [])
  }

  /** A matching endpoint that is neither `any` nor `unknown`. */
  predicate Concrete(e: Endpoint, path: string) {
    e.route.kind != UnknownRoute && e.route.kind != AnyRoute && Match(e.route, path)
  }

  /** The position of the last concrete match, if any. */
  function LastConcrete(eps: seq<Endpoint>, path: string): (k: Option<nat>)
    ensures k.Some? ==> (k.value < |eps| && Concrete(eps[k.value], path)
      && (forall j :: k.value < j < |eps| ==> !Concrete(eps[j], path)))
    ensures k.None? ==> forall j :: 0 <= j < |eps| ==> !Concrete(eps[j], path)
  {
    if |eps| == 0 then None
    else if Concrete(eps[|eps| - 1], path) then Some(|eps| - 1)
    else
      var k := LastConcrete(eps[..|eps| - 1], path);
      assert forall j :: 0 <= j < |eps| - 1 ==> eps[..|eps| - 1][j] == eps[j];
      k
  }

  /** The loop of `resolve`: the route stays `unknown` until a concrete endpoint
      matches; every matching endpoint other than `unknown` adds its commands. */
  function ResolveLoop(eps: seq<Endpoint>, path: string): (r: Endpoint)
    ensures r.commands == Flatten(Matching(eps, path))
    ensures LastConcrete(eps, path).None? ==> r.route == Unknown
    ensures LastConcrete(eps, path).Some? ==> r.route == eps[LastConcrete(eps, path).value].route
  {
    if |eps| == 0 then Endpoint(Unknown, [])
    else
      var front := eps[..|eps| - 1];
      var e := eps[|eps| - 1];
      var r := ResolveLoop(front, path);
      var out :=
        if Concrete(e, path) then Endpoint(e.route, r.commands + e.commands)
        else if e.route.kind == UnknownRoute || !Match(e.route, path) then r
        else Endpoint(r.route, r.commands + e.commands);
      ResolveStep(eps, path, r, out);
      out
  }

  /** One step of the loop: from what the loop gives for all but the last endpoint to
      what it gives for all of them. */
  lemma ResolveStep(eps: seq<Endpoint>, path: string, r: Endpoint, out: Endpoint)
    requires |eps| > 0
    requires var front := eps[..|eps| - 1];
      && r.commands == Flatten(Matching(front, path))
      && (LastConcrete(front, path).None? ==> r.route == Unknown)
      && (LastConcrete(front, path).Some? ==> r.route == front[LastConcrete(front, path).value].route)
    requires var e := eps[|eps| - 1];
      out ==
        if Concrete(e, path) then Endpoint(e.route, r.commands + e.commands)
        else if e.route.kind == UnknownRoute || !Match(e.route, path) then r
        else Endpoint(r.route, r.commands + e.commands)
    ensures out.commands == Flatten(Matching(eps, path))
    ensures LastConcrete(eps, path).None? ==> out.route == Unknown
    ensures LastConcrete(eps, path).Some? ==> out.route == eps[LastConcrete(eps, path).value].route
  {
    var front := eps[..|eps| - 1];
    var e := eps[|eps| - 1];
    var matched := e.route.kind != UnknownRoute && Match(e.route, path);
    assert Matching(eps, path) == Matching(front, path) + (if matched then [e] else []);
    assert !matched ==> Matching(front, path) + [] == Matching(front, path);
    FlattenSnoc(Matching(front, path), e);
    if !Concrete(e, path) {
      assert LastConcrete(eps, path) == LastConcrete(front, path);
      assert LastConcrete(front, path).Some? ==> front[LastConcrete(front, path).value] == eps[LastConcrete(front, path).value];
    }
  }

  /** The first endpoint of the `unknown` route. */
  function UnknownEndpoint(eps: seq<Endpoint>): (r: Option<Endpoint>)
    ensures r.Some? ==> r.value in eps && r.value.route == Unknown
    ensures r.None? ==> forall k :: 0 <= k < |eps| ==> eps[k].route != Unknown
  {
    if |eps| == 0 then None
    else if eps[0].route == Unknown then Some(eps[0])
    else UnknownEndpoint(eps[1..])
  }

  /** `resolve(path)`: the commands of every matching endpoint but `unknown`, in
      registration order; the route of the last concrete match. With no concrete
      match the route is `unknown`, and the commands of its endpoint follow. */
  function Resolve(eps: seq<Endpoint>, path: string): (r: Endpoint)
    requires forall k :: 0 <= k < |eps| ==> eps[k].route.kind == UnknownRoute ==> eps[k].route == Unknown
    ensures LastConcrete(eps, path).Some? ==>
      r == Endpoint(eps[LastConcrete(eps, path).value].route, Flatten(Matching(eps, path)))
    ensures LastConcrete(eps, path).None? && UnknownEndpoint(eps).Some? ==>
      r == Endpoint(Unknown, Flatten(Matching(eps, path)) + UnknownEndpoint(eps).value.commands)
    ensures LastConcrete(eps, path).None? && UnknownEndpoint(eps).None? ==>
      r == Endpoint(Unknown, Flatten(Matching(eps, path)))
    ensures r.route == Unknown <==> LastConcrete(eps, path).None?
  {
    var loop := ResolveLoop(eps, path);
    var unknown := UnknownEndpoint(eps);
    if loop.route == Unknown && unknown.Some? then Endpoint(Unknown, loop.commands + unknown.value.commands)
    else loop
  }

  /** An `any` endpoint's commands are part of every resolution. */
  lemma {:induction false} AnyJoinsEveryResolution(eps: seq<Endpoint>, path: string, k: nat)
    requires k < |eps| && eps[k].route == Any
    ensures exists m :: 0 <= m < |Matching(eps, path)| && Matching(eps, path)[m] == eps[k]
    decreases |eps|
  {
    SpecialRoutesMatchAll(path);
    var front := eps[..|eps| - 1];
    if k < |eps| - 1 {
      assert front[k] == eps[k];
      AnyJoinsEveryResolution(front, path, k);
      var m :| 0 <= m < |Matching(front, path)| && Matching(front, path)[m] == eps[k];
      assert Matching(eps, path)[m] == eps[k];
    } else {
      assert Matching(eps, path)[|Matching(eps, path)| - 1] == eps[k];
    }
  }

  // ---------------------------------------------------------------- dispatch

  /** The growing of the path in `dispatch`: from word `n` on, resolve the first
      `n + 1` words joined by spaces, and stop at the first route without a wildcard.
      Returns the endpoint and how many words it took. */
  function Grow(eps: seq<Endpoint>, raw: seq<string>, n: nat, current: Endpoint): (r: (Endpoint, nat))
    requires n <= |raw|
    requires forall k :: 0 <= k < |eps| ==> eps[k].route.kind == UnknownRoute ==> eps[k].route == Unknown
    ensures n <= r.1 <= |raw|
    ensures r.1 == n ==> r.0 == current
    ensures r.1 > n ==> r.0 == ResolveWords(eps, raw, r.1)
    ensures r.1 < |raw| ==> !HasWildcard(r.0.route) && r.1 > n
    ensures forall m :: n < m < r.1 ==> HasWildcard(ResolveWords(eps, raw, m).route)
    decreases |raw| - n
  {
    if n == |raw| then (current, n)
    else
      var e := ResolveWords(eps, raw, n + 1);
      if !HasWildcard(e.route) then (e, n + 1)
      else
        var r := Grow(eps, raw, n + 1, e);
        GrowStep(eps, raw, n, r);
        r
  }

  /** A word that still leaves a wildcard route makes one more step of growth. */
  lemma GrowStep(eps: seq<Endpoint>, raw: seq<string>, n: nat, r: (Endpoint, nat))
    requires n < |raw|
    requires forall k :: 0 <= k < |eps| ==> eps[k].route.kind == UnknownRoute ==> eps[k].route == Unknown
    requires HasWildcard(ResolveWords(eps, raw, n + 1).route)
    requires n + 1 <= r.1 <= |raw|
    requires r.1 == n + 1 ==> r.0 == ResolveWords(eps, raw, n + 1)
    requires r.1 > n + 1 ==> r.0 == ResolveWords(eps, raw, r.1)
    requires r.1 < |raw| ==> !HasWildcard(r.0.route)
    requires forall m :: n + 1 < m < r.1 ==> HasWildcard(ResolveWords(eps, raw, m).route)
    ensures r.1 > n ==> r.0 == ResolveWords(eps, raw, r.1)
    ensures forall m :: n < m < r.1 ==> HasWildcard(ResolveWords(eps, raw, m).route)
  {
  }

  /** The resolution of the first `m` words, joined by spaces. */
  function ResolveWords(eps: seq<Endpoint>, raw: seq<string>, m: nat): Endpoint
    requires m <= |raw|
    requires forall k :: 0 <= k < |eps| ==> eps[k].route.kind == UnknownRoute ==> eps[k].route == Unknown
  {
    Resolve(eps, Join(raw[..m], " "))
  }

  /** Executes the command of the given number on the options given, answering the
      options it leaves and whether the run goes on. */
  type Runner = (nat, Fields) -> Result<(Fields, bool)>

  /** The runner of `dispatch`: the command is looked up in the table and executed
      on the raw arguments. */
  function Executor(table: nat -> Command, raw: seq<string>): (run: Runner)
    ensures forall c: nat, options: Fields :: run(c, options) == Execute(table(c), raw, options)
  {
    (c: nat, options: Fields) => Execute(table(c), raw, options)
  }

  /** The outcome of `dispatch`: the route the request is marked with, the options
      after the commands ran, and the commands that ran. */
  datatype Dispatched = Dispatched(route: Route, options: Fields, ran: seq<nat>)

  /** `ran` is how far a run of `cmds` got: a prefix of `cmds`, empty only when `cmds`
      is, every command in it but the last ran and answered true, and when it is cut
      short its last command answered false. */
  predicate Ran(cmds: seq<nat>, run: Runner, request: Fields, ran: seq<nat>) {
    && RanPrefix(cmds, ran)
    && RanTrue(cmds, run, request, ran)
    && RanStop(cmds, run, request, ran)
  }

  /** `ran` is a prefix of `cmds`, empty only when `cmds` is. */
  predicate RanPrefix(cmds: seq<nat>, ran: seq<nat>) {
    && |ran| <= |cmds| && ran == cmds[..|ran|]
    && (|cmds| > 0 ==> |ran| > 0)
  }

  /** Every command of `ran` but the last answered true. */
  predicate RanTrue(cmds: seq<nat>, run: Runner, request: Fields, ran: seq<nat>) {
    forall i :: 0 <= i < |ran| - 1 ==> RanOn(cmds, run, request, i)
  }

  /** A run cut short stopped on its last command, which answered false. */
  predicate RanStop(cmds: seq<nat>, run: Runner, request: Fields, ran: seq<nat>) {
    0 < |ran| < |cmds| ==> StoppedOn(cmds, run, request, |ran| - 1)
  }

  /** Runs `cmds` in order until one answers false; an error stops everything. */
  function RunCommands(cmds: seq<nat>, run: Runner, request: Fields): (r: Result<(Fields, seq<nat>)>)
    ensures r.Success? ==> Ran(cmds, run, request, r.value.1)
    ensures r.Success? <==> Completes(cmds, run, request)
    ensures r.Success? ==> r.value.0 == OptionsAfter(cmds, run, request, |r.value.1|)
    decreases |cmds|
  {
    if |cmds| == 0 then Success((request, []))
    else
      var out := run(cmds[0], request);
      if out.Failure? then Failure(out.error)
      else if !out.value.1 then
        StopFirst(cmds, run, request, out.value);
        Success((out.value.0, [cmds[0]]))
      else
        var next := RunCommands(cmds[1..], run, out.value.0);
        if next.Failure? then Failure(next.error)
        else
          RunStep(cmds, run, request, out.value, next.value.1);
          Success((next.value.0, [cmds[0]] + next.value.1))
  }

  /** Every command the run reaches executes without an error: the run reaches the
      next command exactly when the one before answered true. */
  predicate Completes(cmds: seq<nat>, run: Runner, request: Fields)
    decreases |cmds|
  {
    || |cmds| == 0
    || var out := run(cmds[0], request);
       && out.Success?
       && (out.value.1 ==> Completes(cmds[1..], run, out.value.0))
  }

  /** The options after the first `n` commands of `cmds` executed one after the other,
      each on the options the one before left. */
  function OptionsAfter(cmds: seq<nat>, run: Runner, request: Fields, n: nat): Fields
    decreases n
  {
    if n == 0 || |cmds| == 0 then request
    else
      var out := run(cmds[0], request);
      if out.Failure? then request else OptionsAfter(cmds[1..], run, out.value.0, n - 1)
  }

  /** The first command answered false: it alone ran, and the run stopped on it. */
  lemma StopFirst(cmds: seq<nat>, run: Runner, request: Fields, first: (Fields, bool))
    requires |cmds| > 0 && run(cmds[0], request) == Success(first) && !first.1
    ensures Ran(cmds, run, request, [cmds[0]])
  {
    assert StoppedOn(cmds, run, request, 0);
  }

  /** The first command answered true and the rest ran as far as `ran`: with the first
      command in front, that is how far the whole run got. */
  lemma RunStep(cmds: seq<nat>, run: Runner, request: Fields,
                first: (Fields, bool), ran: seq<nat>)
    requires |cmds| > 0 && run(cmds[0], request) == Success(first) && first.1
    requires Ran(cmds[1..], run, first.0, ran)
    ensures Ran(cmds, run, request, [cmds[0]] + ran)
  {
    var trace := [cmds[0]] + ran;
    ConsPrefix(cmds, ran, trace);
    RanStep(cmds, run, request, first, ran, trace);
    StopStep(cmds, run, request, first, ran, trace);
  }

  /** A stop further down the rest is a stop one place further down `cmds`. */
  lemma StopStep(cmds: seq<nat>, run: Runner, request: Fields,
                 first: (Fields, bool), ran: seq<nat>, trace: seq<nat>)
    requires |cmds| > 0 && run(cmds[0], request) == Success(first) && first.1
    requires RanPrefix(cmds[1..], ran) && RanStop(cmds[1..], run, first.0, ran)
    requires trace == [cmds[0]] + ran
    ensures RanStop(cmds, run, request, trace)
  {
    if |trace| < |cmds| {
      StopOneFurther(cmds, run, request, first, |ran|);
    }
  }

  lemma StopOneFurther(cmds: seq<nat>, run: Runner, request: Fields,
                       first: (Fields, bool), i: nat)
    requires |cmds| > 0 && run(cmds[0], request) == Success(first) && first.1
    requires 0 < i && StoppedOn(cmds[1..], run, first.0, i - 1)
    ensures StoppedOn(cmds, run, request, i)
  {
  }

  lemma RanStep(cmds: seq<nat>, run: Runner, request: Fields,
                first: (Fields, bool), ran: seq<nat>, trace: seq<nat>)
    requires |cmds| > 0 && run(cmds[0], request) == Success(first) && first.1
    requires RanTrue(cmds[1..], run, first.0, ran)
    requires trace == [cmds[0]] + ran
    ensures RanTrue(cmds, run, request, trace)
  {
    forall i | 0 <= i < |trace| - 1 ensures RanOn(cmds, run, request, i) {
      if i > 0 {
        assert RanOn(cmds[1..], run, first.0, i - 1);
      }
    }
  }

  /** Putting the head of `cmds` in front of a prefix of its tail gives a prefix of `cmds`. */
  lemma ConsPrefix(cmds: seq<nat>, ran: seq<nat>, trace: seq<nat>)
    requires |cmds| > 0 && RanPrefix(cmds[1..], ran)
    requires trace == [cmds[0]] + ran
    ensures RanPrefix(cmds, trace)
  {
  }

  /** Command `i` of `cmds` ran and answered true, so the next one ran too. */
  predicate RanOn(cmds: seq<nat>, run: Runner, request: Fields, i: nat)
    decreases i
  {
    && i < |cmds|
    && var out := run(cmds[0], request);
    && out.Success?
    && out.value.1
    && (i > 0 ==> RanOn(cmds[1..], run, out.value.0, i - 1))
  }

  /** Commands `0` to `i - 1` of `cmds` answered true and command `i` answered false. */
  predicate StoppedOn(cmds: seq<nat>, run: Runner, request: Fields, i: nat)
    decreases i
  {
    && i < |cmds|
    && var out := run(cmds[0], request);
    && out.Success?
    && (if i == 0 then !out.value.1 else out.value.1 && StoppedOn(cmds[1..], run, out.value.0, i - 1))
  }

  /** `dispatch(request)`. */
  function Dispatch(eps: seq<Endpoint>, table: nat -> Command, raw: seq<string>, request: Fields): (r: Result<Dispatched>)
    requires forall k :: 0 <= k < |eps| ==> eps[k].route.kind == UnknownRoute ==> eps[k].route == Unknown
    ensures var endpoint := Grow(eps, raw, 0, Resolve(eps, "")).0;
      && (r.Success? <==> RunCommands(endpoint.commands, Executor(table, raw), request).Success?)
      && (r.Success? ==> r.value == Dispatched(endpoint.route, RunCommands(endpoint.commands, Executor(table, raw), request).value.0,
                                               RunCommands(endpoint.commands, Executor(table, raw), request).value.1))
    ensures var cmds := Grow(eps, raw, 0, Resolve(eps, "")).0.commands;
      && (r.Success? <==> Completes(cmds, Executor(table, raw), request))
      && (r.Success? ==> r.value.route == Grow(eps, raw, 0, Resolve(eps, "")).0.route)
      && (r.Success? ==> Ran(cmds, Executor(table, raw), request, r.value.ran))
      && (r.Success? ==> r.value.options == OptionsAfter(cmds, Executor(table, raw), request, |r.value.ran|))
  {
    var endpoint := Grow(eps, raw, 0, Resolve(eps, "")).0;
    var run := RunCommands(endpoint.commands, Executor(table, raw), request);
    if run.Failure? then Failure(run.error)
    else Success(Dispatched(endpoint.route, run.value.0, run.value.1))
  }

  /** With a concrete match for the first word, dispatch looks no further. */
  lemma FirstWordRoute(eps: seq<Endpoint>, raw: seq<string>)
    requires forall k :: 0 <= k < |eps| ==> eps[k].route.kind == UnknownRoute ==> eps[k].route == Unknown
    requires |raw| > 0 && !HasWildcard(Resolve(eps, raw[0]).route)
    ensures Grow(eps, raw, 0, Resolve(eps, "")) == (Resolve(eps, raw[0]), 1)
  {
    assert Join(raw[..1], " ") == raw[0];
    assert ResolveWords(eps, raw, 1) == Resolve(eps, raw[0]);
  }
}
