/** The small helpers around names, text, records and paths: identifier case conversion
    (src/kebab.ts, src/camel.ts, src/capitalize.ts, src/decapitalize.ts), line folding
    (src/oneLine.ts), the YAML file-name test (src/isYAMLFile.ts), property removal
    (src/omit.ts) and the walk up a directory tree (src/climb.ts).

    Case conversion covers the ASCII letters: every other character is left as it is.
 */
module Text {
  import opened Strings
  import opened Json

  // ---------------------------------------------------------------- file names

  /** `isYAMLFile(path)`: the path ends in `.yml` or `.yaml`, in lower case. */
  predicate IsYamlFile(path: string) {
    EndsWith(path, ".yml") || EndsWith(path, ".yaml")
  }

  /** Any string becomes a YAML file name by appending `.yml` or `.yaml`. */
  lemma YamlSuffix(s: string)
    ensures IsYamlFile(s + ".yml") && IsYamlFile(s + ".yaml")
  {
    assert (s + ".yml")[|s + ".yml"| - 4..] == ".yml";
    assert (s + ".yaml")[|s + ".yaml"| - 5..] == ".yaml";
  }

  /** Conversely, a YAML file name is some stem followed by `.yml` or `.yaml`, spelled in
      lower case: the test looks at the extension only. */
  lemma YamlStem(path: string)
    requires IsYamlFile(path)
    ensures exists stem :: path == stem + ".yml" || path == stem + ".yaml"
  {
    if EndsWith(path, ".yml") {
      assert path == path[..|path| - 4] + ".yml";
    } else {
      assert path == path[..|path| - 5] + ".yaml";
    }
  }

  // ----------------------------------------------------------- capitalisation

  /** `capitalize(text)`: the first character upper-cased, the rest untouched. */
  function Capitalize(t: string): (r: string)
    ensures |r| == |t|
    ensures |t| > 0 ==> r[0] == ToUpperChar(t[0]) && r[1..] == t[1..]
  {
    if |t| == 0 then t else [ToUpperChar(t[0])] + t[1..]
  }

  /** `decapitalize(text)`: the first character lower-cased, the rest untouched. */
  function Decapitalize(t: string): (r: string)
    ensures |r| == |t|
    ensures |t| > 0 ==> r[0] == ToLowerChar(t[0]) && r[1..] == t[1..]
  {
    if |t| == 0 then t else [ToLowerChar(t[0])] + t[1..]
  }

  /** Both conversions are idempotent, and each undoes the other on a first character
      of the opposite case. */
  lemma CapitalizeIdempotent(t: string)
    ensures Capitalize(Capitalize(t)) == Capitalize(t)
    ensures Decapitalize(Decapitalize(t)) == Decapitalize(t)
    ensures |t| > 0 && IsAsciiLower(t[0]) ==> Decapitalize(Capitalize(t)) == t
    ensures |t| > 0 && IsAsciiUpper(t[0]) ==> Capitalize(Decapitalize(t)) == t
  {
  }

  // --------------------------------------------------------------- camel case

  /** The number of times `c` occurs in `s`. */
  function Count(s: string, c: char): (n: nat)
    ensures n <= |s|
    ensures n == 0 <==> c !in s
  {
    if |s| == 0 then 0 else (if s[0] == c then 1 else 0) + Count(s[1..], c)
  }

  /** What joining the capitalised `-`-separated pieces does, character by character:
      every `-` is dropped and the character after it upper-cased; `up` says whether
      the first character is upper-cased too. */
  function Undash(t: string, up: bool): (r: string)
    ensures '-' !in r
    ensures |r| == |t| - Count(t, '-')
  {
    if |t| == 0 then ""
    else if t[0] == '-' then Undash(t[1..], true)
    else [if up then ToUpperChar(t[0]) else t[0]] + Undash(t[1..], false)
  }

  /** The capitalised pieces, in order. */
  function CapitalizeAll(parts: seq<string>): (r: seq<string>)
    ensures |r| == |parts|
    ensures forall i :: 0 <= i < |parts| ==> r[i] == Capitalize(parts[i])
  {
    seq(|parts|, i requires 0 <= i < |parts| => Capitalize(parts[i]))
  }

  /** `camel(identifier)`: the `-`-separated pieces capitalised, joined, and the
      result decapitalised. It holds no `-` and is shorter by one character per `-`. */
  function Camel(id: string): (r: string)
    ensures '-' !in r
    ensures |r| == |id| - Count(id, '-')
  {
    var r := Decapitalize(Join(CapitalizeAll(Split(id, '-')), ""));
    SplitUndash(id);
    r
  }

  /** Joining with the empty separator is concatenation. */
  lemma JoinEmpty(head: string, rest: seq<string>)
    ensures Join([head] + rest, "") == head + Join(rest, "")
  {
    if |rest| > 0 {
      assert ([head] + rest)[1..] == rest;
    }
  }

  /** The split, capitalise and join of `camel` is `Undash`. */
  lemma {:induction false} SplitUndash(t: string)
    ensures Join(CapitalizeAll(Split(t, '-')), "") == Undash(t, true)
    ensures Split(t, '-')[0] + Join(CapitalizeAll(Split(t, '-')[1..]), "") == Undash(t, false)
    decreases |t|
  {
    if |t| == 0 {
      assert Split(t, '-') == [""];
    } else {
      SplitUndash(t[1..]);
      if t[0] == '-' {
        SplitUndashDash(t);
      } else {
        SplitUndashChar(t);
      }
    }
  }

  lemma SplitUndashDash(t: string)
    requires |t| > 0 && t[0] == '-'
    requires Join(CapitalizeAll(Split(t[1..], '-')), "") == Undash(t[1..], true)
    ensures Join(CapitalizeAll(Split(t, '-')), "") == Undash(t, true)
    ensures Split(t, '-')[0] + Join(CapitalizeAll(Split(t, '-')[1..]), "") == Undash(t, false)
  {
    var rest := Split(t[1..], '-');
    var parts := Split(t, '-');
    assert parts == [""] + rest;
    assert parts[1..] == rest;
    CapitalizeAllCons("", rest);
    JoinEmpty("", CapitalizeAll(rest));
    assert Undash(t, true) == Undash(t[1..], true) == Undash(t, false);
  }

  lemma SplitUndashChar(t: string)
    requires |t| > 0 && t[0] != '-'
    requires Split(t[1..], '-')[0] + Join(CapitalizeAll(Split(t[1..], '-')[1..]), "") == Undash(t[1..], false)
    ensures Join(CapitalizeAll(Split(t, '-')), "") == Undash(t, true)
    ensures Split(t, '-')[0] + Join(CapitalizeAll(Split(t, '-')[1..]), "") == Undash(t, false)
  {
    var rest := Split(t[1..], '-');
    var tail := Join(CapitalizeAll(rest[1..]), "");
    SplitCons(t);
    assert Undash(t[1..], false) == rest[0] + tail;
    UndashUp(t, rest[0], tail);
    UndashDown(t, rest[0], tail);
  }

  /** Splitting a string that does not start with the separator extends its first piece. */
  lemma SplitCons(t: string)
    requires |t| > 0 && t[0] != '-'
    ensures Split(t, '-') == [[t[0]] + Split(t[1..], '-')[0]] + Split(t[1..], '-')[1..]
  {
  }

  lemma UndashUp(t: string, head: string, tail: string)
    requires |t| > 0 && t[0] != '-'
    requires Split(t[1..], '-')[0] == head && Join(CapitalizeAll(Split(t[1..], '-')[1..]), "") == tail
    requires Split(t, '-') == [[t[0]] + head] + Split(t[1..], '-')[1..]
    requires Undash(t[1..], false) == head + tail
    ensures Join(CapitalizeAll(Split(t, '-')), "") == Undash(t, true)
  {
    var more := Split(t[1..], '-')[1..];
    var first := [t[0]] + head;
    CapitalizeAllCons(first, more);
    JoinEmpty(Capitalize(first), CapitalizeAll(more));
    assert Capitalize(first) == [ToUpperChar(t[0])] + head;
    ConsAssoc(ToUpperChar(t[0]), head, tail);
    assert Undash(t, true) == [ToUpperChar(t[0])] + Undash(t[1..], false);
  }

  lemma CapitalizeAllCons(p: string, ps: seq<string>)
    ensures CapitalizeAll([p] + ps) == [Capitalize(p)] + CapitalizeAll(ps)
  {
  }

  lemma UndashDown(t: string, head: string, tail: string)
    requires |t| > 0 && t[0] != '-'
    requires Split(t[1..], '-')[0] == head && Join(CapitalizeAll(Split(t[1..], '-')[1..]), "") == tail
    requires Split(t, '-') == [[t[0]] + head] + Split(t[1..], '-')[1..]
    requires Undash(t[1..], false) == head + tail
    ensures Split(t, '-')[0] + Join(CapitalizeAll(Split(t, '-')[1..]), "") == Undash(t, false)
  {
    var parts := Split(t, '-');
    assert parts[0] == [t[0]] + head;
    assert parts[1..] == Split(t[1..], '-')[1..];
    ConsAssoc(t[0], head, tail);
  }

  lemma ConsAssoc(c: char, a: string, b: string)
    ensures ([c] + a) + b == [c] + (a + b)
  {
  }

  /** `camel` is `Undash` from an upper-cased start, followed by decapitalisation. */
  lemma CamelIsUndash(id: string)
    ensures Camel(id) == Decapitalize(Undash(id, true))
  {
    SplitUndash(id);
  }

  // --------------------------------------------------------------- kebab case

  predicate LowerOrDigit(c: char) {
    IsAsciiLower(c) || IsAsciiDigit(c)
  }

  /** The first replacement of `kebab`: a `-` between a lower-case letter or digit and
      the upper-case letter after it. */
  function DashBeforeUpper(s: string): (r: string)
    ensures |r| >= |s|
  {
    if |s| < 2 then s
    else if LowerOrDigit(s[0]) && IsAsciiUpper(s[1]) then [s[0], '-'] + DashBeforeUpper(s[1..])
    else [s[0]] + DashBeforeUpper(s[1..])
  }

  /** The second replacement of `kebab`: a `-` between an upper-case letter and an
      upper-case letter followed by a lower-case one. */
  function DashBeforeWord(s: string): (r: string)
    ensures |r| >= |s|
  {
    if |s| < 3 then s
    else if IsAsciiUpper(s[0]) && IsAsciiUpper(s[1]) && IsAsciiLower(s[2]) then [s[0], '-'] + DashBeforeWord(s[1..])
    else [s[0]] + DashBeforeWord(s[1..])
  }

  /** `kebab(identifier)`: both replacements, then lower case. Characters are only
      inserted, the result has no upper-case letter, and a string without upper-case
      letters comes back unchanged. */
  function Kebab(id: string): (r: string)
    ensures |r| >= |id|
    ensures forall i :: 0 <= i < |r| ==> !IsAsciiUpper(r[i])
  {
    Lower(DashBeforeWord(DashBeforeUpper(id)))
  }

  predicate NoUpper(s: string) {
    forall i :: 0 <= i < |s| ==> !IsAsciiUpper(s[i])
  }

  /** An identifier without upper-case letters is already in kebab case. */
  lemma KebabKeepsLowerCase(id: string)
    requires NoUpper(id)
    ensures Kebab(id) == id
  {
    DashBeforeUpperNoUpper(id);
    DashBeforeWordNoUpper(id);
  }

  lemma {:induction false} DashBeforeUpperNoUpper(s: string)
    requires NoUpper(s)
    ensures DashBeforeUpper(s) == s
    decreases |s|
  {
    if |s| >= 2 {
      assert NoUpper(s[1..]) by {
        forall i | 0 <= i < |s[1..]| ensures !IsAsciiUpper(s[1..][i]) {
          assert s[1..][i] == s[i + 1];
        }
      }
      DashBeforeUpperNoUpper(s[1..]);
      assert !IsAsciiUpper(s[1]);
    }
  }

  lemma {:induction false} DashBeforeWordNoUpper(s: string)
    requires NoUpper(s)
    ensures DashBeforeWord(s) == s
    decreases |s|
  {
    if |s| >= 3 {
      assert NoUpper(s[1..]) by {
        forall i | 0 <= i < |s[1..]| ensures !IsAsciiUpper(s[1..][i]) {
          assert s[1..][i] == s[i + 1];
        }
      }
      DashBeforeWordNoUpper(s[1..]);
      assert !IsAsciiUpper(s[0]);
    }
  }

  /** Dashing a concatenation dashes each side, with a `-` between them when the second
      starts with an upper-case letter. */
  lemma {:induction false} DashAllAppend(a: string, b: string)
    requires |a| > 0 && |b| > 0
    ensures DashAll(a + b) == DashAll(a) + (if IsAsciiUpper(b[0]) then "-" else "") + DashAll(b)
    decreases |a|
  {
    var d: string := if IsAsciiUpper(b[0]) then "-" else "";
    ConcatHead(a, b);
    DashAllUnfold(a + b);
    if |a| == 1 {
      assert a == [a[0]];
    } else {
      DashAllAppend(a[1..], b);
      DashAllUnfold(a);
      var d1: string := if IsAsciiUpper(a[1]) then "-" else "";
      RegroupFive([a[0]], d1, DashAll(a[1..]), d, DashAll(b));
    }
  }

  lemma DashAllUnfold(s: string)
    requires |s| >= 2
    ensures DashAll(s) == [s[0]] + (if IsAsciiUpper(s[1]) then "-" else "") + DashAll(s[1..])
  {
  }

  lemma ConcatHead(a: string, b: string)
    requires |a| > 0 && |b| > 0
    ensures |a + b| >= 2 && (a + b)[0] == a[0] && (a + b)[1..] == a[1..] + b
    ensures (a + b)[1] == if |a| == 1 then b[0] else a[1]
  {
  }

  lemma RegroupFive(p: string, q: string, r: string, s: string, t: string)
    ensures p + q + (r + s + t) == p + q + r + s + t
  {
  }

  /** A camel-case identifier: no `-`, and every upper-case letter follows a lower-case
      letter or a digit (so it is not first and never follows another upper-case one). */
  predicate CamelShaped(s: string) {
    '-' !in s
    && (|s| > 0 ==> !IsAsciiUpper(s[0]))
    && forall i :: 0 < i < |s| && IsAsciiUpper(s[i]) ==> LowerOrDigit(s[i - 1])
  }

  /** A `-` in front of every upper-case letter after the first character. */
  function DashAll(s: string): (r: string)
  {
    if |s| < 2 then s
    else [s[0]] + (if IsAsciiUpper(s[1]) then "-" else "") + DashAll(s[1..])
  }

  lemma {:induction false} DashBeforeUpperOnCamel(s: string)
    requires forall i :: 0 < i < |s| && IsAsciiUpper(s[i]) ==> LowerOrDigit(s[i - 1])
    ensures DashBeforeUpper(s) == DashAll(s)
    decreases |s|
  {
    if |s| >= 2 {
      assert forall i :: 0 < i < |s[1..]| ==> s[1..][i] == s[i + 1] && s[1..][i - 1] == s[i];
      DashBeforeUpperOnCamel(s[1..]);
    }
  }

  /** Once every upper-case letter is preceded by a `-` or starts the string, there are
      no two upper-case letters in a row for the second replacement to separate. */
  lemma {:induction false} DashBeforeWordOnDashed(s: string)
    requires |s| > 0 ==> !IsAsciiUpper(s[0])
    ensures DashBeforeWord(DashAll(s)) == DashAll(s)
    decreases |s|
  {
    if |s| >= 2 {
      var rest := DashAll(s[1..]);
      if IsAsciiUpper(s[1]) {
        DashBeforeWordOnDashed("-" + s[2..]);
        assert DashAll(s) == [s[0]] + "-" + rest;
        DashAllUpperStart(s[1..]);
        assert DashBeforeWord("-" + rest) == "-" + DashBeforeWord(rest) by {
          DashBeforeWordStep('-', rest);
        }
        DashBeforeWordStep(s[0], "-" + rest);
        DashBeforeWordAfterDash(s[1..]);
      } else {
        DashBeforeWordOnDashed(s[1..]);
        assert DashAll(s) == [s[0]] + rest;
        DashAllFirst(s[1..]);
        DashBeforeWordStep(s[0], rest);
      }
    }
  }

  lemma DashAllFirst(s: string)
    requires |s| > 0
    ensures |DashAll(s)| > 0 && DashAll(s)[0] == s[0]
  {
  }

  lemma DashAllUpperStart(s: string)
    requires |s| > 0
    ensures |DashAll(s)| > 0 && DashAll(s)[0] == s[0]
  {
  }

  /** A character that cannot start a replacement passes straight through. */
  lemma DashBeforeWordStep(c: char, u: string)
    requires !IsAsciiUpper(c) || |u| == 0 || !IsAsciiUpper(u[0])
    ensures DashBeforeWord([c] + u) == [c] + DashBeforeWord(u)
  {
    assert ([c] + u)[1..] == u;
  }

  /** The dashed form of a string starting with an upper-case letter is left alone too. */
  lemma {:induction false} DashBeforeWordAfterDash(s: string)
    requires |s| > 0
    ensures DashBeforeWord(DashAll(s)) == DashAll(s)
    decreases |s|
  {
    if |s| >= 2 {
      var rest := DashAll(s[1..]);
      DashBeforeWordAfterDash(s[1..]);
      DashAllFirst(s[1..]);
      if IsAsciiUpper(s[1]) {
        assert DashAll(s) == [s[0]] + ("-" + rest);
        DashBeforeWordStep('-', rest);
        DashBeforeWordStep(s[0], "-" + rest);
      } else {
        assert DashAll(s) == [s[0]] + rest;
        DashBeforeWordStep(s[0], rest);
      }
    }
  }

  lemma LowerAppend(a: string, b: string)
    ensures Lower(a + b) == Lower(a) + Lower(b)
  {
  }

  /** `Undash` reads the lower-cased dashed form back: each dash restores the upper
      case of the letter after it. Only the first character depends on `up`. */
  lemma {:induction false} UndashDashed(s: string, up: bool)
    requires |s| > 0 && '-' !in s
    ensures Undash(Lower(DashAll(s)), up) == [if up then ToUpperChar(ToLowerChar(s[0])) else ToLowerChar(s[0])] + s[1..]
    decreases |s|
  {
    var c := ToLowerChar(s[0]);
    if |s| == 1 {
      assert Lower(DashAll(s)) == [c];
      UndashCons(c, "", up);
    } else {
      assert '-' !in s[1..];
      UndashDashed(s[1..], IsAsciiUpper(s[1]));
      assert s[1..][0] == s[1] && s[1..][1..] == s[2..];
      UndashDashedStep(s, up);
    }
  }

  /** One step of `UndashDashed`: the first character, given the rest. */
  lemma UndashDashedStep(s: string, up: bool)
    requires |s| >= 2 && '-' !in s
    requires Undash(Lower(DashAll(s[1..])), IsAsciiUpper(s[1])) ==
      [if IsAsciiUpper(s[1]) then ToUpperChar(ToLowerChar(s[1])) else ToLowerChar(s[1])] + s[2..]
    ensures Undash(Lower(DashAll(s)), up) == [if up then ToUpperChar(ToLowerChar(s[0])) else ToLowerChar(s[0])] + s[1..]
  {
    var c := ToLowerChar(s[0]);
    var d: string := if IsAsciiUpper(s[1]) then "-" else "";
    var tail := Lower(DashAll(s[1..]));
    LowerDashAll(s);
    UndashCons(c, d + tail, up);
    var h: char := if up then ToUpperChar(c) else c;
    assert Undash(Lower(DashAll(s)), up) == [h] + Undash(d + tail, false);
    if IsAsciiUpper(s[1]) {
      assert Undash(d + tail, false) == Undash(tail, true) by {
        assert (d + tail)[1..] == tail;
      }
      UpperRoundTrip(s[1]);
    } else {
      assert d + tail == tail;
    }
    assert Undash(d + tail, false) == [s[1]] + s[2..];
    assert s[1..] == [s[1]] + s[2..];
  }

  lemma UpperRoundTrip(c: char)
    requires IsAsciiUpper(c)
    ensures ToUpperChar(ToLowerChar(c)) == c
  {
  }

  lemma LowerDashAll(s: string)
    requires |s| >= 2
    ensures Lower(DashAll(s)) == [ToLowerChar(s[0])] + ((if IsAsciiUpper(s[1]) then "-" else "") + Lower(DashAll(s[1..])))
  {
    var d: string := if IsAsciiUpper(s[1]) then "-" else "";
    var rest := DashAll(s[1..]);
    assert DashAll(s) == [s[0]] + (d + rest);
    LowerDashPrefix(d, rest);
    LowerCons(s[0], d + rest);
  }

  lemma LowerDashPrefix(d: string, u: string)
    requires d == "-" || d == ""
    ensures Lower(d + u) == d + Lower(u)
  {
    LowerAppend(d, u);
    assert Lower(d) == d;
  }

  lemma LowerCons(c: char, u: string)
    ensures Lower([c] + u) == [ToLowerChar(c)] + Lower(u)
  {
  }

  /** A character other than `-` is kept, upper-cased when `up` says so. */
  lemma UndashCons(c: char, u: string, up: bool)
    requires c != '-'
    ensures Undash([c] + u, up) == [if up then ToUpperChar(c) else c] + Undash(u, false)
  {
    assert ([c] + u)[1..] == u;
  }

  /** On a camel-case identifier `kebab` puts a `-` before every upper-case letter and
      lower-cases it. */
  lemma KebabOfCamel(s: string)
    requires CamelShaped(s)
    ensures Kebab(s) == Lower(DashAll(s))
  {
    DashBeforeUpperOnCamel(s);
    DashBeforeWordOnDashed(s);
  }

  /** Round trip: a camel-case identifier turned into kebab case and back is the
      identifier again. */
  lemma CamelKebabRoundTrip(s: string)
    requires CamelShaped(s)
    ensures Camel(Kebab(s)) == s
  {
    if |s| > 0 {
      var k := Kebab(s);
      KebabOfCamel(s);
      CamelIsUndash(k);
      UndashDashed(s, true);
      var u := Undash(k, true);
      assert u == [ToUpperChar(s[0])] + s[1..];
      LowerRoundTrip(s[0]);
      assert Decapitalize(u) == [s[0]] + s[1..];
    }
  }

  lemma LowerRoundTrip(c: char)
    requires !IsAsciiUpper(c)
    ensures ToLowerChar(ToUpperChar(c)) == c
  {
  }

  // ------------------------------------------------------------- line folding

  predicate IsBreak(c: char) {
    c == '\r' || c == '\n'
  }

  predicate Unbroken(s: string) {
    forall i :: 0 <= i < |s| ==> !IsBreak(s[i])
  }

  /** `s` without its leading run of line-break characters. */
  function DropBreaks(s: string): (r: string)
    ensures |r| <= |s| && r == s[|s| - |r|..]
    ensures forall i :: 0 <= i < |s| - |r| ==> IsBreak(s[i])
    ensures |r| == 0 || !IsBreak(r[0])
  {
    if |s| > 0 && IsBreak(s[0]) then DropBreaks(s[1..]) else s
  }

  /** `oneLine(text)`: every maximal run of `\r` and `\n` characters becomes one space.
      The result has no line break, is never longer, and text without line breaks is
      returned unchanged. */
  function OneLine(s: string): (r: string)
    ensures Unbroken(r)
    ensures |r| <= |s|
    ensures Unbroken(s) ==> r == s
    decreases |s|
  {
    if |s| == 0 then ""
    else if IsBreak(s[0]) then " " + OneLine(DropBreaks(s))
    else [s[0]] + OneLine(s[1..])
  }

  lemma OneLineIdempotent(s: string)
    ensures OneLine(OneLine(s)) == OneLine(s)
  {
  }

  /** The runs are what is replaced: unbroken text, a non-empty run of breaks, and text
      that does not start with a break fold to the text, one space, and the rest folded. */
  lemma {:induction false} OneLineRun(a: string, run: string, b: string)
    requires Unbroken(a) && |run| > 0 && forall i :: 0 <= i < |run| ==> IsBreak(run[i])
    requires |b| == 0 || !IsBreak(b[0])
    ensures OneLine(a + run + b) == a + " " + OneLine(b)
    decreases |a|
  {
    if |a| == 0 {
      OneLineRunAlone(run, b);
      EmptyPrefix(a, run, b, OneLine(b));
    } else {
      OneLineRun(a[1..], run, b);
      OneLineStep(a, a[1..] + run + b, OneLine(b));
      SplitHead(a, run, b);
    }
  }

  lemma OneLineRunAlone(run: string, b: string)
    requires |run| > 0 && forall i :: 0 <= i < |run| ==> IsBreak(run[i])
    requires |b| == 0 || !IsBreak(b[0])
    ensures OneLine(run + b) == " " + OneLine(b)
  {
    DropRun(run, b);
    OneLineBreakFirst(run + b);
  }

  /** A first character that is not a break is kept in front of the folded rest. */
  lemma OneLineStep(a: string, u: string, w: string)
    requires |a| > 0 && !IsBreak(a[0])
    requires OneLine(u) == a[1..] + " " + w
    ensures OneLine([a[0]] + u) == a + " " + w
  {
    OneLineCons(a[0], u);
    ConsSpace(a, w);
  }

  lemma ConsSpace(a: string, w: string)
    requires |a| > 0
    ensures [a[0]] + (a[1..] + " " + w) == a + " " + w
  {
    assert a == [a[0]] + a[1..];
  }

  lemma EmptyPrefix(a: string, run: string, b: string, w: string)
    requires |a| == 0
    ensures a + run + b == run + b && a + " " + w == " " + w
  {
  }

  lemma SplitHead(a: string, x: string, y: string)
    requires |a| > 0
    ensures a + x + y == [a[0]] + (a[1..] + x + y)
  {
    assert a == [a[0]] + a[1..];
  }

  lemma OneLineBreakFirst(s: string)
    requires |s| > 0 && IsBreak(s[0])
    ensures OneLine(s) == " " + OneLine(DropBreaks(s))
  {
  }

  lemma OneLineCons(c: char, u: string)
    requires !IsBreak(c)
    ensures OneLine([c] + u) == [c] + OneLine(u)
  {
    assert ([c] + u)[1..] == u;
  }

  lemma {:induction false} DropRun(run: string, b: string)
    requires forall i :: 0 <= i < |run| ==> IsBreak(run[i])
    requires |b| == 0 || !IsBreak(b[0])
    ensures DropBreaks(run + b) == b
    decreases |run|
  {
    if |run| > 0 {
      assert (run + b)[1..] == run[1..] + b;
      DropRun(run[1..], b);
    }
  }

  // ----------------------------------------------------------------- records

  /** `omit(record, propertyName)`: a copy without the property; every other property
      keeps its value, and a record without the property is copied unchanged. */
  function Omit(record: Fields, name: string): (r: Fields)
    ensures !Has(r, name)
    ensures forall k :: k != name ==> (Has(r, k) <==> Has(record, k)) && Get(r, k) == Get(record, k)
    ensures !Has(record, name) ==> r == record
    ensures |r| <= |record|
  {
    if |record| == 0 then []
    else
      var rest := Omit(record[1..], name);
      OmitStep(record, name, rest);
      if record[0].0 == name then rest else [record[0]] + rest
  }

  lemma OmitStep(record: Fields, name: string, rest: Fields)
    requires |record| > 0
    requires !Has(rest, name)
    requires forall k :: k != name ==> (Has(rest, k) <==> Has(record[1..], k)) && Get(rest, k) == Get(record[1..], k)
    ensures forall k :: k != name ==> (Has(record, k) <==> k == record[0].0 || Has(record[1..], k))
    ensures forall k :: k != name && k != record[0].0 ==> Get(record, k) == Get(record[1..], k)
    ensures Get(record, record[0].0) == record[0].1
    ensures forall k :: k != name ==> Get([record[0]] + rest, k) == (if k == record[0].0 then record[0].1 else Get(rest, k))
    ensures forall k :: Has([record[0]] + rest, k) <==> k == record[0].0 || Has(rest, k)
  {
    LookupCons(record);
    var c := [record[0]] + rest;
    assert c[1..] == rest;
    LookupCons(c);
  }

  lemma OmitIdempotent(record: Fields, name: string)
    ensures Omit(Omit(record, name), name) == Omit(record, name)
  {
  }

  // ------------------------------------------------------------------- paths

  /** `climb(path)` as written: the loop recomputes the parent of `path` rather than of
      the last folder, so it stops after one step. The result is `[path]` when `path`
      is its own parent and `[path, dirname(path)]` otherwise. */
  method ClimbAsWritten(dirname: string -> string, path: string) returns (folders: seq<string>)
    ensures folders == if dirname(path) == path then [path] else [path, dirname(path)]
  {
    folders := [path];
    var folder := dirname(path);
    while folder !in folders
      invariant folder == dirname(path)
      invariant folders == [path] || folders == [path, dirname(path)]
      invariant folders == [path, dirname(path)] ==> folder in folders && dirname(path) != path
      decreases if folder in folders then 0 else 1
    {
      folders := folders + [folder];
      folder := dirname(path);
    }
  }

  /** A path from the root. */
  predicate Absolute(p: string) {
    |p| > 0 && p[0] == '/'
  }

  /** On paths from the root, a parent is again a path from the root, and it is the
      path itself (the root) or strictly shorter. `PosixDirname` below is such a
      `dirname`; on relative paths it is not (`'a'` has the parent `'.'`), which is why
      the property is asked of absolute paths only. */
  ghost predicate ShrinksOnAbsolute(dirname: string -> string) {
    forall p :: Absolute(p) ==> Absolute(dirname(p)) && (dirname(p) == p || |dirname(p)| < |p|)
  }

  /** Node's POSIX `path.dirname`: the empty path and a bare name have the parent `.`;
      otherwise trailing slashes are skipped and the path is cut at the last slash
      before them, giving `/` (or `//` for a path under a double slash) at the root. */
  function PosixDirname(p: string): (d: string)
    ensures |d| > 0
  {
    if |p| == 0 then "."
    else
      var end := LastSeparator(p, |p| - 1, true);
      if end == -1 then (if p[0] == '/' then "/" else ".")
      else if p[0] == '/' && end == 1 then "//"
      else p[..end]
  }

  /** Scanning `p` down from index `i` to index 1: the first `/` met after a character
      other than `/` (when `matched` is false, one was already met), or -1. */
  function LastSeparator(p: string, i: int, matched: bool): (r: int)
    requires i < |p|
    ensures r == -1 || (1 <= r <= i && p[r] == '/')
    ensures matched && r != -1 ==> r < i
    decreases i
  {
    if i < 1 then -1
    else if p[i] == '/' then (if !matched then i else LastSeparator(p, i - 1, matched))
    else LastSeparator(p, i - 1, false)
  }

  /** Node's `dirname` keeps a path from the root under the root, and only the root is
      its own parent. */
  lemma PosixDirnameShrinks(p: string)
    requires Absolute(p)
    ensures Absolute(PosixDirname(p))
    ensures PosixDirname(p) == p <==> p == "/"
    ensures PosixDirname(p) == p || |PosixDirname(p)| < |p|
  {
    var end := LastSeparator(p, |p| - 1, true);
    if end == -1 {
      if |p| == 1 {
        assert p == "/";
      }
    } else if end == 1 {
      assert |p| > 2;
    }
  }

  /** So Node's `dirname` meets what the intended walk asks of its `dirname`. */
  lemma PosixDirnameShrinksOnAbsolute()
    ensures ShrinksOnAbsolute(PosixDirname)
  {
    forall p | Absolute(p) ensures Absolute(PosixDirname(p)) && (PosixDirname(p) == p || |PosixDirname(p)| < |p|) {
      PosixDirnameShrinks(p);
    }
  }

  /** Node's `dirname` on `/a/b` and on a bare name: `/a`, then `/`, which is its own
      parent; a bare name has the parent `.`. So Node's `dirname` with `/a/b` meets what
      `ClimbStopsEarly` asks. */
  lemma NodeDirnameOnAB()
    ensures PosixDirname("/a/b") == "/a" && PosixDirname("/a") == "/" && PosixDirname("/") == "/"
    ensures PosixDirname("a") == "." && PosixDirname("") == "."
    ensures ShrinksOnAbsolute(PosixDirname) && Absolute("/a/b")
    ensures PosixDirname("/a/b") != "/a/b" && PosixDirname(PosixDirname("/a/b")) != PosixDirname("/a/b")
  {
    assert LastSeparator("/a/b", 3, true) == 2;
    assert "/a/b"[..2] == "/a";
    assert LastSeparator("/a", 1, true) == -1;
    assert LastSeparator("a", 0, true) == -1;
    PosixDirnameShrinksOnAbsolute();
  }

  /** The walk the function evidently intends: the path, its parent, the parent's parent,
      and so on up to the root, each folder once. */
  method Climb(dirname: string -> string, path: string) returns (folders: seq<string>)
    requires ShrinksOnAbsolute(dirname) && Absolute(path)
    ensures |folders| > 0 && folders[0] == path
    ensures forall i :: 0 < i < |folders| ==> folders[i] == dirname(folders[i - 1])
    ensures dirname(folders[|folders| - 1]) == folders[|folders| - 1]
    ensures forall i, j :: 0 <= i < j < |folders| ==> |folders[j]| < |folders[i]|
  {
    folders := [path];
    var folder := dirname(path);
    while folder !in folders
      invariant |folders| > 0 && folders[0] == path
      invariant forall i :: 0 < i < |folders| ==> folders[i] == dirname(folders[i - 1])
      invariant forall i, j :: 0 <= i < j < |folders| ==> |folders[j]| < |folders[i]|
      invariant folder == dirname(folders[|folders| - 1])
      invariant Absolute(folders[|folders| - 1])
      decreases |folders[|folders| - 1]|
    {
      var last := folders[|folders| - 1];
      assert folder != last;
      folders := folders + [folder];
      folder := dirname(folder);
    }
    var k :| 0 <= k < |folders| && folders[k] == folder;
    assert |folders[|folders| - 1]| <= |folders[k]|;
  }

  /** The evident intent differs from the code as soon as the path is two levels below
      a root: for `/a/b` with Node's `dirname`, the code returns `/a/b` and `/a` only,
      while the walk continues to `/`. */
  method ClimbStopsEarly(dirname: string -> string, path: string) returns (written: seq<string>, intended: seq<string>)
    requires ShrinksOnAbsolute(dirname) && Absolute(path)
    requires dirname(path) != path && dirname(dirname(path)) != dirname(path)
    ensures written == [path, dirname(path)]
    ensures |intended| > 2 && intended[2] == dirname(dirname(path)) && dirname(dirname(path)) !in written
  {
    written := ClimbAsWritten(dirname, path);
    intended := Climb(dirname, path);
    assert intended[1] == dirname(path);
    assert intended[|intended| - 1] != dirname(path);
    assert |dirname(dirname(path))| < |dirname(path)| < |path|;
  }
}
