/** A command-line option (src/cli/CommandOption.ts): its name rules, how it is found
    among the raw tokens, and how its value is read into the request's options.

    An option is found by the first raw token that starts with its name, ignoring
    case; that token must then have the shape `--key` or `--key=value`. Options are
    written into the request's options record under the option's tag.
 */
module CommandOptions {
  import opened Wrappers
  import opened Json
  import opened Strings
  import opened Text
  import opened CliTypes

  /** `isValidCommandOptionName`: after trimming, no `\s` character is left. */
  predicate IsValidName(option: string) {
    !HasSpace(Trim(option))
  }

  /** `normalizeCommandOptionName`: `--` and the kebab case of the trimmed name. */
  function NormalizeName(option: string): (r: string)
    ensures StartsWith(r, "--") && r[2..] == Kebab(Trim(option))
    ensures IsValidName(option) ==> !HasSpace(r[2..])
  {
    var r := "--" + Kebab(Trim(option));
    if IsValidName(option) then
      KebabKeepsNoSpace(Trim(option));
      r
    else r
  }

  /** Kebab case only inserts dashes and lowers ASCII letters, so it brings in no
      white space. */
  lemma KebabKeepsNoSpace(s: string)
    requires !HasSpace(s)
    ensures !HasSpace(Kebab(s))
  {
    DashBeforeUpperNoSpace(s);
    DashBeforeWordNoSpace(DashBeforeUpper(s));
    LowerNoSpace(DashBeforeWord(DashBeforeUpper(s)));
  }

  lemma {:induction false} DashBeforeUpperNoSpace(s: string)
    requires !HasSpace(s)
    ensures !HasSpace(DashBeforeUpper(s))
    decreases |s|
  {
    if |s| >= 2 {
      assert !HasSpace(s[1..]) by {
        forall i | 0 <= i < |s| - 1 ensures !IsSpace(s[1..][i]) {
          assert s[1..][i] == s[i + 1];
        }
      }
      DashBeforeUpperNoSpace(s[1..]);
      var r := DashBeforeUpper(s);
      var t := DashBeforeUpper(s[1..]);
      forall i | 0 <= i < |r| ensures !IsSpace(r[i]) {
        if r == [s[0], '-'] + t {
          if i >= 2 { assert r[i] == t[i - 2]; }
        } else {
          assert r == [s[0]] + t;
          if i >= 1 { assert r[i] == t[i - 1]; }
        }
      }
    }
  }

  lemma {:induction false} DashBeforeWordNoSpace(s: string)
    requires !HasSpace(s)
    ensures !HasSpace(DashBeforeWord(s))
    decreases |s|
  {
    if |s| >= 3 {
      assert !HasSpace(s[1..]) by {
        forall i | 0 <= i < |s| - 1 ensures !IsSpace(s[1..][i]) {
          assert s[1..][i] == s[i + 1];
        }
      }
      DashBeforeWordNoSpace(s[1..]);
      var r := DashBeforeWord(s);
      var t := DashBeforeWord(s[1..]);
      forall i | 0 <= i < |r| ensures !IsSpace(r[i]) {
        if r == [s[0], '-'] + t {
          if i >= 2 { assert r[i] == t[i - 2]; }
        } else {
          assert r == [s[0]] + t;
          if i >= 1 { assert r[i] == t[i - 1]; }
        }
      }
    }
  }

  lemma LowerNoSpace(s: string)
    requires !HasSpace(s)
    ensures !HasSpace(Lower(s))
  {
    forall i | 0 <= i < |s| ensures !IsSpace(Lower(s)[i]) {
      assert Lower(s)[i] == ToLowerChar(s[i]);
    }
  }

  /** `unwrapQuotes`: one matching pair of surrounding double or single quotes is
      removed; anything else comes back unchanged. */
  function UnwrapQuotes(value: string): (r: string)
    ensures |value| >= 2 && (value[0] == '"' || value[0] == '\'') && value[|value| - 1] == value[0] ==>
      r == value[1..|value| - 1]
    ensures !(|value| >= 2 && (value[0] == '"' || value[0] == '\'') && value[|value| - 1] == value[0]) ==>
      r == value
  {
    if |value| < 2 then value
    else if (value[0] == '"' || value[0] == '\'') && value[0] == value[|value| - 1] then value[1..|value| - 1]
    else value
  }

  /** Quoting a value and unwrapping it gives the value back, whatever it holds. */
  lemma QuoteRoundTrip(q: char, value: string)
    requires q == '"' || q == '\''
    ensures UnwrapQuotes([q] + value + [q]) == value
  {
    assert ([q] + value + [q])[1..|value| + 1] == value;
  }

  // ------------------------------------------------------------ token shape

  /** A character of the key in `--key[=value]`. */
  predicate IsKeyChar(c: char) {
    IsAsciiUpper(c) || IsAsciiLower(c) || IsAsciiDigit(c) || c == '_' || c == '-'
  }

  /** A key: a non-empty run of key characters. */
  predicate IsKey(key: string) {
    |key| > 0 && forall i :: 0 <= i < |key| ==> IsKeyChar(key[i])
  }

  predicate NoneOf(s: string, c: char) {
    forall i :: 0 <= i < |s| ==> s[i] != c
  }

  /** The value group: a double-quoted run without inner double quotes, a
      single-quoted run without inner single quotes, or a non-empty run with no quote
      at all. */
  predicate IsValueText(v: string) {
    || (|v| >= 2 && v[0] == '"' && v[|v| - 1] == '"' && NoneOf(v[1..|v| - 1], '"'))
    || (|v| >= 2 && v[0] == '\'' && v[|v| - 1] == '\'' && NoneOf(v[1..|v| - 1], '\''))
    || (|v| >= 1 && NoneOf(v, '"') && NoneOf(v, '\''))
  }

  /** The position of the first `c` in `s`, or `|s|`. */
  function IndexOf(s: string, c: char): (i: nat)
    ensures i <= |s| && NoneOf(s[..i], c)
    ensures i < |s| ==> s[i] == c
  {
    if |s| == 0 then 0
    else if s[0] == c then 0
    else
      var j := IndexOf(s[1..], c);
      assert s[..j + 1] == [s[0]] + s[1..][..j];
      j + 1
  }

  /** The token shape `--key[=value]`, anchored at both ends: `None` when the token
      does not have it, otherwise the value group (absent without `=`). The key holds
      no `=`, so it ends at the first `=`. */
  function MatchToken(raw: string): (r: Option<Option<string>>)
    ensures r.Some? ==> StartsWith(raw, "--")
    ensures r == Some(None) ==> |raw| > 2 && forall i :: 2 <= i < |raw| ==> IsKeyChar(raw[i])
    ensures r.Some? && r.value.Some? ==> IsValueText(r.value.value) && EndsWith(raw, "=" + r.value.value)
    ensures r.Some? && r.value.Some? ==> exists key :: IsKey(key) && raw == "--" + key + "=" + r.value.value
  {
    if !StartsWith(raw, "--") then None
    else
      var rest := raw[2..];
      var k := IndexOf(rest, '=');
      var key := rest[..k];
      if |key| == 0 || !(forall i :: 0 <= i < |key| ==> IsKeyChar(key[i])) then None
      else if k == |rest| then
        assert forall i :: 2 <= i < |raw| ==> raw[i] == key[i - 2];
        Some(None)
      else
        var v := rest[k + 1..];
        if IsValueText(v) then
          assert raw[|raw| - |v| - 1..] == "=" + v;
          assert raw == "--" + key + "=" + v by {
            assert raw == raw[..2] + rest && rest == rest[..k] + [rest[k]] + rest[k + 1..];
          }
          assert IsKey(key);
          Some(Some(v))
        else None
  }

  /** An option's token written with a plain value parses back to that value. */
  lemma MatchWritten(key: string, v: string)
    requires IsKey(key)
    requires IsValueText(v)
    ensures MatchToken("--" + key + "=" + v) == Some(Some(v))
  {
    var raw := "--" + key + "=" + v;
    var rest := raw[2..];
    assert rest == key + "=" + v;
    assert NoneOf(key, '=') by {
      forall i | 0 <= i < |key| ensures key[i] != '=' {
        assert IsKeyChar(key[i]);
      }
    }
    IndexOfAfter(key, v, '=');
    assert rest[..|key|] == key;
    assert rest[|key| + 1..] == v;
  }

  lemma IndexOfAfter(a: string, b: string, c: char)
    requires NoneOf(a, c)
    ensures IndexOf(a + [c] + b, c) == |a|
  {
    var s := a + [c] + b;
    assert s[|a|] == c;
    assert forall k :: 0 <= k < |a| ==> s[k] == a[k];
  }

  /** A token without `=` whose key characters are all allowed matches with no value. */
  lemma MatchFlag(key: string)
    requires |key| > 0 && forall i :: 0 <= i < |key| ==> IsKeyChar(key[i])
    ensures MatchToken("--" + key) == Some(None)
  {
    var raw := "--" + key;
    assert raw[2..] == key;
    assert NoneOf(key, '=') by {
      forall i | 0 <= i < |key| ensures key[i] != '=' {
        assert IsKeyChar(key[i]);
      }
    }
    var k := IndexOf(key, '=');
    assert k == |key|;
    assert key[..k] == key;
  }

  // ---------------------------------------------------------------- options

  datatype CommandOption = CommandOption(
    tag: string,
    name: string,
    optionType: OptionType,
    description: string,
    required: bool,
    defaultValue: Option<Value>)

  const DefaultDescription := "The option description is missing."

  /** The constructor: the name (the tag when none is given) must be valid; the
      type defaults to string, the description to a fixed text, required to false.
      The default is kept as given; one given as `undefined` is no default. */
  function MakeOption(tag: string, name: Option<string>, optionType: Option<OptionType>, description: Option<string>,
                      required: Option<bool>, defaultValue: Option<Value>): (r: Result<CommandOption>)
    ensures r.Success? <==> IsValidName(name.GetOr(tag))
    ensures r.Failure? ==> r.error == "\"" + name.GetOr("undefined") + "\" is not valid command option name."
    ensures r.Success? ==> r.value.name == NormalizeName(name.GetOr(tag)) && r.value.tag == tag
    ensures r.Success? ==> !HasSpace(r.value.name[2..])
    ensures r.Success? ==> r.value.optionType == optionType.GetOr(StringType)
    ensures r.Success? ==> r.value.description == description.GetOr(DefaultDescription)
    ensures r.Success? ==> r.value.required == required.GetOr(false) && r.value.defaultValue == defaultValue
    ensures r.Success? ==> (HasDefault(r.value) <==> defaultValue.Some? && defaultValue.value != Undefined)
  {
    if !IsValidName(name.GetOr(tag)) then
      Failure("\"" + name.GetOr("undefined") + "\" is not valid command option name.")
    else
      Success(CommandOption(tag, NormalizeName(name.GetOr(tag)), optionType.GetOr(StringType),
        description.GetOr(DefaultDescription), required.GetOr(false), defaultValue))
  }

  /** `test(token)`: the token starts with the option's name, ignoring case. The name
      is used as a pattern; names here are read as plain text. */
  predicate Test(o: CommandOption, token: string) {
    StartsWith(Lower(token), Lower(o.name))
  }

  /** The position of the first token the option recognises, or `|raw|`. */
  function FirstToken(o: CommandOption, raw: seq<string>): (i: nat)
    ensures i <= |raw|
    ensures i < |raw| ==> Test(o, raw[i])
    ensures forall j :: 0 <= j < i ==> !Test(o, raw[j])
  {
    if |raw| == 0 then 0
    else if Test(o, raw[0]) then 0
    else
      var j := FirstToken(o, raw[1..]);
      assert forall k :: 1 <= k < j + 1 ==> raw[k] == raw[1..][k - 1];
      j + 1
  }

  function RequiredError(o: CommandOption): string {
    "Parameter \"" + o.name + "\" is required."
  }

  /** The value text before unwrapping: the token's own, or, for an option that is
      not boolean, the next token unless it starts with `--`. */
  function RawValue(o: CommandOption, raw: seq<string>, i: nat, own: Option<string>): (r: Option<string>)
    requires i < |raw|
    ensures own.Some? ==> r == own
    ensures own.None? && o.optionType != BooleanType && i + 1 < |raw| && !StartsWith(raw[i + 1], "--") ==>
      r == Some(raw[i + 1])
    ensures r.Some? && own.None? ==> o.optionType != BooleanType && i + 1 < |raw| && r.value == raw[i + 1]
  {
    if own.Some? then own
    else if o.optionType != BooleanType && i + 1 < |raw| && !StartsWith(raw[i + 1], "--") then Some(raw[i + 1])
    else None
  }

  /** The option is given by a token of the right shape. */
  predicate Present(o: CommandOption, raw: seq<string>) {
    FirstToken(o, raw) < |raw| && MatchToken(raw[FirstToken(o, raw)]).Some?
  }

  /** The value a present option is given, quotes removed: its own `=value`, or the
      next token as `RawValue` chooses it. */
  function GivenValue(o: CommandOption, raw: seq<string>): Option<string>
    requires Present(o, raw)
  {
    var i := FirstToken(o, raw);
    var v := RawValue(o, raw, i, MatchToken(raw[i]).value);
    if v.None? then None else Some(UnwrapQuotes(v.value))
  }

  /** The option has a default: `isUndefined(defaultValue)` fails, so a default given
      explicitly as `undefined` counts as none. */
  predicate HasDefault(o: CommandOption) {
    o.defaultValue.Some? && !o.defaultValue.value.Undefined?
  }

  /** `parse(request)`: the options record after reading this option, or the error. */
  function ParseOption(o: CommandOption, raw: seq<string>, options: Fields): (r: Result<Fields>)
    // absent: the default, or the required error, or nothing
    ensures FirstToken(o, raw) == |raw| ==>
      && (o.required && !HasDefault(o) ==> r == Failure(RequiredError(o)))
      && (HasDefault(o) ==> r == Success(Put(options, o.tag, o.defaultValue.value)))
      && (!o.required && !HasDefault(o) ==> r == Success(options))
    // present but malformed
    ensures FirstToken(o, raw) < |raw| && MatchToken(raw[FirstToken(o, raw)]).None? ==>
      r == Failure("Incorrect option format " + o.name + ".")
    // whatever happens, only the tag may change
    ensures r.Success? ==> forall k :: k != o.tag ==> Get(r.value, k) == Get(options, k) && (Has(r.value, k) <==> Has(options, k))
    // a boolean option with no value, or an empty one, is switched on
    ensures Present(o, raw) && o.optionType == BooleanType && GivenValue(o, raw).GetOr("") == "" ==>
      r == Success(Put(options, o.tag, Bool(true)))
    // any other option present with no value, or an empty one: the default, else the
    // required error, else nothing
    ensures Present(o, raw) && o.optionType != BooleanType && GivenValue(o, raw).GetOr("") == "" ==>
      && (HasDefault(o) ==> r == Success(Put(options, o.tag, o.defaultValue.value)))
      && (!HasDefault(o) && o.required ==> r == Failure(RequiredError(o)))
      && (!HasDefault(o) && !o.required ==> r == Success(options))
    // a value, from the token itself or from the next token, is parsed by the option's type
    ensures Present(o, raw) && GivenValue(o, raw).GetOr("") != "" ==>
      && (r.Success? <==> Parse(o.optionType, GivenValue(o, raw).value).Success?)
      && (r.Success? ==> r.value == Put(options, o.tag, Parse(o.optionType, GivenValue(o, raw).value).value))
  {
    var i := FirstToken(o, raw);
    if i == |raw| then
      if o.required && !HasDefault(o) then Failure(RequiredError(o))
      else if HasDefault(o) then Success(Put(options, o.tag, o.defaultValue.value))
      else Success(options)
    else
      var shape := MatchToken(raw[i]);
      if shape.None? then Failure("Incorrect option format " + o.name + ".")
      else
        var value := RawValue(o, raw, i, shape.value);
        var unwrapped := if value.None? then None else Some(UnwrapQuotes(value.value));
        if o.optionType == BooleanType && unwrapped.GetOr("") == "" then Success(Put(options, o.tag, Bool(true)))
        else if unwrapped.None? || unwrapped.value == "" then
          if HasDefault(o) then Success(Put(options, o.tag, o.defaultValue.value))
          else if o.required then Failure(RequiredError(o))
          else Success(options)
        else
          var v :- Parse(o.optionType, unwrapped.value);
          Success(Put(options, o.tag, v))
  }

  /** A default given explicitly as `undefined` acts as no default: parsing is the same
      as for the option without one, so an absent required option is an error and an
      absent optional one sets nothing. */
  lemma UndefinedDefaultIsNone(o: CommandOption, raw: seq<string>, options: Fields)
    requires o.defaultValue == Some(Undefined)
    ensures ParseOption(o, raw, options) == ParseOption(o.(defaultValue := None), raw, options)
    ensures FirstToken(o, raw) == |raw| && o.required ==> ParseOption(o, raw, options) == Failure(RequiredError(o))
    ensures FirstToken(o, raw) == |raw| && !o.required ==> ParseOption(o, raw, options) == Success(options)
  {
    var none := o.(defaultValue := None);
    SameNameSameToken(o, none, raw);
    var i := FirstToken(o, raw);
    if i < |raw| && MatchToken(raw[i]).Some? {
      assert RawValue(o, raw, i, MatchToken(raw[i]).value) == RawValue(none, raw, i, MatchToken(raw[i]).value);
    }
  }

  /** Only the name decides which token an option recognises. */
  lemma {:induction false} SameNameSameToken(o: CommandOption, other: CommandOption, raw: seq<string>)
    requires o.name == other.name
    ensures FirstToken(o, raw) == FirstToken(other, raw)
    decreases |raw|
  {
    if |raw| > 0 {
      SameNameSameToken(o, other, raw[1..]);
    }
  }

  /** A string option given as `--name=value` stores that value under its tag. */
  lemma ParseWritten(o: CommandOption, v: string, options: Fields)
    requires o.optionType == StringType && |o.name| > 2 && StartsWith(o.name, "--")
    requires forall i :: 2 <= i < |o.name| ==> IsKeyChar(o.name[i])
    requires |v| > 0 && NoneOf(v, '"') && NoneOf(v, '\'')
    ensures ParseOption(o, [o.name + "=" + v], options) == Success(Put(options, o.tag, Str(v)))
  {
    var key := o.name[2..];
    NameKey(o.name);
    assert o.name + "=" + v == "--" + key + "=" + v;
    MatchWritten(key, v);
    var token := o.name + "=" + v;
    TokenLowerPrefix(o.name, "=" + v);
    assert token == o.name + ("=" + v);
    assert FirstToken(o, [token]) == 0;
    UnwrapPlain(v);
  }

  lemma NameKey(name: string)
    requires |name| > 2 && StartsWith(name, "--")
    requires forall i :: 2 <= i < |name| ==> IsKeyChar(name[i])
    ensures name == "--" + name[2..]
    ensures forall i :: 0 <= i < |name[2..]| ==> IsKeyChar(name[2..][i])
  {
    forall i | 0 <= i < |name[2..]| ensures IsKeyChar(name[2..][i]) {
      assert name[2..][i] == name[i + 2];
    }
  }

  lemma TokenLowerPrefix(name: string, rest: string)
    ensures Lower(name + rest)[..|name|] == Lower(name)
  {
    assert (name + rest)[..|name|] == name;
    LowerPrefix(name + rest, |name|);
  }

  lemma UnwrapPlain(v: string)
    requires |v| > 0 && NoneOf(v, '"') && NoneOf(v, '\'')
    ensures UnwrapQuotes(v) == v
  {
    if |v| >= 2 { assert v[0] != '"' && v[0] != '\''; }
  }

  lemma LowerPrefix(s: string, n: nat)
    requires n <= |s|
    ensures Lower(s)[..n] == Lower(s[..n])
  {
  }

  /** A boolean option given alone is switched on. */
  lemma ParseFlag(o: CommandOption, options: Fields)
    requires o.optionType == BooleanType && |o.name| > 2 && StartsWith(o.name, "--")
    requires forall i :: 2 <= i < |o.name| ==> IsKeyChar(o.name[i])
    ensures ParseOption(o, [o.name], options) == Success(Put(options, o.tag, Bool(true)))
  {
    var key := o.name[2..];
    assert o.name == "--" + key;
    assert forall i :: 0 <= i < |key| ==> IsKeyChar(key[i]) by {
      forall i | 0 <= i < |key| ensures IsKeyChar(key[i]) {
        assert key[i] == o.name[i + 2];
      }
    }
    MatchFlag(key);
    assert FirstToken(o, [o.name]) == 0;
  }

  /** A string option given as `--name value` takes the next token as its value. */
  lemma ParseNextToken(o: CommandOption, v: string, options: Fields)
    requires o.optionType == StringType && |o.name| > 2 && StartsWith(o.name, "--")
    requires forall i :: 2 <= i < |o.name| ==> IsKeyChar(o.name[i])
    requires |v| > 0 && NoneOf(v, '"') && NoneOf(v, '\'') && !StartsWith(v, "--")
    ensures ParseOption(o, [o.name, v], options) == Success(Put(options, o.tag, Str(v)))
  {
    var key := o.name[2..];
    NameKey(o.name);
    MatchFlag(key);
    assert FirstToken(o, [o.name, v]) == 0;
    UnwrapPlain(v);
  }
}
