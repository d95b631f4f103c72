/** The value types of command-line options (src/cli/BooleanType.ts,
    src/cli/LiteralType.ts, src/cli/UnionType.ts, src/cli/StringType.ts). A type
    parses the raw option text into a value or throws, and names itself for help
    and error messages. The floating-point number type is not part of this model.
 */
module CliTypes {
  import opened Wrappers
  import opened Json
  import opened Strings

  /** The constant a literal type accepts: a string or a number. */
  datatype Literal = StrLiteral(s: string) | NumLiteral(n: int)

  datatype OptionType =
    | BooleanType
    | StringType
    | LiteralType(literal: Literal)
    | UnionType(types: seq<OptionType>)

  const TrueWords: seq<string> := ["true", "1", "yes", "on"]
  const FalseWords: seq<string> := ["false", "0", "no", "off"]
  const InvalidBoolean := "Invalid value for boolean option type."

  /** `booleanType.parse`: one of the four true words or the four false words,
      spelled exactly; anything else is an error. */
  function ParseBoolean(value: string): (r: Result<bool>)
    ensures r.Success? <==> value in TrueWords || value in FalseWords
    ensures r.Success? ==> (r.value <==> value in TrueWords)
    ensures r.Failure? ==> r.error == InvalidBoolean
  {
    if value in TrueWords then Success(true)
    else if value in FalseWords then Success(false)
    else Failure(InvalidBoolean)
  }

  /** No word is both true and false, so the order of the two tests never matters. */
  lemma BooleanWordsDisjoint()
    ensures forall w :: w in TrueWords ==> w !in FalseWords
  {
  }

  /** The words are case-sensitive: other spellings of a true word are errors. */
  lemma BooleanCaseSensitive()
    ensures ParseBoolean("TRUE").Failure? && ParseBoolean("Yes").Failure?
    ensures ParseBoolean("On").Failure? && ParseBoolean("OFF").Failure?
  {
    assert "TRUE" != "true";
    assert "Yes" != "yes";
    assert "On" != "on";
    assert "OFF" != "off";
  }

  /** `LiteralType.parse`: the strict comparison `value !== literal` lets through only
      the literal's own text, and never anything for a numeric literal, since a
      string is never strictly equal to a number. */
  function ParseLiteral(literal: Literal, value: string): (r: Result<Value>)
    ensures r.Success? <==> literal == StrLiteral(value)
    ensures r.Success? ==> r.value == Str(value)
    ensures r.Failure? ==> r.error == ""
  {
    match literal
    case StrLiteral(s) => if value == s then Success(Str(s)) else Failure("")
    case NumLiteral(_) => Failure("")
  }

  function LiteralToString(literal: Literal): string {
    match literal
    case StrLiteral(s) => s
    case NumLiteral(n) => IntToString(n)
  }

  /** `toString()` of a type: 'boolean', 'string', the literal's text, or the members'
      names joined with '|'. */
  function ToString(t: OptionType): string
    decreases t
  {
    match t
    case BooleanType => "boolean"
    case StringType => "string"
    case LiteralType(l) => LiteralToString(l)
    case UnionType(ts) => Join(seq(|ts|, i requires 0 <= i < |ts| => ToString(ts[i])), "|")
  }

  function Rank(t: OptionType): nat {
    if t.UnionType? then |t.types| + 1 else 0
  }

  /** `parse(value)` of a type. */
  function Parse(t: OptionType, value: string): Result<Value>
    decreases t, Rank(t)
  {
    match t
    case BooleanType =>
      var b :- ParseBoolean(value);
      Success(Bool(b))
    case StringType => Success(Str(value))
    case LiteralType(l) => ParseLiteral(l, value)
    case UnionType(ts) => ParseMembers(t, 0, value)
  }

  /** The loop of `UnionType.parse` from member `i` on: the first member whose parse
      does not throw gives the result; when none is left the union throws. */
  function ParseMembers(t: OptionType, i: nat, value: string): Result<Value>
    requires t.UnionType? && i <= |t.types|
    decreases t, |t.types| - i
  {
    if i == |t.types| then Failure(value + " is invalid for type " + ToString(t) + ".")
    else
      var r := Parse(t.types[i], value);
      if r.Success? then r else ParseMembers(t, i + 1, value)
  }

  lemma {:induction false} ParseMembersFirst(t: OptionType, i: nat, value: string)
    requires t.UnionType? && i <= |t.types|
    ensures ParseMembers(t, i, value).Success? <==>
      exists j :: i <= j < |t.types| && Parse(t.types[j], value).Success?
    ensures ParseMembers(t, i, value).Success? ==>
      exists j :: i <= j < |t.types| && ParseMembers(t, i, value) == Parse(t.types[j], value)
        && forall m :: i <= m < j ==> Parse(t.types[m], value).Failure?
    ensures ParseMembers(t, i, value).Failure? ==>
      ParseMembers(t, i, value).error == value + " is invalid for type " + ToString(t) + "."
    decreases |t.types| - i
  {
    if i < |t.types| && Parse(t.types[i], value).Failure? {
      ParseMembersFirst(t, i + 1, value);
      var r := ParseMembers(t, i, value);
      if r.Success? {
        var j :| i + 1 <= j < |t.types| && r == Parse(t.types[j], value)
          && forall m :: i + 1 <= m < j ==> Parse(t.types[m], value).Failure?;
        assert forall m :: i <= m < j ==> Parse(t.types[m], value).Failure?;
      }
    }
  }

  /** A union parses a value exactly when one of its members does, and then gives the
      result of the first such member in list order; otherwise it throws naming the
      value and the union. */
  lemma UnionParse(ts: seq<OptionType>, value: string)
    ensures Parse(UnionType(ts), value).Success? <==>
      exists j :: 0 <= j < |ts| && Parse(ts[j], value).Success?
    ensures Parse(UnionType(ts), value).Success? ==>
      exists j :: 0 <= j < |ts| && Parse(UnionType(ts), value) == Parse(ts[j], value)
        && forall m :: 0 <= m < j ==> Parse(ts[m], value).Failure?
    ensures Parse(UnionType(ts), value).Failure? ==>
      Parse(UnionType(ts), value).error == value + " is invalid for type " + ToString(UnionType(ts)) + "."
  {
    ParseMembersFirst(UnionType(ts), 0, value);
  }

  /** An empty union accepts nothing. */
  lemma EmptyUnionRejects(value: string)
    ensures Parse(UnionType([]), value) == Failure(value + " is invalid for type .")
  {
  }

  /** The string type accepts every text unchanged, '' included. */
  lemma StringTypeIdentity(value: string)
    ensures Parse(StringType, value) == Success(Str(value))
  {
  }

  /** With the string type among its members, a union accepts every text. */
  lemma StringMemberMakesUnionTotal(ts: seq<OptionType>, value: string)
    requires StringType in ts
    ensures Parse(UnionType(ts), value).Success?
  {
    var j :| 0 <= j < |ts| && ts[j] == StringType;
    assert Parse(ts[j], value).Success?;
    UnionParse(ts, value);
  }

  /** A string literal accepts its own name and gives back the literal. */
  lemma StringLiteralRoundTrip(s: string)
    ensures Parse(LiteralType(StrLiteral(s)), ToString(LiteralType(StrLiteral(s)))) == Success(Str(s))
  {
  }

  /** A numeric literal accepts no text at all, its own digits included. */
  lemma NumberLiteralRejects(n: int, value: string)
    ensures Parse(LiteralType(NumLiteral(n)), value).Failure?
  {
  }
}
