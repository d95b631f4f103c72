/** The three kinds of synchronised entity (src/EntityType.ts). */
module EntityTypes {
  import opened Wrappers
  import opened Json
  import opened CliTypes
  import Strings

  datatype EntityType = Milestone | Label | Issue

  function Name(t: EntityType): string {
    match t
    case Milestone => "milestone"
    case Label => "label"
    case Issue => "issue"
  }

  /** The entity type named by a text, if any. */
  function FromName(s: string): (r: Option<EntityType>)
    ensures r.Some? ==> Name(r.value) == s
    ensures (exists t :: Name(t) == s) ==> r.Some?
  {
    if s == "milestone" then Some(Milestone)
    else if s == "label" then Some(Label)
    else if s == "issue" then Some(Issue)
    else None
  }

  lemma NameRoundTrip(t: EntityType)
    ensures FromName(Name(t)) == Some(t)
  {
  }

  /** `isEntityType`: the value is one of the three names, as a string. */
  predicate IsEntityType(v: Value) {
    v.Str? && FromName(v.s).Some?
  }

  /** `entityTypeType`: the option type accepting exactly the three names. */
  const EntityTypeType: OptionType :=
    UnionType([LiteralType(StrLiteral("milestone")), LiteralType(StrLiteral("label")), LiteralType(StrLiteral("issue"))])

  /** The option type and the type guard agree: the type parses a text exactly when
      the guard accepts it, and then gives the text back. */
  lemma EntityTypeTypeAgrees(s: string)
    ensures Parse(EntityTypeType, s).Success? <==> IsEntityType(Str(s))
    ensures Parse(EntityTypeType, s).Success? ==> Parse(EntityTypeType, s).value == Str(s)
  {
    UnionParse(EntityTypeType.types, s);
    var ts := EntityTypeType.types;
    if IsEntityType(Str(s)) {
      var j := if s == "milestone" then 0 else if s == "label" then 1 else 2;
      assert Parse(ts[j], s).Success?;
    }
  }

  lemma EntityTypeTypeName()
    ensures ToString(EntityTypeType) == "milestone|label|issue"
  {
    var ts := EntityTypeType.types;
    var names := seq(|ts|, i requires 0 <= i < |ts| => ToString(ts[i]));
    assert names == ["milestone", "label", "issue"];
    assert names[1..][1..] == ["issue"];
    assert Strings.Join(names[1..], "|") == "label|issue";
  }
}
