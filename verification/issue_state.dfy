/** The two states of a GitHub issue (src/IssueState.ts). */
module IssueStates {
  import opened Json

  /** `isIssueState`: the value is exactly the string 'open' or 'closed'. */
  predicate IsIssueState(v: Value) {
    v == Str("open") || v == Str("closed")
  }

  /** The union type the guard narrows to. */
  datatype IssueState = Open | Closed

  /** The string each state is spelled as on the wire. */
  function Spelling(s: IssueState): (w: string)
    ensures |w| > 0 && 'a' <= w[0] <= 'z'
  {
    match s
    case Open => "open"
    case Closed => "closed"
  }

  /** The guard accepts a value exactly when it is the spelling of a state, so it is
      case-sensitive and rejects every non-string. */
  lemma IssueStateIsSpelling(v: Value)
    ensures IsIssueState(v) <==> exists s :: v == Str(Spelling(s))
    ensures IsIssueState(v) ==> v.Str?
  {
    if v == Str("open") {
      assert v == Str(Spelling(Open));
    } else if v == Str("closed") {
      assert v == Str(Spelling(Closed));
    }
  }
}
