/** The entry of the older, array-per-file store (src/localStorage/LocalStorageEntry.ts).
    Unlike the current entry it starts NEW, a NEW entry can change, and deleting a NEW
    entry freezes it so that it can be revived.
 */
module LocalStorageEntries {
  import opened Wrappers
  import opened Json

  datatype LocalState = LNew | Freezed | LClean | LDirty | LKilled

  function LocalStateName(s: LocalState): string {
    match s
    case LNew => "new"
    case Freezed => "freezed"
    case LClean => "clean"
    case LDirty => "dirty"
    case LKilled => "killed"
  }

  datatype LocalEntry = LocalEntry(filePath: Option<string>, hash: Option<string>, index: Option<int>, payload: Fields, state: LocalState)

  /** The constructor: the state defaults to NEW. */
  function NewLocalEntry(filePath: Option<string>, hash: Option<string>, index: Option<int>, payload: Fields, state: Option<LocalState>): (e: LocalEntry)
    ensures e.filePath == filePath && e.hash == hash && e.index == index && e.payload == payload
    ensures e.state == (if state.Some? then state.value else LNew)
  {
    LocalEntry(filePath, hash, index, payload, state.GetOr(LNew))
  }

  predicate Live(s: LocalState) {
    s == LClean || s == LDirty || s == LNew
  }

  /** `change(p)`: a CLEAN, DIRTY or NEW entry takes `{ ...payload, ...p }`; a CLEAN
      one becomes DIRTY and the others keep their state. */
  function LocalChange(e: LocalEntry, p: Fields): (r: Result<LocalEntry>)
    ensures r.Success? <==> Live(e.state)
    ensures r.Failure? ==> r.error == "An entry in state \"" + LocalStateName(e.state) + "\" can't be changed."
    ensures r.Success? ==> r.value.state == (if e.state == LClean then LDirty else e.state)
    ensures r.Success? && DistinctKeys(p) ==>
      forall k :: Get(r.value.payload, k) == (if Has(p, k) then Get(p, k) else Get(e.payload, k))
    ensures r.Success? ==> r.value == e.(payload := r.value.payload, state := r.value.state)
  {
    if !Live(e.state) then Failure("An entry in state \"" + LocalStateName(e.state) + "\" can't be changed.")
    else
      var payload := Spread(e.payload, p);
      // The KILLED half of this test cannot hold after the guard above.
      var state := if e.state == LClean || e.state == LKilled then LDirty else e.state;
      Success(e.(payload := payload, state := state))
  }

  /** `delete()`: CLEAN and DIRTY entries become KILLED, a NEW entry is FREEZED. */
  function LocalDelete(e: LocalEntry): (r: Result<LocalEntry>)
    ensures r.Success? <==> Live(e.state)
    ensures r.Failure? ==> r.error == "An entry in state \"" + LocalStateName(e.state) + "\" can't be killed."
    ensures r.Success? ==> r.value == e.(state := if e.state == LNew then Freezed else LKilled)
  {
    if !Live(e.state) then Failure("An entry in state \"" + LocalStateName(e.state) + "\" can't be killed.")
    else if e.state == LClean || e.state == LDirty then Success(e.(state := LKilled))
    else Success(e.(state := Freezed))
  }

  /** `revive()`: only a FREEZED entry can be revived, and it becomes NEW again. */
  function Revive(e: LocalEntry): (r: Result<LocalEntry>)
    ensures r.Success? <==> e.state == Freezed
    ensures r.Failure? ==> r.error == "An entry in state \"" + LocalStateName(e.state) + "\" can't be revived."
    ensures r.Success? ==> r.value == e.(state := LNew)
  {
    if e.state != Freezed then Failure("An entry in state \"" + LocalStateName(e.state) + "\" can't be revived.")
    else Success(e.(state := LNew))
  }

  /** Deleting a NEW entry and reviving it gives back exactly the entry it was. */
  lemma DeleteThenRevive(e: LocalEntry)
    requires e.state == LNew
    ensures LocalDelete(e).Success? && Revive(LocalDelete(e).value) == Success(e)
  {
  }

  /** A KILLED entry is final: nothing changes, deletes or revives it. */
  lemma LocalKilledIsFinal(e: LocalEntry, p: Fields)
    requires e.state == LKilled
    ensures LocalChange(e, p).Failure? && LocalDelete(e).Failure? && Revive(e).Failure?
  {
  }

  datatype LocalOp = LChangeOp(p: Fields) | LDeleteOp | ReviveOp

  function LocalApply(e: LocalEntry, op: LocalOp): Result<LocalEntry> {
    match op
    case LChangeOp(p) => LocalChange(e, p)
    case LDeleteOp => LocalDelete(e)
    case ReviveOp => Revive(e)
  }

  /** Applies operations in order, stopping at the first that throws. */
  function LocalRun(e: LocalEntry, ops: seq<LocalOp>): Result<LocalEntry>
    decreases |ops|
  {
    if |ops| == 0 then Success(e)
    else
      var next :- LocalApply(e, ops[0]);
      LocalRun(next, ops[1..])
  }

  /** No sequence of operations touches the file path, saved hash or index, and none
      leads from a CLEAN or DIRTY entry back to NEW or FREEZED. */
  lemma {:induction false} LocalRunKeepsPlace(e: LocalEntry, ops: seq<LocalOp>)
    requires LocalRun(e, ops).Success?
    ensures var r := LocalRun(e, ops).value;
      (r.filePath, r.hash, r.index) == (e.filePath, e.hash, e.index)
    ensures e.state in {LClean, LDirty, LKilled} ==> LocalRun(e, ops).value.state in {LClean, LDirty, LKilled}
    decreases |ops|
  {
    if |ops| > 0 {
      LocalRunKeepsPlace(LocalApply(e, ops[0]).value, ops[1..]);
    }
  }
}
