/** A storage entry: one entity held by a storage, with its lifecycle state
    (src/EntityStorageEntry.ts).

    The shown class has `type`, `change` and `delete`; its callers also use a
    primary key, `substitute` and `clean`, which are modelled here on one record.
 */
module StorageEntries {
  import opened Wrappers
  import opened Json
  import opened EntityTypes

  datatype EntryState = Detached | New | Clean | Dirty | Killed

  function StateName(s: EntryState): string {
    match s
    case Detached => "detached"
    case New => "new"
    case Clean => "clean"
    case Dirty => "dirty"
    case Killed => "killed"
  }

  /** Where a storage keeps the entry: the file (for the file store) and the position
      of its document in that file, when it has one. */
  datatype Cookie = Cookie(file: Option<string>, index: Option<int>)

  /** `primaryKey` is `Null` when the entry has no primary key yet. */
  datatype Entry = Entry(kind: EntityType, state: EntryState, entity: Fields, hash: Option<string>, cookie: Cookie, primaryKey: Value)

  /** The constructor: the entity is copied as it is, and the state defaults to
      DETACHED. */
  function NewEntry(kind: EntityType, entity: Fields, hash: Option<string>, state: Option<EntryState>, cookie: Cookie, primaryKey: Value): (e: Entry)
    ensures e.kind == kind && e.entity == entity && e.hash == hash && e.cookie == cookie && e.primaryKey == primaryKey
    ensures state.Some? ==> e.state == state.value
    ensures state.None? ==> e.state == Detached
  {
    Entry(kind, state.GetOr(Detached), entity, hash, cookie, primaryKey)
  }

  predicate Editable(s: EntryState) {
    s == Clean || s == Dirty
  }

  /** `change(p)`: only a CLEAN or DIRTY entry can change; the entity becomes
      `{ ...entity, ...p }` and the entry DIRTY. */
  function Change(e: Entry, p: Fields): (r: Result<Entry>)
    ensures r.Success? <==> Editable(e.state)
    ensures r.Failure? ==> r.error == "An entry in state \"" + StateName(e.state) + "\" can't be changed."
    ensures r.Success? ==> r.value.state == Dirty
    ensures r.Success? ==> forall k :: Has(r.value.entity, k) <==> Has(p, k) || Has(e.entity, k)
    ensures r.Success? && DistinctKeys(p) ==>
      forall k :: Get(r.value.entity, k) == (if Has(p, k) then Get(p, k) else Get(e.entity, k))
    ensures r.Success? ==> r.value == e.(entity := r.value.entity, state := Dirty)
  {
    if !Editable(e.state) then Failure("An entry in state \"" + StateName(e.state) + "\" can't be changed.")
    else Success(e.(entity := Spread(e.entity, p), state := Dirty))
  }

  /** `substitute(x)`: like `change`, but the entity is replaced wholesale. Its body
      is not part of this model; this follows the state rule of `change`, which
      agrees with every case the unit test states. */
  function Substitute(e: Entry, x: Fields): (r: Result<Entry>)
    ensures r.Success? <==> Editable(e.state)
    ensures r.Success? ==> r.value == e.(entity := x, state := Dirty)
  {
    if !Editable(e.state) then Failure("An entry in state \"" + StateName(e.state) + "\" can't be changed.")
    else Success(e.(entity := x, state := Dirty))
  }

  /** `delete()`: CLEAN, DIRTY and KILLED entries end KILLED; NEW and DETACHED ones
      cannot be deleted. */
  function Delete(e: Entry): (r: Result<Entry>)
    ensures r.Success? <==> e.state in {Clean, Dirty, Killed}
    ensures r.Failure? ==> r.error == "An entry in state \"" + StateName(e.state) + "\" can't be killed."
    ensures r.Success? ==> r.value == e.(state := Killed)
  {
    if e.state !in {Clean, Dirty, Killed} then Failure("An entry in state \"" + StateName(e.state) + "\" can't be killed.")
    else Success(e.(state := Killed))
  }

  /** `clean(x)`, as the GitHub storage uses it after a write: the entity becomes what
      the remote returned and the entry CLEAN. */
  function MarkClean(e: Entry, x: Fields): Entry {
    e.(entity := x, state := Clean)
  }

  lemma DeleteIdempotent(e: Entry)
    requires Delete(e).Success?
    ensures Delete(Delete(e).value) == Delete(e)
  {
  }

  /** The operations a client can apply to an entry. */
  datatype Op = ChangeOp(p: Fields) | SubstituteOp(x: Fields) | DeleteOp

  function Apply(e: Entry, op: Op): Result<Entry> {
    match op
    case ChangeOp(p) => Change(e, p)
    case SubstituteOp(x) => Substitute(e, x)
    case DeleteOp => Delete(e)
  }

  /** Applies operations in order, stopping at the first that throws. */
  function Run(e: Entry, ops: seq<Op>): Result<Entry>
    decreases |ops|
  {
    if |ops| == 0 then Success(e)
    else
      var next :- Apply(e, ops[0]);
      Run(next, ops[1..])
  }

  /** Whatever the operations, they never change an entry's type, saved hash, cookie
      or primary key, and once KILLED the entry stays KILLED: every later change or
      substitute throws and every later delete keeps it KILLED. */
  lemma {:induction false} RunKeepsIdentity(e: Entry, ops: seq<Op>)
    requires Run(e, ops).Success?
    ensures var r := Run(e, ops).value;
      (r.kind, r.hash, r.cookie, r.primaryKey) == (e.kind, e.hash, e.cookie, e.primaryKey)
    ensures e.state == Killed ==> Run(e, ops).value == e
    decreases |ops|
  {
    if |ops| > 0 {
      var next := Apply(e, ops[0]).value;
      RunKeepsIdentity(next, ops[1..]);
    }
  }

  /** From KILLED only deletes succeed: a run that changes or substitutes throws. */
  lemma {:induction false} KilledIsAbsorbing(e: Entry, ops: seq<Op>)
    requires e.state == Killed
    requires exists i :: 0 <= i < |ops| && !ops[i].DeleteOp?
    ensures Run(e, ops).Failure?
    decreases |ops|
  {
    if !ops[0].DeleteOp? {
    } else {
      assert Apply(e, ops[0]) == Success(e);
      var i :| 0 <= i < |ops| && !ops[i].DeleteOp?;
      assert ops[1..][i - 1] == ops[i];
      KilledIsAbsorbing(e, ops[1..]);
    }
  }
}
