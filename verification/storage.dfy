/** The storage interface the commands work against (src/EntityStorage.ts): `one`,
    `all`, `new` and `commit` over a storage's entries.

    A storage is abstracted to the sequence of its entries, identified by position.
    How `one` finds an entry depends on the storage (registry index, remote fetch),
    so it is a parameter; an answer outside the storage is read as "not found".
    Every call a command makes on a storage is recorded in a trace.
 */
module Storages {
  import opened Wrappers
  import opened Json
  import opened EntityTypes
  import opened StorageEntries

  datatype Side = Local | Remote

  /** One call on a storage, or on an entry it holds. */
  datatype Call =
    | Lookup(side: Side, kind: EntityType, where: Fields)
    | Create(side: Side, kind: EntityType, entity: Fields)
    | Changed(side: Side, id: nat)
    | Deleted(side: Side, id: nat)
    | Commit(side: Side)

  /** `one(of, where)` of a particular storage: the position of the entry found. */
  type Finder = (seq<Entry>, EntityType, Fields) -> Option<nat>

  /** The two storages a command sees, and the calls made on them so far. */
  datatype Sides = Sides(local: seq<Entry>, remote: seq<Entry>, calls: seq<Call>)

  function Entries(st: Sides, side: Side): seq<Entry> {
    match side
    case Local => st.local
    case Remote => st.remote
  }

  /** `one(of, where)` on one side. */
  function Probe(find: Finder, entries: seq<Entry>, of: EntityType, where: Fields): (r: Option<nat>)
    ensures r.Some? ==> r.value < |entries|
    ensures r.Some? ==> find(entries, of, where) == r
  {
    var r := find(entries, of, where);
    if r.Some? && r.value < |entries| then r else None
  }

  /** `new(of, entity)`: a NEW entry holding the entity, with no saved hash, appended
      to the side. */
  function AddNew(st: Sides, side: Side, of: EntityType, entity: Fields): (r: Sides)
    ensures Entries(r, side) == Entries(st, side) + [Entry(of, New, entity, None, Cookie(None, None), Null)]
    ensures side == Local ==> r.remote == st.remote
    ensures side == Remote ==> r.local == st.local
    ensures r.calls == st.calls + [Call.Create(side, of, entity)]
  {
    var e := NewEntry(of, entity, None, Some(New), Cookie(None, None), Null);
    match side
    case Local => st.(local := st.local + [e], calls := st.calls + [Call.Create(side, of, entity)])
    case Remote => st.(remote := st.remote + [e], calls := st.calls + [Call.Create(side, of, entity)])
  }

  /** Puts back entry `id` of a side after an entry operation. */
  function Store(st: Sides, side: Side, id: nat, e: Entry, call: Call): (r: Sides)
    requires id < |Entries(st, side)|
    ensures Entries(r, side) == Entries(st, side)[id := e]
    ensures side == Local ==> r.remote == st.remote
    ensures side == Remote ==> r.local == st.local
    ensures r.calls == st.calls + [call]
  {
    match side
    case Local => st.(local := st.local[id := e], calls := st.calls + [call])
    case Remote => st.(remote := st.remote[id := e], calls := st.calls + [call])
  }

  /** `entry.change(p)` on entry `id` of a side. */
  function ChangeAt(st: Sides, side: Side, id: nat, p: Fields): (r: Result<Sides>)
    requires id < |Entries(st, side)|
    ensures r.Success? <==> Editable(Entries(st, side)[id].state)
    ensures r.Success? ==> r.value == Store(st, side, id, Change(Entries(st, side)[id], p).value, Changed(side, id))
  {
    var e :- Change(Entries(st, side)[id], p);
    Success(Store(st, side, id, e, Changed(side, id)))
  }

  /** `entry.delete()` on entry `id` of a side. */
  function DeleteAt(st: Sides, side: Side, id: nat): (r: Result<Sides>)
    requires id < |Entries(st, side)|
    ensures r.Success? <==> Entries(st, side)[id].state in {Clean, Dirty, Killed}
    ensures r.Failure? ==> r.error == Delete(Entries(st, side)[id]).error
    ensures r.Success? ==> r.value == Store(st, side, id, Entries(st, side)[id].(state := Killed), Deleted(side, id))
  {
    var e :- Delete(Entries(st, side)[id]);
    Success(Store(st, side, id, e, Deleted(side, id)))
  }

  function CommitOf(st: Sides, side: Side): (r: Sides)
    ensures r.local == st.local && r.remote == st.remote
    ensures r.calls == st.calls + [Commit(side)]
  {
    st.(calls := st.calls + [Commit(side)])
  }

  /** The positions `all(of)` enumerates: every entry, or those of the given type. */
  function Enumerate(entries: seq<Entry>, of: Option<EntityType>): (ids: seq<nat>)
    ensures forall i :: 0 <= i < |ids| ==> ids[i] < |entries|
    ensures forall i :: 0 <= i < |ids| ==> of.None? || entries[ids[i]].kind == of.value
    ensures forall j :: 0 <= j < |entries| && (of.None? || entries[j].kind == of.value) ==> j in ids
    ensures forall i, j :: 0 <= i < j < |ids| ==> ids[i] < ids[j]
  {
    if |entries| == 0 then []
    else
      var front := Enumerate(entries[..|entries| - 1], of);
      var last := |entries| - 1;
      var ids := if of.None? || entries[last].kind == of.value then front + [last] else front;
      EnumerateStep(entries, of, front, ids);
      ids
  }

  /** The positions enumerated in all but the last entry, with the last appended when
      it is of the type, are the positions enumerated in all of them. */
  lemma EnumerateStep(entries: seq<Entry>, of: Option<EntityType>, front: seq<nat>, ids: seq<nat>)
    requires |entries| > 0
    requires forall i :: 0 <= i < |front| ==> front[i] < |entries| - 1
    requires forall i :: 0 <= i < |front| ==> of.None? || entries[..|entries| - 1][front[i]].kind == of.value
    requires forall j :: 0 <= j < |entries| - 1 && (of.None? || entries[..|entries| - 1][j].kind == of.value) ==> j in front
    requires forall i, j :: 0 <= i < j < |front| ==> front[i] < front[j]
    requires ids == if of.None? || entries[|entries| - 1].kind == of.value then front + [|entries| - 1] else front
    ensures forall i :: 0 <= i < |ids| ==> ids[i] < |entries|
    ensures forall i :: 0 <= i < |ids| ==> of.None? || entries[ids[i]].kind == of.value
    ensures forall j :: 0 <= j < |entries| && (of.None? || entries[j].kind == of.value) ==> j in ids
    ensures forall i, j :: 0 <= i < j < |ids| ==> ids[i] < ids[j]
  {
    var last := |entries| - 1;
    assert forall i :: 0 <= i < |front| ==> entries[..last][front[i]] == entries[front[i]];
    assert forall j :: 0 <= j < last ==> entries[..last][j] == entries[j];
  }

  /** The number of commits of a side in a trace. */
  function Commits(calls: seq<Call>, side: Side): nat {
    if |calls| == 0 then 0
    else Commits(calls[..|calls| - 1], side) + (if calls[|calls| - 1] == Commit(side) then 1 else 0)
  }

  lemma {:induction false} CommitsAppend(a: seq<Call>, b: seq<Call>, side: Side)
    ensures Commits(a + b, side) == Commits(a, side) + Commits(b, side)
    decreases |b|
  {
    if |b| == 0 {
      assert a + b == a;
    } else {
      assert (a + b)[..|a + b| - 1] == a + b[..|b| - 1];
      CommitsAppend(a, b[..|b| - 1], side);
    }
  }

  /** Whether a call changes what a side holds. */
  predicate Mutates(c: Call, side: Side) {
    (c.Create? || c.Changed? || c.Deleted?) && c.side == side
  }
}
