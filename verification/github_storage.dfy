/** The storage that keeps entities on GitHub (src/gitHubStorage/GitHubStorage.ts).

    It reads through a registry: `one` answers from the registry when it can and
    otherwise asks the collection of the entity's type, registering what it finds as
    CLEAN. `new` only registers; `commit` pushes every pending entry, labels first,
    then milestones, then issues. Enumerating the remote is not supported.

    The three REST collections are the models of `GitHubCollections`; an entry stands
    for itself, so a commit returns the entries as they stand afterwards together with
    the requests it sent, in order.
 */
module GitHubStorages {
  import opened Wrappers
  import opened Json
  import opened EntityTypes
  import opened SchemaRegistries
  import opened StorageEntries
  import opened EntityRegistries
  import opened GitHubCollections

  /** The three collections, one per entity type. */
  datatype Remote = Remote(issues: IssueApi, milestones: MilestoneApi, labels: LabelApi)

  /** `collections[of].get(where)`. */
  function Fetch(remote: Remote, of: EntityType, where: Fields): (r: Result<Option<Fields>>)
    ensures of == Issue ==> r == IssueGet(remote.issues, where)
    ensures of == Milestone ==> r == MilestoneGet(remote.milestones, where)
    ensures of == Label ==> r == LabelGet(remote.labels, where)
  {
    match of
    case Issue => IssueGet(remote.issues, where)
    case Milestone => MilestoneGet(remote.milestones, where)
    case Label => LabelGet(remote.labels, where)
  }

  /** `collections[of].set(entity)`: what GitHub returned for the entity. */
  function Put(remote: Remote, of: EntityType, entity: Fields): (r: Result<Fields>)
    ensures of == Issue ==> (r.Success? <==> IssueSet(remote.issues, entity).Success?)
    ensures of == Issue && r.Success? ==> r.value == IssueSet(remote.issues, entity).value.issue
    ensures of == Milestone ==> r == MilestoneSet(remote.milestones, entity)
    ensures of == Label ==> r == LabelSet(remote.labels, entity)
  {
    match of
    case Issue =>
      var w :- IssueSet(remote.issues, entity);
      Success(w.issue)
    case Milestone => MilestoneSet(remote.milestones, entity)
    case Label => LabelSet(remote.labels, entity)
  }

  /** `collections[of].delete(entity)`. */
  function Remove(remote: Remote, of: EntityType, entity: Fields): (r: Result<()>)
    ensures of == Issue ==> r == Failure("Not supported.")
    ensures of == Milestone ==> r == MilestoneDelete(remote.milestones, entity)
    ensures of == Label ==> r == LabelDelete(remote.labels, entity)
  {
    match of
    case Issue => IssueDelete(entity)
    case Milestone => MilestoneDelete(remote.milestones, entity)
    case Label => LabelDelete(remote.labels, entity)
  }

  datatype GitHubStore = GitHubStore(reg: Registry)

  function SchemaMissing(of: EntityType): string {
    "Can't find \"" + Name(of) + "\" entity schema."
  }

  /** The entry the storage makes for an entity: no hash, no file, no primary key. */
  function Own(of: EntityType, entity: Fields, state: EntryState): (e: Entry)
    ensures e.kind == of && e.entity == entity && e.state == state
  {
    NewEntry(of, entity, None, Some(state), Cookie(None, None), Null)
  }

  /** `all(of)`: enumerating GitHub is not supported. */
  function AllEntries(s: GitHubStore, of: Option<EntityType>): (r: Result<seq<Entry>>)
    ensures r.Failure? && r.error == "Not supported."
  {
    Failure("Not supported.")
  }

  /** `new(of, entity)`: a NEW entry, registered and returned; nothing is sent. */
  function Create(s: GitHubStore, of: EntityType, entity: Fields): (r: Result<(GitHubStore, Entry)>)
    requires Valid(s.reg)
    ensures r.Failure? <==> GetSchema(s.reg.schemas, of).None?
    ensures r.Failure? ==> r.error == SchemaMissing(of)
    ensures r.Success? ==> r.value.1 == Own(of, entity, New) && r.value.1.state == New
    ensures r.Success? ==> Valid(r.value.0.reg) && All(r.value.0.reg) == All(s.reg) + [r.value.1]
    ensures r.Success? ==> r.value.0.reg.schemas == s.reg.schemas
  {
    if GetSchema(s.reg.schemas, of).None? then Failure(SchemaMissing(of))
    else
      var e := Own(of, entity, New);
      Success((GitHubStore(Set(s.reg, e).reg), e))
  }

  /** `one(of, where)`: the registry's entry when it has one, and no request is
      sent; otherwise what the collection returns, registered as a CLEAN entry. */
  function One(s: GitHubStore, remote: Remote, of: EntityType, where: Fields): (r: Result<(GitHubStore, Option<Entry>)>)
    requires Valid(s.reg)
    ensures EntityRegistries.One(s.reg, of, where).Some? ==> r == Success((s, EntityRegistries.One(s.reg, of, where)))
    ensures EntityRegistries.One(s.reg, of, where).None? ==>
      && (Fetch(remote, of, where).Failure? ==> r == Failure(Fetch(remote, of, where).error))
      && (Fetch(remote, of, where) == Success(None) ==> r == Success((s, None)))
      && (Fetch(remote, of, where).Success? && Fetch(remote, of, where).value.Some? ==>
            if GetSchema(s.reg.schemas, of).None? then r == Failure(SchemaMissing(of))
            else
              var e := Own(of, Fetch(remote, of, where).value.value, Clean);
              r.Success? && r.value.1 == Some(e) && All(r.value.0.reg) == All(s.reg) + [e])
    ensures r.Success? ==> Valid(r.value.0.reg) && r.value.0.reg.schemas == s.reg.schemas
    ensures r.Success? && r.value.1.Some? ==> r.value.1.value.kind == of
  {
    var cached := EntityRegistries.One(s.reg, of, where);
    if cached.Some? then Success((s, cached))
    else
      var found :- Fetch(remote, of, where);
      if found.None? then Success((s, None))
      else if GetSchema(s.reg.schemas, of).None? then Failure(SchemaMissing(of))
      else
        var e := Own(of, found.value, Clean);
        Success((GitHubStore(Set(s.reg, e).reg), Some(e)))
  }

  /** Once `one` has fetched an entity, asking again by any of its indexed properties
      is answered from the registry, whatever the remote would say now. */
  lemma OneThenCached(s: GitHubStore, remote: Remote, later: Remote, of: EntityType, where: Fields, i: nat)
    requires Valid(s.reg)
    requires var r := One(s, remote, of, where);
      r.Success? && r.value.1.Some? && r.value.0 != s
    requires var props := GetSchema(s.reg.schemas, of);
      props.Some? && i < |props.value.properties|
    requires var p := GetSchema(s.reg.schemas, of).value.properties[i];
      var e := One(s, remote, of, where).value.1.value;
      Indexed(p, e) && IsIndexable(Get(e.entity, p.name))
    ensures var r := One(s, remote, of, where);
      var e := r.value.1.value;
      var p := GetSchema(s.reg.schemas, of).value.properties[i];
      One(r.value.0, later, of, [(p.name, Get(e.entity, p.name))]) == Success((r.value.0, Some(e)))
  {
    var e := One(s, remote, of, where).value.1.value;
    assert EntityRegistries.One(s.reg, of, where).None?;
    SetThenOne(s.reg, e, i);
  }

  /** An entry that `new` registered is found by its indexed properties, without a
      request, until it is committed. */
  lemma CreateThenOne(s: GitHubStore, remote: Remote, of: EntityType, entity: Fields, i: nat)
    requires Valid(s.reg)
    requires var props := GetSchema(s.reg.schemas, of);
      props.Some? && i < |props.value.properties|
    requires var p := GetSchema(s.reg.schemas, of).value.properties[i];
      Indexed(p, Own(of, entity, New)) && IsIndexable(Get(entity, p.name))
    ensures var r := Create(s, of, entity);
      var p := GetSchema(s.reg.schemas, of).value.properties[i];
      r.Success? && One(r.value.0, remote, of, [(p.name, Get(entity, p.name))]) == Success((r.value.0, Some(r.value.1)))
  {
    SetThenOne(s.reg, Own(of, entity, New), i);
  }

  // ------------------------------------------------------------------- commit

  /** The states `commit` acts on. */
  predicate Pending(e: Entry) {
    e.state == Dirty || e.state == Killed || e.state == New
  }

  /** A request `commit` sends. */
  datatype Request = Deletion(kind: EntityType, entity: Fields) | Upsert(kind: EntityType, entity: Fields)

  function RequestFor(e: Entry): (q: Request)
    ensures q.kind == e.kind && q.entity == e.entity
    ensures q.Deletion? <==> e.state == Killed
  {
    if e.state == Killed then Deletion(e.kind, e.entity) else Upsert(e.kind, e.entity)
  }

  /** `#commitOne(entry)`: a KILLED entry is deleted remotely and stays KILLED; a DIRTY
      or NEW one is written and becomes CLEAN, holding what GitHub returned. */
  function CommitOne(remote: Remote, e: Entry): (r: Result<Entry>)
    requires Pending(e)
    ensures e.state == Killed ==> (r.Success? <==> Remove(remote, e.kind, e.entity).Success?)
    ensures e.state == Killed && r.Success? ==> r.value == e
    ensures e.state != Killed ==> (r.Success? <==> Put(remote, e.kind, e.entity).Success?)
    ensures e.state != Killed && r.Success? ==>
      r.value == e.(entity := Put(remote, e.kind, e.entity).value, state := Clean)
    ensures r.Success? ==> r.value.kind == e.kind && (r.value.state == Killed <==> e.state == Killed)
  {
    if e.state == Killed then
      var _ :- Remove(remote, e.kind, e.entity);
      Success(e)
    else
      var x :- Put(remote, e.kind, e.entity);
      Success(MarkClean(e, x))
  }

  /** The positions of the pending entries of type `t`, in registration order. */
  function PendingIds(entries: seq<Entry>, t: EntityType): (ids: seq<nat>)
    ensures forall j :: 0 <= j < |ids| ==> ids[j] < |entries| && entries[ids[j]].kind == t && Pending(entries[ids[j]])
    ensures forall i :: 0 <= i < |entries| && entries[i].kind == t && Pending(entries[i]) ==> i in ids
    ensures forall j, k :: 0 <= j < k < |ids| ==> ids[j] < ids[k]
  {
    if |entries| == 0 then []
    else
      var n := |entries| - 1;
      var front := PendingIds(entries[..n], t);
      var ids := front + (if entries[n].kind == t && Pending(entries[n]) then [n] else []);
      PendingIdsSnoc(entries, t, front, ids);
      ids
  }

  lemma PendingIdsSnoc(entries: seq<Entry>, t: EntityType, front: seq<nat>, ids: seq<nat>)
    requires |entries| > 0
    requires var n := |entries| - 1;
      && (forall j :: 0 <= j < |front| ==> front[j] < n && entries[..n][front[j]].kind == t && Pending(entries[..n][front[j]]))
      && (forall i :: 0 <= i < n && entries[..n][i].kind == t && Pending(entries[..n][i]) ==> i in front)
      && (forall j, k :: 0 <= j < k < |front| ==> front[j] < front[k])
    requires var n := |entries| - 1;
      ids == front + (if entries[n].kind == t && Pending(entries[n]) then [n] else [])
    ensures forall j :: 0 <= j < |ids| ==> ids[j] < |entries| && entries[ids[j]].kind == t && Pending(entries[ids[j]])
    ensures forall i :: 0 <= i < |entries| && entries[i].kind == t && Pending(entries[i]) ==> i in ids
    ensures forall j, k :: 0 <= j < k < |ids| ==> ids[j] < ids[k]
  {
    var n := |entries| - 1;
    assert forall i :: 0 <= i < n ==> entries[..n][i] == entries[i];
  }

  datatype Committed = Committed(entries: seq<Entry>, requests: seq<Request>)

  /** Commits the entries at `ids`, one after the other; the first failure ends the
      commit. */
  function CommitIds(remote: Remote, entries: seq<Entry>, ids: seq<nat>): (r: Result<Committed>)
    requires forall j :: 0 <= j < |ids| ==> ids[j] < |entries| && Pending(entries[ids[j]])
    requires forall j, k :: 0 <= j < k < |ids| ==> ids[j] != ids[k]
    ensures r.Success? <==> forall j :: 0 <= j < |ids| ==> CommitOne(remote, entries[ids[j]]).Success?
    ensures r.Success? ==> |r.value.entries| == |entries|
    ensures r.Success? ==> forall i :: 0 <= i < |entries| && i !in ids ==> r.value.entries[i] == entries[i]
    ensures r.Success? ==> forall j :: 0 <= j < |ids| ==> r.value.entries[ids[j]] == CommitOne(remote, entries[ids[j]]).value
    ensures r.Success? ==> RequestsFor(entries, ids, r.value.requests)
    decreases |ids|
  {
    if |ids| == 0 then Success(Committed(entries, []))
    else
      var id := ids[0];
      match CommitOne(remote, entries[id])
      case Failure(err) => Failure(err)
      case Success(e) =>
        var next := entries[id := e];
        ConsTail(remote, entries, ids, e);
        match CommitIds(remote, next, ids[1..])
        case Failure(err) => Failure(err)
        case Success(rest) =>
          ConsEntries(remote, entries, ids, e, rest.entries);
          ConsRequests(entries, ids, e, rest.requests);
          Success(Committed(rest.entries, [RequestFor(entries[id])] + rest.requests))
  }

  /** The steps of `CommitIds`: committing the first id, then the rest. */
  lemma ConsTail(remote: Remote, entries: seq<Entry>, ids: seq<nat>, e: Entry)
    requires |ids| > 0
    requires forall j :: 0 <= j < |ids| ==> ids[j] < |entries| && Pending(entries[ids[j]])
    requires forall j, k :: 0 <= j < k < |ids| ==> ids[j] != ids[k]
    requires CommitOne(remote, entries[ids[0]]) == Success(e)
    ensures var next := entries[ids[0] := e];
      && (forall j :: 0 <= j < |ids| - 1 ==> ids[1..][j] < |next| && next[ids[1..][j]] == entries[ids[1..][j]])
      && (forall j :: 0 <= j < |ids| - 1 ==> Pending(next[ids[1..][j]]))
      && (forall j, k :: 0 <= j < k < |ids| - 1 ==> ids[1..][j] != ids[1..][k])
    ensures (forall j :: 0 <= j < |ids| ==> CommitOne(remote, entries[ids[j]]).Success?) <==>
      (forall j :: 0 <= j < |ids| - 1 ==> CommitOne(remote, entries[ids[0] := e][ids[1..][j]]).Success?)
  {
    var next := entries[ids[0] := e];
    var tail := ids[1..];
    forall j | 0 <= j < |tail| ensures next[tail[j]] == entries[tail[j]] && tail[j] == ids[j + 1] {
      assert ids[0] != ids[j + 1];
    }
    if forall j :: 0 <= j < |tail| ==> CommitOne(remote, next[tail[j]]).Success? {
      forall j | 1 <= j < |ids| ensures CommitOne(remote, entries[ids[j]]).Success? {
        assert tail[j - 1] == ids[j];
      }
    }
  }

  lemma ConsEntries(remote: Remote, entries: seq<Entry>, ids: seq<nat>, e: Entry, rest: seq<Entry>)
    requires |ids| > 0
    requires forall j :: 0 <= j < |ids| ==> ids[j] < |entries| && Pending(entries[ids[j]])
    requires forall j, k :: 0 <= j < k < |ids| ==> ids[j] != ids[k]
    requires CommitOne(remote, entries[ids[0]]) == Success(e)
    requires var next := entries[ids[0] := e];
      && (forall j :: 0 <= j < |ids| - 1 ==> CommitOne(remote, next[ids[1..][j]]).Success?)
      && |rest| == |next|
      && (forall i :: 0 <= i < |next| && i !in ids[1..] ==> rest[i] == next[i])
      && (forall j :: 0 <= j < |ids| - 1 ==> rest[ids[1..][j]] == CommitOne(remote, next[ids[1..][j]]).value)
    ensures forall i :: 0 <= i < |entries| && i !in ids ==> rest[i] == entries[i]
    ensures forall j :: 0 <= j < |ids| ==>
      CommitOne(remote, entries[ids[j]]).Success? && rest[ids[j]] == CommitOne(remote, entries[ids[j]]).value
  {
    var next := entries[ids[0] := e];
    var tail := ids[1..];
    assert ids[0] !in tail by {
      forall j | 0 <= j < |tail| ensures tail[j] != ids[0] {
        assert tail[j] == ids[j + 1];
      }
    }
    forall j | 0 <= j < |ids|
      ensures CommitOne(remote, entries[ids[j]]).Success? && rest[ids[j]] == CommitOne(remote, entries[ids[j]]).value
    {
      if j > 0 {
        assert tail[j - 1] == ids[j] && ids[0] != ids[j];
        assert rest[tail[j - 1]] == CommitOne(remote, next[tail[j - 1]]).value;
      }
    }
    forall i | 0 <= i < |entries| && i !in ids ensures rest[i] == entries[i] {
      assert i !in tail by {
        forall j | 0 <= j < |tail| ensures tail[j] != i {
          assert tail[j] == ids[j + 1];
        }
      }
    }
  }

  /** `requests` are the requests for the entries at `ids`, in that order. */
  predicate RequestsFor(entries: seq<Entry>, ids: seq<nat>, requests: seq<Request>)
    requires forall j :: 0 <= j < |ids| ==> ids[j] < |entries|
  {
    |requests| == |ids| && forall j :: 0 <= j < |ids| ==> requests[j] == RequestFor(entries[ids[j]])
  }

  lemma ConsRequests(entries: seq<Entry>, ids: seq<nat>, e: Entry, rest: seq<Request>)
    requires |ids| > 0
    requires forall j :: 0 <= j < |ids| ==> ids[j] < |entries|
    requires forall j :: 1 <= j < |ids| ==> ids[j] != ids[0]
    requires RequestsFor(entries[ids[0] := e], ids[1..], rest)
    ensures RequestsFor(entries, ids, [RequestFor(entries[ids[0]])] + rest)
  {
    var got := [RequestFor(entries[ids[0]])] + rest;
    forall j | 0 <= j < |ids| ensures got[j] == RequestFor(entries[ids[j]]) {
      if j > 0 {
        assert ids[1..][j - 1] == ids[j];
        assert got[j] == rest[j - 1];
      }
    }
  }

  /** The order `commit` goes through the types. */
  function Rank(t: EntityType): nat {
    match t
    case Label => 0
    case Milestone => 1
    case Issue => 2
  }

  function CommitOrder(entries: seq<Entry>): (ids: seq<nat>)
    ensures forall j :: 0 <= j < |ids| ==> ids[j] < |entries| && Pending(entries[ids[j]])
    ensures forall j, k :: 0 <= j < k < |ids| ==> ids[j] != ids[k]
    ensures forall j, k :: 0 <= j < k < |ids| ==> Rank(entries[ids[j]].kind) <= Rank(entries[ids[k]].kind)
    ensures forall i :: 0 <= i < |entries| && Pending(entries[i]) ==> i in ids
  {
    var labels := PendingIds(entries, Label);
    var milestones := PendingIds(entries, Milestone);
    var issues := PendingIds(entries, Issue);
    var ids := labels + milestones + issues;
    OrderRanked(entries, labels, milestones, issues, ids);
    OrderCovers(entries, labels, milestones, issues, ids);
    ids
  }

  /** Pending labels, then pending milestones, then pending issues, each part without
      repeats: the whole has no repeats and is in rank order. */
  lemma OrderRanked(entries: seq<Entry>, labels: seq<nat>, milestones: seq<nat>, issues: seq<nat>, ids: seq<nat>)
    requires forall j :: 0 <= j < |labels| ==> labels[j] < |entries| && entries[labels[j]].kind == Label && Pending(entries[labels[j]])
    requires forall j :: 0 <= j < |milestones| ==> milestones[j] < |entries| && entries[milestones[j]].kind == Milestone && Pending(entries[milestones[j]])
    requires forall j :: 0 <= j < |issues| ==> issues[j] < |entries| && entries[issues[j]].kind == Issue && Pending(entries[issues[j]])
    requires forall j, k :: 0 <= j < k < |labels| ==> labels[j] < labels[k]
    requires forall j, k :: 0 <= j < k < |milestones| ==> milestones[j] < milestones[k]
    requires forall j, k :: 0 <= j < k < |issues| ==> issues[j] < issues[k]
    requires ids == labels + milestones + issues
    ensures forall j :: 0 <= j < |ids| ==> ids[j] < |entries| && Pending(entries[ids[j]])
    ensures forall j, k :: 0 <= j < k < |ids| ==> ids[j] != ids[k]
    ensures forall j, k :: 0 <= j < k < |ids| ==> Rank(entries[ids[j]].kind) <= Rank(entries[ids[k]].kind)
  {
    var a := |labels|;
    var b := a + |milestones|;
    assert forall j :: 0 <= j < a ==> ids[j] == labels[j];
    assert forall j :: a <= j < b ==> ids[j] == milestones[j - a];
    assert forall j :: b <= j < |ids| ==> ids[j] == issues[j - b];
    assert forall j :: 0 <= j < |ids| ==> ids[j] < |entries| && Rank(entries[ids[j]].kind) == (if j < a then 0 else if j < b then 1 else 2);
  }

  /** Every pending entry is a pending label, milestone or issue, so it is in the
      concatenation of the three. */
  lemma OrderCovers(entries: seq<Entry>, labels: seq<nat>, milestones: seq<nat>, issues: seq<nat>, ids: seq<nat>)
    requires forall i :: 0 <= i < |entries| && entries[i].kind == Label && Pending(entries[i]) ==> i in labels
    requires forall i :: 0 <= i < |entries| && entries[i].kind == Milestone && Pending(entries[i]) ==> i in milestones
    requires forall i :: 0 <= i < |entries| && entries[i].kind == Issue && Pending(entries[i]) ==> i in issues
    requires ids == labels + milestones + issues
    ensures forall i :: 0 <= i < |entries| && Pending(entries[i]) ==> i in ids
  {
    assert forall i :: 0 <= i < |entries| ==> entries[i].kind in {Label, Milestone, Issue};
  }

  /** `commit()`: pushes every DIRTY, KILLED and NEW entry, all labels before any
      milestone and all milestones before any issue. Afterwards no entry is DIRTY or
      NEW; KILLED ones stay KILLED, and the others are untouched. */
  function Commit(s: GitHubStore, remote: Remote): (r: Result<Committed>)
    requires Valid(s.reg)
    ensures r.Success? <==> forall i :: 0 <= i < |s.reg.entries| && Pending(s.reg.entries[i]) ==>
      CommitOne(remote, s.reg.entries[i]).Success?
    ensures r.Success? ==> |r.value.entries| == |s.reg.entries|
    ensures r.Success? ==> forall i :: 0 <= i < |s.reg.entries| ==>
      && r.value.entries[i].kind == s.reg.entries[i].kind
      && r.value.entries[i].state != Dirty && r.value.entries[i].state != New
      && (r.value.entries[i].state == Killed <==> s.reg.entries[i].state == Killed)
      && (!Pending(s.reg.entries[i]) ==> r.value.entries[i] == s.reg.entries[i])
    ensures r.Success? ==> forall j, k :: 0 <= j < k < |r.value.requests| ==>
      Rank(r.value.requests[j].kind) <= Rank(r.value.requests[k].kind)
    ensures r.Success? ==> forall i :: 0 <= i < |s.reg.entries| && Pending(s.reg.entries[i]) ==>
      RequestFor(s.reg.entries[i]) in r.value.requests
    ensures r.Success? ==> |r.value.requests| == |CommitOrder(s.reg.entries)|
  {
    var ids := CommitOrder(s.reg.entries);
    var r := CommitIds(remote, s.reg.entries, ids);
    if r.Success? then
      CommitFacts(remote, s.reg.entries, ids, r.value);
      r
    else
      NoFailureMissed(remote, s.reg.entries, ids);
      r
  }

  lemma NoFailureMissed(remote: Remote, entries: seq<Entry>, ids: seq<nat>)
    requires forall j :: 0 <= j < |ids| ==> ids[j] < |entries| && Pending(entries[ids[j]])
    requires forall i :: 0 <= i < |entries| && Pending(entries[i]) ==> i in ids
    ensures (forall j :: 0 <= j < |ids| ==> CommitOne(remote, entries[ids[j]]).Success?) <==>
      (forall i :: 0 <= i < |entries| && Pending(entries[i]) ==> CommitOne(remote, entries[i]).Success?)
  {
    if forall j :: 0 <= j < |ids| ==> CommitOne(remote, entries[ids[j]]).Success? {
      forall i | 0 <= i < |entries| && Pending(entries[i]) ensures CommitOne(remote, entries[i]).Success? {
        var j :| 0 <= j < |ids| && ids[j] == i;
      }
    }
  }

  lemma CommitFacts(remote: Remote, entries: seq<Entry>, ids: seq<nat>, c: Committed)
    requires forall j :: 0 <= j < |ids| ==> ids[j] < |entries| && Pending(entries[ids[j]])
    requires forall j, k :: 0 <= j < k < |ids| ==> ids[j] != ids[k]
    requires forall j, k :: 0 <= j < k < |ids| ==> Rank(entries[ids[j]].kind) <= Rank(entries[ids[k]].kind)
    requires forall i :: 0 <= i < |entries| && Pending(entries[i]) ==> i in ids
    requires CommitIds(remote, entries, ids) == Success(c)
    ensures forall i :: 0 <= i < |entries| && Pending(entries[i]) ==> CommitOne(remote, entries[i]).Success?
    ensures |c.entries| == |entries|
    ensures forall i :: 0 <= i < |entries| ==>
      && c.entries[i].kind == entries[i].kind
      && c.entries[i].state != Dirty && c.entries[i].state != New
      && (c.entries[i].state == Killed <==> entries[i].state == Killed)
      && (!Pending(entries[i]) ==> c.entries[i] == entries[i])
    ensures forall j, k :: 0 <= j < k < |c.requests| ==> Rank(c.requests[j].kind) <= Rank(c.requests[k].kind)
    ensures forall i :: 0 <= i < |entries| && Pending(entries[i]) ==> RequestFor(entries[i]) in c.requests
    ensures |c.requests| == |ids|
  {
    NoFailureMissed(remote, entries, ids);
    RequestsInRankOrder(entries, ids, c.requests);
    forall i | 0 <= i < |entries|
      ensures c.entries[i].kind == entries[i].kind
      ensures c.entries[i].state != Dirty && c.entries[i].state != New
      ensures c.entries[i].state == Killed <==> entries[i].state == Killed
      ensures !Pending(entries[i]) ==> c.entries[i] == entries[i]
      ensures Pending(entries[i]) ==> RequestFor(entries[i]) in c.requests
    {
      CommittedAt(remote, entries, ids, c, i);
    }
  }

  /** Requests sent in the order of `ids` keep that order's ranks. */
  lemma RequestsInRankOrder(entries: seq<Entry>, ids: seq<nat>, requests: seq<Request>)
    requires forall j :: 0 <= j < |ids| ==> ids[j] < |entries|
    requires forall j, k :: 0 <= j < k < |ids| ==> Rank(entries[ids[j]].kind) <= Rank(entries[ids[k]].kind)
    requires RequestsFor(entries, ids, requests)
    ensures |requests| == |ids|
    ensures forall j, k :: 0 <= j < k < |requests| ==> Rank(requests[j].kind) <= Rank(requests[k].kind)
  {
  }

  /** What the commit did to entry `i`, and the request it sent for it. */
  lemma CommittedAt(remote: Remote, entries: seq<Entry>, ids: seq<nat>, c: Committed, i: nat)
    requires forall j :: 0 <= j < |ids| ==> ids[j] < |entries| && Pending(entries[ids[j]])
    requires forall j, k :: 0 <= j < k < |ids| ==> ids[j] != ids[k]
    requires i < |entries| && (Pending(entries[i]) ==> i in ids)
    requires CommitIds(remote, entries, ids) == Success(c)
    ensures c.entries[i].kind == entries[i].kind
    ensures c.entries[i].state != Dirty && c.entries[i].state != New
    ensures c.entries[i].state == Killed <==> entries[i].state == Killed
    ensures !Pending(entries[i]) ==> c.entries[i] == entries[i]
    ensures Pending(entries[i]) ==> RequestFor(entries[i]) in c.requests
  {
    if Pending(entries[i]) {
      var j :| 0 <= j < |ids| && ids[j] == i;
      assert c.entries[i] == CommitOne(remote, entries[i]).value;
      assert c.requests[j] == RequestFor(entries[i]);
    }
  }

  /** Killing an issue cannot be committed: the issue collection does not delete. */
  lemma KilledIssueBlocksCommit(s: GitHubStore, remote: Remote, i: nat)
    requires Valid(s.reg)
    requires i < |s.reg.entries| && s.reg.entries[i].kind == Issue && s.reg.entries[i].state == Killed
    ensures Commit(s, remote).Failure?
  {
    assert CommitOne(remote, s.reg.entries[i]).Failure?;
  }
}
