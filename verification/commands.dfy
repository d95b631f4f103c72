/** The synchronisation commands: push-all, pull and delete, in their generic form
    (src/commands/EntityPushAllCommand.ts, EntityPullCommand.ts, EntityDeleteCommand.ts)
    and their milestone form (MilestonePushAllCommand.ts, MilestonePullCommand.ts,
    MilestoneDeleteCommand.ts).

    A command either completes, giving the storages and the calls it made on them,
    or throws; a thrown error leaves nothing committed. Log messages are not modelled.
 */
module Commands {
  import opened Wrappers
  import opened Json
  import opened Strings
  import opened EntityTypes
  import opened StorageEntries
  import opened EntityRegistries
  import opened Storages
  import Hash

  /** The generic push compares saved hashes and looks the whole entity up; the
      milestone push tells new milestones by their missing `number` and looks them up
      by number alone. */
  datatype Flavour = Generic | MilestoneOnly

  /** The entry has never been pushed, so it is added to the remote as new. */
  predicate Fresh(fl: Flavour, e: Entry) {
    match fl
    case Generic => e.hash.None?
    case MilestoneOnly => Get(e.entity, "number") == Undefined
  }

  /** The filter of the remote lookup. */
  function Filter(fl: Flavour, e: Entry): Fields {
    match fl
    case Generic => e.entity
    case MilestoneOnly => [("number", Get(e.entity, "number"))]
  }

  /** The hash of an entity as it is now. */
  function HashOf(digest: string -> string, entity: Fields): string {
    Hash.Hash(digest, Obj(entity))
  }

  /** One iteration of push-all, on local entry `id`. */
  function PushOne(st: Sides, fl: Flavour, digest: string -> string, findRemote: Finder, id: nat): (r: Result<Sides>)
    requires id < |st.local|
    ensures r.Success? ==> |r.value.local| == |st.local| && |st.remote| <= |r.value.remote|
    ensures r.Success? ==> |st.calls| < |r.value.calls| <= |st.calls| + 2 && r.value.calls[..|st.calls|] == st.calls
    ensures r.Success? ==> forall i :: |st.calls| <= i < |r.value.calls| ==> !r.value.calls[i].Commit?
    ensures r.Success? ==> forall j :: 0 <= j < |st.local| && j != id ==> r.value.local[j] == st.local[j]
    ensures Fresh(fl, st.local[id]) ==> r == Success(AddNew(st, Remote, st.local[id].kind, st.local[id].entity))
    ensures !Fresh(fl, st.local[id]) && r.Success? ==>
      r.value.calls[|st.calls|] == Lookup(Remote, st.local[id].kind, Filter(fl, st.local[id])) && |r.value.remote| == |st.remote|
  {
    var e := st.local[id];
    if Fresh(fl, e) then Success(AddNew(st, Remote, e.kind, e.entity))
    else
      var where := Filter(fl, e);
      var looked := st.(calls := st.calls + [Lookup(Remote, e.kind, where)]);
      var found := Probe(findRemote, st.remote, e.kind, where);
      if found.None? then DeleteAt(looked, Local, id)
      else Reconcile(looked, digest, id, found.value)
  }

  /** Local entry `id` against its remote counterpart `rid`: equal hashes leave both
      alone; a local entry that changed since it was last pushed overwrites the
      remote one; otherwise the remote entity overwrites the local one. */
  function Reconcile(st: Sides, digest: string -> string, id: nat, rid: nat): (r: Result<Sides>)
    requires id < |st.local| && rid < |st.remote|
    ensures r.Success? ==> |r.value.local| == |st.local| && |r.value.remote| == |st.remote|
    ensures r.Success? ==> |st.calls| <= |r.value.calls| <= |st.calls| + 1 && r.value.calls[..|st.calls|] == st.calls
    ensures r.Success? ==> forall i :: |st.calls| <= i < |r.value.calls| ==> !r.value.calls[i].Commit?
    ensures r.Success? ==> forall j :: 0 <= j < |st.local| && j != id ==> r.value.local[j] == st.local[j]
  {
    var e := st.local[id];
    var remote := st.remote[rid];
    var newHash := HashOf(digest, e.entity);
    var remoteHash := HashOf(digest, remote.entity);
    if newHash == remoteHash then Success(st)
    else if e.hash.GetOr("") == remoteHash then ChangeAt(st, Remote, rid, e.entity)
    else ChangeAt(st, Local, id, remote.entity)
  }

  /** A local entry that was pushed before and has no remote counterpart is deleted
      locally, and nothing is pushed. */
  lemma PushDropsOrphan(st: Sides, fl: Flavour, digest: string -> string, findRemote: Finder, id: nat)
    requires id < |st.local| && !Fresh(fl, st.local[id])
    requires Probe(findRemote, st.remote, st.local[id].kind, Filter(fl, st.local[id])).None?
    ensures var r := PushOne(st, fl, digest, findRemote, id);
      (r.Success? <==> st.local[id].state in {Clean, Dirty, Killed})
      && (r.Success? ==> r.value.local[id].state == Killed && r.value.remote == st.remote)
  {
  }

  /** When the entity's hash is the remote one's, neither side changes. */
  lemma PushSkipsAgreeing(st: Sides, fl: Flavour, digest: string -> string, findRemote: Finder, id: nat)
    requires id < |st.local| && !Fresh(fl, st.local[id])
    requires var found := Probe(findRemote, st.remote, st.local[id].kind, Filter(fl, st.local[id]));
      found.Some? && HashOf(digest, st.local[id].entity) == HashOf(digest, st.remote[found.value].entity)
    ensures var r := PushOne(st, fl, digest, findRemote, id);
      r.Success? && r.value.local == st.local && r.value.remote == st.remote
  {
  }

  /** When the hashes differ, the side whose saved hash is stale takes the other's
      entity: the remote entry takes the local entity when the remote still has the
      saved hash, and otherwise the local entry takes the remote one. Afterwards both
      hold the copied entity's values. */
  lemma PushConverges(st: Sides, fl: Flavour, digest: string -> string, findRemote: Finder, id: nat, j: nat)
    requires id < |st.local| && !Fresh(fl, st.local[id])
    requires Probe(findRemote, st.remote, st.local[id].kind, Filter(fl, st.local[id])) == Some(j)
    requires HashOf(digest, st.local[id].entity) != HashOf(digest, st.remote[j].entity)
    requires DistinctKeys(st.local[id].entity) && DistinctKeys(st.remote[j].entity)
    requires PushOne(st, fl, digest, findRemote, id).Success?
    ensures var r := PushOne(st, fl, digest, findRemote, id).value;
      var pushed := st.local[id].hash.GetOr("") == HashOf(digest, st.remote[j].entity);
      var copied := if pushed then st.local[id].entity else st.remote[j].entity;
      (pushed ==> r.local == st.local && r.remote[j].state == Dirty)
      && (!pushed ==> r.remote == st.remote && r.local[id].state == Dirty)
      && forall k :: Has(copied, k) ==> Get(r.local[id].entity, k) == Get(copied, k) == Get(r.remote[j].entity, k)
  {
  }

  /** The iterations of push-all over the enumerated positions, in order; the first
      error ends the command. */
  function PushEach(st: Sides, fl: Flavour, digest: string -> string, findRemote: Finder, ids: seq<nat>): (r: Result<Sides>)
    requires forall i :: 0 <= i < |ids| ==> ids[i] < |st.local|
    ensures r.Success? ==> |r.value.local| == |st.local|
    ensures r.Success? ==> |st.calls| <= |r.value.calls| && r.value.calls[..|st.calls|] == st.calls
    ensures r.Success? ==> forall i :: |st.calls| <= i < |r.value.calls| ==> !r.value.calls[i].Commit?
    decreases |ids|
  {
    if |ids| == 0 then Success(st)
    else
      var next :- PushOne(st, fl, digest, findRemote, ids[0]);
      var r := PushEach(next, fl, digest, findRemote, ids[1..]);
      if r.Success? then PrefixChain(st.calls, next.calls, r.value.calls); r else r
  }

  /** Extending a trace twice by commit-free calls extends it by commit-free calls. */
  lemma PrefixChain(a: seq<Call>, b: seq<Call>, c: seq<Call>)
    requires |a| <= |b| <= |c| && b[..|a|] == a && c[..|b|] == b
    requires forall i :: |a| <= i < |b| ==> !b[i].Commit?
    requires forall i :: |b| <= i < |c| ==> !c[i].Commit?
    ensures c[..|a|] == a
    ensures forall i :: |a| <= i < |c| ==> !c[i].Commit?
  {
    forall i | |a| <= i < |b| ensures !c[i].Commit? {
      assert c[i] == c[..|b|][i];
    }
  }

  /** Entries are processed one after the other: pushing `a + b` is pushing `a`,
      then pushing `b` from where `a` left the storages. */
  lemma {:induction false} PushEachSplits(st: Sides, fl: Flavour, digest: string -> string, findRemote: Finder, a: seq<nat>, b: seq<nat>)
    requires forall i :: 0 <= i < |a| ==> a[i] < |st.local|
    requires forall i :: 0 <= i < |b| ==> b[i] < |st.local|
    ensures PushEach(st, fl, digest, findRemote, a + b) ==
      match PushEach(st, fl, digest, findRemote, a)
      case Failure(err) => Failure(err)
      case Success(mid) => PushEach(mid, fl, digest, findRemote, b)
    decreases |a|
  {
    if |a| == 0 {
      assert a + b == b;
    } else {
      assert (a + b)[0] == a[0] && (a + b)[1..] == a[1..] + b;
      var next := PushOne(st, fl, digest, findRemote, a[0]);
      if next.Success? {
        PushEachSplits(next.value, fl, digest, findRemote, a[1..], b);
      }
    }
  }

  /** A trace without commits commits neither side. */
  lemma {:induction false} NoCommits(calls: seq<Call>, side: Side)
    requires forall i :: 0 <= i < |calls| ==> !calls[i].Commit?
    ensures Commits(calls, side) == 0
    decreases |calls|
  {
    if |calls| > 0 {
      NoCommits(calls[..|calls| - 1], side);
    }
  }

  /** The whole command: every enumerated local entry once, in enumeration order,
      then a commit of the local storage followed by one of the remote storage. */
  function PushAllWith(local: seq<Entry>, remote: seq<Entry>, of: Option<EntityType>, fl: Flavour, digest: string -> string, findRemote: Finder): (r: Result<Sides>)
    ensures r.Success? ==> |r.value.local| == |local| && |r.value.calls| >= 2
    ensures r.Success? ==> r.value.calls[|r.value.calls| - 2..] == [Commit(Local), Commit(Remote)]
    ensures r.Success? ==> Commits(r.value.calls, Local) == 1 && Commits(r.value.calls, Remote) == 1
    ensures var loop := PushEach(Sides(local, remote, []), fl, digest, findRemote, Enumerate(local, of));
      && (r.Success? <==> loop.Success?)
      && (r.Failure? ==> r.error == loop.error)
      && (r.Success? ==> r.value.local == loop.value.local && r.value.remote == loop.value.remote)
      && (r.Success? ==> r.value.calls == loop.value.calls + [Commit(Local), Commit(Remote)])
  {
    var st :- PushEach(Sides(local, remote, []), fl, digest, findRemote, Enumerate(local, of));
    CommitBoth(st);
    Success(CommitOf(CommitOf(st, Local), Remote))
  }

  /** Committing the local side and then the remote side after a trace without
      commits: the trace ends with the two commits, one per side, and both sides keep
      their entries. */
  lemma CommitBoth(st: Sides)
    requires forall i :: 0 <= i < |st.calls| ==> !st.calls[i].Commit?
    ensures var done := CommitOf(CommitOf(st, Local), Remote);
      && done.local == st.local && done.remote == st.remote
      && done.calls == st.calls + [Commit(Local), Commit(Remote)]
      && done.calls[|done.calls| - 2..] == [Commit(Local), Commit(Remote)]
      && Commits(done.calls, Local) == 1 && Commits(done.calls, Remote) == 1
  {
    NoCommits(st.calls, Local);
    NoCommits(st.calls, Remote);
    CommitsAppend(st.calls, [Commit(Local), Commit(Remote)], Local);
    CommitsAppend(st.calls, [Commit(Local), Commit(Remote)], Remote);
    assert [Commit(Local), Commit(Remote)][..1] == [Commit(Local)];
  }

  /** `EntityPushAllCommand.execute({ of })`. */
  function PushAll(local: seq<Entry>, remote: seq<Entry>, of: Option<EntityType>, digest: string -> string, findRemote: Finder): (r: Result<Sides>)
    ensures r.Success? ==> |r.value.calls| >= 2 && r.value.calls[|r.value.calls| - 2..] == [Commit(Local), Commit(Remote)]
    ensures r.Success? ==> Commits(r.value.calls, Local) == 1 && Commits(r.value.calls, Remote) == 1
    ensures var loop := PushEach(Sides(local, remote, []), Generic, digest, findRemote, Enumerate(local, of));
      && (r.Success? <==> loop.Success?)
      && (r.Failure? ==> r.error == loop.error)
      && (r.Success? ==> r.value.local == loop.value.local && r.value.remote == loop.value.remote)
      && (r.Success? ==> r.value.calls == loop.value.calls + [Commit(Local), Commit(Remote)])
  {
    PushAllWith(local, remote, of, Generic, digest, findRemote)
  }

  /** `MilestonePushAllCommand.execute()`: only milestones are enumerated. */
  function MilestonePushAll(local: seq<Entry>, remote: seq<Entry>, digest: string -> string, findRemote: Finder): (r: Result<Sides>)
    ensures r.Success? ==> |r.value.calls| >= 2 && r.value.calls[|r.value.calls| - 2..] == [Commit(Local), Commit(Remote)]
    ensures r.Success? ==> Commits(r.value.calls, Local) == 1 && Commits(r.value.calls, Remote) == 1
    ensures var loop := PushEach(Sides(local, remote, []), MilestoneOnly, digest, findRemote, Enumerate(local, Some(Milestone)));
      && (r.Success? <==> loop.Success?)
      && (r.Failure? ==> r.error == loop.error)
      && (r.Success? ==> r.value.local == loop.value.local && r.value.remote == loop.value.remote)
      && (r.Success? ==> r.value.calls == loop.value.calls + [Commit(Local), Commit(Remote)])
  {
    PushAllWith(local, remote, Some(Milestone), MilestoneOnly, digest, findRemote)
  }

  /** The milestone push enumerates milestones only, so a storage without milestones
      is only committed. */
  lemma MilestonePushSkipsOthers(local: seq<Entry>, remote: seq<Entry>, digest: string -> string, findRemote: Finder)
    requires forall i :: 0 <= i < |local| ==> local[i].kind != Milestone
    ensures MilestonePushAll(local, remote, digest, findRemote) == Success(Sides(local, remote, [Commit(Local), Commit(Remote)]))
  {
    EnumerateNone(local, Milestone);
    var st := Sides(local, remote, []);
    assert PushEach(st, MilestoneOnly, digest, findRemote, []) == Success(st);
    assert PushAllWith(local, remote, Some(Milestone), MilestoneOnly, digest, findRemote)
      == Success(CommitOf(CommitOf(st, Local), Remote));
    assert [] + [Commit(Local)] + [Commit(Remote)] == [Commit(Local), Commit(Remote)];
  }

  lemma {:induction false} EnumerateNone(entries: seq<Entry>, t: EntityType)
    requires forall i :: 0 <= i < |entries| ==> entries[i].kind != t
    ensures Enumerate(entries, Some(t)) == []
    decreases |entries|
  {
    if |entries| > 0 {
      EnumerateNone(entries[..|entries| - 1], t);
    }
  }

  /** The filter `{ [key]: value }`. */
  function KeyFilter(key: string, value: Key): (w: Fields)
    ensures |w| == 1 && w[0].0 == key && KeyOf(w[0].1) == Some(value)
  {
    [(key, KeyValue(value))]
  }

  /** `${value}` for a number or a string. */
  function KeyText(value: Key): string {
    match value
    case NumKey(n) => IntToString(n)
    case StrKey(s) => s
  }

  /** Pull: the entity must exist in the remote storage; the local entry matching the
      same filter takes the remote entity, or a new one is created from it; then the
      local storage is committed. */
  function PullWith(st: Sides, findRemote: Finder, findLocal: Finder, of: EntityType, where: Fields, missing: string): (r: Result<Sides>)
    ensures Probe(findRemote, st.remote, of, where).None? ==> r == Failure(missing)
    ensures r.Success? ==> r.value.remote == st.remote
    ensures r.Success? ==>
      (|r.value.calls| >= |st.calls| + 3 && r.value.calls[..|st.calls|] == st.calls
       && r.value.calls[|st.calls|..|st.calls| + 2] == [Lookup(Remote, of, where), Lookup(Local, of, where)]
       && r.value.calls[|r.value.calls| - 1] == Commit(Local))
  {
    var found := Probe(findRemote, st.remote, of, where);
    if found.None? then Failure(missing)
    else
      var source := st.remote[found.value].entity;
      var looked := st.(calls := st.calls + [Lookup(Remote, of, where), Lookup(Local, of, where)]);
      var target := Probe(findLocal, st.local, of, where);
      if target.None? then
        Success(CommitOf(AddNew(looked, Local, of, source), Local))
      else
        var changed :- ChangeAt(looked, Local, target.value, source);
        Success(CommitOf(changed, Local))
  }

  /** What pull leaves in the local storage, whatever the entry's saved and current
      hashes: a new entry with the remote entity, or the matched entry holding every
      value of the remote entity. It fails only when the matched entry cannot change. */
  lemma PullOverwrites(st: Sides, findRemote: Finder, findLocal: Finder, of: EntityType, where: Fields, missing: string)
    requires Probe(findRemote, st.remote, of, where).Some?
    ensures var source := st.remote[Probe(findRemote, st.remote, of, where).value].entity;
      var target := Probe(findLocal, st.local, of, where);
      var r := PullWith(st, findRemote, findLocal, of, where, missing);
      (target.None? ==> r.Success? && r.value.local == st.local + [Entry(of, New, source, None, Cookie(None, None), Null)])
      && (target.Some? ==> (r.Success? <==> Editable(st.local[target.value].state)))
      && (target.Some? && r.Success? && DistinctKeys(source) ==>
            |r.value.local| == |st.local|
            && r.value.local[target.value].state == Dirty
            && forall k :: Has(source, k) ==> Get(r.value.local[target.value].entity, k) == Get(source, k))
  {
  }

  /** `EntityPullCommand.execute({ of, key, value })`. */
  function Pull(st: Sides, findRemote: Finder, findLocal: Finder, of: EntityType, key: string, value: Key): (r: Result<Sides>)
    ensures r.Failure? && Probe(findRemote, st.remote, of, KeyFilter(key, value)).None? ==>
      r.error == "Can't find " + Name(of) + " with " + key + " equals to \"" + KeyText(value) + "\" in the remote storage."
    ensures r.Success? ==> r.value.remote == st.remote && |r.value.calls| > 0 && r.value.calls[|r.value.calls| - 1] == Commit(Local)
  {
    PullWith(st, findRemote, findLocal, of, KeyFilter(key, value),
      "Can't find " + Name(of) + " with " + key + " equals to \"" + KeyText(value) + "\" in the remote storage.")
  }

  /** `MilestonePullCommand.execute({ number })`. */
  function MilestonePull(st: Sides, findRemote: Finder, findLocal: Finder, number: int): (r: Result<Sides>)
    ensures r.Failure? && Probe(findRemote, st.remote, Milestone, [("number", Num(number))]).None? ==>
      r.error == "Can't find milestone #" + IntToString(number) + " in the remote storage."
    ensures r.Success? ==> r.value.remote == st.remote && |r.value.calls| > 0 && r.value.calls[|r.value.calls| - 1] == Commit(Local)
  {
    PullWith(st, findRemote, findLocal, Milestone, [("number", Num(number))],
      "Can't find milestone #" + IntToString(number) + " in the remote storage.")
  }

  /** Pull never mutates or commits the remote storage. */
  lemma PullLeavesRemote(st: Sides, findRemote: Finder, findLocal: Finder, of: EntityType, where: Fields, missing: string)
    requires PullWith(st, findRemote, findLocal, of, where, missing).Success?
    ensures var r := PullWith(st, findRemote, findLocal, of, where, missing).value;
      forall i :: |st.calls| <= i < |r.calls| ==> !Mutates(r.calls[i], Remote) && r.calls[i] != Commit(Remote)
  {
    var mid := PullCalls(st, findRemote, findLocal, of, where, missing);
    LocalTail(st.calls, [Lookup(Remote, of, where), Lookup(Local, of, where), mid, Commit(Local)],
      PullWith(st, findRemote, findLocal, of, where, missing).value.calls);
  }

  /** The calls a successful pull appends: two lookups, one call on the local side,
      and the local commit. */
  lemma PullCalls(st: Sides, findRemote: Finder, findLocal: Finder, of: EntityType, where: Fields, missing: string)
    returns (mid: Call)
    requires PullWith(st, findRemote, findLocal, of, where, missing).Success?
    ensures mid.side == Local
    ensures PullWith(st, findRemote, findLocal, of, where, missing).value.calls ==
      st.calls + [Lookup(Remote, of, where), Lookup(Local, of, where), mid, Commit(Local)]
  {
    var target := Probe(findLocal, st.local, of, where);
    var source := st.remote[Probe(findRemote, st.remote, of, where).value].entity;
    mid := if target.None? then Call.Create(Local, of, source) else Changed(Local, target.value);
  }

  /** When no call of `tail` mutates or commits the remote side, neither does any
      call after `pre` in `pre + tail`. */
  lemma LocalTail(pre: seq<Call>, tail: seq<Call>, all: seq<Call>)
    requires all == pre + tail
    requires forall j :: 0 <= j < |tail| ==> !Mutates(tail[j], Remote) && tail[j] != Commit(Remote)
    ensures forall i :: |pre| <= i < |all| ==> !Mutates(all[i], Remote) && all[i] != Commit(Remote)
  {
    forall i | |pre| <= i < |all| ensures !Mutates(all[i], Remote) && all[i] != Commit(Remote) {
      assert all[i] == tail[i - |pre|];
    }
  }

  /** Delete: the entry matching the filter in the local storage is deleted and the
      local storage committed; when there is none, nothing is committed. */
  function DeleteWith(st: Sides, findLocal: Finder, of: EntityType, where: Fields): (r: Result<Sides>)
    ensures r.Success? ==> r.value.remote == st.remote && |r.value.local| == |st.local|
    ensures Probe(findLocal, st.local, of, where).None? ==>
      r == Success(st.(calls := st.calls + [Lookup(Local, of, where)]))
    ensures Probe(findLocal, st.local, of, where).Some? ==>
      var id := Probe(findLocal, st.local, of, where).value;
      (r.Success? <==> st.local[id].state in {Clean, Dirty, Killed})
      && (r.Failure? ==> r.error == Delete(st.local[id]).error)
      && (r.Success? ==>
            (r.value.local == st.local[id := st.local[id].(state := Killed)]
             && r.value.calls == st.calls + [Lookup(Local, of, where), Deleted(Local, id), Commit(Local)]))
  {
    var looked := st.(calls := st.calls + [Lookup(Local, of, where)]);
    var found := Probe(findLocal, st.local, of, where);
    if found.None? then Success(looked)
    else
      var deleted :- DeleteAt(looked, Local, found.value);
      Success(CommitOf(deleted, Local))
  }

  /** `EntityDeleteCommand.execute({ of, key, value })`. */
  function EntityDelete(st: Sides, findLocal: Finder, of: EntityType, key: string, value: Key): (r: Result<Sides>)
    ensures r.Success? ==> r.value.remote == st.remote
    ensures r.Success? ==> Commits(r.value.calls, Local) <= Commits(st.calls, Local) + 1
  {
    var r := DeleteWith(st, findLocal, of, KeyFilter(key, value));
    DeleteCommitsOnce(st, findLocal, of, KeyFilter(key, value));
    r
  }

  /** `MilestoneDeleteCommand.execute({ number })`. */
  function MilestoneDelete(st: Sides, findLocal: Finder, number: int): (r: Result<Sides>)
    ensures r.Success? ==> r.value.remote == st.remote
    ensures r.Success? ==> Commits(r.value.calls, Local) <= Commits(st.calls, Local) + 1
  {
    var r := DeleteWith(st, findLocal, Milestone, [("number", Num(number))]);
    DeleteCommitsOnce(st, findLocal, Milestone, [("number", Num(number))]);
    r
  }

  /** Delete commits the local storage exactly when it found an entry, and never the
      remote one. */
  lemma DeleteCommitsOnce(st: Sides, findLocal: Finder, of: EntityType, where: Fields)
    ensures var r := DeleteWith(st, findLocal, of, where);
      r.Success? ==>
        (Commits(r.value.calls, Local) == Commits(st.calls, Local) + (if Probe(findLocal, st.local, of, where).Some? then 1 else 0)
         && Commits(r.value.calls, Remote) == Commits(st.calls, Remote))
  {
    var found := Probe(findLocal, st.local, of, where);
    if found.Some? {
      var tail := [Lookup(Local, of, where), Deleted(Local, found.value), Commit(Local)];
      var one := [Lookup(Local, of, where)];
      assert one[..0] == [] && tail[..2][..1] == one && tail[..2] == one + [Deleted(Local, found.value)];
      assert Commits(one, Local) == 0 && Commits(one, Remote) == 0;
      assert Commits(tail[..2], Local) == 0 && Commits(tail[..2], Remote) == 0;
      CommitsAppend(st.calls, tail, Local);
      CommitsAppend(st.calls, tail, Remote);
    } else {
      assert [Lookup(Local, of, where)][..0] == [];
      CommitsAppend(st.calls, [Lookup(Local, of, where)], Local);
      CommitsAppend(st.calls, [Lookup(Local, of, where)], Remote);
    }
  }
}
