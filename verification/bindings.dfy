/** Entry bindings: a target entry that pulls the entity of a source entry, by merge
    or by substitution (src/commands/EntityStorageEntryBinding.ts), and a bag of them
    pulled in insertion order (src/commands/EntityStorageEntryBindingBag.ts).

    Entries are positions in one sequence of entries. `merge` has no body in the
    shown entry class, so it is a parameter.
 */
module Bindings {
  import opened Wrappers
  import opened Json
  import opened StorageEntries

  datatype Strategy = Merge | Substitute

  datatype Binding = Binding(target: nat, source: nat, strategy: Strategy)

  /** The entry operation `merge(entity)`. */
  type Merger = (Entry, Fields) -> Result<Entry>

  /** The constructor: the strategy defaults to SUBSTITUTE. */
  function NewBinding(target: nat, source: nat, strategy: Option<Strategy>): (b: Binding)
    ensures b.target == target && b.source == source
    ensures b.strategy == (if strategy.Some? then strategy.value else Substitute)
  {
    Binding(target, source, strategy.GetOr(Substitute))
  }

  predicate Within(b: Binding, entries: seq<Entry>) {
    b.target < |entries| && b.source < |entries|
  }

  /** `pull()`: the target merges or substitutes the source's entity; only the target
      can change. */
  function Pull(entries: seq<Entry>, b: Binding, merge: Merger): (r: Result<seq<Entry>>)
    requires Within(b, entries)
    ensures r.Success? ==> |r.value| == |entries|
    ensures r.Success? ==> forall i :: 0 <= i < |entries| && i != b.target ==> r.value[i] == entries[i]
    ensures b.strategy == Merge ==> r == (var m := merge(entries[b.target], entries[b.source].entity);
                                          if m.Success? then Success(entries[b.target := m.value]) else Failure(m.error))
    ensures b.strategy == Substitute ==> (r.Success? <==> Editable(entries[b.target].state))
    ensures b.strategy == Substitute && r.Success? ==>
      r.value[b.target] == entries[b.target].(entity := entries[b.source].entity, state := Dirty)
  {
    var source := entries[b.source].entity;
    var e :- match b.strategy
             case Merge => merge(entries[b.target], source)
             case Substitute => StorageEntries.Substitute(entries[b.target], source);
    Success(entries[b.target := e])
  }

  /** The source entry is never modified, unless it is its own target. */
  lemma PullKeepsSource(entries: seq<Entry>, b: Binding, merge: Merger)
    requires Within(b, entries) && b.source != b.target
    requires Pull(entries, b, merge).Success?
    ensures Pull(entries, b, merge).value[b.source] == entries[b.source]
  {
  }

  /** A binding bag: bindings in insertion order. */
  datatype Bag = Bag(bindings: seq<Binding>)

  function EmptyBag(): (bag: Bag)
    ensures |bag.bindings| == 0
  {
    Bag([])
  }

  /** `add(binding)` appends; no operation removes a binding. */
  function Add(bag: Bag, b: Binding): (r: Bag)
    ensures r.bindings == bag.bindings + [b]
    ensures |r.bindings| == |bag.bindings| + 1
  {
    Bag(bag.bindings + [b])
  }

  predicate AllWithin(bag: Bag, entries: seq<Entry>) {
    forall i :: 0 <= i < |bag.bindings| ==> Within(bag.bindings[i], entries)
  }

  /** No binding of `bs` targets entry `i`. */
  predicate Untargeted(bs: seq<Binding>, i: nat) {
    forall j :: 0 <= j < |bs| ==> bs[j].target != i
  }

  /** The bindings `bs`, pulled in order; the first error stops. */
  function PullFrom(entries: seq<Entry>, bs: seq<Binding>, merge: Merger): (r: Result<seq<Entry>>)
    requires forall i :: 0 <= i < |bs| ==> Within(bs[i], entries)
    ensures r.Success? ==> |r.value| == |entries|
    ensures r.Success? ==> forall i: nat :: i < |entries| && Untargeted(bs, i) ==> r.value[i] == entries[i]
    decreases |bs|
  {
    if |bs| == 0 then Success(entries)
    else
      var next :- Pull(entries, bs[0], merge);
      assert forall i :: 0 <= i < |bs[1..]| ==> Within(bs[1..][i], next) by {
        forall i | 0 <= i < |bs[1..]| ensures Within(bs[1..][i], next) {
          assert bs[1..][i] == bs[i + 1] && Within(bs[i + 1], entries);
        }
      }
      var r := PullFrom(next, bs[1..], merge);
      assert forall i: nat :: Untargeted(bs, i) ==> bs[0].target != i && Untargeted(bs[1..], i) by {
        forall i: nat | Untargeted(bs, i) ensures bs[0].target != i && Untargeted(bs[1..], i) {
          forall j | 0 <= j < |bs[1..]| ensures bs[1..][j].target != i {
            assert bs[1..][j] == bs[j + 1];
          }
        }
      }
      r
  }

  /** `pullAll()`. */
  function PullAll(entries: seq<Entry>, bag: Bag, merge: Merger): (r: Result<seq<Entry>>)
    requires AllWithin(bag, entries)
    ensures |bag.bindings| == 0 ==> r == Success(entries)
    ensures r.Success? ==> |r.value| == |entries|
    ensures r.Success? ==> forall i: nat :: i < |entries| && Untargeted(bag.bindings, i) ==> r.value[i] == entries[i]
  {
    PullFrom(entries, bag.bindings, merge)
  }

  /** Pulling a bag after one more binding was added pulls the earlier bindings first,
      in order, then the new one: each binding is pulled once, in insertion order. */
  lemma {:induction false} PullAllAdd(entries: seq<Entry>, bag: Bag, b: Binding, merge: Merger)
    requires AllWithin(bag, entries) && Within(b, entries)
    ensures AllWithin(Add(bag, b), entries)
    ensures PullAll(entries, Add(bag, b), merge) ==
      match PullAll(entries, bag, merge)
      case Failure(err) => Failure(err)
      case Success(mid) => Pull(mid, b, merge)
  {
    PullFromSnoc(entries, bag.bindings, b, merge);
  }

  lemma {:induction false} PullFromSnoc(entries: seq<Entry>, bs: seq<Binding>, b: Binding, merge: Merger)
    requires forall i :: 0 <= i < |bs| ==> Within(bs[i], entries)
    requires Within(b, entries)
    ensures forall i :: 0 <= i < |bs + [b]| ==> Within((bs + [b])[i], entries)
    ensures PullFrom(entries, bs + [b], merge) ==
      match PullFrom(entries, bs, merge)
      case Failure(err) => Failure(err)
      case Success(mid) => Pull(mid, b, merge)
    decreases |bs|
  {
    if |bs| == 0 {
      assert [b][1..] == [];
    } else {
      assert (bs + [b])[0] == bs[0] && (bs + [b])[1..] == bs[1..] + [b];
      var next := Pull(entries, bs[0], merge);
      if next.Success? {
        PullFromSnoc(next.value, bs[1..], b, merge);
      }
    }
  }
}
