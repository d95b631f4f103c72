/** The in-memory registry of a storage: every entry it holds, the entries of each
    type, and a lookup index keyed by (type, property, value) (src/EntityRegistry.ts).

    Entries are identified by their position in `entries`, the order in which they
    were registered; `byType` and `index` hold positions.
 */
module EntityRegistries {
  import opened Wrappers
  import opened Json
  import opened EntityTypes
  import opened EntitySchemas
  import opened SchemaRegistries
  import opened StorageEntries

  /** A value an index can hold: a number or a string (a `Map` tells 1 and "1" apart). */
  datatype Key = NumKey(n: int) | StrKey(s: string)

  function KeyOf(v: Value): (k: Option<Key>)
    ensures k.Some? <==> IsIndexable(v)
  {
    match v
    case Num(n) => Some(NumKey(n))
    case Str(s) => Some(StrKey(s))
    case _ => None
  }

  /** The JavaScript value of a key; `KeyOf` reads it back. */
  function KeyValue(k: Key): (v: Value)
    ensures KeyOf(v) == Some(k)
    ensures IsIndexable(v)
  {
    match k
    case NumKey(n) => Num(n)
    case StrKey(s) => Str(s)
  }

  type IndexKey = (EntityType, string, Key)

  datatype Registry = Registry(schemas: SchemaRegistry, entries: seq<Entry>, byType: map<EntityType, seq<nat>>, index: map<IndexKey, nat>)

  /** The positions of the entries of type `t`, in registration order. */
  function KindIds(entries: seq<Entry>, t: EntityType): (ids: seq<nat>)
    ensures forall i :: 0 <= i < |ids| ==> ids[i] < |entries| && entries[ids[i]].kind == t
  {
    if |entries| == 0 then []
    else
      var n := |entries| - 1;
      var front := KindIds(entries[..n], t);
      front + (if entries[n].kind == t then [n] else [])
  }

  /** The representation invariant: `byType` lists exactly the entries of each type,
      and every index slot names an entry of its type whose property holds its key. */
  predicate Valid(reg: Registry) {
    ByTypeValid(reg.entries, reg.byType) && IndexValid(reg.entries, reg.index)
  }

  predicate ByTypeValid(entries: seq<Entry>, byType: map<EntityType, seq<nat>>) {
    forall t :: KindIds(entries, t) == (if t in byType then byType[t] else [])
  }

  predicate SlotValid(entries: seq<Entry>, k: IndexKey, id: nat) {
    id < |entries| && entries[id].kind == k.0 && KeyOf(Get(entries[id].entity, k.1)) == Some(k.2)
  }

  predicate IndexValid(entries: seq<Entry>, index: map<IndexKey, nat>) {
    forall k :: k in index ==> SlotValid(entries, k, index[k])
  }

  function EmptyRegistry(schemas: SchemaRegistry): (reg: Registry)
    ensures Valid(reg) && |reg.entries| == 0
  {
    Registry(schemas, [], map[], map[])
  }

  /** `all()`: every entry ever registered, in registration order. */
  function All(reg: Registry): seq<Entry> {
    reg.entries
  }

  /** `all(t)`: the entries kept for type `t`, in registration order. */
  function AllOf(reg: Registry, t: EntityType): (r: seq<Entry>)
    requires ByTypeValid(reg.entries, reg.byType)
    ensures forall i :: 0 <= i < |r| ==> r[i].kind == t
  {
    if t in reg.byType then
      var ids := reg.byType[t];
      seq(|ids|, i requires 0 <= i < |ids| => reg.entries[ids[i]])
    else []
  }

  /** The entries of `s` of type `t`, in order: the reference for `all(t)`. */
  function OfKind(s: seq<Entry>, t: EntityType): seq<Entry> {
    if |s| == 0 then []
    else OfKind(s[..|s| - 1], t) + (if s[|s| - 1].kind == t then [s[|s| - 1]] else [])
  }

  lemma {:induction false} KindIdsSelect(entries: seq<Entry>, t: EntityType)
    ensures var ids := KindIds(entries, t);
      OfKind(entries, t) == seq(|ids|, i requires 0 <= i < |ids| => entries[ids[i]])
    decreases |entries|
  {
    if |entries| > 0 {
      var n := |entries| - 1;
      KindIdsSelect(entries[..n], t);
      var front := KindIds(entries[..n], t);
      assert forall i :: 0 <= i < |front| ==> entries[..n][front[i]] == entries[front[i]];
    }
  }

  /** `all(t)` is `all()` filtered by type: the by-type sets never disagree with the
      flat set. */
  lemma AllOfFilters(reg: Registry, t: EntityType)
    requires Valid(reg)
    ensures AllOf(reg, t) == OfKind(All(reg), t)
  {
    KindIdsSelect(reg.entries, t);
  }

  /** `one(t, where)`: only the first property of `where` is looked up; an empty
      filter, an unindexed property or a value that is neither number nor string
      finds nothing. */
  function One(reg: Registry, of: EntityType, where: Fields): (r: Option<Entry>)
    requires Valid(reg)
    ensures |where| == 0 ==> r.None?
    ensures r.Some? ==> (r.value.kind == of && r.value in reg.entries
      && KeyOf(Get(r.value.entity, where[0].0)) == KeyOf(where[0].1))
  {
    if |where| == 0 then None
    else
      var key := KeyOf(where[0].1);
      if key.Some? && (of, where[0].0, key.value) in reg.index then
        Some(reg.entries[reg.index[(of, where[0].0, key.value)]])
      else None
  }

  /** Properties of the filter after the first are ignored. */
  lemma OneUsesFirstKey(reg: Registry, of: EntityType, where: Fields, rest: Fields)
    requires Valid(reg) && |where| > 0
    ensures One(reg, of, where + rest) == One(reg, of, where[..1])
  {
    assert (where + rest)[0] == where[..1][0];
  }

  /** A property is indexed when it is a primary key or unique, or when it is unique
      among new entries and the entry has no primary key yet. */
  predicate Indexed(p: PropertyMeta, e: Entry) {
    p.primaryKey || p.unique || (e.primaryKey == Null && p.newUnique)
  }

  /** The index slot property `p` of entry `e` claims, if any. */
  function SlotOf(p: PropertyMeta, e: Entry): Option<IndexKey> {
    var key := KeyOf(Get(e.entity, p.name));
    if Indexed(p, e) && key.Some? then Some((e.kind, p.name, key.value)) else None
  }

  predicate Claims(props: seq<PropertyMeta>, e: Entry, k: IndexKey) {
    exists i :: 0 <= i < |props| && SlotOf(props[i], e) == Some(k)
  }

  /** The loop of `#setIndex`: each indexed property with a number or string value
      points its slot at entry `id`, overwriting whatever was there. */
  function IndexProperties(index: map<IndexKey, nat>, props: seq<PropertyMeta>, e: Entry, id: nat): (r: map<IndexKey, nat>)
    ensures forall k :: k in r <==> k in index || Claims(props, e, k)
    ensures forall k :: Claims(props, e, k) ==> r[k] == id
    ensures forall k :: k in index && !Claims(props, e, k) ==> r[k] == index[k]
    decreases |props|
  {
    if |props| == 0 then index
    else
      var slot := SlotOf(props[0], e);
      var next := if slot.Some? then index[slot.value := id] else index;
      var r := IndexProperties(next, props[1..], e, id);
      ClaimsCons(props, e);
      r
  }

  /** A slot is claimed by the first property or by one of the others. */
  lemma ClaimsCons(props: seq<PropertyMeta>, e: Entry)
    requires |props| > 0
    ensures forall k :: Claims(props, e, k) <==> SlotOf(props[0], e) == Some(k) || Claims(props[1..], e, k)
  {
    forall k ensures Claims(props, e, k) <==> SlotOf(props[0], e) == Some(k) || Claims(props[1..], e, k) {
      if Claims(props, e, k) {
        var i :| 0 <= i < |props| && SlotOf(props[i], e) == Some(k);
        if i > 0 { assert props[1..][i - 1] == props[i]; }
      }
      if Claims(props[1..], e, k) {
        var i :| 0 <= i < |props[1..]| && SlotOf(props[1..][i], e) == Some(k);
        assert props[i + 1] == props[1..][i];
      }
    }
  }

  /** What `set(e)` leaves behind: the registry as it stands when `set` returns or
      throws, and the error when it throws. */
  datatype SetOutcome = SetOutcome(reg: Registry, error: Option<string>)

  lemma KindIdsSnoc(entries: seq<Entry>, e: Entry, t: EntityType)
    ensures KindIds(entries + [e], t) == KindIds(entries, t) + (if e.kind == t then [|entries|] else [])
  {
    assert (entries + [e])[..|entries|] == entries;
  }

  /** The first two steps of `set(e)`: the flat collection and the entry's type set.
      The source keeps both in insertion-ordered sets, which ignore an entry already
      present; the model appends instead. The two agree for every caller, since each
      `set` is given a newly built entry object (a loaded document or `new`), never
      one the registry already holds. */
  function AddToCollections(reg: Registry, e: Entry): (r: Registry)
    requires Valid(reg)
    ensures Valid(r)
    ensures r.entries == reg.entries + [e] && r.schemas == reg.schemas && r.index == reg.index
    ensures AllOf(r, e.kind) == AllOf(reg, e.kind) + [e]
    ensures forall t :: t != e.kind ==> AllOf(r, t) == AllOf(reg, t)
  {
    var id := |reg.entries|;
    var entries := reg.entries + [e];
    var ids := if e.kind in reg.byType then reg.byType[e.kind] else [];
    var byType := reg.byType[e.kind := ids + [id]];
    CollectionsStayValid(reg, e);
    var r := Registry(reg.schemas, entries, byType, reg.index);
    AllOfAfterAdd(reg, r, e);
    r
  }

  lemma CollectionsStayValid(reg: Registry, e: Entry)
    requires Valid(reg)
    ensures var ids := if e.kind in reg.byType then reg.byType[e.kind] else [];
      ByTypeValid(reg.entries + [e], reg.byType[e.kind := ids + [|reg.entries|]])
      && IndexValid(reg.entries + [e], reg.index)
  {
    var entries := reg.entries + [e];
    var ids := if e.kind in reg.byType then reg.byType[e.kind] else [];
    var byType := reg.byType[e.kind := ids + [|reg.entries|]];
    forall t ensures KindIds(entries, t) == (if t in byType then byType[t] else []) {
      KindIdsSnoc(reg.entries, e, t);
      assert KindIds(reg.entries, t) == (if t in reg.byType then reg.byType[t] else []);
    }
    forall k | k in reg.index ensures SlotValid(entries, k, reg.index[k]) {
      assert SlotValid(reg.entries, k, reg.index[k]);
      assert entries[reg.index[k]] == reg.entries[reg.index[k]];
    }
  }

  lemma AllOfAfterAdd(reg: Registry, r: Registry, e: Entry)
    requires Valid(reg) && Valid(r)
    requires r.entries == reg.entries + [e]
    requires r.byType == reg.byType[e.kind := (if e.kind in reg.byType then reg.byType[e.kind] else []) + [|reg.entries|]]
    ensures AllOf(r, e.kind) == AllOf(reg, e.kind) + [e]
    ensures forall t :: t != e.kind ==> AllOf(r, t) == AllOf(reg, t)
  {
    AllOfOwnKind(reg, r, e);
    forall t | t != e.kind ensures AllOf(r, t) == AllOf(reg, t) {
      AllOfOtherKind(reg, r, e, t);
    }
  }

  lemma AllOfOwnKind(reg: Registry, r: Registry, e: Entry)
    requires ByTypeValid(reg.entries, reg.byType) && ByTypeValid(r.entries, r.byType)
    requires r.entries == reg.entries + [e]
    requires r.byType == reg.byType[e.kind := (if e.kind in reg.byType then reg.byType[e.kind] else []) + [|reg.entries|]]
    ensures AllOf(r, e.kind) == AllOf(reg, e.kind) + [e]
  {
    var ids := if e.kind in reg.byType then reg.byType[e.kind] else [];
    assert KindIds(reg.entries, e.kind) == ids;
    SnocIdsEntries(reg.entries, r.entries, ids, e);
  }

  /** Ids below `|a|` followed by `|a|` pick from `a + [e]` what the ids pick from `a`,
      then `e`. */
  lemma SnocIdsEntries(a: seq<Entry>, b: seq<Entry>, ids: seq<nat>, e: Entry)
    requires b == a + [e]
    requires forall i :: 0 <= i < |ids| ==> ids[i] < |a|
    ensures var more := ids + [|a|];
      seq(|more|, i requires 0 <= i < |more| => b[more[i]]) == seq(|ids|, i requires 0 <= i < |ids| => a[ids[i]]) + [e]
  {
    var more := ids + [|a|];
    var left := seq(|more|, i requires 0 <= i < |more| => b[more[i]]);
    var right := seq(|ids|, i requires 0 <= i < |ids| => a[ids[i]]) + [e];
    forall i | 0 <= i < |left| ensures left[i] == right[i] {
      if i < |ids| {
        assert more[i] == ids[i];
      }
    }
  }

  lemma AllOfOtherKind(reg: Registry, r: Registry, e: Entry, t: EntityType)
    requires ByTypeValid(reg.entries, reg.byType) && ByTypeValid(r.entries, r.byType) && t != e.kind
    requires r.entries == reg.entries + [e]
    requires r.byType == reg.byType[e.kind := (if e.kind in reg.byType then reg.byType[e.kind] else []) + [|reg.entries|]]
    ensures AllOf(r, t) == AllOf(reg, t)
  {
    if t in reg.byType {
      assert KindIds(reg.entries, t) == reg.byType[t];
      SameIdsSameEntries(reg.entries, r.entries, reg.byType[t]);
    }
  }

  /** Ids below `|a|` pick the same entries from `a` and from `a` extended. */
  lemma SameIdsSameEntries(a: seq<Entry>, b: seq<Entry>, ids: seq<nat>)
    requires |a| <= |b| && a == b[..|a|]
    requires forall i :: 0 <= i < |ids| ==> ids[i] < |a|
    ensures seq(|ids|, i requires 0 <= i < |ids| => b[ids[i]]) == seq(|ids|, i requires 0 <= i < |ids| => a[ids[i]])
  {
    forall i | 0 <= i < |ids| ensures b[ids[i]] == a[ids[i]] {
      assert a[ids[i]] == b[..|a|][ids[i]];
    }
  }

  /** Pointing the claimed slots at the newest entry keeps the index valid. */
  lemma IndexStaysValid(reg: Registry, props: seq<PropertyMeta>)
    requires Valid(reg) && |reg.entries| > 0
    ensures var e := reg.entries[|reg.entries| - 1];
      Valid(reg.(index := IndexProperties(reg.index, props, e, |reg.entries| - 1)))
  {
    var e := reg.entries[|reg.entries| - 1];
    var index := IndexProperties(reg.index, props, e, |reg.entries| - 1);
    forall k | k in index ensures SlotValid(reg.entries, k, index[k]) {
      if Claims(props, e, k) {
        var i :| 0 <= i < |props| && SlotOf(props[i], e) == Some(k);
        assert index[k] == |reg.entries| - 1;
      } else {
        assert index[k] == reg.index[k];
        assert SlotValid(reg.entries, k, reg.index[k]);
      }
    }
  }

  /** `set(e)`: the entry joins the flat and the by-type collections, then its indexed
      properties enter the index. When its type has no schema it throws, after the
      first two steps. */
  function Set(reg: Registry, e: Entry): (out: SetOutcome)
    requires Valid(reg)
    ensures Valid(out.reg)
    ensures All(out.reg) == All(reg) + [e]
    ensures AllOf(out.reg, e.kind) == AllOf(reg, e.kind) + [e]
    ensures forall t :: t != e.kind ==> AllOf(out.reg, t) == AllOf(reg, t)
    ensures out.reg.schemas == reg.schemas
    ensures out.error.Some? <==> GetSchema(reg.schemas, e.kind).None?
    ensures out.error.Some? ==> (out.error.value == "Can't find \"" + Name(e.kind) + "\" schema."
      && out.reg.index == reg.index)
    ensures out.error.None? ==> out.reg.index == IndexProperties(reg.index, GetSchema(reg.schemas, e.kind).value.properties, e, |reg.entries|)
  {
    var staged := AddToCollections(reg, e);
    var schema := GetSchema(reg.schemas, e.kind);
    if schema.None? then
      SetOutcome(staged, Some("Can't find \"" + Name(e.kind) + "\" schema."))
    else
      StagedIndexed(reg, e, schema.value.properties);
      SetOutcome(staged.(index := IndexProperties(reg.index, schema.value.properties, e, |reg.entries|)), None)
  }

  /** Indexing the entry just added keeps the registry valid and leaves its
      collections as they are. */
  lemma StagedIndexed(reg: Registry, e: Entry, props: seq<PropertyMeta>)
    requires Valid(reg)
    ensures var staged := AddToCollections(reg, e);
      var done := staged.(index := IndexProperties(reg.index, props, e, |reg.entries|));
      Valid(done) && forall t :: AllOf(done, t) == AllOf(staged, t)
  {
    var staged := AddToCollections(reg, e);
    IndexStaysValid(staged, props);
    assert staged.entries[|staged.entries| - 1] == e;
    var done := staged.(index := IndexProperties(reg.index, props, e, |reg.entries|));
    assert forall t :: AllOf(done, t) == AllOf(staged, t);
  }

  /** After a successful `set(e)`, looking `e`'s type up by any indexed property and
      that property's value finds `e`, the latest entry to claim that slot. */
  lemma SetThenOne(reg: Registry, e: Entry, i: nat)
    requires Valid(reg)
    requires GetSchema(reg.schemas, e.kind).Some?
    requires i < |GetSchema(reg.schemas, e.kind).value.properties|
    requires var p := GetSchema(reg.schemas, e.kind).value.properties[i];
      Indexed(p, e) && IsIndexable(Get(e.entity, p.name))
    ensures var p := GetSchema(reg.schemas, e.kind).value.properties[i];
      One(Set(reg, e).reg, e.kind, [(p.name, Get(e.entity, p.name))]) == Some(e)
  {
    var props := GetSchema(reg.schemas, e.kind).value.properties;
    var out := Set(reg, e).reg;
    assert All(out) == All(reg) + [e];
    IndexedFinds(reg, out, e, props, i);
  }

  /** A registry that appended `e` to those of `reg` and indexed its properties finds
      `e` by any indexed property. */
  lemma IndexedFinds(reg: Registry, out: Registry, e: Entry, props: seq<PropertyMeta>, i: nat)
    requires Valid(out) && out.entries == reg.entries + [e]
    requires out.index == IndexProperties(reg.index, props, e, |reg.entries|)
    requires i < |props| && Indexed(props[i], e) && IsIndexable(Get(e.entity, props[i].name))
    ensures One(out, e.kind, [(props[i].name, Get(e.entity, props[i].name))]) == Some(e)
  {
    var p := props[i];
    IndexClaimed(reg.index, props, e, |reg.entries|, i);
    assert out.entries[|reg.entries|] == e;
    OneAtSlot(out, e.kind, [(p.name, Get(e.entity, p.name))], SlotOf(p, e).value);
  }

  /** A lookup whose first property names a slot of the index finds the entry the slot
      holds. */
  lemma OneAtSlot(reg: Registry, of: EntityType, where: Fields, k: IndexKey)
    requires Valid(reg) && |where| > 0
    requires KeyOf(where[0].1).Some? && k == (of, where[0].0, KeyOf(where[0].1).value)
    requires k in reg.index
    ensures One(reg, of, where) == Some(reg.entries[reg.index[k]])
  {
  }

  lemma IndexClaimed(index: map<IndexKey, nat>, props: seq<PropertyMeta>, e: Entry, id: nat, i: nat)
    requires i < |props| && SlotOf(props[i], e).Some?
    ensures var k := SlotOf(props[i], e).value;
      k in IndexProperties(index, props, e, id) && IndexProperties(index, props, e, id)[k] == id
  {
    assert Claims(props, e, SlotOf(props[i], e).value);
  }

  /** Slots no indexed property of `e` claims keep the entry they had: an earlier
      entry stays reachable unless `e` takes over its slot. */
  lemma SetKeepsOtherSlots(reg: Registry, e: Entry, name: string, v: Value)
    requires Valid(reg)
    requires Set(reg, e).error.None?
    requires KeyOf(v).Some?
    requires !Claims(GetSchema(reg.schemas, e.kind).value.properties, e, (e.kind, name, KeyOf(v).value))
    ensures One(Set(reg, e).reg, e.kind, [(name, v)]) == One(reg, e.kind, [(name, v)])
  {
    var slot := (e.kind, name, KeyOf(v).value);
    if slot in reg.index {
      assert Set(reg, e).reg.entries[reg.index[slot]] == reg.entries[reg.index[slot]];
    }
  }

  /** Registration never removes an entry: whatever `all()` held before any `set`,
      successful or not, is a prefix of what it holds after. */
  lemma SetNeverRemoves(reg: Registry, e: Entry)
    requires Valid(reg)
    ensures All(reg) <= All(Set(reg, e).reg)
  {
  }
}
