/** JavaScript values as the program handles them: the entities read from YAML, the
    payloads sent to GitHub, and the `where` filters of lookups.

    An object is a sequence of fields in insertion order, which is the order
    `Object.keys`, `Object.entries` and `for…in` enumerate them in. Numbers are
    integers; the program never depends on fractional values.
 */
module Json {
  import opened Wrappers

  datatype Value =
    | Undefined
    | Null
    | Bool(b: bool)
    | Num(n: int)
    | Str(s: string)
    | Arr(items: seq<Value>)
    | Obj(fields: Fields)

  type Fields = seq<(string, Value)>

  function Keys(fs: Fields): (ks: seq<string>)
    ensures |ks| == |fs|
    ensures forall i :: 0 <= i < |fs| ==> ks[i] == fs[i].0
  {
    seq(|fs|, i requires 0 <= i < |fs| => fs[i].0)
  }

  /** The position of the first pair whose key is `k`, or `|fs|` when there is none:
      the lookup of an object's field and of a `Map`'s entry alike. */
  function Find<K(==), V>(fs: seq<(K, V)>, k: K): (i: nat)
    ensures i <= |fs|
    ensures i < |fs| ==> fs[i].0 == k
    ensures forall j :: 0 <= j < i ==> fs[j].0 != k
  {
    if |fs| == 0 then 0
    else if fs[0].0 == k then 0
    else 1 + Find(fs[1..], k)
  }

  /** The first pair with key `k` is at position `i`. */
  lemma {:induction false} FindAt<K, V>(fs: seq<(K, V)>, k: K, i: nat)
    requires i < |fs| && fs[i].0 == k
    requires forall j :: 0 <= j < i ==> fs[j].0 != k
    ensures Find(fs, k) == i
  {
    if i > 0 {
      FindAt(fs[1..], k, i - 1);
    }
  }

  /** Lookups see only the keys. */
  lemma {:induction false} FindSameKeys(a: Fields, b: Fields, k: string)
    requires Keys(a) == Keys(b)
    ensures Find(a, k) == Find(b, k)
  {
    if |a| > 0 && a[0].0 != k {
      assert Keys(a[1..]) == Keys(a)[1..];
      assert Keys(b[1..]) == Keys(b)[1..];
      FindSameKeys(a[1..], b[1..], k);
    } else if |a| > 0 {
      assert Keys(a)[0] == Keys(b)[0];
    }
  }

  /** `Object.hasOwn(o, k)`. */
  predicate Has(fs: Fields, k: string) {
    exists i :: 0 <= i < |fs| && fs[i].0 == k
  }

  lemma FindHas(fs: Fields, k: string)
    ensures Has(fs, k) <==> Find(fs, k) < |fs|
  {
    if Has(fs, k) {
      var i :| 0 <= i < |fs| && fs[i].0 == k;
      assert Find(fs, k) <= i;
    }
  }

  /** Property access `o[k]`: the field's value, or `undefined` when it is absent. */
  function Get(fs: Fields, k: string): (v: Value)
    ensures !Has(fs, k) ==> v == Undefined
    ensures Has(fs, k) ==> exists i :: 0 <= i < |fs| && fs[i] == (k, v)
  {
    FindHas(fs, k);
    var i := Find(fs, k);
    if i < |fs| then fs[i].1 else Undefined
  }

  /** A well-formed object names each key once. */
  predicate DistinctKeys(fs: Fields) {
    forall i, j :: 0 <= i < j < |fs| ==> fs[i].0 != fs[j].0
  }

  /** Assignment `o[k] = v`: an existing key keeps its position, a new key goes last. */
  function Put(fs: Fields, k: string, v: Value): (r: Fields)
    ensures Get(r, k) == v && Has(r, k)
    ensures forall j :: j != k ==> Get(r, j) == Get(fs, j) && (Has(r, j) <==> Has(fs, j))
    ensures Has(fs, k) ==> Keys(r) == Keys(fs)
    ensures !Has(fs, k) ==> Keys(r) == Keys(fs) + [k]
    ensures DistinctKeys(fs) ==> DistinctKeys(r)
    ensures forall i :: 0 <= i < |r| ==> r[i] in fs || r[i] == (k, v)
  {
    FindHas(fs, k);
    var i := Find(fs, k);
    if i < |fs| then
      PutReplaces(fs, k, v, i);
      fs[i := (k, v)]
    else
      PutAppends(fs, k, v);
      fs + [(k, v)]
  }

  lemma PutReplaces(fs: Fields, k: string, v: Value, i: nat)
    requires i < |fs| && i == Find(fs, k)
    ensures var r := fs[i := (k, v)];
      && Get(r, k) == v && Has(r, k)
      && (forall j :: j != k ==> Get(r, j) == Get(fs, j) && (Has(r, j) <==> Has(fs, j)))
      && Keys(r) == Keys(fs)
      && (DistinctKeys(fs) ==> DistinctKeys(r))
  {
    var r := fs[i := (k, v)];
    FindAt(r, k, i);
    assert Keys(r) == Keys(fs);
    forall j | j != k ensures Get(r, j) == Get(fs, j) && (Has(r, j) <==> Has(fs, j)) {
      FindSameKeys(r, fs, j);
      FindHas(r, j);
      FindHas(fs, j);
    }
  }

  lemma PutAppends(fs: Fields, k: string, v: Value)
    requires Find(fs, k) == |fs|
    ensures var r := fs + [(k, v)];
      && Get(r, k) == v && Has(r, k)
      && (forall j :: j != k ==> Get(r, j) == Get(fs, j) && (Has(r, j) <==> Has(fs, j)))
      && Keys(r) == Keys(fs) + [k]
      && (DistinctKeys(fs) ==> DistinctKeys(r))
  {
    var r := fs + [(k, v)];
    FindAt(r, k, |fs|);
    forall j | j != k ensures Get(r, j) == Get(fs, j) && (Has(r, j) <==> Has(fs, j)) {
      FindHas(fs, j);
      FindHas(r, j);
      if Find(fs, j) < |fs| {
        FindAt(r, j, Find(fs, j));
      } else {
        assert Find(r, j) == |r|;
      }
    }
    assert Keys(r) == Keys(fs) + [k];
    FindHas(fs, k);
  }

  /** Object spread `{ ...a, ...b }`: the keys of `a` in their order, then the new keys
      of `b` in theirs, with `b`'s value winning wherever both have the key. */
  function Spread(a: Fields, b: Fields): (r: Fields)
    ensures forall k :: Has(r, k) <==> Has(a, k) || Has(b, k)
    ensures DistinctKeys(b) ==> forall k :: Get(r, k) == (if Has(b, k) then Get(b, k) else Get(a, k))
    ensures DistinctKeys(a) ==> DistinctKeys(r)
    ensures |Keys(a)| <= |Keys(r)| && Keys(r)[..|a|] == Keys(a)
    decreases |b|
  {
    if |b| == 0 then a
    else
      var mid := Spread(a, b[..|b| - 1]);
      SpreadStep(a, b, mid);
      Put(mid, b[|b| - 1].0, b[|b| - 1].1)
  }

  /** What `Spread` promises of `r` as the spread of `a` and `b`. */
  ghost predicate Spreads(a: Fields, b: Fields, r: Fields) {
    && (forall k :: Has(r, k) <==> Has(a, k) || Has(b, k))
    && (DistinctKeys(b) ==> forall k :: Get(r, k) == (if Has(b, k) then Get(b, k) else Get(a, k)))
    && (DistinctKeys(a) ==> DistinctKeys(r))
    && |Keys(a)| <= |Keys(r)| && Keys(r)[..|a|] == Keys(a)
  }

  /** Putting the last field of `b` into a spread of its front spreads all of `b`. */
  lemma SpreadStep(a: Fields, b: Fields, mid: Fields)
    requires |b| > 0 && Spreads(a, b[..|b| - 1], mid)
    ensures Spreads(a, b, Put(mid, b[|b| - 1].0, b[|b| - 1].1))
  {
    var r := Put(mid, b[|b| - 1].0, b[|b| - 1].1);
    SpreadStepLookup(a, b, mid);
    assert DistinctKeys(a) ==> DistinctKeys(r);
    assert Keys(r)[..|a|] == Keys(mid)[..|a|];
  }

  /** The lookup half of `SpreadStep`: which keys the result has, and their values. */
  lemma SpreadStepLookup(a: Fields, b: Fields, mid: Fields)
    requires |b| > 0 && Spreads(a, b[..|b| - 1], mid)
    ensures var r := Put(mid, b[|b| - 1].0, b[|b| - 1].1);
      && (forall k :: Has(r, k) <==> Has(a, k) || Has(b, k))
      && (DistinctKeys(b) ==> forall k :: Get(r, k) == (if Has(b, k) then Get(b, k) else Get(a, k)))
  {
    HasSnoc(b);
    if DistinctKeys(b) {
      GetSnoc(b);
    }
  }

  /** Looking a key up in a non-empty record: the first field, else the rest. */
  lemma LookupCons(fs: Fields)
    requires |fs| > 0
    ensures forall k :: Has(fs, k) <==> k == fs[0].0 || Has(fs[1..], k)
    ensures forall k :: Get(fs, k) == (if k == fs[0].0 then fs[0].1 else Get(fs[1..], k))
  {
    forall k ensures Has(fs, k) <==> k == fs[0].0 || Has(fs[1..], k) {
      FindHas(fs, k);
      FindHas(fs[1..], k);
    }
    forall k ensures Get(fs, k) == (if k == fs[0].0 then fs[0].1 else Get(fs[1..], k)) {
      FindHas(fs, k);
      FindHas(fs[1..], k);
    }
  }

  /** The keys of `b` are those of all but its last field, plus the last field's. */
  lemma HasSnoc(b: Fields)
    requires |b| > 0
    ensures forall k :: Has(b, k) <==> Has(b[..|b| - 1], k) || k == b[|b| - 1].0
  {
    var front := b[..|b| - 1];
    forall k ensures Has(b, k) <==> Has(front, k) || k == b[|b| - 1].0 {
      if Has(front, k) {
        var i :| 0 <= i < |front| && front[i].0 == k;
        assert b[i].0 == k;
      }
      if Has(b, k) && k != b[|b| - 1].0 {
        var i :| 0 <= i < |b| && b[i].0 == k;
        assert front[i].0 == k;
      }
    }
  }

  /** With distinct keys, the last field is the only one with its key. */
  lemma GetSnoc(b: Fields)
    requires |b| > 0 && DistinctKeys(b)
    ensures DistinctKeys(b[..|b| - 1])
    ensures !Has(b[..|b| - 1], b[|b| - 1].0)
    ensures forall k :: Get(b, k) == (if k == b[|b| - 1].0 then b[|b| - 1].1 else Get(b[..|b| - 1], k))
  {
    var front := b[..|b| - 1];
    var last := b[|b| - 1];
    forall k ensures Get(b, k) == (if k == last.0 then last.1 else Get(front, k)) {
      FindHas(b, k);
      FindHas(front, k);
      if k == last.0 {
        assert Find(b, k) == |b| - 1;
      } else if Find(front, k) < |front| {
        assert Find(b, k) == Find(front, k);
      } else {
        assert Find(b, k) == |b|;
      }
    }
  }

  /** The value's JavaScript truthiness as an object test: underscore's `isObject`,
      which holds for arrays and objects alike. */
  predicate IsObject(v: Value) {
    v.Arr? || v.Obj?
  }

  /** `typeof v === 'string'` or `typeof v === 'number'`: the values an index can hold. */
  predicate IsIndexable(v: Value) {
    v.Str? || v.Num?
  }
}
