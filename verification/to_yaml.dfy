/** The conversion of a JavaScript value to a YAML syntax tree (src/toYAML.ts), which
    the file store uses to print entity values with their keys in a stable order.

    The YAML library's nodes are abstracted to the three kinds the conversion
    builds: scalars (plain or block-literal), sequences and maps.
 */
module Yaml {
  import opened Wrappers
  import opened Json
  import opened Sorting

  datatype Node =
    | Scalar(value: Value, blockLiteral: bool)
    | YSeq(items: seq<Node>)
    | YMap(pairs: seq<(string, Node)>)

  /** All the results' values, or the first failure among them. */
  function Collect<T>(rs: seq<Result<T>>): (r: Result<seq<T>>)
    ensures r.Success? <==> forall i :: 0 <= i < |rs| ==> rs[i].Success?
    ensures r.Success? ==> |r.value| == |rs| && forall i :: 0 <= i < |rs| ==> r.value[i] == rs[i].value
  {
    if |rs| == 0 then Success([])
    else
      var head :- rs[0];
      var rest :- Collect(rs[1..]);
      assert forall i :: 1 <= i < |rs| ==> rs[i] == rs[1..][i - 1];
      Success([head] + rest)
  }

  /** `nonNullable(value)`: throws an empty error on `null` and `undefined`. */
  predicate Nullish(v: Value) {
    v == Null || v == Undefined
  }

  /** `toYAML(value)`: a string is a scalar, block-literal when it holds a line feed;
      an array a sequence of its converted elements; an object a map of its converted
      properties in ascending key order, throwing on a `null` or `undefined`
      property; any other value a plain scalar. */
  function ToYaml(v: Value): (r: Result<Node>)
    ensures v.Str? ==> r == Success(Scalar(v, '\n' in v.s))
    ensures !v.Str? && !v.Arr? && !v.Obj? ==> r == Success(Scalar(v, false))
    ensures v.Arr? && r.Success? ==> r.value.YSeq? && |r.value.items| == |v.items|
    ensures v.Obj? && r.Success? ==>
      (r.value.YMap? && |r.value.pairs| == |v.fields|
       && forall i :: 0 <= i < |v.fields| ==> r.value.pairs[i].0 == SortStrings(Keys(v.fields))[i])
    decreases v
  {
    match v
    case Str(s) => Success(Scalar(v, '\n' in s))
    case Arr(items) =>
      var nodes :- Collect(seq(|items|, i requires 0 <= i < |items| => ToYaml(items[i])));
      Success(YSeq(nodes))
    case Obj(fs) =>
      var ks := SortStrings(Keys(fs));
      var nodes :- Collect(seq(|ks|, i requires 0 <= i < |ks| =>
        var j := Find(fs, ks[i]);
        if j < |fs| && !Nullish(fs[j].1) then ToYaml(fs[j].1) else Failure("")));
      Success(YMap(seq(|ks|, i requires 0 <= i < |ks| => (ks[i], nodes[i]))))
    case _ => Success(Scalar(v, false))
  }

  /** The value a node stands for (the library's `toJS`). */
  function ToJs(n: Node): Value {
    match n
    case Scalar(v, _) => v
    case YSeq(items) => Arr(seq(|items|, i requires 0 <= i < |items| => ToJs(items[i])))
    case YMap(pairs) => Obj(seq(|pairs|, i requires 0 <= i < |pairs| => (pairs[i].0, ToJs(pairs[i].1))))
  }

  /** No object, at any depth, has a `null` or `undefined` property. */
  predicate NoNullMembers(v: Value)
    decreases v
  {
    match v
    case Arr(items) => forall i :: 0 <= i < |items| ==> NoNullMembers(items[i])
    case Obj(fs) => forall i :: 0 <= i < |fs| ==> !Nullish(fs[i].1) && NoNullMembers(fs[i].1)
    case _ => true
  }

  /** Every object, at any depth, has distinct keys. */
  predicate WellFormed(v: Value)
    decreases v
  {
    match v
    case Arr(items) => forall i :: 0 <= i < |items| ==> WellFormed(items[i])
    case Obj(fs) => DistinctKeys(fs) && forall i :: 0 <= i < |fs| ==> WellFormed(fs[i].1)
    case _ => true
  }

  /** Every object, at any depth, already lists its keys in ascending order. */
  predicate Canonical(v: Value)
    decreases v
  {
    match v
    case Arr(items) => forall i :: 0 <= i < |items| ==> Canonical(items[i])
    case Obj(fs) => SortedStrings(Keys(fs)) && forall i :: 0 <= i < |fs| ==> Canonical(fs[i].1)
    case _ => true
  }

  /** Each key of a well-formed object appears once among its sorted keys, and finds
      its own field. */
  lemma SortedKeyOf(fs: Fields, p: nat) returns (i: nat)
    requires DistinctKeys(fs) && p < |fs|
    ensures i < |fs| && SortStrings(Keys(fs))[i] == fs[p].0 && Find(fs, fs[p].0) == p
  {
    var ks := SortStrings(Keys(fs));
    assert Keys(fs)[p] == fs[p].0;
    assert fs[p].0 in multiset(Keys(fs));
    assert fs[p].0 in multiset(ks);
    var x :| 0 <= x < |ks| && ks[x] == fs[p].0;
    i := x;
    FindAt(fs, fs[p].0, p);
  }

  /** Every sorted key is the key of some field. */
  lemma SortedKeyIsKey(fs: Fields, i: nat)
    requires i < |fs|
    ensures Find(fs, SortStrings(Keys(fs))[i]) < |fs|
  {
    var ks := SortStrings(Keys(fs));
    assert ks[i] in multiset(ks);
    assert ks[i] in multiset(Keys(fs));
    var p :| 0 <= p < |fs| && Keys(fs)[p] == ks[i];
    FindHas(fs, ks[i]);
  }

  /** On well-formed values the conversion fails exactly when some object property,
      at any depth, is `null` or `undefined`. */
  lemma {:induction false} ToYamlFailsOnNull(v: Value)
    requires WellFormed(v)
    ensures ToYaml(v).Success? <==> NoNullMembers(v)
    decreases v
  {
    match v
    case Arr(items) =>
      forall i | 0 <= i < |items| ensures ToYaml(items[i]).Success? <==> NoNullMembers(items[i]) {
        ToYamlFailsOnNull(items[i]);
      }
      ArrayFailsOnNull(items);
    case Obj(fs) =>
      forall p | 0 <= p < |fs| ensures ToYaml(fs[p].1).Success? <==> NoNullMembers(fs[p].1) {
        ToYamlFailsOnNull(fs[p].1);
      }
      ObjectFailsOnNull(fs);
    case _ =>
  }

  lemma ArrayFailsOnNull(items: seq<Value>)
    requires forall i :: 0 <= i < |items| ==> (ToYaml(items[i]).Success? <==> NoNullMembers(items[i]))
    ensures ToYaml(Arr(items)).Success? <==> NoNullMembers(Arr(items))
  {
    var rs := seq(|items|, i requires 0 <= i < |items| => ToYaml(items[i]));
    assert ToYaml(Arr(items)).Success? <==> Collect(rs).Success?;
    if NoNullMembers(Arr(items)) {
      assert forall i :: 0 <= i < |rs| ==> rs[i].Success?;
    } else {
      var i :| 0 <= i < |items| && !NoNullMembers(items[i]);
      assert rs[i].Failure?;
    }
  }

  lemma ObjectFailsOnNull(fs: Fields)
    requires DistinctKeys(fs)
    requires forall p :: 0 <= p < |fs| ==> (ToYaml(fs[p].1).Success? <==> NoNullMembers(fs[p].1))
    ensures ToYaml(Obj(fs)).Success? <==> NoNullMembers(Obj(fs))
  {
    var ks := SortStrings(Keys(fs));
    var rs := FieldResults(fs);
    ObjectCollects(fs);
    if NoNullMembers(Obj(fs)) {
      forall i | 0 <= i < |ks| ensures rs[i].Success? {
        FieldConverts(fs, i);
      }
    } else {
      var p :| 0 <= p < |fs| && !(!Nullish(fs[p].1) && NoNullMembers(fs[p].1));
      FieldFails(fs, p);
    }
  }

  lemma FieldFails(fs: Fields, p: nat)
    requires DistinctKeys(fs) && p < |fs| && (Nullish(fs[p].1) || !NoNullMembers(fs[p].1))
    requires forall p :: 0 <= p < |fs| ==> (ToYaml(fs[p].1).Success? <==> NoNullMembers(fs[p].1))
    ensures Collect(FieldResults(fs)).Failure?
  {
    var i := SortedKeyOf(fs, p);
    assert FieldResults(fs)[i].Failure?;
  }

  lemma FieldConverts(fs: Fields, i: nat)
    requires NoNullMembers(Obj(fs)) && i < |fs|
    requires forall p :: 0 <= p < |fs| ==> (ToYaml(fs[p].1).Success? <==> NoNullMembers(fs[p].1))
    ensures FieldResults(fs)[i].Success?
  {
    var ks := SortStrings(Keys(fs));
    SortedKeyIsKey(fs, i);
    var j := Find(fs, ks[i]);
    assert !Nullish(fs[j].1) && NoNullMembers(fs[j].1);
    assert FieldResults(fs)[i] == ToYaml(fs[j].1);
  }

  /** The conversions of an object's properties, in ascending key order. */
  function FieldResults(fs: Fields): (rs: seq<Result<Node>>)
    ensures var ks := SortStrings(Keys(fs));
      |rs| == |ks| && forall i :: 0 <= i < |ks| ==>
        rs[i] == (var j := Find(fs, ks[i]); if j < |fs| && !Nullish(fs[j].1) then ToYaml(fs[j].1) else Failure(""))
  {
    var ks := SortStrings(Keys(fs));
    seq(|ks|, i requires 0 <= i < |ks| =>
      var j := Find(fs, ks[i]);
      if j < |fs| && !Nullish(fs[j].1) then ToYaml(fs[j].1) else Failure(""))
  }

  lemma ObjectCollects(fs: Fields)
    ensures ToYaml(Obj(fs)).Success? <==> Collect(FieldResults(fs)).Success?
  {
  }

  /** A value without a `null` or `undefined` property converts, whether or not its
      objects repeat a key. */
  lemma {:induction false} NoNullConverts(v: Value)
    requires NoNullMembers(v)
    ensures ToYaml(v).Success?
    decreases v
  {
    match v
    case Arr(items) =>
      forall i | 0 <= i < |items| ensures ToYaml(items[i]).Success? {
        NoNullConverts(items[i]);
      }
      ArrayFailsOnNull(items);
    case Obj(fs) =>
      forall p | 0 <= p < |fs| ensures ToYaml(fs[p].1).Success? {
        NoNullConverts(fs[p].1);
      }
      ObjectCollects(fs);
      forall i | 0 <= i < |fs| ensures FieldResults(fs)[i].Success? {
        FieldConverts(fs, i);
      }
    case _ =>
  }

  /** A well-formed value with keys already in order and no null property converts to
      a tree that stands for the same value. */
  lemma {:induction false} ToYamlRoundTrip(v: Value)
    requires WellFormed(v) && Canonical(v) && NoNullMembers(v)
    ensures ToYaml(v).Success? && ToJs(ToYaml(v).value) == v
    decreases v
  {
    ToYamlFailsOnNull(v);
    match v
    case Arr(items) =>
      forall i | 0 <= i < |items| ensures ToYaml(items[i]).Success? && ToJs(ToYaml(items[i]).value) == items[i] {
        ToYamlRoundTrip(items[i]);
      }
      ArrayRoundTrip(items);
    case Obj(fs) =>
      forall p | 0 <= p < |fs| ensures ToYaml(fs[p].1).Success? && ToJs(ToYaml(fs[p].1).value) == fs[p].1 {
        ToYamlRoundTrip(fs[p].1);
      }
      ObjectRoundTrip(fs);
    case _ =>
  }

  /** The round trip of an array, given that of each item. */
  lemma ArrayRoundTrip(items: seq<Value>)
    requires ToYaml(Arr(items)).Success?
    requires forall i :: 0 <= i < |items| ==> ToYaml(items[i]).Success? && ToJs(ToYaml(items[i]).value) == items[i]
    ensures ToJs(ToYaml(Arr(items)).value) == Arr(items)
  {
    var n := ToYaml(Arr(items)).value;
    assert ToJs(n).items == items;
  }

  /** The round trip of an object whose keys are already in order, given that of each
      property value. */
  lemma ObjectRoundTrip(fs: Fields)
    requires WellFormed(Obj(fs)) && Canonical(Obj(fs)) && ToYaml(Obj(fs)).Success?
    requires forall p :: 0 <= p < |fs| ==> ToYaml(fs[p].1).Success? && ToJs(ToYaml(fs[p].1).value) == fs[p].1
    ensures ToJs(ToYaml(Obj(fs)).value) == Obj(fs)
  {
    SortedStringsUnique(SortStrings(Keys(fs)), Keys(fs));
    var n := ToYaml(Obj(fs)).value;
    forall p | 0 <= p < |fs| ensures ToJs(n).fields[p] == fs[p] {
      FieldRoundTrip(fs, n, p);
    }
    assert ToJs(n).fields == fs;
  }

  /** Property `p` of an object whose keys are in order converts to pair `p` of the
      mapping, and back. */
  lemma FieldRoundTrip(fs: Fields, n: Node, p: nat)
    requires WellFormed(Obj(fs)) && ToYaml(Obj(fs)).Success? && n == ToYaml(Obj(fs)).value
    requires SortStrings(Keys(fs)) == Keys(fs)
    requires p < |fs| && ToYaml(fs[p].1).Success? && ToJs(ToYaml(fs[p].1).value) == fs[p].1
    ensures n.YMap? && p < |n.pairs| && n.pairs[p].0 == fs[p].0 && ToJs(n.pairs[p].1) == fs[p].1
  {
    FindAt(fs, fs[p].0, p);
    ObjectCollects(fs);
    assert FieldResults(fs)[p] == ToYaml(fs[p].1);
  }
}
