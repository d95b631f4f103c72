/** The content hash that detects changes between the file store and GitHub
    (src/hash.ts). The MD5 digest itself is a parameter; what is modelled is the
    canonical string it is computed over.
 */
module Hash {
  import opened Json
  import opened Strings
  import opened Sorting

  /** The string the digest is taken of. Arrays give their elements' strings joined
      with '|'; objects give their values' strings, in ascending key order, joined
      with '|' (key names are not part of it); null gives "null", undefined "", and
      every other value its `toString()`. */
  function Stringify(v: Value): string
    decreases v
  {
    match v
    case Arr(items) =>
      Join(seq(|items|, i requires 0 <= i < |items| => Stringify(items[i])), "|")
    case Obj(fs) =>
      var ks := SortStrings(Keys(fs));
      Join(seq(|ks|, i requires 0 <= i < |ks| =>
        var j := Find(fs, ks[i]);
        if j < |fs| then Stringify(fs[j].1) else ""), "|")
    case Null => "null"
    case Undefined => ""
    case Bool(b) => if b then "true" else "false"
    case Num(n) => IntToString(n)
    case Str(s) => s
  }

  /** `hash(value)`: the digest of the canonical string. */
  function Hash(digest: string -> string, v: Value): string {
    digest(Stringify(v))
  }

  /** An object's values, ordered by their keys. */
  function SortedValues(fs: Fields): (vs: seq<Value>)
    ensures |vs| == |fs|
  {
    var ks := SortStrings(Keys(fs));
    seq(|ks|, i requires 0 <= i < |ks| => Get(fs, ks[i]))
  }

  /** An object stringifies exactly like the array of its values in key order, so
      neither the key names nor the difference between array and object is seen:
      `{a: 1, b: 2}` and `[1, 2]` give the same string, and so do `{a: 1}` and `{b: 1}`. */
  lemma ObjectAsArray(fs: Fields)
    ensures Stringify(Obj(fs)) == Stringify(Arr(SortedValues(fs)))
  {
    var ks := SortStrings(Keys(fs));
    var vs := SortedValues(fs);
    var left := seq(|ks|, i requires 0 <= i < |ks| =>
        var j := Find(fs, ks[i]);
        if j < |fs| then Stringify(fs[j].1) else "");
    var right := seq(|vs|, i requires 0 <= i < |vs| => Stringify(vs[i]));
    assert left == right;
  }

  /** The digest sees only the canonical string: values that stringify alike hash alike. */
  lemma SameStringSameHash(digest: string -> string, a: Value, b: Value)
    requires Stringify(a) == Stringify(b)
    ensures Hash(digest, a) == Hash(digest, b)
  {
  }

  /** A sequence without repetitions holds each of its elements exactly once. */
  lemma {:induction false} DistinctMultiset(s: seq<string>)
    requires forall i, j :: 0 <= i < j < |s| ==> s[i] != s[j]
    ensures forall x :: multiset(s)[x] == (if x in s then 1 else 0)
  {
    if |s| > 0 {
      DistinctMultiset(s[1..]);
      assert s == [s[0]] + s[1..];
      assert s[0] !in s[1..];
    }
  }

  /** Insertion order of keys never changes the string: two objects with the same keys
      and the same value under every key stringify alike, however their fields are
      ordered. */
  lemma KeyOrderIrrelevant(a: Fields, b: Fields)
    requires DistinctKeys(a) && DistinctKeys(b)
    requires forall k :: Has(a, k) <==> Has(b, k)
    requires forall k :: Get(a, k) == Get(b, k)
    ensures Stringify(Obj(a)) == Stringify(Obj(b))
  {
    var ka := Keys(a);
    var kb := Keys(b);
    DistinctMultiset(ka);
    DistinctMultiset(kb);
    forall x ensures multiset(ka)[x] == multiset(kb)[x] {
      if x in ka {
        var i :| 0 <= i < |ka| && ka[i] == x;
        assert Has(a, x);
        var j :| 0 <= j < |b| && b[j].0 == x;
        assert kb[j] == x;
      } else if x in kb {
        var j :| 0 <= j < |kb| && kb[j] == x;
        assert Has(b, x);
      }
    }
    assert multiset(ka) == multiset(kb);
    var sa := SortStrings(ka);
    var sb := SortStrings(kb);
    SortedStringsUnique(sa, sb);
    assert SortedValues(a) == SortedValues(b);
    ObjectAsArray(a);
    ObjectAsArray(b);
  }

  /** Arrays stringify element by element: appending one non-empty array to another
      appends the strings with one '|' between them. */
  lemma ArrayAppend(x: seq<Value>, y: seq<Value>)
    requires |x| > 0 && |y| > 0
    ensures Stringify(Arr(x + y)) == Stringify(Arr(x)) + "|" + Stringify(Arr(y))
  {
    var sx := seq(|x|, i requires 0 <= i < |x| => Stringify(x[i]));
    var sy := seq(|y|, i requires 0 <= i < |y| => Stringify(y[i]));
    var sxy := seq(|x + y|, i requires 0 <= i < |x + y| => Stringify((x + y)[i]));
    assert sxy == sx + sy;
    JoinAppend(sx, sy, "|");
  }

  /** Values the canonical string cannot tell apart: the empty array, the empty object,
      undefined and the empty string all give ""; the string "null" collides with null. */
  lemma Collisions()
    ensures Stringify(Arr([])) == Stringify(Obj([])) == Stringify(Undefined) == Stringify(Str("")) == ""
    ensures Stringify(Null) == Stringify(Str("null"))
  {
  }
}
