/** The two sorts the program relies on.

    - `SortStrings` is `Array.prototype.toSorted()` with no comparator on an array of
      strings: ascending order of UTF-16 code units.
    - `SortBy` is underscore's `sortBy(list, key)` for an integer key: a stable sort.
 */
module Sorting {

  /** The position of a character in UTF-16 code-unit order. Characters below the
      surrogate range keep their value; characters outside the Basic Multilingual Plane,
      whose first code unit is a surrogate, come next; the characters from U+E000 to
      U+FFFF come last. */
  function UnitKey(c: char): (k: int)
    ensures c as int < 0xD800 ==> k == c as int
    ensures 0x10000 <= c as int ==> 0xD800 <= k < 0x10D800
    ensures 0xE000 <= c as int < 0x10000 ==> 0x10D800 <= k
  {
    if c as int < 0xD800 then c as int
    else if 0x10000 <= c as int then 0xD800 + (c as int - 0x10000)
    else 0x10D800 + (c as int - 0xE000)
  }

  lemma UnitKeyInjective(c: char, d: char)
    requires UnitKey(c) == UnitKey(d)
    ensures c == d
  {
  }

  /** Lexicographic `<=` on strings, comparing characters from the left in UTF-16
      code-unit order. */
  predicate StrLe(a: string, b: string) {
    if |a| == 0 then true
    else if |b| == 0 then false
    else if UnitKey(a[0]) < UnitKey(b[0]) then true
    else if UnitKey(a[0]) > UnitKey(b[0]) then false
    else StrLe(a[1..], b[1..])
  }

  /** The UTF-16 code units of a character. */
  function Units(c: char): (u: seq<int>)
    ensures 0 < |u| <= 2
  {
    if c as int < 0x10000 then [c as int]
    else [0xD800 + (c as int - 0x10000) / 0x400, 0xDC00 + (c as int - 0x10000) % 0x400]
  }

  /** The UTF-16 encoding of a string. */
  function Utf16(s: string): seq<int> {
    if |s| == 0 then [] else Units(s[0]) + Utf16(s[1..])
  }

  /** Lexicographic `<=` on code-unit sequences, the comparison `toSorted` makes. */
  predicate UnitsLe(a: seq<int>, b: seq<int>) {
    if |a| == 0 then true
    else if |b| == 0 then false
    else if a[0] < b[0] then true
    else if a[0] > b[0] then false
    else UnitsLe(a[1..], b[1..])
  }

  /** Comparing characters by `UnitKey` is comparing their UTF-16 encodings. */
  lemma {:induction false} StrLeIsUnitOrder(a: string, b: string)
    ensures StrLe(a, b) <==> UnitsLe(Utf16(a), Utf16(b))
  {
    if |a| > 0 && |b| > 0 {
      if UnitKey(a[0]) < UnitKey(b[0]) {
        UnitsBefore(a[0], b[0], Utf16(a[1..]), Utf16(b[1..]));
      } else if UnitKey(a[0]) > UnitKey(b[0]) {
        UnitsBefore(b[0], a[0], Utf16(b[1..]), Utf16(a[1..]));
      } else {
        UnitKeyInjective(a[0], b[0]);
        StrLeIsUnitOrder(a[1..], b[1..]);
        UnitsLeCommonPrefix(Units(a[0]), Utf16(a[1..]), Utf16(b[1..]));
      }
    }
  }

  /** A shared prefix does not decide the comparison. */
  lemma {:induction false} UnitsLeCommonPrefix(p: seq<int>, x: seq<int>, y: seq<int>)
    ensures UnitsLe(p + x, p + y) <==> UnitsLe(x, y)
  {
    if |p| > 0 {
      assert (p + x)[0] == (p + y)[0];
      assert (p + x)[1..] == p[1..] + x;
      assert (p + y)[1..] == p[1..] + y;
      UnitsLeCommonPrefix(p[1..], x, y);
    } else {
      assert p + x == x && p + y == y;
    }
  }

  /** A character earlier in `UnitKey` order is encoded by code units that compare
      lower, whatever follows either of them. */
  lemma UnitsBefore(c: char, d: char, x: seq<int>, y: seq<int>)
    requires UnitKey(c) < UnitKey(d)
    ensures UnitsLe(Units(c) + x, Units(d) + y) && !UnitsLe(Units(d) + y, Units(c) + x)
  {
    var u, v := Units(c) + x, Units(d) + y;
    if c as int < 0x10000 || d as int < 0x10000 || u[0] < v[0] {
      assert u[0] < v[0];
    } else {
      var i, j := c as int - 0x10000, d as int - 0x10000;
      assert i / 0x400 == j / 0x400 && i < j;
      assert i % 0x400 < j % 0x400;
      assert u[1..][0] < v[1..][0];
    }
  }

  lemma {:induction false} StrLeTotal(a: string, b: string)
    ensures StrLe(a, b) || StrLe(b, a)
  {
    if |a| > 0 && |b| > 0 && a[0] == b[0] {
      StrLeTotal(a[1..], b[1..]);
    }
  }

  lemma {:induction false} StrLeAntisymmetric(a: string, b: string)
    requires StrLe(a, b) && StrLe(b, a)
    ensures a == b
  {
    if |a| > 0 && |b| > 0 {
      StrLeAntisymmetric(a[1..], b[1..]);
      assert a == [a[0]] + a[1..];
      assert b == [b[0]] + b[1..];
    }
  }

  lemma {:induction false} StrLeTransitive(a: string, b: string, c: string)
    requires StrLe(a, b) && StrLe(b, c)
    ensures StrLe(a, c)
  {
    if |a| > 0 && |b| > 0 && |c| > 0 && a[0] == b[0] && b[0] == c[0] {
      StrLeTransitive(a[1..], b[1..], c[1..]);
    }
  }

  predicate SortedStrings(s: seq<string>) {
    forall i, j :: 0 <= i < j < |s| ==> StrLe(s[i], s[j])
  }

  /** Inserts `x` into a sorted sequence, keeping it sorted. */
  function InsertString(x: string, s: seq<string>): (r: seq<string>)
    requires SortedStrings(s)
    ensures SortedStrings(r)
    ensures multiset(r) == multiset(s) + multiset{x}
    ensures |r| == |s| + 1
  {
    if |s| == 0 then [x]
    else if StrLe(x, s[0]) then
      assert forall j :: 0 <= j < |s| ==> StrLe(x, s[j]) by {
        forall j | 0 <= j < |s| ensures StrLe(x, s[j]) {
          if j > 0 { StrLeTransitive(x, s[0], s[j]); }
        }
      }
      [x] + s
    else
      StrLeTotal(x, s[0]);
      var rest := InsertString(x, s[1..]);
      assert s == [s[0]] + s[1..];
      HeadBoundsInsertString(x, s, rest);
      [s[0]] + rest
  }

  /** The head of a sorted `s` is below every element of `s[1..]` with `x` inserted,
      when `x` is above the head. */
  lemma HeadBoundsInsertString(x: string, s: seq<string>, rest: seq<string>)
    requires SortedStrings(s) && |s| > 0 && StrLe(s[0], x)
    requires multiset(rest) == multiset(s[1..]) + multiset{x}
    ensures forall j :: 0 <= j < |rest| ==> StrLe(s[0], rest[j])
  {
    forall j | 0 <= j < |rest| ensures StrLe(s[0], rest[j]) {
      assert rest[j] in multiset(rest);
      if rest[j] != x {
        assert rest[j] in multiset(s[1..]);
        var k :| 0 <= k < |s[1..]| && s[1..][k] == rest[j];
        assert s[k + 1] == rest[j];
      }
    }
  }

  /** `toSorted()` on an array of strings. */
  function SortStrings(s: seq<string>): (r: seq<string>)
    ensures SortedStrings(r)
    ensures multiset(r) == multiset(s)
    ensures |r| == |s|
  {
    if |s| == 0 then []
    else
      assert s == [s[0]] + s[1..];
      InsertString(s[0], SortStrings(s[1..]))
  }

  /** Two sorted arrangements of the same strings are the same sequence: the sorted
      result depends only on which strings are sorted, not on their order. */
  lemma {:induction false} SortedStringsUnique(a: seq<string>, b: seq<string>)
    requires SortedStrings(a) && SortedStrings(b)
    requires multiset(a) == multiset(b)
    ensures a == b
    decreases |a|
  {
    if |a| == 0 {
      assert |b| == |multiset(b)| == 0;
    } else {
      SameHead(a, b);
      SortedStringsTail(a);
      SortedStringsTail(b);
      MultisetTail(a);
      MultisetTail(b);
      SortedStringsUnique(a[1..], b[1..]);
      assert a == [a[0]] + a[1..];
      assert b == [b[0]] + b[1..];
    }
  }

  /** Sorted arrangements of the same non-empty multiset start alike. */
  lemma SameHead(a: seq<string>, b: seq<string>)
    requires SortedStrings(a) && SortedStrings(b)
    requires multiset(a) == multiset(b) && |a| > 0
    ensures |b| > 0 && a[0] == b[0]
  {
    assert |b| == |multiset(b)| == |multiset(a)| == |a|;
    assert a[0] in multiset(b);
    var j :| 0 <= j < |b| && b[j] == a[0];
    assert b[0] in multiset(a);
    var i :| 0 <= i < |a| && a[i] == b[0];
    if i != 0 {
      assert StrLe(a[0], b[0]);
      assert StrLe(b[0], a[0]) by {
        if j != 0 { assert StrLe(b[0], b[j]); }
      }
      StrLeAntisymmetric(a[0], b[0]);
    }
  }

  lemma SortedStringsTail(s: seq<string>)
    requires SortedStrings(s) && |s| > 0
    ensures SortedStrings(s[1..])
  {
  }

  lemma MultisetTail(s: seq<string>)
    requires |s| > 0
    ensures multiset(s[1..]) == multiset(s) - multiset{s[0]}
  {
    assert s == [s[0]] + s[1..];
  }

  /** `s` is in ascending order of `key`. */
  ghost predicate SortedByKey<T>(s: seq<T>, key: T -> int) {
    forall i, j :: 0 <= i < j < |s| ==> key(s[i]) <= key(s[j])
  }

  /** The elements of `s` whose key is `k`, in their order in `s`. */
  function WithKey<T>(s: seq<T>, key: T -> int, k: int): (r: seq<T>)
    ensures |r| <= |s|
  {
    if |s| == 0 then []
    else (if key(s[0]) == k then [s[0]] else []) + WithKey(s[1..], key, k)
  }

  /** Inserts `x` before the first element whose key is not smaller than its own. */
  function InsertBy<T>(x: T, s: seq<T>, key: T -> int): (r: seq<T>)
    requires SortedByKey(s, key)
    ensures SortedByKey(r, key)
    ensures multiset(r) == multiset(s) + multiset{x}
    ensures |r| == |s| + 1
  {
    if |s| == 0 then [x]
    else if key(x) <= key(s[0]) then [x] + s
    else
      var rest := InsertBy(x, s[1..], key);
      assert s == [s[0]] + s[1..];
      HeadBoundsInsert(x, s, rest, key);
      [s[0]] + rest
  }

  /** The head of a sorted `s` bounds every element of `s[1..]` with `x` inserted,
      when `x`'s key is above the head's. */
  lemma HeadBoundsInsert<T>(x: T, s: seq<T>, rest: seq<T>, key: T -> int)
    requires SortedByKey(s, key) && |s| > 0 && key(s[0]) < key(x)
    requires multiset(rest) == multiset(s[1..]) + multiset{x}
    ensures forall j :: 0 <= j < |rest| ==> key(s[0]) <= key(rest[j])
  {
    forall j | 0 <= j < |rest| ensures key(s[0]) <= key(rest[j]) {
      assert rest[j] in multiset(rest);
      if rest[j] != x {
        assert rest[j] in multiset(s[1..]);
        var k :| 0 <= k < |s[1..]| && s[1..][k] == rest[j];
        assert s[k + 1] == rest[j];
      }
    }
  }

  /** Inserting `x` adds it in front of the elements of `s` that share its key, and
      leaves every other key's elements untouched. */
  lemma {:induction false} InsertByKeepsOrder<T>(x: T, s: seq<T>, key: T -> int, k: int)
    requires SortedByKey(s, key)
    ensures WithKey(InsertBy(x, s, key), key, k) == (if key(x) == k then [x] else []) + WithKey(s, key, k)
  {
    if |s| == 0 {
    } else if key(x) <= key(s[0]) {
      WithKeyCons(x, s, key, k);
    } else {
      SortedTail(s, key);
      InsertByKeepsOrder(x, s[1..], key, k);
      InsertByUnfold(x, s, key);
      WithKeyCons(s[0], s[1..], key, k);
      assert [s[0]] + s[1..] == s;
      InsertAfterHead(x, s[0], InsertBy(x, s[1..], key), WithKey(s[1..], key, k), key, k);
    }
  }

  lemma WithKeyCons<T>(a: T, t: seq<T>, key: T -> int, k: int)
    ensures WithKey([a] + t, key, k) == (if key(a) == k then [a] else []) + WithKey(t, key, k)
  {
    assert ([a] + t)[1..] == t;
  }

  lemma SortedTail<T>(s: seq<T>, key: T -> int)
    requires SortedByKey(s, key) && |s| > 0
    ensures SortedByKey(s[1..], key)
  {
  }

  lemma InsertByUnfold<T>(x: T, s: seq<T>, key: T -> int)
    requires SortedByKey(s, key) && |s| > 0 && key(s[0]) < key(x)
    ensures SortedByKey(s[1..], key)
    ensures InsertBy(x, s, key) == [s[0]] + InsertBy(x, s[1..], key)
  {
    SortedTail(s, key);
  }

  /** The step past an element whose key is below `x`'s: that element and `x` never
      share a key, so their order among the selected elements does not matter. */
  lemma InsertAfterHead<T>(x: T, a: T, rest: seq<T>, tail: seq<T>, key: T -> int, k: int)
    requires key(a) < key(x)
    requires WithKey(rest, key, k) == (if key(x) == k then [x] else []) + tail
    ensures WithKey([a] + rest, key, k) ==
      (if key(x) == k then [x] else []) + ((if key(a) == k then [a] else []) + tail)
  {
    WithKeyCons(a, rest, key, k);
  }

  /** Underscore `sortBy` with an integer key: ascending by key, holding the same
      elements. */
  function SortBy<T>(s: seq<T>, key: T -> int): (r: seq<T>)
    ensures SortedByKey(r, key)
    ensures multiset(r) == multiset(s)
    ensures |r| == |s|
  {
    if |s| == 0 then []
    else
      assert s == [s[0]] + s[1..];
      InsertBy(s[0], SortBy(s[1..], key), key)
  }

  /** The sort is stable: the elements sharing any one key keep their relative order. */
  lemma {:induction false} SortByStable<T>(s: seq<T>, key: T -> int, k: int)
    ensures WithKey(SortBy(s, key), key, k) == WithKey(s, key, k)
  {
    if |s| > 0 {
      SortByStable(s[1..], key, k);
      InsertByKeepsOrder(s[0], SortBy(s[1..], key), key, k);
    }
  }
}
