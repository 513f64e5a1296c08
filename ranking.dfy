/** pandas' `nlargest(n, column)` with its default `keep='first'`: the `n`
    rows with the largest values, largest first, where of rows with equal
    values the earlier ones are taken. It is modelled as the first `n` rows
    of a descending insertion sort that keeps equal values in input order.
    When `n` is at least the number of rows pandas returns
    `sort_values(ascending=False)` instead, and there the order of equal
    values is this model's choice. The column is a `key` so that one
    definition serves the institution rows, the topic rows and the
    per-country groups. */
module Ranking {

  function Min(a: nat, b: nat): nat { if a <= b then a else b }

  /** Larger keys come first. */
  predicate NonIncreasing<T>(s: seq<T>, key: T -> int) {
    forall i, j :: 0 <= i < j < |s| ==> key(s[i]) >= key(s[j])
  }

  /** The elements of `s` whose key is `v`, in their order in `s`. */
  function WithKey<T>(s: seq<T>, key: T -> int, v: int): seq<T> {
    if s == [] then []
    else (if key(s[0]) == v then [s[0]] else []) + WithKey(s[1..], key, v)
  }

  ghost predicate IsPrefix<T>(a: seq<T>, b: seq<T>) {
    |a| <= |b| && a == b[..|a|]
  }

  /** Puts `x` in front of the first element whose key is not larger than its
      own, so that `x` precedes the elements of equal key that follow it. */
  function Insert<T>(x: T, s: seq<T>, key: T -> int): (r: seq<T>)
    ensures |r| == |s| + 1
  {
    if s == [] || key(s[0]) <= key(x) then [x] + s
    else [s[0]] + Insert(x, s[1..], key)
  }

  /** The rows ordered by `key`, largest first; rows with equal keys keep
      their input order. */
  function SortDesc<T>(s: seq<T>, key: T -> int): (r: seq<T>)
    ensures |r| == |s|
  {
    if s == [] then [] else Insert(s[0], SortDesc(s[1..], key), key)
  }

  /** `nlargest(n)`: the first `n` rows of the descending order, or all rows
      when there are at most `n`. */
  function NLargest<T>(s: seq<T>, n: nat, key: T -> int): seq<T> {
    var t := SortDesc(s, key);
    t[..Min(n, |t|)]
  }

  // ---------------------------------------------------------------------

  lemma {:induction false} WithKeyAppend<T>(a: seq<T>, b: seq<T>, key: T -> int, v: int)
    ensures WithKey(a + b, key, v) == WithKey(a, key, v) + WithKey(b, key, v)
    decreases |a|
  {
    if a == [] {
      assert a + b == b;
    } else {
      var h := if key(a[0]) == v then [a[0]] else [];
      assert (a + b)[0] == a[0] && (a + b)[1..] == a[1..] + b;
      assert WithKey(a + b, key, v) == h + WithKey(a[1..] + b, key, v);
      WithKeyAppend(a[1..], b, key, v);
      assert WithKey(a, key, v) == h + WithKey(a[1..], key, v);
    }
  }

  predicate BoundedBy<T>(s: seq<T>, key: T -> int, b: int) {
    forall i :: 0 <= i < |s| ==> key(s[i]) <= b
  }

  lemma {:induction false} InsertMultiset<T>(x: T, s: seq<T>, key: T -> int)
    ensures |Insert(x, s, key)| == |s| + 1
    ensures multiset(Insert(x, s, key)) == multiset(s) + multiset{x}
    decreases |s|
  {
    if s != [] && key(s[0]) > key(x) {
      InsertMultiset(x, s[1..], key);
      assert s == [s[0]] + s[1..];
    }
  }

  lemma {:induction false} InsertBounded<T>(x: T, s: seq<T>, key: T -> int, b: int)
    requires BoundedBy(s, key, b) && key(x) <= b
    ensures BoundedBy(Insert(x, s, key), key, b)
    decreases |s|
  {
    if s != [] && key(s[0]) > key(x) {
      InsertBounded(x, s[1..], key, b);
      var r := Insert(x, s, key);
      assert r == [s[0]] + Insert(x, s[1..], key);
    }
  }

  lemma {:induction false} InsertSorted<T>(x: T, s: seq<T>, key: T -> int)
    requires NonIncreasing(s, key)
    ensures NonIncreasing(Insert(x, s, key), key)
    decreases |s|
  {
    var r := Insert(x, s, key);
    if s == [] || key(s[0]) <= key(x) {
      assert r == [x] + s;
    } else {
      var r' := Insert(x, s[1..], key);
      assert r == [s[0]] + r';
      InsertSorted(x, s[1..], key);
      InsertBounded(x, s[1..], key, key(s[0]));
      forall i, j | 0 <= i < j < |r| ensures key(r[i]) >= key(r[j]) {
        assert r[j] == r'[j - 1];
        if i > 0 { assert r[i] == r'[i - 1]; }
      }
    }
  }

  lemma {:induction false} InsertWithKey<T>(x: T, s: seq<T>, key: T -> int, v: int)
    ensures WithKey(Insert(x, s, key), key, v) == (if key(x) == v then [x] else []) + WithKey(s, key, v)
    decreases |s|
  {
    var r := Insert(x, s, key);
    if s == [] || key(s[0]) <= key(x) {
      assert r[1..] == s;
    } else {
      InsertWithKey(x, s[1..], key, v);
      assert r[1..] == Insert(x, s[1..], key);
    }
  }

  lemma {:induction false} SortDescMultiset<T>(s: seq<T>, key: T -> int)
    ensures multiset(SortDesc(s, key)) == multiset(s)
    decreases |s|
  {
    if s != [] {
      SortDescMultiset(s[1..], key);
      InsertMultiset(s[0], SortDesc(s[1..], key), key);
      assert s == [s[0]] + s[1..];
    }
  }

  lemma {:induction false} SortDescSorted<T>(s: seq<T>, key: T -> int)
    ensures NonIncreasing(SortDesc(s, key), key)
    decreases |s|
  {
    if s != [] {
      SortDescSorted(s[1..], key);
      InsertSorted(s[0], SortDesc(s[1..], key), key);
    }
  }

  lemma {:induction false} SortDescStable<T>(s: seq<T>, key: T -> int, v: int)
    ensures WithKey(SortDesc(s, key), key, v) == WithKey(s, key, v)
    decreases |s|
  {
    if s != [] {
      SortDescStable(s[1..], key, v);
      InsertWithKey(s[0], SortDesc(s[1..], key), key, v);
    }
  }

  /** The descending order is a reordering of the input, sorted by key, and
      for every key value it lists the rows of that key in input order. */
  lemma SortDescFacts<T>(s: seq<T>, key: T -> int)
    ensures |SortDesc(s, key)| == |s|
    ensures multiset(SortDesc(s, key)) == multiset(s)
    ensures NonIncreasing(SortDesc(s, key), key)
    ensures forall v :: WithKey(SortDesc(s, key), key, v) == WithKey(s, key, v)
  {
    SortDescMultiset(s, key);
    SortDescSorted(s, key);
    forall v ensures WithKey(SortDesc(s, key), key, v) == WithKey(s, key, v) {
      SortDescStable(s, key, v);
    }
  }

  /** `nlargest(n)` returns `min(n, |s|)` rows taken from `s`, largest first. */
  lemma NLargestShape<T>(s: seq<T>, n: nat, key: T -> int)
    ensures |NLargest(s, n, key)| == Min(n, |s|)
    ensures multiset(NLargest(s, n, key)) <= multiset(s)
    ensures NonIncreasing(NLargest(s, n, key), key)
  {
    var t := SortDesc(s, key);
    SortDescMultiset(s, key);
    SortDescSorted(s, key);
    var k := Min(n, |t|);
    assert t == t[..k] + t[k..];
    assert multiset(t) == multiset(t[..k]) + multiset(t[k..]);
  }

  /** No row that `nlargest(n)` leaves out has a larger key than a row it takes. */
  lemma NLargestDominates<T>(s: seq<T>, n: nat, key: T -> int)
    ensures forall x, y :: x in NLargest(s, n, key) && y in multiset(s) - multiset(NLargest(s, n, key))
              ==> key(x) >= key(y)
  {
    var t := SortDesc(s, key);
    SortDescMultiset(s, key);
    SortDescSorted(s, key);
    var k := Min(n, |t|);
    var r := t[..k];
    assert t == r + t[k..];
    assert multiset(s) - multiset(r) == multiset(t[k..]);
    SplitDominates(t, k, key);
  }

  /** In a descending sequence every element before position `k` is at least
      every element from `k` on. */
  lemma SplitDominates<T>(t: seq<T>, k: nat, key: T -> int)
    requires k <= |t| && NonIncreasing(t, key)
    ensures forall x, y :: x in t[..k] && y in multiset(t[k..]) ==> key(x) >= key(y)
  {
    forall x, y | x in t[..k] && y in multiset(t[k..]) ensures key(x) >= key(y) {
      var i :| 0 <= i < k && t[..k][i] == x;
      var j :| 0 <= j < |t[k..]| && t[k..][j] == y;
      assert t[i] == x && t[k + j] == y;
    }
  }

  /** With `keep='first'`, for every key value the rows `nlargest(n)` takes are
      the earliest rows of that key in `s`, in their order in `s`. */
  lemma NLargestKeepsFirst<T>(s: seq<T>, n: nat, key: T -> int)
    ensures forall v :: IsPrefix(WithKey(NLargest(s, n, key), key, v), WithKey(s, key, v))
  {
    var t := SortDesc(s, key);
    var k := Min(n, |t|);
    assert t == t[..k] + t[k..];
    forall v ensures IsPrefix(WithKey(t[..k], key, v), WithKey(s, key, v)) {
      SortDescStable(s, key, v);
      WithKeyAppend(t[..k], t[k..], key, v);
    }
  }

  /** `r` is a top-`n` selection from `s` by `key`, as `nlargest(n)` with
      `keep='first'` promises: `min(n, |s|)` elements taken from `s`, largest
      first, none left out larger than one taken, and for every key value the
      earliest elements of that key in `s`, in their order in `s`. */
  ghost predicate IsTopN<T>(r: seq<T>, s: seq<T>, n: nat, key: T -> int) {
    && |r| == Min(n, |s|)
    && multiset(r) <= multiset(s)
    && NonIncreasing(r, key)
    && (forall x, y :: x in r && y in multiset(s) - multiset(r) ==> key(x) >= key(y))
    && (forall v :: IsPrefix(WithKey(r, key, v), WithKey(s, key, v)))
  }

  lemma NLargestIsTopN<T>(s: seq<T>, n: nat, key: T -> int)
    ensures IsTopN(NLargest(s, n, key), s, n, key)
  {
    NLargestShape(s, n, key);
    NLargestDominates(s, n, key);
    NLargestKeepsFirst(s, n, key);
  }

  /** Asking for at least as many rows as there are returns all of them, in
      descending order. */
  lemma NLargestAll<T>(s: seq<T>, n: nat, key: T -> int)
    requires n >= |s|
    ensures NLargest(s, n, key) == SortDesc(s, key)
  {
  }
}
