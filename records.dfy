/** The records the dashboard works on once its three tables are loaded. */
module Records {
  import opened Results

  /** One table row: the `name` and `count` columns and, for the institution
      table, the `country` column (missing when the cell is empty). */
  datatype Row = Row(name: string, count: int, country: Option<string>)

  /** A loaded table. `hasName` and `hasCountry` say whether the table has a
      `name` and a `country` column; without one, every row's name is empty
      or no row carries a country. */
  datatype Table = Table(hasName: bool, hasCountry: bool, rows: seq<Row>)

  /** One line of `groupby("country")["count"].sum().reset_index()`. */
  datatype Group = Group(country: string, total: int)

  predicate WellFormed(t: Table) {
    && (!t.hasName ==> forall i :: 0 <= i < |t.rows| ==> t.rows[i].name == "")
    && (!t.hasCountry ==> forall i :: 0 <= i < |t.rows| ==> t.rows[i].country.None?)
  }

  function CountOf(r: Row): int { r.count }

  function TotalOf(g: Group): int { g.total }

  /** The sum of `key` over `s` (`series.sum()`, and `0` for an empty series). */
  function SumBy<T>(s: seq<T>, key: T -> int): int {
    if s == [] then 0 else SumBy(s[..|s| - 1], key) + key(s[|s| - 1])
  }

  lemma {:induction false} SumByAppend<T>(a: seq<T>, b: seq<T>, key: T -> int)
    ensures SumBy(a + b, key) == SumBy(a, key) + SumBy(b, key)
    decreases |b|
  {
    if b == [] {
      assert a + b == a;
    } else {
      assert (a + b)[..|a + b| - 1] == a + b[..|b| - 1];
      assert (a + b)[|a + b| - 1] == b[|b| - 1];
      SumByAppend(a, b[..|b| - 1], key);
    }
  }

  lemma SumByCons<T>(x: T, s: seq<T>, key: T -> int)
    ensures SumBy([x] + s, key) == key(x) + SumBy(s, key)
  {
    SumByAppend([x], s, key);
    assert [x][..0] == [];
  }

  predicate NonNegative<T>(s: seq<T>, key: T -> int) {
    forall i :: 0 <= i < |s| ==> key(s[i]) >= 0
  }

  /** A sum of non-negative terms is at least every partial sum of a prefix. */
  lemma {:induction false} PrefixSumBounded<T>(s: seq<T>, k: nat, key: T -> int)
    requires k <= |s| && NonNegative(s, key)
    ensures 0 <= SumBy(s[..k], key) <= SumBy(s, key)
    decreases |s|
  {
    if k < |s| {
      assert s[..|s| - 1][..k] == s[..k];
      PrefixSumBounded(s[..|s| - 1], k, key);
      assert NonNegative(s[..|s| - 1], key);
    } else {
      assert s[..k] == s;
      NonNegativeSum(s, key);
    }
  }

  /** Over non-negative terms a longer prefix has at least as large a sum. */
  lemma PrefixSumsMonotone<T>(s: seq<T>, i: nat, j: nat, key: T -> int)
    requires i <= j <= |s| && NonNegative(s, key)
    ensures SumBy(s[..i], key) <= SumBy(s[..j], key)
  {
    assert s[..j][..i] == s[..i];
    assert NonNegative(s[..j], key);
    PrefixSumBounded(s[..j], i, key);
  }

  lemma {:induction false} NonNegativeSum<T>(s: seq<T>, key: T -> int)
    requires NonNegative(s, key)
    ensures SumBy(s, key) >= 0
    decreases |s|
  {
    if s != [] {
      assert NonNegative(s[..|s| - 1], key);
      NonNegativeSum(s[..|s| - 1], key);
    }
  }

  /** Reordering the terms does not change the sum. */
  lemma {:induction false} SumByPermutation<T>(a: seq<T>, b: seq<T>, key: T -> int)
    requires multiset(a) == multiset(b)
    ensures SumBy(a, key) == SumBy(b, key)
    decreases |a|
  {
    if a != [] {
      var x := a[|a| - 1];
      assert x in multiset(b);
      var j :| 0 <= j < |b| && b[j] == x;
      var b' := b[..j] + b[j + 1..];
      assert b == b[..j] + [x] + b[j + 1..];
      assert a == a[..|a| - 1] + [x];
      assert multiset(a) == multiset(a[..|a| - 1]) + multiset{x};
      assert multiset(b) == multiset(b[..j]) + multiset{x} + multiset(b[j + 1..]);
      assert multiset(b') == multiset(b[..j]) + multiset(b[j + 1..]);
      assert multiset(a[..|a| - 1]) == multiset(a) - multiset{x};
      assert multiset(b') == multiset(b) - multiset{x};
      SumByPermutation(a[..|a| - 1], b', key);
      SumByAppend(b[..j] + [x], b[j + 1..], key);
      SumByAppend(b[..j], b[j + 1..], key);
    }
  }

  /** `a` is `b` with some elements left out and the rest in their order. */
  ghost predicate IsSubsequence<T>(a: seq<T>, b: seq<T>)
    decreases |b|
  {
    if a == [] then true
    else if b == [] then false
    else if a[0] == b[0] then IsSubsequence(a[1..], b[1..])
    else IsSubsequence(a, b[1..])
  }
}
