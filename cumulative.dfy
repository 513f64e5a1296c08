/** The "Cumulative Share" series of the publication-type tab: the type rows
    sorted by count, largest first, with the running sum of the counts and
    that sum as a percentage of the total. */
module Cumulative {
  import opened Results
  import opened Records
  import opened Ranking

  /** One line of `type_cum`: the row, `count.cumsum()` and `cumulative_pct`. */
  datatype ShareRow = ShareRow(row: Row, running: int, percent: Option<real>)

  /** `cumsum()`: entry `i` is the sum of the first `i + 1` counts. */
  function RunningTotals(rows: seq<Row>): (r: seq<int>)
    ensures |r| == |rows|
  {
    seq(|rows|, i requires 0 <= i < |rows| => SumBy(rows[..i + 1], CountOf))
  }

  /** `running / total * 100` in floating point; the division by a zero total
      gives NaN or an infinity, which is no percentage (`None`). */
  function Percent(running: int, total: int): Option<real> {
    if total == 0 then None else Some(running as real / total as real * 100.0)
  }

  /** `type_df.sort_values("count", ascending=False)` with the `cumulative_pct`
      column added. */
  function CumulativeShares(types: seq<Row>): (r: seq<ShareRow>)
    ensures |r| == |types|
  {
    var sorted := SortDesc(types, CountOf);
    var running := RunningTotals(sorted);
    var total := SumBy(sorted, CountOf);
    seq(|sorted|, i requires 0 <= i < |sorted| => ShareRow(sorted[i], running[i], Percent(running[i], total)))
  }

  /** `count.cumsum()` over an array, one addition per row. */
  method RunningSums(rows: seq<Row>) returns (sums: seq<int>)
    ensures sums == RunningTotals(rows)
  {
    var a := new int[|rows|];
    var acc := 0;
    for i := 0 to |rows|
      invariant acc == SumBy(rows[..i], CountOf)
      invariant forall k :: 0 <= k < i ==> a[k] == SumBy(rows[..k + 1], CountOf)
    {
      assert rows[..i + 1][..i] == rows[..i];
      acc := acc + rows[i].count;
      a[i] := acc;
    }
    sums := a[..];
  }

  /** Builds the cumulative-share frame: sort a copy, take the running sums,
      divide each by the total and scale by 100. */
  method CumulativeShare(types: seq<Row>) returns (frame: seq<ShareRow>)
    ensures frame == CumulativeShares(types)
  {
    var sorted := SortDesc(types, CountOf);
    var running := RunningSums(sorted);
    var total := SumBy(sorted, CountOf);
    var a := new ShareRow[|sorted|];
    for i := 0 to |sorted|
      invariant forall k :: 0 <= k < i ==> a[k] == ShareRow(sorted[k], running[k], Percent(running[k], total))
    {
      a[i] := ShareRow(sorted[i], running[i], Percent(running[i], total));
    }
    frame := a[..];
    ghost var expected := CumulativeShares(types);
    assert |frame| == |expected| && forall k :: 0 <= k < |frame| ==> frame[k] == expected[k];
  }

  // ---------------------------------------------------------------------

  function RowsOf(shares: seq<ShareRow>): seq<Row> {
    seq(|shares|, i requires 0 <= i < |shares| => shares[i].row)
  }

  /** The frame holds the type rows, each as often as in the table, sorted by
      count, largest first. */
  lemma SharesReorderTypes(types: seq<Row>)
    ensures multiset(RowsOf(CumulativeShares(types))) == multiset(types)
    ensures NonIncreasing(RowsOf(CumulativeShares(types)), CountOf)
  {
    SortDescFacts(types, CountOf);
    assert RowsOf(CumulativeShares(types)) == SortDesc(types, CountOf);
  }

  /** Entry `i` of the frame, written out. */
  lemma ShareAt(types: seq<Row>, i: nat)
    requires i < |types|
    ensures var sorted := SortDesc(types, CountOf);
      |sorted| == |types|
      && CumulativeShares(types)[i]
         == ShareRow(sorted[i], SumBy(sorted[..i + 1], CountOf), Percent(SumBy(sorted[..i + 1], CountOf), SumBy(types, CountOf)))
  {
    SortDescMultiset(types, CountOf);
    SumByPermutation(SortDesc(types, CountOf), types, CountOf);
  }

  /** The running sum of entry `i` of the frame. */
  lemma RunningAt(types: seq<Row>, i: nat)
    requires i < |types|
    ensures CumulativeShares(types)[i].running == SumBy(SortDesc(types, CountOf)[..i + 1], CountOf)
  {
  }

  /** Each running sum adds the row's count to the one before it; the first
      is the first count and the last is the total of the table. */
  lemma RunningSumsAccumulate(types: seq<Row>)
    ensures var r := CumulativeShares(types);
      && |r| == |types|
      && (|r| > 0 ==> r[0].running == r[0].row.count)
      && (forall i :: 0 < i < |r| ==> r[i].running == r[i - 1].running + r[i].row.count)
      && (|r| > 0 ==> r[|r| - 1].running == SumBy(types, CountOf))
  {
    var r := CumulativeShares(types);
    SortDescFacts(types, CountOf);
    if |r| > 0 {
      RunningFirst(types);
      RunningLast(types);
    }
    forall i | 0 < i < |r| ensures r[i].running == r[i - 1].running + r[i].row.count {
      RunningStep(types, i);
    }
  }

  lemma RunningFirst(types: seq<Row>)
    requires |types| > 0
    ensures CumulativeShares(types)[0].running == CumulativeShares(types)[0].row.count
  {
    var sorted := SortDesc(types, CountOf);
    ShareAt(types, 0);
    assert sorted[..1] == [sorted[0]];
    assert [sorted[0]][..0] == [];
  }

  lemma RunningLast(types: seq<Row>)
    requires |types| > 0
    ensures CumulativeShares(types)[|types| - 1].running == SumBy(types, CountOf)
  {
    var sorted := SortDesc(types, CountOf);
    ShareAt(types, |types| - 1);
    assert sorted[..|sorted|] == sorted;
    SortDescMultiset(types, CountOf);
    SumByPermutation(sorted, types, CountOf);
  }

  lemma RunningStep(types: seq<Row>, i: nat)
    requires 0 < i < |types|
    ensures CumulativeShares(types)[i].running
            == CumulativeShares(types)[i - 1].running + CumulativeShares(types)[i].row.count
  {
    var sorted := SortDesc(types, CountOf);
    RunningAt(types, i);
    RunningAt(types, i - 1);
    assert sorted[..i + 1][..i] == sorted[..i];
  }

  /** With no negative count the running sums never decrease and stay within
      `0` and the total. */
  lemma RunningSumsMonotone(types: seq<Row>)
    requires NonNegative(types, CountOf)
    ensures var r := CumulativeShares(types);
      && (forall i, j :: 0 <= i < j < |r| ==> r[i].running <= r[j].running)
      && (forall i :: 0 <= i < |r| ==> 0 <= r[i].running <= SumBy(types, CountOf))
  {
    var r := CumulativeShares(types);
    forall i, j | 0 <= i < j < |r| ensures r[i].running <= r[j].running {
      RunningPairOrdered(types, i, j);
    }
    forall i | 0 <= i < |r| ensures 0 <= r[i].running <= SumBy(types, CountOf) {
      RunningWithinTotal(types, i);
    }
  }

  lemma RunningPairOrdered(types: seq<Row>, i: nat, j: nat)
    requires NonNegative(types, CountOf) && i < j < |types|
    ensures CumulativeShares(types)[i].running <= CumulativeShares(types)[j].running
  {
    var sorted := SortDesc(types, CountOf);
    var a, b := SumBy(sorted[..i + 1], CountOf), SumBy(sorted[..j + 1], CountOf);
    assert a <= b by {
      SortedNonNegative(types);
      PrefixSumsMonotone(sorted, i + 1, j + 1, CountOf);
    }
    assert CumulativeShares(types)[i].running == a by { RunningAt(types, i); }
    assert CumulativeShares(types)[j].running == b by { RunningAt(types, j); }
  }

  lemma RunningWithinTotal(types: seq<Row>, i: nat)
    requires NonNegative(types, CountOf) && i < |types|
    ensures 0 <= CumulativeShares(types)[i].running <= SumBy(types, CountOf)
  {
    var sorted := SortDesc(types, CountOf);
    SortedNonNegative(types);
    SortDescMultiset(types, CountOf);
    SumByPermutation(sorted, types, CountOf);
    ShareAt(types, i);
    PrefixSumBounded(sorted, i + 1, CountOf);
  }

  lemma SortedNonNegative(types: seq<Row>)
    requires NonNegative(types, CountOf)
    ensures NonNegative(SortDesc(types, CountOf), CountOf)
  {
    var sorted := SortDesc(types, CountOf);
    SortDescMultiset(types, CountOf);
    forall i | 0 <= i < |sorted| ensures sorted[i].count >= 0 {
      assert sorted[i] in multiset(sorted);
      var k :| 0 <= k < |types| && types[k] == sorted[i];
    }
  }

  lemma PercentAsFraction(p: int, t: int)
    requires t != 0
    ensures Percent(p, t) == Some(100.0 * p as real / t as real)
  {
    var q := p as real / t as real;
    var x := 100.0 * p as real;
    assert q * t as real == p as real;
    assert x == (100.0 * q) * t as real;
    assert x / t as real == 100.0 * q;
  }

  /** With a non-zero total every percentage is `100 * running / total`;
      with a zero total none is a number. */
  lemma PercentagesDefined(types: seq<Row>)
    ensures var r := CumulativeShares(types); var total := SumBy(types, CountOf);
      forall i :: 0 <= i < |r| ==>
        if total == 0 then r[i].percent.None?
        else r[i].percent == Some(100.0 * r[i].running as real / total as real)
  {
    var r := CumulativeShares(types);
    var total := SumBy(types, CountOf);
    forall i | 0 <= i < |r| ensures if total == 0 then r[i].percent.None?
        else r[i].percent == Some(100.0 * r[i].running as real / total as real)
    {
      ShareAt(types, i);
      if total != 0 { PercentAsFraction(r[i].running, total); }
    }
  }

  lemma PercentBounds(p: int, t: int)
    requires 0 <= p <= t && t > 0
    ensures Percent(p, t).Some? && 0.0 <= Percent(p, t).value <= 100.0
    ensures p == t ==> Percent(p, t) == Some(100.0)
  {
    var q := p as real / t as real;
    assert q * t as real == p as real;
    assert q <= 1.0;
    if p == t { assert q == 1.0; }
  }

  lemma PercentMonotone(p: int, q: int, t: int)
    requires p <= q && t > 0
    ensures Percent(p, t).value <= Percent(q, t).value
  {
    assert p as real / t as real <= q as real / t as real;
  }

  /** With no negative count and a positive total the percentages never
      decrease, stay within 0 and 100, and the last is exactly 100. */
  lemma PercentagesBounded(types: seq<Row>)
    requires NonNegative(types, CountOf) && SumBy(types, CountOf) > 0
    ensures var r := CumulativeShares(types);
      && (forall i :: 0 <= i < |r| ==> r[i].percent.Some? && 0.0 <= r[i].percent.value <= 100.0)
      && (forall i, j :: 0 <= i < j < |r| ==> r[i].percent.value <= r[j].percent.value)
      && r != [] && r[|r| - 1].percent == Some(100.0)
  {
    var r := CumulativeShares(types);
    var total := SumBy(types, CountOf);
    RunningSumsMonotone(types);
    RunningSumsAccumulate(types);
    forall i | 0 <= i < |r| ensures r[i].percent == Percent(r[i].running, total) {
      ShareAt(types, i);
    }
    forall i | 0 <= i < |r| ensures r[i].percent.Some? && 0.0 <= r[i].percent.value <= 100.0 {
      PercentBounds(r[i].running, total);
    }
    forall i, j | 0 <= i < j < |r| ensures r[i].percent.value <= r[j].percent.value {
      PercentMonotone(r[i].running, r[j].running, total);
    }
    PercentBounds(r[|r| - 1].running, total);
  }

  /** The worked example: counts 50, 30, 20 accumulate to 50, 80, 100, which
      are 50, 80 and 100 percent. */
  lemma ThreeTypesExample()
    ensures var types := [Row("A", 50, None), Row("B", 30, None), Row("C", 20, None)];
      CumulativeShares(types) == [
        ShareRow(Row("A", 50, None), 50, Some(50.0)),
        ShareRow(Row("B", 30, None), 80, Some(80.0)),
        ShareRow(Row("C", 20, None), 100, Some(100.0))]
  {
    var types := [Row("A", 50, None), Row("B", 30, None), Row("C", 20, None)];
    var sorted := SortDesc(types, CountOf);
    assert sorted == types;
    assert sorted[..1] == [types[0]];
    assert sorted[..2] == [types[0], types[1]];
    assert sorted[..3] == types;
    assert [types[0]][..0] == [];
    assert [types[0], types[1]][..1] == [types[0]];
    assert types[..2] == [types[0], types[1]];
    assert SumBy([types[0]], CountOf) == 50;
    assert SumBy([types[0], types[1]], CountOf) == 80;
    assert SumBy(sorted, CountOf) == 100;
  }
}
