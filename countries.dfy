/** The country side of the institution table: the sidebar's country filter
    and choice list, the "Countries Represented" figure, and the per-country
    sums of the "Citations by Country" chart. */
module Countries {
  import opened Results
  import opened Text
  import opened Records
  import opened Ranking

  /** The choice that means "no filter". */
  const AllChoice: string := "All"

  /** How many country groups the chart shows. */
  const ChartedCountries: nat := 12

  // ---------------------------------------------------------------------
  // The filter

  /** `frame[frame["country"] == c]`: the rows whose country is `c`, in order.
      A missing country never equals `c`. */
  function KeepCountry(rows: seq<Row>, c: string): seq<Row> {
    if rows == [] then []
    else (if rows[0].country == Some(c) then [rows[0]] else []) + KeepCountry(rows[1..], c)
  }

  /** The institution rows after the sidebar filter: all rows for the choice
      `"All"` or when the table has no `country` column, otherwise the rows of
      the chosen country. */
  function FilterCountry(t: Table, choice: string): seq<Row> {
    if choice != AllChoice && t.hasCountry then KeepCountry(t.rows, choice) else t.rows
  }

  lemma {:induction false} KeepCountryFacts(rows: seq<Row>, c: string)
    ensures IsSubsequence(KeepCountry(rows, c), rows)
    ensures forall x :: multiset(KeepCountry(rows, c))[x]
                        == if x.country == Some(c) then multiset(rows)[x] else 0
    decreases |rows|
  {
    if rows != [] {
      KeepCountryFacts(rows[1..], c);
      assert rows == [rows[0]] + rows[1..];
      assert multiset(rows) == multiset{rows[0]} + multiset(rows[1..]);
      var r := KeepCountry(rows, c);
      if rows[0].country == Some(c) {
        assert r[0] == rows[0] && r[1..] == KeepCountry(rows[1..], c);
      } else {
        assert r == KeepCountry(rows[1..], c);
      }
    }
  }

  /** The filter keeps everything for `"All"` (or without a country column);
      otherwise it is the order-preserving subsequence holding exactly the rows
      of the chosen country, each as often as in the table. */
  lemma FilterCountryFacts(t: Table, choice: string)
    ensures choice == AllChoice || !t.hasCountry ==> FilterCountry(t, choice) == t.rows
    ensures choice != AllChoice && t.hasCountry ==>
      IsSubsequence(FilterCountry(t, choice), t.rows)
      && forall x :: multiset(FilterCountry(t, choice))[x]
                     == if x.country == Some(choice) then multiset(t.rows)[x] else 0
  {
    KeepCountryFacts(t.rows, choice);
  }

  /** The rows of one country and the rest share the table's total. */
  lemma {:induction false} KeepCountrySplitsTotal(rows: seq<Row>, c: string)
    ensures SumBy(KeepCountry(rows, c), CountOf) + SumBy(DropCountry(rows, c), CountOf)
            == SumBy(rows, CountOf)
    decreases |rows|
  {
    if rows != [] {
      KeepCountrySplitsTotal(rows[1..], c);
      assert rows == [rows[0]] + rows[1..];
      SumByCons(rows[0], rows[1..], CountOf);
      if rows[0].country == Some(c) {
        assert KeepCountry(rows, c) == [rows[0]] + KeepCountry(rows[1..], c);
        assert DropCountry(rows, c) == DropCountry(rows[1..], c);
        SumByCons(rows[0], KeepCountry(rows[1..], c), CountOf);
      } else {
        assert KeepCountry(rows, c) == KeepCountry(rows[1..], c);
        assert DropCountry(rows, c) == [rows[0]] + DropCountry(rows[1..], c);
        SumByCons(rows[0], DropCountry(rows[1..], c), CountOf);
      }
    }
  }

  /** The rows the filter drops: the complement of `KeepCountry`, used only
      to state how the table's total splits. */
  function DropCountry(rows: seq<Row>, c: string): seq<Row> {
    if rows == [] then []
    else (if rows[0].country != Some(c) then [rows[0]] else []) + DropCountry(rows[1..], c)
  }

  // ---------------------------------------------------------------------
  // Distinct countries

  /** `frame["country"].dropna()`: the countries present, in row order. */
  function CountryValues(rows: seq<Row>): (cs: seq<string>)
    ensures forall c :: c in cs <==> exists i :: 0 <= i < |rows| && rows[i].country == Some(c)
  {
    if rows == [] then []
    else
      var rest := CountryValues(rows[1..]);
      assert forall i :: 0 < i < |rows| ==> rows[i] == rows[1..][i - 1];
      if rows[0].country.Some? then [rows[0].country.value] + rest else rest
  }

  ghost predicate NoDuplicates<T>(s: seq<T>) {
    forall i, j :: 0 <= i < j < |s| ==> s[i] != s[j]
  }

  /** `unique()`: each value once, in order of first appearance. */
  function Unique<T(==)>(s: seq<T>): seq<T> {
    if s == [] then []
    else
      var u := Unique(s[..|s| - 1]);
      if s[|s| - 1] in u then u else u + [s[|s| - 1]]
  }

  lemma {:induction false} UniqueFacts<T>(s: seq<T>)
    ensures NoDuplicates(Unique(s))
    ensures forall x :: x in Unique(s) <==> x in s
    decreases |s|
  {
    if s != [] {
      UniqueFacts(s[..|s| - 1]);
      assert s == s[..|s| - 1] + [s[|s| - 1]];
    }
  }

  lemma {:induction false} DistinctCardinality<T>(s: seq<T>)
    requires NoDuplicates(s)
    ensures |set x | x in s| == |s|
    decreases |s|
  {
    if s != [] {
      var t := s[1..];
      assert NoDuplicates(t);
      DistinctCardinality(t);
      assert (set x | x in s) == {s[0]} + (set x | x in t);
      assert s[0] !in t;
    }
  }

  /** Strictly increasing under Python's string order, hence without repeats. */
  predicate StrictlyIncreasing(s: seq<string>) {
    forall i, j :: 0 <= i < j < |s| ==> Less(s[i], s[j])
  }

  function InsertString(x: string, s: seq<string>): seq<string> {
    if s == [] || Less(x, s[0]) then [x] + s else [s[0]] + InsertString(x, s[1..])
  }

  /** `sorted(...)` on a list of strings: an ascending insertion sort under
      Python's string order. It is kept apart from `Ranking.SortDesc`, which
      orders rows by a numeric key, largest first. */
  function SortStrings(s: seq<string>): seq<string> {
    if s == [] then [] else InsertString(s[0], SortStrings(s[1..]))
  }

  lemma {:induction false} InsertStringMultiset(x: string, s: seq<string>)
    ensures multiset(InsertString(x, s)) == multiset(s) + multiset{x}
    decreases |s|
  {
    if s != [] && !Less(x, s[0]) {
      InsertStringMultiset(x, s[1..]);
      assert s == [s[0]] + s[1..];
    }
  }

  lemma {:induction false} InsertStringSorted(x: string, s: seq<string>)
    requires StrictlyIncreasing(s) && x !in s
    ensures StrictlyIncreasing(InsertString(x, s))
    decreases |s|
  {
    var r := InsertString(x, s);
    if s == [] || Less(x, s[0]) {
      forall i, j | 0 <= i < j < |r| ensures Less(r[i], r[j]) {
        if i == 0 && j > 1 { LessTransitive(x, s[0], s[j - 1]); }
      }
    } else {
      LessTotal(x, s[0]);
      var r' := InsertString(x, s[1..]);
      InsertStringSorted(x, s[1..]);
      InsertStringMultiset(x, s[1..]);
      forall y | y in r' ensures Less(s[0], y) {
        assert y in multiset(r');
        if y != x {
          assert y in multiset(s[1..]);
          var k :| 0 <= k < |s[1..]| && s[1..][k] == y;
          assert s[k + 1] == y;
        }
      }
      ConsIncreasing(s[0], r');
    }
  }

  lemma ConsIncreasing(h: string, s: seq<string>)
    requires StrictlyIncreasing(s) && forall y :: y in s ==> Less(h, y)
    ensures StrictlyIncreasing([h] + s)
  {
    var r := [h] + s;
    forall i, j | 0 <= i < j < |r| ensures Less(r[i], r[j]) {
      assert r[j] == s[j - 1];
      if i > 0 {
        assert r[i] == s[i - 1];
      }
    }
  }

  /** Sorting a list without repeats lists the same strings in strictly
      increasing order. */
  lemma {:induction false} SortStringsFacts(s: seq<string>)
    requires NoDuplicates(s)
    ensures StrictlyIncreasing(SortStrings(s))
    ensures multiset(SortStrings(s)) == multiset(s)
    decreases |s|
  {
    if s != [] {
      assert NoDuplicates(s[1..]);
      SortStringsFacts(s[1..]);
      assert s[0] !in multiset(SortStrings(s[1..]));
      InsertStringSorted(s[0], SortStrings(s[1..]));
      InsertStringMultiset(s[0], SortStrings(s[1..]));
      assert s == [s[0]] + s[1..];
    }
  }

  /** The strictly increasing listing of a set of strings is unique: any two
      of them are equal. */
  lemma {:induction false} IncreasingListingUnique(a: seq<string>, b: seq<string>)
    requires StrictlyIncreasing(a) && StrictlyIncreasing(b)
    requires forall x :: x in a <==> x in b
    ensures a == b
    decreases |a|
  {
    assert a != [] ==> a[0] in b;
    assert b != [] ==> b[0] in a;
    if a != [] && b != [] {
      var i :| 0 <= i < |a| && a[i] == b[0];
      var j :| 0 <= j < |b| && b[j] == a[0];
      if a[0] != b[0] {
        assert i > 0 && j > 0;
        LessTransitive(a[0], b[0], a[0]);
        LessIrreflexive(a[0]);
      }
      forall x ensures x in a[1..] <==> x in b[1..] {
        if x in a[1..] {
          var k :| 0 <= k < |a[1..]| && a[1..][k] == x;
          assert Less(a[0], a[k + 1]);
          LessIrreflexive(x);
          assert x in a;
          var m :| 0 <= m < |b| && b[m] == x;
          assert m != 0 && b[1..][m - 1] == x;
        }
        if x in b[1..] {
          var k :| 0 <= k < |b[1..]| && b[1..][k] == x;
          assert Less(b[0], b[k + 1]);
          LessIrreflexive(x);
          assert x in b;
          var m :| 0 <= m < |a| && a[m] == x;
          assert m != 0 && a[1..][m - 1] == x;
        }
      }
      IncreasingListingUnique(a[1..], b[1..]);
      assert a == [a[0]] + a[1..] && b == [b[0]] + b[1..];
    }
  }

  /** `sorted(frame["country"].dropna().unique().tolist())`. */
  function SortedCountries(rows: seq<Row>): seq<string> {
    SortStrings(Unique(CountryValues(rows)))
  }

  /** The sidebar's country choices: `"All"` followed by the countries; absent
      when the table has no `country` column (the script then fixes the
      choice to `"All"`). */
  function CountryChoices(t: Table): Option<seq<string>> {
    if t.hasCountry then Some([AllChoice] + SortedCountries(t.rows)) else None
  }

  /** "Countries Represented": `len(frame["country"].dropna().unique())`,
      absent (shown as a dash) without a `country` column. */
  function CountriesRepresented(t: Table): Option<nat> {
    if t.hasCountry then Some(|Unique(CountryValues(t.rows))|) else None
  }

  lemma SortedCountriesFacts(rows: seq<Row>)
    ensures StrictlyIncreasing(SortedCountries(rows))
    ensures forall c :: c in SortedCountries(rows) <==>
              exists i :: 0 <= i < |rows| && rows[i].country == Some(c)
  {
    var u := Unique(CountryValues(rows));
    UniqueFacts(CountryValues(rows));
    SortStringsFacts(u);
    forall c ensures c in SortedCountries(rows) <==> c in u {
      assert c in SortedCountries(rows) <==> c in multiset(SortedCountries(rows));
    }
  }

  /** The choice list starts with `"All"` and then lists the distinct
      non-missing countries in increasing order, each once; it is the only
      such list; and the "Countries Represented" figure is its length less
      the leading `"All"`, which is the number of distinct countries. */
  lemma CountryChoicesFacts(t: Table)
    requires t.hasCountry
    ensures var cs := CountryChoices(t).value;
      && cs != [] && cs[0] == AllChoice
      && StrictlyIncreasing(cs[1..])
      && (forall c :: c in cs[1..] <==> exists i :: 0 <= i < |t.rows| && t.rows[i].country == Some(c))
      && CountriesRepresented(t) == Some(|cs| - 1)
      && CountriesRepresented(t) == Some(|set c | c in CountryValues(t.rows)|)
      && (forall other :: StrictlyIncreasing(other) && (forall c :: c in other <==> c in cs[1..])
            ==> other == cs[1..])
  {
    var cs := CountryChoices(t).value;
    assert cs[1..] == SortedCountries(t.rows);
    SortedCountriesFacts(t.rows);
    var u := Unique(CountryValues(t.rows));
    UniqueFacts(CountryValues(t.rows));
    SortStringsFacts(u);
    assert |SortStrings(u)| == |multiset(SortStrings(u))| == |multiset(u)| == |u|;
    DistinctCardinality(u);
    assert (set c | c in u) == (set c | c in CountryValues(t.rows));
    forall other | StrictlyIncreasing(other) && (forall c :: c in other <==> c in cs[1..])
      ensures other == cs[1..]
    {
      IncreasingListingUnique(other, cs[1..]);
    }
  }

  // ---------------------------------------------------------------------
  // Sums by country

  /** The total count of the rows of country `c`. */
  function CountryTotal(rows: seq<Row>, c: string): int {
    SumBy(KeepCountry(rows, c), CountOf)
  }

  function GroupsOf(keys: seq<string>, rows: seq<Row>): (gs: seq<Group>)
    ensures |gs| == |keys|
    ensures forall i :: 0 <= i < |keys| ==> gs[i] == Group(keys[i], CountryTotal(rows, keys[i]))
  {
    if keys == [] then [] else [Group(keys[0], CountryTotal(rows, keys[0]))] + GroupsOf(keys[1..], rows)
  }

  /** `groupby("country")["count"].sum().reset_index()`: one group per distinct
      present country, in increasing country order, holding that country's
      total; rows without a country belong to no group. */
  function GroupSum(rows: seq<Row>): seq<Group> {
    GroupsOf(SortedCountries(rows), rows)
  }

  /** The "Citations by Country" series: the twelve largest groups, when the
      table has a `country` column. */
  function CountryChart(t: Table): Option<seq<Group>> {
    if t.hasCountry then Some(NLargest(GroupSum(t.rows), ChartedCountries, TotalOf)) else None
  }

  /** The rows that carry a country (what `groupby` keeps). */
  function Located(rows: seq<Row>): seq<Row> {
    if rows == [] then []
    else (if rows[0].country.Some? then [rows[0]] else []) + Located(rows[1..])
  }

  function Share(keys: seq<string>, r: Row): int {
    if keys == [] then 0
    else (if r.country == Some(keys[0]) then r.count else 0) + Share(keys[1..], r)
  }

  /** Over distinct keys, a row is counted once if its country is among them
      and not at all otherwise. */
  lemma {:induction false} ShareOnce(keys: seq<string>, r: Row)
    requires NoDuplicates(keys)
    ensures Share(keys, r) == if r.country.Some? && r.country.value in keys then r.count else 0
    decreases |keys|
  {
    if keys != [] {
      assert NoDuplicates(keys[1..]);
      ShareOnce(keys[1..], r);
      assert keys == [keys[0]] + keys[1..];
    }
  }

  lemma CountryTotalCons(r: Row, rest: seq<Row>, c: string)
    ensures CountryTotal([r] + rest, c) == (if r.country == Some(c) then r.count else 0) + CountryTotal(rest, c)
  {
    assert ([r] + rest)[1..] == rest;
    if r.country == Some(c) {
      assert KeepCountry([r] + rest, c) == [r] + KeepCountry(rest, c);
      SumByCons(r, KeepCountry(rest, c), CountOf);
    } else {
      assert KeepCountry([r] + rest, c) == KeepCountry(rest, c);
    }
  }

  lemma {:induction false} GroupsSplit(keys: seq<string>, r: Row, rest: seq<Row>)
    ensures SumBy(GroupsOf(keys, [r] + rest), TotalOf)
            == Share(keys, r) + SumBy(GroupsOf(keys, rest), TotalOf)
    decreases |keys|
  {
    if keys != [] {
      var rows := [r] + rest;
      var g := Group(keys[0], CountryTotal(rows, keys[0]));
      var h := Group(keys[0], CountryTotal(rest, keys[0]));
      assert GroupsOf(keys, rows) == [g] + GroupsOf(keys[1..], rows);
      assert GroupsOf(keys, rest) == [h] + GroupsOf(keys[1..], rest);
      GroupsSplit(keys[1..], r, rest);
      SumByCons(g, GroupsOf(keys[1..], rows), TotalOf);
      SumByCons(h, GroupsOf(keys[1..], rest), TotalOf);
      CountryTotalCons(r, rest, keys[0]);
    }
  }

  lemma {:induction false} GroupsOfEmpty(keys: seq<string>)
    ensures SumBy(GroupsOf(keys, []), TotalOf) == 0
    decreases |keys|
  {
    if keys != [] {
      var g := Group(keys[0], CountryTotal([], keys[0]));
      assert GroupsOf(keys, []) == [g] + GroupsOf(keys[1..], []);
      GroupsOfEmpty(keys[1..]);
      SumByCons(g, GroupsOf(keys[1..], []), TotalOf);
    }
  }

  /** Summing the groups of distinct keys that cover every present country
      gives the total of the rows that carry a country. */
  lemma {:induction false} GroupsConserve(keys: seq<string>, rows: seq<Row>)
    requires NoDuplicates(keys)
    requires forall i :: 0 <= i < |rows| && rows[i].country.Some? ==> rows[i].country.value in keys
    ensures SumBy(GroupsOf(keys, rows), TotalOf) == SumBy(Located(rows), CountOf)
    decreases |rows|
  {
    if rows == [] {
      GroupsOfEmpty(keys);
    } else {
      var r, rest := rows[0], rows[1..];
      assert rows == [r] + rest;
      forall i | 0 <= i < |rest| && rest[i].country.Some? ensures rest[i].country.value in keys {
        assert rest[i] == rows[i + 1];
      }
      GroupsConserve(keys, rest);
      GroupsSplit(keys, r, rest);
      ShareOnce(keys, r);
      LocatedCons(r, rest);
    }
  }

  lemma LocatedCons(r: Row, rest: seq<Row>)
    ensures SumBy(Located([r] + rest), CountOf)
            == (if r.country.Some? then r.count else 0) + SumBy(Located(rest), CountOf)
  {
    var rows := [r] + rest;
    assert rows[0] == r && rows[1..] == rest;
    if r.country.Some? {
      assert Located(rows) == [r] + Located(rest);
      SumByCons(r, Located(rest), CountOf);
    } else {
      assert Located(rows) == Located(rest);
    }
  }

  /** The groups are the distinct present countries, in increasing order,
      each holding the total of the rows of its country. */
  lemma GroupSumKeys(rows: seq<Row>)
    ensures var gs := GroupSum(rows);
      && (forall i, j :: 0 <= i < j < |gs| ==> Less(gs[i].country, gs[j].country))
      && (forall c :: (exists i :: 0 <= i < |gs| && gs[i].country == c)
                      <==> (exists i :: 0 <= i < |rows| && rows[i].country == Some(c)))
      && (forall i :: 0 <= i < |gs| ==> gs[i].total == SumBy(KeepCountry(rows, gs[i].country), CountOf))
  {
    var keys := SortedCountries(rows);
    assert StrictlyIncreasing(keys) && forall c :: c in keys <==>
      exists i :: 0 <= i < |rows| && rows[i].country == Some(c) by {
      SortedCountriesFacts(rows);
    }
    GroupsOfKeys(keys, rows);
  }

  /** The groups of a key list follow the keys, one group per key. */
  lemma GroupsOfKeys(keys: seq<string>, rows: seq<Row>)
    ensures var gs := GroupsOf(keys, rows);
      && (StrictlyIncreasing(keys) ==> forall i, j :: 0 <= i < j < |gs| ==> Less(gs[i].country, gs[j].country))
      && (forall c :: (exists i :: 0 <= i < |gs| && gs[i].country == c) <==> c in keys)
      && (forall i :: 0 <= i < |gs| ==> gs[i].total == SumBy(KeepCountry(rows, gs[i].country), CountOf))
  {
    var gs := GroupsOf(keys, rows);
    forall i | 0 <= i < |gs| ensures gs[i] == Group(keys[i], CountryTotal(rows, keys[i])) {
    }
    if StrictlyIncreasing(keys) {
      forall i, j | 0 <= i < j < |gs| ensures Less(gs[i].country, gs[j].country) {
        assert gs[i].country == keys[i] && gs[j].country == keys[j];
      }
    }
    forall c ensures (exists i :: 0 <= i < |gs| && gs[i].country == c) <==> c in keys {
      if c in keys {
        var i :| 0 <= i < |keys| && keys[i] == c;
        assert gs[i].country == c;
      }
      if exists i :: 0 <= i < |gs| && gs[i].country == c {
        var i :| 0 <= i < |gs| && gs[i].country == c;
        assert keys[i] == c;
      }
    }
  }

  /** Together the groups hold the total of all rows that carry a country —
      of all rows, when every row has one. */
  lemma GroupSumConserves(rows: seq<Row>)
    ensures SumBy(GroupSum(rows), TotalOf) == SumBy(Located(rows), CountOf)
    ensures (forall i :: 0 <= i < |rows| ==> rows[i].country.Some?) ==>
              SumBy(GroupSum(rows), TotalOf) == SumBy(rows, CountOf)
  {
    var keys := SortedCountries(rows);
    SortedCountriesFacts(rows);
    assert NoDuplicates(keys) by {
      forall i, j | 0 <= i < j < |keys| ensures keys[i] != keys[j] {
        LessIrreflexive(keys[i]);
      }
    }
    forall i | 0 <= i < |rows| && rows[i].country.Some? ensures rows[i].country.value in keys {
    }
    GroupsConserve(keys, rows);
    if forall i :: 0 <= i < |rows| ==> rows[i].country.Some? {
      AllLocated(rows);
    }
  }

  lemma {:induction false} AllLocated(rows: seq<Row>)
    requires forall i :: 0 <= i < |rows| ==> rows[i].country.Some?
    ensures Located(rows) == rows
    decreases |rows|
  {
    if rows != [] {
      assert forall i :: 0 <= i < |rows[1..]| ==> rows[1..][i] == rows[i + 1];
      AllLocated(rows[1..]);
      assert rows == [rows[0]] + rows[1..];
    }
  }

  /** The chart shows at most twelve groups taken from the per-country sums,
      largest first; none left out is larger than one shown, and among equal
      totals the groups earlier in country order are shown. */
  lemma CountryChartFacts(t: Table)
    requires t.hasCountry
    ensures IsTopN(CountryChart(t).value, GroupSum(t.rows), ChartedCountries, TotalOf)
  {
    NLargestIsTopN(GroupSum(t.rows), ChartedCountries, TotalOf);
  }

  /** Three institutions: two in the US with 10 and 5, one in France with 7. */
  const ExampleRows: seq<Row> := [Row("x", 10, Some("US")), Row("y", 5, Some("US")), Row("z", 7, Some("FR"))]

  /** The worked example of the per-country sums: the groups are FR 7 and
      US 15, in country order. */
  lemma GroupSumExample()
    ensures GroupSum(ExampleRows) == [Group("FR", 7), Group("US", 15)]
  {
    ExampleCountries();
    ExampleGroups();
  }

  lemma ExampleGroups()
    ensures GroupsOf(["FR", "US"], ExampleRows) == [Group("FR", 7), Group("US", 15)]
  {
    GroupsOfTwo("FR", "US", ExampleRows);
    ExampleTotals();
  }

  lemma GroupsOfTwo(a: string, b: string, rows: seq<Row>)
    ensures GroupsOf([a, b], rows) == [Group(a, CountryTotal(rows, a)), Group(b, CountryTotal(rows, b))]
  {
    var gs := GroupsOf([a, b], rows);
    assert gs == [gs[0], gs[1]];
  }

  lemma ExampleCountries()
    ensures SortedCountries(ExampleRows) == ["FR", "US"]
  {
    var rows := ExampleRows;
    assert rows[1..][1..] == [rows[2]] && [rows[2]][1..] == [];
    assert CountryValues(rows) == ["US", "US", "FR"];
    assert Unique(["US", "US", "FR"][..2]) == ["US"];
    assert Unique(CountryValues(rows)) == ["US", "FR"];
    assert Less("FR", "US");
  }

  lemma ExampleTotals()
    ensures CountryTotal(ExampleRows, "FR") == 7 && CountryTotal(ExampleRows, "US") == 15
  {
    var rows := ExampleRows;
    assert rows[1..][1..] == [rows[2]] && [rows[2]][1..] == [];
    assert KeepCountry(rows, "FR") == [rows[2]];
    assert [rows[2]][..0] == [];
    assert KeepCountry(rows, "US") == [rows[0], rows[1]];
    assert [rows[0], rows[1]][..1] == [rows[0]];
    assert [rows[0]][..0] == [];
  }
}
