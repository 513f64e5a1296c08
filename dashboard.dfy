/** One rendering pass of the dashboard over the loaded tables: the series
    the charts draw and the headline figures of the KPI cards. */
module Dashboard {
  import opened Results
  import opened Text
  import opened Records
  import opened Ranking
  import opened Countries

  /** Institution names longer than this are shortened on their KPI card. */
  const LongName: nat := 20

  // ---------------------------------------------------------------------
  // Chart series

  /** `inst_top`: the `n` institutions with the largest counts after the
      country filter. */
  function InstitutionTop(institutions: Table, choice: string, n: nat): seq<Row> {
    NLargest(FilterCountry(institutions, choice), n, CountOf)
  }

  /** `topic_top`: the `n` topics with the largest counts. */
  function TopicTop(topics: Table, n: nat): seq<Row> {
    NLargest(topics.rows, n, CountOf)
  }

  /** The topics shown are the top `n` topics by count. */
  lemma TopicTopFacts(topics: Table, n: nat)
    ensures IsTopN(TopicTop(topics, n), topics.rows, n, CountOf)
  {
    NLargestIsTopN(topics.rows, n, CountOf);
  }

  /** The institutions shown are at most `n` of those of the chosen country
      (of all, for `"All"`), largest first; none of that country left out has
      a larger count, and among equal counts the earlier rows are shown. */
  lemma InstitutionTopFacts(institutions: Table, choice: string, n: nat)
    ensures var shown := InstitutionTop(institutions, choice, n);
      var pool := FilterCountry(institutions, choice);
      && IsTopN(shown, pool, n, CountOf)
      && (choice != AllChoice && institutions.hasCountry ==>
            forall i :: 0 <= i < |shown| ==> shown[i].country == Some(choice))
  {
    var shown := InstitutionTop(institutions, choice, n);
    var pool := FilterCountry(institutions, choice);
    NLargestIsTopN(pool, n, CountOf);
    FilterCountryFacts(institutions, choice);
    if choice != AllChoice && institutions.hasCountry {
      forall i | 0 <= i < |shown| ensures shown[i].country == Some(choice) {
        assert shown[i] in multiset(shown);
        assert multiset(pool)[shown[i]] > 0;
      }
    }
  }

  // ---------------------------------------------------------------------
  // Headline figures

  /** The position of the first row of largest count. */
  function FirstMaxIndex(rows: seq<Row>): (k: nat)
    requires rows != []
    ensures k < |rows|
    ensures forall j :: 0 <= j < |rows| ==> rows[j].count <= rows[k].count
    ensures forall j :: 0 <= j < k ==> rows[j].count < rows[k].count
  {
    if |rows| == 1 then 0
    else
      var k := FirstMaxIndex(rows[..|rows| - 1]);
      if rows[|rows| - 1].count > rows[k].count then |rows| - 1 else k
  }

  /** `frame.nlargest(1, "count").iloc[0]`; an empty table has no first row
      and the script stops with an `IndexError`. */
  function TopRecord(rows: seq<Row>): Result<Row> {
    if rows == [] then Err(EmptyTable) else Ok(NLargest(rows, 1, CountOf)[0])
  }

  lemma {:induction false} WithKeyFirst(s: seq<Row>, k: nat)
    requires k < |s| && forall j :: 0 <= j < k ==> s[j].count != s[k].count
    ensures WithKey(s, CountOf, s[k].count) != []
    ensures WithKey(s, CountOf, s[k].count)[0] == s[k]
    decreases k
  {
    if k > 0 {
      WithKeyFirst(s[1..], k - 1);
    }
  }

  /** The top record is the first row, in table order, of the largest count. */
  lemma TopRecordIsFirstMax(rows: seq<Row>)
    requires rows != []
    ensures TopRecord(rows) == Ok(rows[FirstMaxIndex(rows)])
  {
    var k := FirstMaxIndex(rows);
    var m := rows[k].count;
    var t := SortDesc(rows, CountOf);
    SortDescFacts(rows, CountOf);
    assert NLargest(rows, 1, CountOf)[0] == t[0];
    assert t[0] in multiset(rows);
    assert rows[k] in multiset(t);
    var j :| 0 <= j < |t| && t[j] == rows[k];
    assert t[0].count == m;
    assert WithKey(t, CountOf, m)[0] == t[0];
    WithKeyFirst(rows, k);
  }

  /** The last whitespace-separated word of a long name, the whole name
      otherwise: `name.split()[-1] if len(name) > 20 else name`. A long name
      with no word makes `split()[-1]` raise. */
  function ShortName(name: string): Result<string> {
    if |name| > LongName then
      var ws := Words(name);
      if ws == [] then Err(NoWords) else Ok(ws[|ws| - 1])
    else Ok(name)
  }

  /** A name of at most 20 characters is shown whole; a longer one fails
      exactly when it is blank, and otherwise shows a non-empty run without
      whitespace that ends the name (up to trailing blanks) and starts it or
      follows a blank. */
  lemma ShortNameFacts(name: string)
    ensures |name| <= LongName ==> ShortName(name) == Ok(name)
    ensures |name| > LongName ==> (ShortName(name).Err? <==> AllSpace(name))
    ensures |name| > LongName && ShortName(name).Ok? ==>
      var w := ShortName(name).value;
      w != [] && NoSpace(w) && exists i :: LastWordAt(name, w, i)
  {
    NoWordsIffBlank(name);
    if |name| > LongName && Words(name) != [] {
      WordsAreWords(name);
      var i := LastWordPlacement(name);
    }
  }

  /** The figures of the four KPI cards (and the unused type total). */
  datatype Headlines = Headlines(
    totalCitations: int,        // institution counts, over the unfiltered table
    totalTypes: int,
    countries: Option<nat>,     // `None` is shown as a dash
    topInstitution: string,     // already shortened for its card
    topTopic: string)

  /** `frame.nlargest(1, "count").iloc[0]["name"]`: the name of the top
      record, or the `KeyError` of a table without a `name` column. */
  function TopName(t: Table): Result<string> {
    match TopRecord(t.rows)
    case Err(e) => Err(e)
    case Ok(top) => if t.hasName then Ok(top.name) else Err(MissingColumn("name"))
  }

  /** Lines 96-99 and 101-105 of the script, in order: an empty institution
      or topic table, one without a `name` column, or a blank long top
      institution name, stops it. */
  function ComputeHeadlines(institutions: Table, topics: Table, types: Table): Result<Headlines> {
    match (TopName(institutions), TopName(topics))
    case (Err(e), _) => Err(e)
    case (_, Err(e)) => Err(e)
    case (Ok(inst), Ok(topic)) =>
      match ShortName(inst)
      case Err(e) => Err(e)
      case Ok(shown) =>
        Ok(Headlines(SumBy(institutions.rows, CountOf), SumBy(types.rows, CountOf),
                     CountriesRepresented(institutions), shown, topic))
  }

  /** The headline figures exist exactly when both tables have rows and a
      `name` column and the top institution's name is not a long blank; they
      then hold the unfiltered institution total, the first largest
      institution (shortened) and topic, and the number of distinct
      countries. The institution table is looked at first. */
  lemma HeadlinesFacts(institutions: Table, topics: Table, types: Table)
    ensures var h := ComputeHeadlines(institutions, topics, types);
      && (h.Ok? <==> institutions.rows != [] && topics.rows != []
                     && institutions.hasName && topics.hasName
                     && !(|institutions.rows[FirstMaxIndex(institutions.rows)].name| > LongName
                          && AllSpace(institutions.rows[FirstMaxIndex(institutions.rows)].name)))
      && (h.Ok? ==>
            && h.value.totalCitations == SumBy(institutions.rows, CountOf)
            && h.value.totalTypes == SumBy(types.rows, CountOf)
            && Ok(h.value.topInstitution) == ShortName(institutions.rows[FirstMaxIndex(institutions.rows)].name)
            && h.value.topTopic == topics.rows[FirstMaxIndex(topics.rows)].name
            && (institutions.hasCountry ==>
                  h.value.countries == Some(|set c | c in CountryValues(institutions.rows)|))
            && (!institutions.hasCountry ==> h.value.countries.None?))
      && (institutions.rows == [] ==> h == Err(EmptyTable))
      && (institutions.rows != [] && !institutions.hasName ==> h == Err(MissingColumn("name")))
  {
    if institutions.rows != [] {
      TopRecordIsFirstMax(institutions.rows);
      ShortNameFacts(institutions.rows[FirstMaxIndex(institutions.rows)].name);
    }
    if topics.rows != [] {
      TopRecordIsFirstMax(topics.rows);
    }
    if institutions.hasCountry {
      CountryChoicesFacts(institutions);
    }
  }

  /** The worked example: for counts 10, 40, 40 the top record is the first
      row of count 40, and the total is 90. */
  lemma TopRecordExample()
    ensures var rows := [Row("A", 10, None), Row("B", 40, None), Row("A", 40, None)];
      TopRecord(rows) == Ok(Row("B", 40, None)) && SumBy(rows, CountOf) == 90
  {
    var rows := [Row("A", 10, None), Row("B", 40, None), Row("A", 40, None)];
    TopRecordIsFirstMax(rows);
    assert FirstMaxIndex(rows[..2]) == 1;
    assert rows[..2][..1] == [rows[0]];
    assert rows[..2] == [rows[0], rows[1]];
    assert [rows[0]][..0] == [];
    assert SumBy([rows[0]], CountOf) == 10;
    assert SumBy(rows[..2], CountOf) == 50;
  }

  /** The worked example of the top-N rule: among counts 1, 5, 3, 5, 2 the two
      largest are the two rows of count 5, in table order. */
  lemma TopTwoExample()
    ensures var rows := [Row("a", 1, None), Row("b", 5, None), Row("c", 3, None),
                         Row("d", 5, None), Row("e", 2, None)];
      TopicTop(Table(true, false, rows), 2) == [Row("b", 5, None), Row("d", 5, None)]
  {
    var rows := [Row("a", 1, None), Row("b", 5, None), Row("c", 3, None),
                 Row("d", 5, None), Row("e", 2, None)];
    assert rows[4..][1..] == [] && rows[3..][1..] == rows[4..];
    assert rows[2..][1..] == rows[3..] && rows[1..][1..] == rows[2..];
    assert SortDesc(rows[4..], CountOf) == [rows[4]];
    assert SortDesc(rows[3..], CountOf) == [rows[3], rows[4]];
    assert [rows[3], rows[4]][1..] == [rows[4]];
    assert Insert(rows[2], [rows[4]], CountOf) == [rows[2], rows[4]];
    assert SortDesc(rows[2..], CountOf) == [rows[3], rows[2], rows[4]];
    assert SortDesc(rows[1..], CountOf) == [rows[1], rows[3], rows[2], rows[4]];
    var t := [rows[1], rows[3], rows[2], rows[4]];
    assert t[1..] == [rows[3], rows[2], rows[4]] && t[1..][1..] == [rows[2], rows[4]];
    assert t[1..][1..][1..] == [rows[4]] && t[1..][1..][1..][1..] == [];
    assert Insert(rows[0], [rows[4]], CountOf) == [rows[4], rows[0]];
    assert Insert(rows[0], [rows[2], rows[4]], CountOf) == [rows[2], rows[4], rows[0]];
    assert Insert(rows[0], [rows[3], rows[2], rows[4]], CountOf) == [rows[3], rows[2], rows[4], rows[0]];
    assert Insert(rows[0], t, CountOf) == [rows[1], rows[3], rows[2], rows[4], rows[0]];
    assert SortDesc(rows, CountOf) == [rows[1], rows[3], rows[2], rows[4], rows[0]];
  }
}
