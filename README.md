# Citation analytics dashboard: data preparation, verified

This project models, in Dafny, the data-preparation core of the Streamlit
dashboard `cite101app.py` and proves what the dashboard's figures mean.

The script loads three tab-separated tables: institutions with a `count` and
an optional `country`, topics, and publication types. It strips the column
labels and coerces every `count` to an integer, using 0 for missing or
non-numeric values. It then computes:

- the sidebar's country choices: `"All"` followed by the sorted distinct
  countries;
- the country filter on the institutions;
- the `nlargest` top-N series of institutions and topics;
- the KPI cards: the total of the institution counts, the number of distinct
  countries, the top institution (its last word when the name is longer than
  20 characters) and the top topic;
- the "Citations by Country" series: a sum per country, the twelve largest
  kept;
- the "Cumulative Share" series of the publication types: a descending sort,
  a running sum, and that sum as a percentage of the total.

Modules, in dependency order:

- `Results` (`results.dfy`): `Option`, `Result` and the error cases at which
  the script stops: a missing column, a column label used twice, a ragged
  line, an empty table and a blank long name.
- `Text` (`text.dfy`): the string operations the script relies on.
  - `str.strip`;
  - `str.split()` and its last word;
  - Python's code-point string order, which is what `sorted` uses;
  - the decimal integer text that the model reads as a number (see
    "## Left out").
- `Records` (`records.dfy`): a row (`name`, `count`, optional `country`), a
  table that records whether it has a `name` and a `country` column, a per-country group,
  and sums over sequences.
- `Ranking` (`ranking.dfy`): `nlargest(n, "count")` with pandas' default
  `keep='first'`.
  - It is modelled as the first `n` elements of a stable descending insertion
    sort.
  - The sort is generic over its key, so rows and groups share it.
- `Loader` (`loader.dfy`): `load_data`.
  - The function `Load` specifies one table. It models the parts of
    `read_csv` that decide which rows and columns the script sees: blank
    lines are skipped, extra leading fields on the first data line become
    the row index, the first line with too many fields is an error, and
    empty or repeated header labels are renamed.
  - The class `Frame` changes its labels and its `count` column in place,
    as the script does.
  - `LoadTable` is proved equal to `Load`.
- `Countries` (`countries.dfy`): the country filter, the sidebar choices, the
  number of countries, and the sum per country with its top-12 chart.
- `Dashboard` (`dashboard.dfy`): the top-N series, the top record and the KPI
  figures.
- `Cumulative` (`cumulative.dfy`): the cumulative-share frame.
  - The array loop `RunningSums` is proved against the function
    `RunningTotals`, and the array loop `CumulativeShare` against the function
    `CumulativeShares`.
  - Lemmas state the sum and percentage properties.

Counts are unbounded integers. `to_numeric` accepts a leading `-`, so a count
can be negative. The lemmas that need non-negative counts take that as a
hypothesis.

## Model

| member | source | states |
|---|---|---|
| Loader.Frame.constructor | cite101app.py:44 | `read_csv` on a file without ragged lines labels the columns with the header fields, an empty one as `Unnamed: j` and the `m`-th repeat of a label `x` as `x.m`, and gives one column per header field, each with one cell per line that is not blank, read after the index fields; the frame is rectangular |
| Loader.Frame.StripLabels | cite101app.py:45 | the labels are replaced by their stripped forms; the columns and the height are unchanged; the frame stays rectangular |
| Loader.Frame.CoerceCount | cite101app.py:46 | it reports the one column labelled `count`, a missing column when there is none, and an ambiguous one when there are several; on success only that column changes, to integer cells holding the coerced values; on failure nothing changes |
| Loader.LoadTable | cite101app.py:44-46 | reading, stripping and coercing in place gives exactly what `Load` specifies, including its errors |
| Loader.LoadData | cite101app.py:43-56 | the three tables load in order; the result is Ok exactly when all three load, and the error is that of the first table that fails |
| Loader.DataLinesFacts | cite101app.py:44 | the lines that become rows are the lines that are not blank, in file order: a subsequence of the file holding each line that is not blank as often as the file does and no blank line; a file without blank lines is kept whole |
| Loader.FirstRagged | cite101app.py:44 | the line reported is the first with more fields than the header plus the index fields; when none is reported, no line has too many |
| Loader.ReadLabelFacts | cite101app.py:44-45 | a header field that is not empty and repeats no earlier one keeps its label; the label given to any other field never strips to `name`, `count` or `country` |
| Loader.IndexOfFacts | cite101app.py:46 | the position found holds the wanted label and no earlier position does; none is found exactly when the label is absent |
| Loader.SingleColumnFacts | cite101app.py:46 | `frame["count"]` is a `KeyError` exactly when no label is `count`, ambiguous exactly when two are, and otherwise the only column labelled `count` |
| Loader.LoadShape | cite101app.py:44-46 | a loaded table has one row per line that is not blank, and a `name` or `country` column exactly when some label strips to it |
| Loader.LoadCounts | cite101app.py:44-46 | the count of row `i` is the integer the `count` field of the `i`-th kept line spells, and 0 when the field is missing or not a number |
| Loader.LoadNames | cite101app.py:44-45 | the name of row `i` is the `i`-th kept line's field under the first `name` column |
| Loader.LoadCountries | cite101app.py:44-45 | the country of row `i` is the `i`-th kept line's field under the first `country` column |
| Loader.LoadReadsNumbers | cite101app.py:46 | a `count` field written as the decimal text of `n` loads as `n` |
| Loader.LoadFailures | cite101app.py:44-46 | loading fails exactly when a line that is not blank has more fields than the header plus the index fields, or when no label or more than one strips to `count`; the error names the first such line, or else the `count` column |
| Loader.LeadingIndexExample | cite101app.py:44 | with header `name count` and lines `0 a 1` and `1 b 2`, the first field is the row index and the table holds `a` with 1 and `b` with 2 |
| Text.StripIsTrimmedInfix | cite101app.py:45 | `strip` leaves a slice of the text whose removed margins are all whitespace and whose own first and last characters are not whitespace |
| Text.StripIdempotent | cite101app.py:45 | stripping a second time changes nothing |
| Text.StripStartCut | cite101app.py:45 | dropping leading whitespace removes a blank prefix, up to the first non-blank character |
| Text.StripEndCut | cite101app.py:45 | dropping trailing whitespace removes a blank suffix, back to the last non-blank character |
| Text.ParseRendered | cite101app.py:46 | reading a number's decimal text back gives the same integer |
| Text.ParseRejectsNonDigit | cite101app.py:46 | a text holding a character that is neither a digit nor a leading sign is not a number |
| Text.WordsAreWords | cite101app.py:104 | every word `split()` returns is non-empty and contains no whitespace |
| Text.NoWordsIffBlank | cite101app.py:104 | `split()` returns no word exactly when the text is all whitespace |
| Text.LastWordPlacement | cite101app.py:104 | the last word of `split()` ends the text, up to trailing whitespace, and starts at the start of the text or right after a whitespace character |
| Text.LessIrreflexive | cite101app.py:70 | no string sorts before itself |
| Text.LessTransitive | cite101app.py:70 | the string order is transitive |
| Text.LessTotal | cite101app.py:70 | of two different strings, one sorts before the other |
| Countries.KeepCountryFacts | cite101app.py:84 | the rows of one country form a subsequence of the table; each row occurs as often as in the table if it has that country, and otherwise not at all |
| Countries.FilterCountryFacts | cite101app.py:82-84 | with `"All"`, or without a country column, the filter keeps the table; otherwise it keeps exactly the rows of the chosen country, in order |
| Countries.KeepCountrySplitsTotal | cite101app.py:84 | the totals of the kept rows and of the dropped rows add up to the table's total |
| Countries.CountryValues | cite101app.py:70 | `dropna()` lists exactly the countries that some row has |
| Countries.UniqueFacts | cite101app.py:70 | `unique()` has no repeats and the same members as its input |
| Countries.DistinctCardinality | cite101app.py:103 | the length of `unique()` is the number of distinct values |
| Countries.SortStringsFacts | cite101app.py:70 | `sorted` on a list without repeats lists the same strings in strictly increasing order |
| Countries.InsertStringSorted | cite101app.py:70 | inserting a new string keeps a list strictly increasing |
| Countries.InsertStringMultiset | cite101app.py:70 | inserting adds exactly the new string |
| Countries.IncreasingListingUnique | cite101app.py:70 | two strictly increasing lists with the same members are equal |
| Countries.SortedCountriesFacts | cite101app.py:70 | the sorted distinct countries are strictly increasing and are exactly the countries some row has |
| Countries.CountryChoicesFacts | cite101app.py:69-73 | the choices are `"All"` followed by the distinct countries in increasing order, each once, and no other list qualifies; the Countries Represented figure (line 103) is the number of choices less one, which is the number of distinct countries |
| Countries.GroupsOf | cite101app.py:153 | there is one group per key, in key order, holding that key's total |
| Countries.GroupSumKeys | cite101app.py:153 | `groupby("country").sum()` gives the distinct present countries in increasing order, each holding the total of its rows |
| Countries.GroupSumConserves | cite101app.py:153 | the groups together hold the total of the rows that have a country, which is the total of all rows when every row has one |
| Countries.GroupsConserve | cite101app.py:153 | with distinct keys covering every present country, the group totals add up to the total of the rows that have a country |
| Countries.CountryChartFacts | cite101app.py:151-153 | the chart is a top-12 selection of the country groups, as `IsTopN` defines |
| Countries.GroupSumExample | cite101app.py:153 | US 10 and 5 with FR 7 give the groups FR 7 and US 15, in that order |
| Ranking.SortDescFacts | cite101app.py:86-87 | the descending sort is a permutation of its input and non-increasing; for every key value it keeps the input order |
| Ranking.NLargestShape | cite101app.py:86-87 | `nlargest(n)` returns `min(n, len)` rows taken from the input, largest first |
| Ranking.NLargestDominates | cite101app.py:86-87 | no row that `nlargest` leaves out is larger than a row it takes |
| Ranking.NLargestKeepsFirst | cite101app.py:86-87 | with `keep='first'`, the rows taken for each count are the earliest such rows of the input, in input order |
| Ranking.NLargestIsTopN | cite101app.py:86-87 | `nlargest` meets all four top-N properties together, as `IsTopN` defines them |
| Ranking.NLargestAll | cite101app.py:86 | asking for at least as many rows as there are returns all of them, sorted |
| Dashboard.InstitutionTopFacts | cite101app.py:82-86 | the institution series is a top-N selection from the filtered rows; with a country chosen, and a country column present, every row shown is of that country |
| Dashboard.TopicTopFacts | cite101app.py:87 | the topic series is a top-N selection from the topics |
| Dashboard.FirstMaxIndex | cite101app.py:98-99 | the reference position holds the largest count, and no earlier row has that count |
| Dashboard.TopRecordIsFirstMax | cite101app.py:98-99 | `nlargest(1).iloc[0]` is the first row, in table order, with the largest count |
| Dashboard.ShortNameFacts | cite101app.py:104 | a name of at most 20 characters is shown whole. A longer name fails exactly when it is blank; otherwise it shows a non-empty word without whitespace, placed as the text's last word |
| Dashboard.HeadlinesFacts | cite101app.py:96-104 | the KPI figures exist exactly when both tables have rows and a `name` column and the top institution is not a long blank name; an empty institution table, or one without `name`, is the first error. They are then: the unfiltered institution total; the type total; the top institution, shortened; the top topic; and the number of distinct countries, or none without a country column |
| Dashboard.TopRecordExample | cite101app.py:96-98 | for counts 10, 40 and 40 the top record is the first row with 40, and the total is 90 |
| Dashboard.TopTwoExample | cite101app.py:87 | for counts 1, 5, 3, 5 and 2 the top two are the two rows with count 5, in table order |
| Cumulative.RunningSums | cite101app.py:323 | the array loop computes `cumsum()`: entry `i` is the sum of the first `i + 1` counts |
| Cumulative.CumulativeShare | cite101app.py:322-323 | the array loop builds exactly the cumulative-share frame: the sorted rows, their running sums and their percentages |
| Cumulative.SharesReorderTypes | cite101app.py:322 | the frame holds the type rows, each as often as in the table, sorted by count, largest first |
| Cumulative.RunningSumsAccumulate | cite101app.py:323 | the first running sum is the first count; each later one adds its row's count to the previous one; the last is the table's total |
| Cumulative.RunningSumsMonotone | cite101app.py:323 | with no negative count the running sums never decrease and stay between 0 and the total |
| Cumulative.PercentagesDefined | cite101app.py:323 | with a non-zero total each percentage is `100 * running / total`; with a zero total none is a number |
| Cumulative.PercentagesBounded | cite101app.py:323 | with no negative count and a positive total the percentages never decrease, lie between 0 and 100, and the last is exactly 100 |
| Cumulative.ThreeTypesExample | cite101app.py:322-323 | counts 50, 30 and 20 accumulate to 50, 80 and 100, which are 50, 80 and 100 percent |
| Records.SumByPermutation | cite101app.py:322-323 | reordering a sequence does not change its sum, so the sorted frame and the type table have the same total |
| Records.PrefixSumBounded | cite101app.py:323 | over non-negative terms every prefix sum lies between 0 and the total |

`IsTopN(r, s, n, key)` in `Ranking` holds when four things are true:

- `r` has `min(n, |s|)` elements;
- `r` is a sub-multiset of `s`;
- `r` is non-increasing;
- no element left out is larger than one taken.

It also holds only if, for every key value, `r`'s elements of that key are a
prefix of `s`'s elements of that key.

## Left out

- Reading the files (`read_csv` on `data/*.txt`): a table arrives already split
  into a header and lines of fields.
  - The model covers the parts of the parser that decide rows and columns:
    blank lines, missing cells at the end of a short line, extra leading
    fields on the first line as the row index, the error on the first line
    with too many fields, and the renaming of empty and repeated labels.
  - Two parts are not modelled: quoting, and type inference for columns
    other than `count`.
- `Loader.Coerce`, `Loader.NameText` and `Loader.CountryText`: a column read
  from text holds no integer cells; their `Int` case only keeps them total.
- `@st.cache_data`: caching does not change the values.
- `pd.to_numeric`: only an optional sign followed by decimal digits is read as
  a number. Floats and their truncation by `astype(int)`, exponents,
  surrounding whitespace, and 64-bit overflow are left out.
- `Loader.LoadFailures` and `Loader.LoadCounts`: a `count` cell that
  `to_numeric` reads as an infinity (`inf`, `-inf`, `Infinity`, `1e999`)
  survives `fillna(0)`, and `astype(int)` then raises, so the script stops at
  line 46, 50 or 54. The model loads such a cell as 0 and does not fail. A
  `count` column of only `True` and `False` is read by pandas as booleans and
  loads as 1 and 0; the model loads every such cell as 0.
- A table without a `name` column loads. For the institution or topic table
  the `KeyError` at line 98 or 99 is modelled by `Dashboard.TopName`. The
  type table's `name` column is first used by the donut chart at lines
  274-275, where plotly raises a `ValueError`. Its later uses at lines 299,
  326 and 330 are never reached. Charts are display only.
- `Loader.ReadLabel`: the `m`-th repeat of a label `x` is named `x.m`.
  pandas also skips a name that an earlier column already has, so a header
  holding `x.1` before two `x` fields names the second `x` differently.
  The renamed label ends in a digit either way, so which columns the script
  reads does not change (`Loader.ReadLabelFacts`).
- `Loader.LoadNames`: with two labels that strip to `name`, the row's name is
  read from the first such column. The script's `.iloc[0]["name"]` (lines
  98-99) is then a two-element series, which line 104 shows whole.
- `Loader.LoadCountries`: with two labels that strip to `country`, the row's
  country is read from the first such column. The script's
  `institution_df["country"]` is then a frame, which has no `unique`, so line
  70 raises `AttributeError` and the script stops before any figure.
- `Dashboard.HeadlinesFacts`: `Loader.NameText` reads a missing name as the
  empty string and a numeric one as its decimal text. When the top
  institution's name is missing, or the `name` column is all numeric, the
  script's `len(top_inst)` at line 104 raises `TypeError` and the script
  stops. The model instead shows the empty string or the digits, so the KPI
  figures exist in cases where the script fails.
- `Text.IsSpace` covers the ASCII and Latin-1 whitespace that `str.isspace`
  recognises, not the rest of Unicode.
- Streamlit, the page styling and Plotly: they only display the modelled
  series. The sliders' bounds (5 to the table length) are UI limits; the
  model takes any `n`.
- The sidebar's row counts, lines 77-79, are plain table lengths.
- The tables and charts sorted for display at lines 129, 190, 219, 263, 296
  and 348: display only.
- `Cumulative.SharesReorderTypes`: line 322 uses `sort_values`, whose default
  quicksort is not stable. The model sorts stably, which keeps types of equal
  count in table order.
  - Every proved property of the cumulative series except the exact order of
    equal counts holds for any descending order.
  - The worked example assumes the stable order.
- `Ranking.NLargestKeepsFirst`: pandas takes the earliest rows among equal
  counts only when `n` is less than the number of rows. Otherwise `nlargest`
  returns `sort_values(ascending=False)`, which is not stable, so there the
  input order among equal counts is the model's choice. That path is common
  here: a country filter leaving fewer than `n` rows, or at most 12 country
  groups at line 153.
- `Ranking.NLargestAll`: for the same reason, equality with the stable
  `SortDesc` is the model's choice; pandas promises only a descending
  reordering of the same rows.
- `Cumulative.PercentagesDefined`: the percentages are exact rationals, not
  IEEE doubles, so rounding is not modelled.
  - A zero total gives no percentage.
  - The code gives NaN or an infinity there, where a dashboard would
    evidently rather show 0; the model follows the code.
- `Countries.GroupSumKeys`: `groupby` drops rows without a country, so the
  per-country sums add up to the located rows, not to all rows. The model
  follows the code, and proves conservation over all rows when every row has
  a country.
- `Dashboard.TopRecordIsFirstMax`: an empty table has no top record.
  - `iloc[0]` then raises, and the model returns `Err(EmptyTable)`.
  - An empty series is fine for the charts, but not for the KPI cards; the
    model follows the code.
- A country literally named `"All"` cannot be selected: the filter treats that
  choice as no filter, as the script does.

## Findings

No finding: the verified contracts did not show a case where the code does
something its authors evidently did not intend.
