/** `load_data`: each tab-separated table is read, its column labels are
    stripped of surrounding whitespace, and its `count` column is replaced by
    integers, with `0` for missing or non-numeric values. Reading the file is
    not modelled: a table arrives as its header fields and the fields of each
    later line. */
module Loader {
  import opened Results
  import opened Text
  import opened Records

  /** A table as split into fields at its tabs: the header (the first line
      that is not blank) and every line after it. */
  datatype RawTable = RawTable(header: seq<string>, lines: seq<seq<string>>)

  /** A cell of a data frame: missing (NaN), text, or an integer. */
  datatype Cell = Missing | Str(text: string) | Int(value: int)

  /** The field texts `read_csv` reads as missing by default. */
  const MissingMarkers: set<string> := {
    "", "#N/A", "#N/A N/A", "#NA", "-1.#IND", "-1.#QNAN", "-NaN", "-nan", "1.#IND",
    "1.#QNAN", "<NA>", "N/A", "NA", "NULL", "NaN", "None", "n/a", "nan", "null"
  }

  // ---------------------------------------------------------------------
  // What `read_csv` makes of the lines

  /** A line `read_csv` skips: no tab, and nothing but spaces. A line of
      tabs alone is not blank: under `sep="\t"` it is a row of empty
      fields. */
  predicate Blank(line: seq<string>) {
    |line| == 1 && forall i :: 0 <= i < |line[0]| ==> line[0][i] == ' '
  }

  /** The lines that become rows, in file order. */
  function DataLines(lines: seq<seq<string>>): (kept: seq<seq<string>>)
    ensures |kept| <= |lines|
  {
    if lines == [] then []
    else if Blank(lines[0]) then DataLines(lines[1..])
    else [lines[0]] + DataLines(lines[1..])
  }

  /** The kept lines are the lines that are not blank, in file order: they
      form a subsequence of the file holding each line that is not blank as
      often as the file does and no blank line, and a file without blank
      lines is kept whole. */
  lemma DataLinesFacts(lines: seq<seq<string>>)
    ensures var kept := DataLines(lines);
      && IsSubsequence(kept, lines)
      && (forall l :: multiset(kept)[l] == if Blank(l) then 0 else multiset(lines)[l])
      && (forall i :: 0 <= i < |kept| ==> !Blank(kept[i]))
      && ((forall i :: 0 <= i < |lines| ==> !Blank(lines[i])) ==> kept == lines)
  {
    DataLinesOrder(lines);
    DataLinesCounts(lines);
    DataLinesNotBlank(lines);
    if forall i :: 0 <= i < |lines| ==> !Blank(lines[i]) {
      DataLinesWhole(lines);
    }
  }

  lemma {:induction false} DataLinesOrder(lines: seq<seq<string>>)
    ensures IsSubsequence(DataLines(lines), lines)
    decreases |lines|
  {
    if lines != [] {
      DataLinesOrder(lines[1..]);
      var kept := DataLines(lines);
      if !Blank(lines[0]) {
        assert kept[0] == lines[0] && kept[1..] == DataLines(lines[1..]);
      } else if kept != [] {
        DataLinesCounts(lines);
        assert kept[0] in multiset(kept);
        assert kept[0] != lines[0];
      }
    }
  }

  lemma {:induction false} DataLinesCounts(lines: seq<seq<string>>)
    ensures forall l :: multiset(DataLines(lines))[l] == if Blank(l) then 0 else multiset(lines)[l]
    decreases |lines|
  {
    if lines != [] {
      DataLinesCounts(lines[1..]);
      assert lines == [lines[0]] + lines[1..];
      assert multiset(lines) == multiset{lines[0]} + multiset(lines[1..]);
    }
  }

  lemma DataLinesNotBlank(lines: seq<seq<string>>)
    ensures var kept := DataLines(lines);
      forall i :: 0 <= i < |kept| ==> !Blank(kept[i])
  {
    var kept := DataLines(lines);
    DataLinesCounts(lines);
    forall i | 0 <= i < |kept| ensures !Blank(kept[i]) {
      assert kept[i] in multiset(kept);
    }
  }

  lemma {:induction false} DataLinesWhole(lines: seq<seq<string>>)
    requires forall i :: 0 <= i < |lines| ==> !Blank(lines[i])
    ensures DataLines(lines) == lines
    decreases |lines|
  {
    if lines != [] {
      assert forall i :: 0 <= i < |lines| - 1 ==> lines[1..][i] == lines[i + 1];
      DataLinesWhole(lines[1..]);
      assert lines == [lines[0]] + lines[1..];
    }
  }

  /** The number of leading fields that form the row index: when the first
      data line has more fields than the header, the extra fields at its
      start are read as the index, not as columns. */
  function Leading(header: seq<string>, kept: seq<seq<string>>): nat {
    if kept != [] && |kept[0]| > |header| then |kept[0]| - |header| else 0
  }

  /** The number of fields a line may have: the header's, widened by the
      index fields of the first data line. */
  function Width(raw: RawTable): nat {
    |raw.header| + Leading(raw.header, DataLines(raw.lines))
  }

  predicate TooLong(width: nat, line: seq<string>) {
    !Blank(line) && |line| > width
  }

  /** The first line with more fields than the frame has (`read_csv` stops there). */
  function FirstRagged(width: nat, lines: seq<seq<string>>): (r: Option<nat>)
    ensures r.Some? ==> (r.value < |lines| && TooLong(width, lines[r.value])
      && forall i :: 0 <= i < r.value ==> !TooLong(width, lines[i]))
    ensures r.None? ==> forall i :: 0 <= i < |lines| ==> !TooLong(width, lines[i])
  {
    if lines == [] then None
    else if TooLong(width, lines[0]) then Some(0)
    else match FirstRagged(width, lines[1..])
      case Some(i) => Some(i + 1)
      case None => None
  }

  /** The cell `read_csv` makes of field `j` of a line; a line with fewer
      fields than the frame has missing cells at its end. */
  function ReadField(line: seq<string>, j: nat): Cell {
    if j < |line| && line[j] !in MissingMarkers then Str(line[j]) else Missing
  }

  /** The columns `read_csv` builds from the data lines: `columns` of them,
      after the `lead` index fields. */
  function ReadColumns(columns: nat, kept: seq<seq<string>>, lead: nat): (data: seq<seq<Cell>>)
    ensures |data| == columns
    ensures forall j :: 0 <= j < columns ==> |data[j]| == |kept|
  {
    seq(columns, j requires 0 <= j < columns =>
      seq(|kept|, i requires 0 <= i < |kept| => ReadField(kept[i], lead + j)))
  }

  /** The label `read_csv` gives header field `j`: `Unnamed: j` for an empty
      field, `x.m` for the m-th repeat of a label `x`, and the field itself
      otherwise. */
  function ReadLabel(header: seq<string>, j: nat): string
    requires j < |header|
  {
    if header[j] == "" then "Unnamed: " + IntToText(j)
    else if header[j] in header[..j] then header[j] + "." + IntToText(multiset(header[..j])[header[j]])
    else header[j]
  }

  function ReadLabels(header: seq<string>): seq<string> {
    seq(|header|, j requires 0 <= j < |header| => ReadLabel(header, j))
  }

  /** The labels that name the columns the script reads. */
  const ReadNames: set<string> := {"name", "count", "country"}

  /** A label ending in a digit never strips to `name`, `count` or `country`. */
  lemma DigitEndNotRead(s: string)
    requires s != [] && IsDigit(s[|s| - 1])
    ensures Strip(s) !in ReadNames
  {
    var i, j := StripMargins(s);
    assert Strip(s)[|Strip(s)| - 1] == s[|s| - 1];
  }

  /** A field that is not empty and repeats no earlier field keeps its label;
      the label `read_csv` gives any other field never strips to one the
      script reads, so renaming repeats does not change which columns are read. */
  lemma ReadLabelFacts(header: seq<string>, j: nat)
    requires j < |header|
    ensures header[j] != "" && header[j] !in header[..j] ==> ReadLabels(header)[j] == header[j]
    ensures header[j] == "" || header[j] in header[..j] ==> Strip(ReadLabels(header)[j]) !in ReadNames
  {
    if header[j] == "" || header[j] in header[..j] {
      var suffix := if header[j] == "" then IntToText(j) else IntToText(multiset(header[..j])[header[j]]);
      IntToTextShape(if header[j] == "" then j else multiset(header[..j])[header[j]]);
      var l := ReadLabels(header)[j];
      assert l[|l| - 1] == suffix[|suffix| - 1];
      DigitEndNotRead(l);
    }
  }

  // ---------------------------------------------------------------------
  // The frame

  /** `pd.to_numeric(cell, errors="coerce").fillna(0).astype(int)` for one cell.
      A column read from text holds no integers; the `Int` case keeps the
      coercion total over cells. */
  function Coerce(c: Cell): int {
    match c
    case Missing => 0
    case Int(n) => n
    case Str(s) => match ParseInt(s) case Some(n) => n case None => 0
  }

  function CoerceColumn(col: seq<Cell>): seq<Cell> {
    seq(|col|, i requires 0 <= i < |col| => Int(Coerce(col[i])))
  }

  /** `frame.columns.str.strip()`. */
  function StripAll(labels: seq<string>): seq<string> {
    seq(|labels|, j requires 0 <= j < |labels| => Strip(labels[j]))
  }

  /** The position of the first column labelled `wanted`. */
  function IndexOf(labels: seq<string>, wanted: string): (r: Option<nat>)
    ensures r.Some? ==> r.value < |labels|
  {
    if labels == [] then None
    else if labels[0] == wanted then Some(0)
    else match IndexOf(labels[1..], wanted)
      case Some(j) => Some(j + 1)
      case None => None
  }

  /** The position found holds the wanted label and no earlier one does; none
      is found exactly when no label is the wanted one. */
  lemma {:induction false} IndexOfFacts(labels: seq<string>, wanted: string)
    ensures var r := IndexOf(labels, wanted);
      && (r.Some? ==> labels[r.value] == wanted && forall j :: 0 <= j < r.value ==> labels[j] != wanted)
      && (r.None? <==> wanted !in labels)
  {
    if labels != [] && labels[0] != wanted {
      IndexOfFacts(labels[1..], wanted);
      assert labels == [labels[0]] + labels[1..];
      forall j | 1 <= j < |labels| ensures labels[j] == labels[1..][j - 1] {}
    }
  }

  /** The one column `frame[wanted]` selects as a series: a `KeyError` when no
      column has that label, and several columns (which `to_numeric` refuses)
      when more than one has it. */
  function SingleColumn(labels: seq<string>, wanted: string): (r: Result<nat>)
    ensures r.Ok? ==> IndexOf(labels, wanted) == Some(r.value)
  {
    match IndexOf(labels, wanted)
    case None => Err(MissingColumn(wanted))
    case Some(k) => if wanted in labels[k + 1..] then Err(AmbiguousColumn(wanted)) else Ok(k)
  }

  /** `frame[wanted]` fails with a `KeyError` exactly when no label is the
      wanted one, and as ambiguous exactly when two are; otherwise it finds
      the only column with that label. */
  lemma SingleColumnFacts(labels: seq<string>, wanted: string)
    ensures var r := SingleColumn(labels, wanted);
      && (r == Err(MissingColumn(wanted)) <==> wanted !in labels)
      && (r == Err(AmbiguousColumn(wanted)) <==>
            exists a, b :: 0 <= a < b < |labels| && labels[a] == wanted && labels[b] == wanted)
      && (r.Err? ==> r.error == MissingColumn(wanted) || r.error == AmbiguousColumn(wanted))
      && (r.Ok? ==> (r.value < |labels| && labels[r.value] == wanted
            && forall j :: 0 <= j < |labels| && j != r.value ==> labels[j] != wanted))
  {
    IndexOfFacts(labels, wanted);
    match IndexOf(labels, wanted)
    case None =>
    case Some(k) =>
      if wanted in labels[k + 1..] {
        var b :| k + 1 <= b < |labels| && labels[b] == wanted;
      } else {
        forall j | k < j < |labels| ensures labels[j] != wanted {
          assert labels[j] == labels[k + 1..][j - k - 1];
        }
      }
  }

  predicate Rectangular(labels: seq<string>, data: seq<seq<Cell>>, height: nat) {
    |data| == |labels| && forall j :: 0 <= j < |data| ==> |data[j]| == height
  }

  /** The `count` column, if there is one, holds integers. */
  predicate CountCoerced(labels: seq<string>, data: seq<seq<Cell>>)
    requires |data| == |labels|
  {
    match IndexOf(labels, "count")
    case None => true
    case Some(k) => forall i :: 0 <= i < |data[k]| ==> data[k][i].Int?
  }

  /** A name cell as text; the `Int` case is there for totality only, since
      only the `count` column holds integers. */
  function NameText(c: Cell): string {
    match c
    case Missing => ""
    case Str(s) => s
    case Int(n) => IntToText(n)
  }

  /** A country cell, `None` when missing; the `Int` case is there for
      totality only. */
  function CountryText(c: Cell): Option<string> {
    match c
    case Missing => None
    case Str(s) => Some(s)
    case Int(n) => Some(IntToText(n))
  }

  /** The rows the rest of the script reads from a loaded frame through its
      `name`, `count` and (when present) `country` columns. */
  function TableOf(labels: seq<string>, data: seq<seq<Cell>>, height: nat): Table
    requires Rectangular(labels, data, height) && CountCoerced(labels, data)
    requires IndexOf(labels, "count").Some?
  {
    var n := IndexOf(labels, "name");
    var k := IndexOf(labels, "count").value;
    var c := IndexOf(labels, "country");
    Table(n.Some?, c.Some?, seq(height, i requires 0 <= i < height =>
      Row(if n.Some? then NameText(data[n.value][i]) else "", data[k][i].value,
          if c.Some? then CountryText(data[c.value][i]) else None)))
  }

  /** The table a read frame gives once its labels are stripped: the failure
      of line 46 when no label, or more than one, is `count`; otherwise its
      rows, with the `count` column coerced to integers. */
  function Coerced(labels: seq<string>, data: seq<seq<Cell>>, height: nat): Result<Table>
    requires Rectangular(labels, data, height)
  {
    match SingleColumn(labels, "count")
    case Err(e) => Err(e)
    case Ok(k) =>
      CoercionKeepsShape(labels, data, height, k);
      Ok(TableOf(labels, data[k := CoerceColumn(data[k])], height))
  }

  /** What loading a table yields: the failure of `read_csv` on a line that
      is too long, or else the table of the read frame (see `Coerced`). */
  function Load(raw: RawTable): Result<Table> {
    var kept := DataLines(raw.lines);
    match FirstRagged(Width(raw), raw.lines)
    case Some(i) => Err(RaggedRow(i))
    case None => Build(Labels(raw), kept, Leading(raw.header, kept))
  }

  /** The table of the frame read from the data lines `kept`, after `lead`
      index fields, under the stripped `labels`. */
  function Build(labels: seq<string>, kept: seq<seq<string>>, lead: nat): Result<Table> {
    Coerced(labels, ReadColumns(|labels|, kept, lead), |kept|)
  }

  /** Replacing the `count` column by its coercion keeps the frame
      rectangular and leaves integers in that column. */
  lemma CoercionKeepsShape(labels: seq<string>, data: seq<seq<Cell>>, height: nat, k: nat)
    requires Rectangular(labels, data, height) && IndexOf(labels, "count") == Some(k)
    ensures Rectangular(labels, data[k := CoerceColumn(data[k])], height)
    ensures CountCoerced(labels, data[k := CoerceColumn(data[k])])
  {
  }

  /** A data frame whose column labels and columns the script reassigns. */
  class Frame {
    var labels: seq<string>
    var data: seq<seq<Cell>>  // data[j] is the column labelled labels[j]
    var height: nat

    ghost predicate Valid()
      reads this
    {
      Rectangular(labels, data, height)
    }

    /** `pd.read_csv(path, sep="\t")` on a file split into fields, when no
        line is too long. */
    constructor (header: seq<string>, lines: seq<seq<string>>)
      requires FirstRagged(|header| + Leading(header, DataLines(lines)), lines).None?
      ensures Valid()
      ensures labels == ReadLabels(header) && height == |DataLines(lines)|
      ensures data == ReadColumns(|header|, DataLines(lines), Leading(header, DataLines(lines)))
    {
      var kept := DataLines(lines);
      labels := ReadLabels(header);
      data := ReadColumns(|header|, kept, Leading(header, kept));
      height := |kept|;
    }

    /** `frame.columns = frame.columns.str.strip()`. */
    method StripLabels()
      requires Valid()
      modifies this
      ensures Valid()
      ensures labels == StripAll(old(labels)) && data == old(data) && height == old(height)
    {
      labels := StripAll(labels);
    }

    /** `frame["count"] = pd.to_numeric(frame["count"], errors="coerce").fillna(0).astype(int)`;
        without a `count` column the read raises `KeyError`, with several
        `to_numeric` raises `TypeError`, and nothing changes. */
    method CoerceCount() returns (found: Result<nat>)
      requires Valid()
      modifies this
      ensures Valid()
      ensures found == SingleColumn(labels, "count")
      ensures labels == old(labels) && height == old(height)
      ensures found.Err? ==> data == old(data)
      ensures found.Ok? ==> data == old(data)[found.value := CoerceColumn(old(data)[found.value])]
      ensures found.Ok? ==> CountCoerced(labels, data)
    {
      found := SingleColumn(labels, "count");
      if found.Ok? {
        data := data[found.value := CoerceColumn(data[found.value])];
      }
    }

    function Rows(): Table
      reads this
      requires Valid() && CountCoerced(labels, data) && IndexOf(labels, "count").Some?
    {
      TableOf(labels, data, height)
    }
  }

  /** One table of `load_data`: read, strip the labels, coerce `count`. */
  method LoadTable(raw: RawTable) returns (r: Result<Table>)
    ensures r == Load(raw)
  {
    var ragged := FirstRagged(Width(raw), raw.lines);
    if ragged.Some? {
      return Err(RaggedRow(ragged.value));
    }
    var frame := new Frame(raw.header, raw.lines);
    frame.StripLabels();
    var found := frame.CoerceCount();
    if found.Err? {
      return Err(found.error);
    }
    r := Ok(frame.Rows());
  }

  /** `load_data()`: the institution, topic and type tables, in that order;
      the first failure stops the script. */
  method LoadData(institution: RawTable, topic: RawTable, ctype: RawTable)
    returns (r: Result<(Table, Table, Table)>)
    ensures r.Ok? <==> Load(institution).Ok? && Load(topic).Ok? && Load(ctype).Ok?
    ensures r.Ok? ==> r.value == (Load(institution).value, Load(topic).value, Load(ctype).value)
    ensures r.Err? ==> r.error == (if Load(institution).Err? then Load(institution).error
                                   else if Load(topic).Err? then Load(topic).error
                                   else Load(ctype).error)
  {
    var i := LoadTable(institution);
    if i.Err? { return Err(i.error); }
    var t := LoadTable(topic);
    if t.Err? { return Err(t.error); }
    var c := LoadTable(ctype);
    if c.Err? { return Err(c.error); }
    r := Ok((i.value, t.value, c.value));
  }

  // ---------------------------------------------------------------------
  // What loading promises

  /** The stripped labels of a table's columns. */
  function Labels(raw: RawTable): seq<string> {
    StripAll(ReadLabels(raw.header))
  }

  /** The field of a line under column `j` of the frame, as text, or nothing
      when the cell is missing. */
  function FieldText(line: seq<string>, lead: nat, j: nat): Option<string> {
    match ReadField(line, lead + j)
    case Str(s) => Some(s)
    case _ => None
  }

  /** The value the coercion gives a field: its integer, or `0` when the field
      is missing or not a number. */
  function FieldValue(field: Option<string>): int {
    if field.Some? && ParseInt(field.value).Some? then ParseInt(field.value).value else 0
  }

  /** A coerced frame keeps its height, and has a `name` or `country` column
      exactly when some label is `name` or `country`. */
  lemma CoercedShape(labels: seq<string>, data: seq<seq<Cell>>, height: nat)
    requires Rectangular(labels, data, height) && Coerced(labels, data, height).Ok?
    ensures var t := Coerced(labels, data, height).value;
      && |t.rows| == height
      && t.hasName == ("name" in labels)
      && t.hasCountry == ("country" in labels)
      && WellFormed(t)
  {
    IndexOfFacts(labels, "name");
    IndexOfFacts(labels, "country");
  }

  /** Row `i` of a coerced frame: its count is the coerced cell of the
      `count` column, and its name and country are the cells of the first
      `name` and `country` columns. */
  lemma CoercedRow(labels: seq<string>, data: seq<seq<Cell>>, height: nat, i: nat)
    requires Rectangular(labels, data, height) && Coerced(labels, data, height).Ok? && i < height
    ensures SingleColumn(labels, "count").Ok?
    ensures var row := Coerced(labels, data, height).value.rows[i];
      var n := IndexOf(labels, "name");
      var c := IndexOf(labels, "country");
      && row.count == Coerce(data[SingleColumn(labels, "count").value][i])
      && (n.Some? ==> row.name == NameText(data[n.value][i]))
      && (c.Some? ==> row.country == CountryText(data[c.value][i]))
  {
    var k := SingleColumn(labels, "count").value;
    CoercionKeepsShape(labels, data, height, k);
    var n := IndexOf(labels, "name");
    var c := IndexOf(labels, "country");
    assert (n.Some? ==> n.value != k) && (c.Some? ==> c.value != k) by {
      IndexOfFacts(labels, "name");
      IndexOfFacts(labels, "country");
      IndexOfFacts(labels, "count");
    }
    var coerced := data[k := CoerceColumn(data[k])];
    TableOfRow(labels, coerced, height, i);
  }

  lemma TableOfRow(labels: seq<string>, data: seq<seq<Cell>>, height: nat, i: nat)
    requires Rectangular(labels, data, height) && CountCoerced(labels, data)
    requires IndexOf(labels, "count").Some? && i < height
    ensures var n := IndexOf(labels, "name");
      var c := IndexOf(labels, "country");
      TableOf(labels, data, height).rows[i]
        == Row(if n.Some? then NameText(data[n.value][i]) else "",
               data[IndexOf(labels, "count").value][i].value,
               if c.Some? then CountryText(data[c.value][i]) else None)
  {
  }

  /** A loaded table has one row per line that is not blank, and a `name` or
      `country` column exactly when some label strips to it. */
  lemma LoadShape(raw: RawTable)
    requires Load(raw).Ok?
    ensures var t := Load(raw).value;
      && |t.rows| == |DataLines(raw.lines)|
      && t.hasName == ("name" in Labels(raw))
      && t.hasCountry == ("country" in Labels(raw))
      && WellFormed(t)
  {
    var kept := DataLines(raw.lines);
    CoercedShape(Labels(raw), ReadColumns(|Labels(raw)|, kept, Leading(raw.header, kept)), |kept|);
  }

  /** The count of row `i` of the table built from the data lines `kept`,
      read after `lead` index fields, is the value of its `count` field. */
  lemma BuiltCount(labels: seq<string>, kept: seq<seq<string>>, lead: nat, i: nat)
    requires Build(labels, kept, lead).Ok? && i < |kept|
    ensures SingleColumn(labels, "count").Ok?
    ensures Build(labels, kept, lead).value.rows[i].count
      == FieldValue(FieldText(kept[i], lead, SingleColumn(labels, "count").value))
  {
    CoercedRow(labels, ReadColumns(|labels|, kept, lead), |kept|, i);
    var k := SingleColumn(labels, "count").value;
    ReadCell(|labels|, kept, lead, k, i);
    CoerceField(kept[i], lead, k);
  }

  /** The name of row `i` is its field under the first `name` column. */
  lemma BuiltName(labels: seq<string>, kept: seq<seq<string>>, lead: nat, i: nat)
    requires Build(labels, kept, lead).Ok? && i < |kept|
    requires IndexOf(labels, "name").Some?
    ensures Build(labels, kept, lead).value.rows[i].name
      == NameText(ReadField(kept[i], lead + IndexOf(labels, "name").value))
  {
    CoercedRow(labels, ReadColumns(|labels|, kept, lead), |kept|, i);
    ReadCell(|labels|, kept, lead, IndexOf(labels, "name").value, i);
  }

  /** The country of row `i` is its field under the first `country` column. */
  lemma BuiltCountry(labels: seq<string>, kept: seq<seq<string>>, lead: nat, i: nat)
    requires Build(labels, kept, lead).Ok? && i < |kept|
    requires IndexOf(labels, "country").Some?
    ensures Build(labels, kept, lead).value.rows[i].country
      == CountryText(ReadField(kept[i], lead + IndexOf(labels, "country").value))
  {
    CoercedRow(labels, ReadColumns(|labels|, kept, lead), |kept|, i);
    ReadCell(|labels|, kept, lead, IndexOf(labels, "country").value, i);
  }

  lemma ReadCell(columns: nat, kept: seq<seq<string>>, lead: nat, j: nat, i: nat)
    requires j < columns && i < |kept|
    ensures ReadColumns(columns, kept, lead)[j][i] == ReadField(kept[i], lead + j)
  {
  }

  lemma CoerceField(line: seq<string>, lead: nat, j: nat)
    ensures Coerce(ReadField(line, lead + j)) == FieldValue(FieldText(line, lead, j))
  {
  }

  /** Row `i`'s count is the integer its `count` field spells, and `0` when
      that field is missing or is not a number. */
  lemma LoadCounts(raw: RawTable, i: nat)
    requires Load(raw).Ok? && i < |DataLines(raw.lines)|
    ensures var kept := DataLines(raw.lines);
      var k := SingleColumn(Labels(raw), "count").value;
      Load(raw).value.rows[i].count == FieldValue(FieldText(kept[i], Leading(raw.header, kept), k))
  {
    BuiltCount(Labels(raw), DataLines(raw.lines), Leading(raw.header, DataLines(raw.lines)), i);
  }

  /** Row `i`'s name is the field under the first `name` column. */
  lemma LoadNames(raw: RawTable, i: nat)
    requires Load(raw).Ok? && i < |DataLines(raw.lines)| && IndexOf(Labels(raw), "name").Some?
    ensures var kept := DataLines(raw.lines);
      Load(raw).value.rows[i].name
        == NameText(ReadField(kept[i], Leading(raw.header, kept) + IndexOf(Labels(raw), "name").value))
  {
    BuiltName(Labels(raw), DataLines(raw.lines), Leading(raw.header, DataLines(raw.lines)), i);
  }

  /** Row `i`'s country is the field under the first `country` column. */
  lemma LoadCountries(raw: RawTable, i: nat)
    requires Load(raw).Ok? && i < |DataLines(raw.lines)| && IndexOf(Labels(raw), "country").Some?
    ensures var kept := DataLines(raw.lines);
      Load(raw).value.rows[i].country
        == CountryText(ReadField(kept[i], Leading(raw.header, kept) + IndexOf(Labels(raw), "country").value))
  {
    BuiltCountry(Labels(raw), DataLines(raw.lines), Leading(raw.header, DataLines(raw.lines)), i);
  }

  /** A count field that is the decimal text of `n` loads as `n`. */
  lemma LoadReadsNumbers(raw: RawTable, i: nat, n: int)
    requires Load(raw).Ok? && i < |DataLines(raw.lines)|
    requires var kept := DataLines(raw.lines);
      var j := Leading(raw.header, kept) + SingleColumn(Labels(raw), "count").value;
      j < |kept[i]| && kept[i][j] == IntToText(n)
    ensures Load(raw).value.rows[i].count == n
  {
    LoadCounts(raw, i);
    ParseRendered(n);
    NumberNotMissing(n);
  }

  /** No missing marker is the decimal text of an integer. */
  lemma NumberNotMissing(n: int)
    ensures IntToText(n) !in MissingMarkers
  {
    IntToTextShape(n);
  }

  lemma LoadFailsOnRagged(raw: RawTable)
    ensures FirstRagged(Width(raw), raw.lines).Some? ==> Load(raw) == Err(RaggedRow(FirstRagged(Width(raw), raw.lines).value))
    ensures FirstRagged(Width(raw), raw.lines).Some? <==>
      exists i :: 0 <= i < |raw.lines| && TooLong(Width(raw), raw.lines[i])
  {
  }

  lemma LoadFailsOnCount(raw: RawTable)
    requires FirstRagged(Width(raw), raw.lines).None?
    ensures SingleColumn(Labels(raw), "count").Err? ==> Load(raw) == Err(SingleColumn(Labels(raw), "count").error)
    ensures SingleColumn(Labels(raw), "count").Ok? ==> Load(raw).Ok?
  {
  }

  /** Loading fails exactly when a line that is not blank has more fields
      than the header and the first data line, or when no label, or more
      than one, strips to `count`; the error names the first such line, or
      the `count` column. */
  lemma LoadFailures(raw: RawTable)
    ensures Load(raw).Err? <==>
      (exists i :: 0 <= i < |raw.lines| && TooLong(Width(raw), raw.lines[i]))
      || "count" !in Labels(raw)
      || exists a, b :: 0 <= a < b < |Labels(raw)| && Labels(raw)[a] == "count" && Labels(raw)[b] == "count"
    ensures Load(raw).Err? && Load(raw).error.RaggedRow? ==>
      var i := Load(raw).error.line;
      i < |raw.lines| && TooLong(Width(raw), raw.lines[i])
      && forall j :: 0 <= j < i ==> !TooLong(Width(raw), raw.lines[j])
    ensures Load(raw).Err? && !Load(raw).error.RaggedRow? ==>
      Load(raw).error in {MissingColumn("count"), AmbiguousColumn("count")}
  {
    LoadFailsOnRagged(raw);
    SingleColumnFacts(Labels(raw), "count");
    if FirstRagged(Width(raw), raw.lines).None? {
      LoadFailsOnCount(raw);
    }
  }

  /** Every missing marker but the empty one has at least two characters. */
  lemma OneCharNotMissing(t: string)
    requires |t| == 1
    ensures t !in MissingMarkers
  {
  }

  /** The reading of a header shorter than its data lines: the first field
      of each line is the row index, and the names and counts come from the
      fields after it. */
  lemma LeadingIndexExample()
    ensures Load(RawTable(["name", "count"], [["0", "a", "1"], ["1", "b", "2"]]))
      == Ok(Table(true, false, [Row("a", 1, None), Row("b", 2, None)]))
  {
    ExampleFrame();
    ExampleBuild();
  }

  /** The frame of the example: no blank or ragged line, one index field,
      and labels that strip to themselves. */
  lemma ExampleFrame()
    ensures var raw := RawTable(["name", "count"], [["0", "a", "1"], ["1", "b", "2"]]);
      && DataLines(raw.lines) == raw.lines
      && Leading(raw.header, raw.lines) == 1
      && FirstRagged(Width(raw), raw.lines) == None
      && Labels(raw) == ["name", "count"]
  {
    var raw := RawTable(["name", "count"], [["0", "a", "1"], ["1", "b", "2"]]);
    var lines := raw.lines;
    assert DataLines(lines) == lines by {
      assert !Blank(lines[0]) && !Blank(lines[1]);
      DataLinesFacts(lines);
    }
    assert FirstRagged(3, lines) == None by {
      assert lines[1..][1..] == [];
    }
    assert Labels(raw) == ["name", "count"] by {
      StripIdentity("name");
      StripIdentity("count");
      assert raw.header[..1] == ["name"];
      assert ReadLabel(raw.header, 1) == "count";
    }
  }

  /** The cells the example's frame reads after its index field. */
  lemma ExampleRead()
    ensures var read := ReadColumns(2, [["0", "a", "1"], ["1", "b", "2"]], 1);
      read[0] == [Str("a"), Str("b")] && read[1] == [Str("1"), Str("2")]
  {
    var lines := [["0", "a", "1"], ["1", "b", "2"]];
    var read := ReadColumns(2, lines, 1);
    assert read[0] == [Str("a"), Str("b")] by {
      ReadCell(2, lines, 1, 0, 0);
      ReadCell(2, lines, 1, 0, 1);
      OneCharNotMissing("a");
      OneCharNotMissing("b");
    }
    assert read[1] == [Str("1"), Str("2")] by {
      ReadCell(2, lines, 1, 1, 0);
      ReadCell(2, lines, 1, 1, 1);
      OneCharNotMissing("1");
      OneCharNotMissing("2");
    }
  }

  /** Where the example's columns are. */
  lemma ExampleColumns()
    ensures var labels := ["name", "count"];
      && SingleColumn(labels, "count") == Ok(1)
      && IndexOf(labels, "name") == Some(0)
      && IndexOf(labels, "country") == None
  {
    var labels := ["name", "count"];
    assert labels[1..][0] == "count" && labels[2..] == [] && labels[1..][1..] == [];
  }

  /** The table the example's frame gives. */
  lemma ExampleBuild()
    ensures Build(["name", "count"], [["0", "a", "1"], ["1", "b", "2"]], 1)
      == Ok(Table(true, false, [Row("a", 1, None), Row("b", 2, None)]))
  {
    var labels := ["name", "count"];
    var lines := [["0", "a", "1"], ["1", "b", "2"]];
    ExampleColumns();
    var read := ReadColumns(2, lines, 1);
    ExampleRead();
    var coerced := read[1 := CoerceColumn(read[1])];
    assert coerced[1] == [Int(1), Int(2)] by {
      ParseRendered(1);
      ParseRendered(2);
    }
    assert Build(labels, lines, 1) == Ok(TableOf(labels, coerced, 2));
    var t := TableOf(labels, coerced, 2);
    assert coerced[0] == [Str("a"), Str("b")];
    assert t.rows[0] == Row("a", 1, None) && t.rows[1] == Row("b", 2, None) by {
      CoercionKeepsShape(labels, read, 2, 1);
      TableOfRow(labels, coerced, 2, 0);
      TableOfRow(labels, coerced, 2, 1);
    }
    assert t.rows == [Row("a", 1, None), Row("b", 2, None)];
  }
}
