/**
 * The dashboard front end: the column check, the cleaning of the three
 * required columns, the normalisation and explode of `Cancer Type`, the option
 * lists of the three multi-selects, and the filter chain.
 */
module Dashboard {
  import opened Wrappers
  import opened Ascii
  import opened Seqs
  import opened Collation
  import opened Schema

  /** A cell of the data frame: NaN, a text, or (between the split and the explode of `Cancer Type` only) a list of texts. */
  datatype Cell = Missing | Text(text: string) | Items(items: seq<string>)

  /** A row of the data frame; a column the row has no entry for holds NaN. */
  type Record = map<string, Cell>

  /** A row as the CSV reader delivers it: a text per column, None for an empty field. */
  type RawRecord = map<string, Option<string>>

  const Unknown: string := "Unknown"

  function Get(r: Record, column: string): Cell {
    if column in r then r[column] else Missing
  }

  function FromRaw(raw: RawRecord): Record {
    map k | k in raw :: if raw[k].Some? then Text(raw[k].value) else Missing
  }

  function Loaded(raw: seq<RawRecord>): (rows: seq<Record>)
    ensures |rows| == |raw|
  {
    seq(|raw|, i requires 0 <= i < |raw| => FromRaw(raw[i]))
  }

  // ---------------------------------------------------------------------------
  // Column check and missing values
  // ---------------------------------------------------------------------------

  /** `all(col in df.columns for col in required_columns)`. */
  function HasRequiredColumns(columns: seq<string>): (ok: bool)
    ensures ok <==> CancerType in columns && BiomarkerCategory in columns && TestingMethod in columns
  {
    forall c :: c in Required ==> c in columns
  }

  function FillCell(c: Cell): Cell {
    if c.Missing? then Text(Unknown) else c
  }

  /** `fillna("Unknown")` on the three required columns of one row. */
  function FillRecord(r: Record): (f: Record)
    ensures forall c :: c in Required ==> !Get(f, c).Missing?
    ensures forall c :: c in Required && Get(r, c).Missing? ==> Get(f, c) == Text(Unknown)
    ensures forall c :: c in Required && !Get(r, c).Missing? ==> Get(f, c) == Get(r, c)
    ensures forall k :: k !in Required ==> Get(f, k) == Get(r, k)
  {
    r + map c | c in Required :: FillCell(Get(r, c))
  }

  /** `df[required_columns].fillna("Unknown")` on every row. */
  function Filled(rows: seq<Record>): (out: seq<Record>)
    ensures |out| == |rows|
    ensures forall i, c :: 0 <= i < |out| && c in Required ==> !Get(out[i], c).Missing?
    ensures forall i, c :: 0 <= i < |out| && c in Required ==>
      Get(out[i], c) == if Get(rows[i], c).Missing? then Text(Unknown) else Get(rows[i], c)
    ensures forall i, k :: 0 <= i < |out| && k !in Required ==> Get(out[i], k) == Get(rows[i], k)
  {
    seq(|rows|, i requires 0 <= i < |rows| => FillRecord(rows[i]))
  }

  // ---------------------------------------------------------------------------
  // Normalise and explode Cancer Type
  // ---------------------------------------------------------------------------

  /** Overwrites one column of every row with `f` of its old value (`df[column] = df[column].str....`). */
  function MapColumn(rows: seq<Record>, column: string, f: Cell -> Cell): (out: seq<Record>)
    ensures |out| == |rows|
    ensures forall i :: 0 <= i < |out| ==> Get(out[i], column) == f(Get(rows[i], column))
    ensures forall i, k :: 0 <= i < |out| && k != column ==> Get(out[i], k) == Get(rows[i], k)
  {
    seq(|rows|, i requires 0 <= i < |rows| => rows[i][column := f(Get(rows[i], column))])
  }

  /** `.str.replace("|", ",")`; a value that is not text becomes NaN. */
  function ReplaceCell(c: Cell): Cell {
    if c.Text? then Text(ReplaceChar(c.text, '|', ',')) else Missing
  }

  /** `.str.title().str.strip().str.split(",")`. */
  function SplitCell(c: Cell): Cell {
    if c.Text? then Items(Split(Strip(Title(c.text)), ',')) else Missing
  }

  /** `.str.strip()`. */
  function StripCell(c: Cell): Cell {
    if c.Text? then Text(Strip(c.text)) else Missing
  }

  /** `explode` for one row: a copy per list element; an empty list gives one row with NaN; a scalar stays. */
  function ExplodeRecord(r: Record): (out: seq<Record>)
    ensures |out| > 0
    ensures !Get(r, CancerType).Items? ==> out == [r]
    ensures Get(r, CancerType).Items? ==> |out| == if |Get(r, CancerType).items| == 0 then 1 else |Get(r, CancerType).items|
    ensures forall i :: 0 <= i < |out| ==> !Get(out[i], CancerType).Items?
    ensures forall i, k :: 0 <= i < |out| && k != CancerType ==> Get(out[i], k) == Get(r, k)
  {
    match Get(r, CancerType)
    case Items(items) =>
      if |items| == 0 then [r[CancerType := Missing]]
      else seq(|items|, i requires 0 <= i < |items| => r[CancerType := Text(items[i])])
    case _ => [r]
  }

  /** `df.explode("Cancer Type")`: the rows of each input row, in input order. */
  function Explode(rows: seq<Record>): (out: seq<Record>)
    ensures |out| >= |rows|
    ensures forall x :: x in out ==> exists i :: 0 <= i < |rows| && x in ExplodeRecord(rows[i])
  {
    if |rows| == 0 then []
    else Explode(rows[..|rows| - 1]) + ExplodeRecord(rows[|rows| - 1])
  }

  /**
   * The four reassignments of `Cancer Type` in order: replace, then
   * title/strip/split, then explode, then strip. At least one row per input
   * row comes out, and no list is left in the column.
   */
  function Normalised(rows: seq<Record>): (out: seq<Record>)
    ensures |out| >= |rows|
    ensures forall x :: x in out ==> !Get(x, CancerType).Items?
  {
    var replaced := MapColumn(rows, CancerType, ReplaceCell);
    var split := MapColumn(replaced, CancerType, SplitCell);
    MapColumn(Explode(split), CancerType, StripCell)
  }

  /**
   * The cancer types one text becomes: one per comma after the pipes are
   * turned into commas, plus one (empty ones included); none holds a pipe or
   * a comma or starts or ends with whitespace.
   */
  function CancerTypes(v: string): (types: seq<string>)
    ensures |types| == multiset(ReplaceChar(v, '|', ','))[','] + 1
    ensures |types| == multiset(v)['|'] + multiset(v)[','] + 1
    ensures forall i :: 0 <= i < |types| ==> Clean(types[i])
  {
    var trimmed := Strip(Title(ReplaceChar(v, '|', ',')));
    TrimmedText(v);
    var parts := Split(trimmed, ',');
    StrippedPartsClean(trimmed, parts);
    seq(|parts|, i requires 0 <= i < |parts| => Strip(parts[i]))
  }

  /**
   * What the cancer types are: the comma-free parts that, joined with commas,
   * give back the replaced, title-cased and stripped text, each part stripped.
   */
  lemma CancerTypesAreParts(v: string)
    ensures var trimmed := Strip(Title(ReplaceChar(v, '|', ',')));
      exists parts: seq<string> :: (|parts| == |CancerTypes(v)| && Join(parts, ',') == trimmed
        && (forall i :: 0 <= i < |parts| ==> ',' !in parts[i] && CancerTypes(v)[i] == Strip(parts[i])))
  {
    var trimmed := Strip(Title(ReplaceChar(v, '|', ',')));
    var parts := Split(trimmed, ',');
    var types := CancerTypes(v);
    assert types == seq(|parts|, i requires 0 <= i < |parts| => Strip(parts[i]));
    JoinedParts(trimmed, parts, types);
  }

  lemma JoinedParts(trimmed: string, parts: seq<string>, types: seq<string>)
    requires parts == Split(trimmed, ',')
    requires |types| == |parts| && forall i :: 0 <= i < |parts| ==> types[i] == Strip(parts[i])
    ensures exists parts: seq<string> :: (|parts| == |types| && Join(parts, ',') == trimmed
      && (forall i :: 0 <= i < |parts| ==> ',' !in parts[i] && types[i] == Strip(parts[i])))
  {
    SplitJoin(trimmed, ',');
  }

  /** Title-casing and stripping keep every comma of the replaced text and bring back no pipe. */
  lemma TrimmedText(v: string)
    ensures var trimmed := Strip(Title(ReplaceChar(v, '|', ',')));
      && '|' !in trimmed
      && multiset(trimmed)[','] == multiset(ReplaceChar(v, '|', ','))[',']
      && multiset(trimmed)[','] == multiset(v)['|'] + multiset(v)[',']
  {
    var replaced := ReplaceChar(v, '|', ',');
    var titled := Title(replaced);
    TitleKeepsCount(replaced, ',');
    TitleKeepsCount(replaced, '|');
    StripKeepsOthers(titled, ',');
    StripKeepsOthers(titled, '|');
    ReplaceCount(v, '|', ',');
  }

  lemma StrippedPartsClean(trimmed: string, parts: seq<string>)
    requires '|' !in trimmed
    requires forall i :: 0 <= i < |parts| ==> ',' !in parts[i]
    requires forall i, c :: 0 <= i < |parts| && c in parts[i] ==> c in trimmed
    ensures forall i :: 0 <= i < |parts| ==> Clean(Strip(parts[i]))
  {
    forall i | 0 <= i < |parts| ensures Clean(Strip(parts[i])) {
      StripKeepsOthers(parts[i], '|');
      StripKeepsOthers(parts[i], ',');
    }
  }

  /** A normalised cancer type: no separator left and no surrounding whitespace. */
  predicate Clean(t: string) {
    '|' !in t && ',' !in t && (|t| > 0 ==> !IsSpace(t[0]) && !IsSpace(t[|t| - 1]))
  }

  /**
   * What the normalisation of `Cancer Type` makes of one row: at least one
   * row, each with no list in that column and every other column as before.
   */
  function NormaliseRecord(r: Record): (out: seq<Record>)
    ensures |out| > 0
    ensures forall x :: x in out ==> !Get(x, CancerType).Items?
    ensures forall x, k :: x in out && k != CancerType ==> Get(x, k) == Get(r, k)
  {
    var split := r[CancerType := SplitCell(ReplaceCell(Get(r, CancerType)))];
    MapColumn(ExplodeRecord(split), CancerType, StripCell)
  }

  /** The rows produced from each input row, concatenated in input order. */
  function NormaliseEach(rows: seq<Record>): seq<Record> {
    if |rows| == 0 then []
    else NormaliseEach(rows[..|rows| - 1]) + NormaliseRecord(rows[|rows| - 1])
  }

  lemma MapColumnPrefix(rows: seq<Record>, column: string, f: Cell -> Cell)
    requires |rows| > 0
    ensures MapColumn(rows, column, f) ==
      MapColumn(rows[..|rows| - 1], column, f) + [rows[|rows| - 1][column := f(Get(rows[|rows| - 1], column))]]
  {
  }

  lemma {:induction false} MapColumnConcat(a: seq<Record>, b: seq<Record>, column: string, f: Cell -> Cell)
    ensures MapColumn(a + b, column, f) == MapColumn(a, column, f) + MapColumn(b, column, f)
  {
  }

  /** The normalisation works row by row and keeps the row order. */
  lemma {:induction false} NormalisedRowByRow(rows: seq<Record>)
    ensures Normalised(rows) == NormaliseEach(rows)
  {
    if |rows| > 0 {
      var n := |rows| - 1;
      var init, last := rows[..n], rows[n];
      NormalisedRowByRow(init);
      var replaced := MapColumn(rows, CancerType, ReplaceCell);
      var split := MapColumn(replaced, CancerType, SplitCell);
      MapColumnPrefix(rows, CancerType, ReplaceCell);
      MapColumnPrefix(replaced, CancerType, SplitCell);
      assert replaced[..n] == MapColumn(init, CancerType, ReplaceCell);
      var lastSplit := split[n];
      assert Explode(split) == Explode(MapColumn(MapColumn(init, CancerType, ReplaceCell), CancerType, SplitCell))
        + ExplodeRecord(lastSplit);
      MapColumnConcat(Explode(MapColumn(MapColumn(init, CancerType, ReplaceCell), CancerType, SplitCell)),
        ExplodeRecord(lastSplit), CancerType, StripCell);
      NormaliseOne(last);
    }
  }

  /** The four steps applied to a single row give `NormaliseRecord`. */
  lemma NormaliseOne(r: Record)
    ensures var replaced := r[CancerType := ReplaceCell(Get(r, CancerType))];
      var split := replaced[CancerType := SplitCell(Get(replaced, CancerType))];
      MapColumn(ExplodeRecord(split), CancerType, StripCell) == NormaliseRecord(r)
  {
    var replaced := r[CancerType := ReplaceCell(Get(r, CancerType))];
    assert replaced[CancerType := SplitCell(Get(replaced, CancerType))]
      == r[CancerType := SplitCell(ReplaceCell(Get(r, CancerType)))];
  }

  /** A text cancer type yields one copy of the row per cancer type in it, in order. */
  lemma NormaliseText(r: Record, v: string)
    requires Get(r, CancerType) == Text(v)
    ensures NormaliseRecord(r) == seq(|CancerTypes(v)|, i requires 0 <= i < |CancerTypes(v)| => r[CancerType := Text(CancerTypes(v)[i])])
  {
    var parts := Split(Strip(Title(ReplaceChar(v, '|', ','))), ',');
    assert SplitCell(ReplaceCell(Get(r, CancerType))) == Items(parts);
    ExplodeThenStrip(r, parts);
  }

  /** Any other cancer type yields the row once, with NaN there. */
  lemma NormaliseOther(r: Record)
    requires !Get(r, CancerType).Text?
    ensures NormaliseRecord(r) == [r[CancerType := Missing]]
  {
    assert SplitCell(ReplaceCell(Get(r, CancerType))) == Missing;
    var split := r[CancerType := Missing];
    assert Get(split, CancerType) == Missing;
    assert ExplodeRecord(split) == [split];
    var out := MapColumn([split], CancerType, StripCell);
    assert out[0] == split[CancerType := StripCell(Get(split, CancerType))];
    assert split[CancerType := Missing] == split;
    assert out == [split];
  }

  /** Exploding a non-empty list and stripping each element gives one copy of the row per stripped element. */
  lemma ExplodeThenStrip(r: Record, parts: seq<string>)
    requires |parts| > 0
    ensures var split := r[CancerType := Items(parts)];
      MapColumn(ExplodeRecord(split), CancerType, StripCell)
      == seq(|parts|, i requires 0 <= i < |parts| => r[CancerType := Text(Strip(parts[i]))])
  {
    var split := r[CancerType := Items(parts)];
    var exploded := ExplodeRecord(split);
    assert exploded == seq(|parts|, i requires 0 <= i < |parts| => split[CancerType := Text(parts[i])]);
    var out := MapColumn(exploded, CancerType, StripCell);
    forall i | 0 <= i < |parts| ensures out[i] == r[CancerType := Text(Strip(parts[i]))] {
      StripCopy(split, parts[i]);
    }
  }

  /** Stripping the cancer type of a copy is copying the stripped text. */
  lemma StripCopy(split: Record, p: string)
    ensures var copy := split[CancerType := Text(p)];
      copy[CancerType := StripCell(Get(copy, CancerType))] == split[CancerType := Text(Strip(p))]
  {
  }

  /**
   * Explode cardinality and copying: a row whose cancer type is the text `v`
   * becomes one row per comma of the replaced text plus one, in order, each
   * the input row with `Cancer Type` set to one clean cancer type and every
   * other column unchanged.
   */
  lemma NormaliseRecordSpec(r: Record, v: string)
    requires Get(r, CancerType) == Text(v)
    ensures |NormaliseRecord(r)| == multiset(ReplaceChar(v, '|', ','))[','] + 1
    ensures forall i :: 0 <= i < |NormaliseRecord(r)| ==>
      && Get(NormaliseRecord(r)[i], CancerType) == Text(CancerTypes(v)[i])
      && Clean(CancerTypes(v)[i])
      && NormaliseRecord(r)[i].Keys == r.Keys
      && forall k :: k != CancerType ==> Get(NormaliseRecord(r)[i], k) == Get(r, k)
  {
    NormaliseText(r, v);
    CopiesSpec(r, CancerTypes(v), NormaliseRecord(r));
  }

  lemma CopiesSpec(r: Record, types: seq<string>, out: seq<Record>)
    requires CancerType in r
    requires out == seq(|types|, i requires 0 <= i < |types| => r[CancerType := Text(types[i])])
    ensures |out| == |types|
    ensures forall i :: 0 <= i < |out| ==>
      && Get(out[i], CancerType) == Text(types[i])
      && out[i].Keys == r.Keys
      && forall k :: k != CancerType ==> Get(out[i], k) == Get(r, k)
  {
  }

  /** Every output row comes from some input row by `NormaliseRecord`. */
  lemma {:induction false} NormaliseEachOrigin(rows: seq<Record>, x: Record)
    requires x in NormaliseEach(rows)
    ensures exists i :: 0 <= i < |rows| && x in NormaliseRecord(rows[i])
  {
    var n := |rows| - 1;
    if x in NormaliseEach(rows[..n]) {
      NormaliseEachOrigin(rows[..n], x);
      var i :| 0 <= i < n && x in NormaliseRecord(rows[..n][i]);
      assert rows[..n][i] == rows[i];
    } else {
      assert x in NormaliseRecord(rows[n]);
    }
  }

  // ---------------------------------------------------------------------------
  // The prepared table
  // ---------------------------------------------------------------------------

  /** The table after loading, the missing-value fill and the normalisation: at least one row per record read. */
  function Prepared(raw: seq<RawRecord>): (table: seq<Record>)
    ensures |table| >= |raw|
    ensures forall x :: x in table ==> !Get(x, CancerType).Items?
  {
    Normalised(Filled(Loaded(raw)))
  }

  /** After preparation each required column holds text in every row, and every cancer type is clean. */
  lemma PreparedIsClean(raw: seq<RawRecord>)
    ensures forall x :: x in Prepared(raw) ==>
      && Get(x, CancerType).Text? && Clean(Get(x, CancerType).text)
      && Get(x, BiomarkerCategory).Text? && Get(x, TestingMethod).Text?
  {
    var filled := Filled(Loaded(raw));
    forall i | 0 <= i < |filled| ensures HasTextColumns(filled[i]) {
      LoadedIsScalar(raw, i);
      FilledIsText(Loaded(raw)[i]);
    }
    NormalisedIsClean(filled);
  }

  /** The three required columns hold text. */
  predicate HasTextColumns(r: Record) {
    Get(r, CancerType).Text? && Get(r, BiomarkerCategory).Text? && Get(r, TestingMethod).Text?
  }

  lemma LoadedIsScalar(raw: seq<RawRecord>, i: int)
    requires 0 <= i < |raw|
    ensures Scalar(Loaded(raw)[i])
  {
    assert Loaded(raw)[i] == FromRaw(raw[i]);
  }

  /** Normalising rows whose required columns hold text yields rows whose required columns hold text and clean cancer types. */
  lemma NormalisedIsClean(rows: seq<Record>)
    requires forall i :: 0 <= i < |rows| ==> HasTextColumns(rows[i])
    ensures forall x :: x in Normalised(rows) ==> HasTextColumns(x) && Clean(Get(x, CancerType).text)
  {
    NormalisedRowByRow(rows);
    forall x | x in Normalised(rows) ensures HasTextColumns(x) && Clean(Get(x, CancerType).text) {
      NormaliseEachOrigin(rows, x);
      var i :| 0 <= i < |rows| && x in NormaliseRecord(rows[i]);
      TextRowClean(rows[i], x);
    }
  }

  /** A row as read holds no lists. */
  predicate Scalar(r: Record) {
    forall k :: k in r ==> !r[k].Items?
  }

  lemma TextRowClean(f: Record, x: Record)
    requires HasTextColumns(f) && x in NormaliseRecord(f)
    ensures HasTextColumns(x) && Clean(Get(x, CancerType).text)
  {
    NormaliseRecordSpec(f, Get(f, CancerType).text);
    var j :| 0 <= j < |NormaliseRecord(f)| && NormaliseRecord(f)[j] == x;
  }

  lemma FilledIsText(r: Record)
    requires Scalar(r)
    ensures HasTextColumns(FillRecord(r))
  {
    assert CancerType in Required && BiomarkerCategory in Required && TestingMethod in Required;
  }

  // ---------------------------------------------------------------------------
  // Option lists of the three multi-selects
  // ---------------------------------------------------------------------------

  /** The text values of a column, row by row. */
  function ColumnValues(rows: seq<Record>, column: string): (values: seq<string>)
    ensures forall v :: v in values <==> exists i :: 0 <= i < |rows| && Get(rows[i], column) == Text(v)
  {
    if |rows| == 0 then []
    else
      var n := |rows| - 1;
      var init := ColumnValues(rows[..n], column);
      assert forall i :: 0 <= i < n ==> rows[..n][i] == rows[i];
      match Get(rows[n], column)
      case Text(v) => init + [v]
      case _ => init
  }

  /** `sorted(df[column].unique())`: each value present in the column once, ascending. */
  function Options(rows: seq<Record>, column: string): (options: seq<string>)
    ensures StrictlySorted(options)
    ensures forall i, j :: 0 <= i < j < |options| ==> options[i] != options[j]
    ensures forall v :: v in options <==> exists i :: 0 <= i < |rows| && Get(rows[i], column) == Text(v)
  {
    var options := SortedDistinct(ColumnValues(rows, column));
    SortedHasNoDuplicates(options);
    options
  }

  // ---------------------------------------------------------------------------
  // The filter chain
  // ---------------------------------------------------------------------------

  /** The three multi-select choices. */
  datatype Selections = Selections(cancerTypes: seq<string>, categories: seq<string>, methods: seq<string>)

  /** `df[column].isin(chosen)` for one row. */
  predicate IsIn(r: Record, column: string, chosen: seq<string>)
    ensures IsIn(r, column, chosen) <==> exists i :: 0 <= i < |chosen| && Get(r, column) == Text(chosen[i])
  {
    Get(r, column).Text? && Get(r, column).text in chosen
  }

  function InColumn(column: string, chosen: seq<string>): Record -> bool {
    r => IsIn(r, column, chosen)
  }

  /** An empty choice constrains nothing; otherwise the column value must be one of the chosen. */
  predicate Allows(r: Record, column: string, chosen: seq<string>) {
    |chosen| == 0 || IsIn(r, column, chosen)
  }

  function AllowsFn(column: string, chosen: seq<string>): Record -> bool {
    r => Allows(r, column, chosen)
  }

  /** A row passes the three filters (logical AND). */
  predicate Selected(r: Record, sel: Selections) {
    Allows(r, CancerType, sel.cancerTypes) && Allows(r, BiomarkerCategory, sel.categories)
    && Allows(r, TestingMethod, sel.methods)
  }

  function SelectedFn(sel: Selections): Record -> bool {
    r => Selected(r, sel)
  }

  predicate NoSelection(sel: Selections) {
    |sel.cancerTypes| == 0 && |sel.categories| == 0 && |sel.methods| == 0
  }

  /** One `if chosen: filtered_df = filtered_df[...isin(chosen)]` step is a selection by `Allows`. */
  lemma NarrowStep(rows: seq<Record>, column: string, chosen: seq<string>)
    ensures (if |chosen| > 0 then Where(rows, InColumn(column, chosen)) else rows) == Where(rows, AllowsFn(column, chosen))
  {
    if |chosen| > 0 {
      WhereExt(rows, InColumn(column, chosen), AllowsFn(column, chosen));
    } else {
      WhereAll(rows, AllowsFn(column, chosen));
    }
  }

  /**
   * What the filter chain keeps: exactly the rows of the table that pass all
   * three filters, in table order; no choice at all keeps the whole table.
   */
  lemma SelectionSpec(rows: seq<Record>, sel: Selections)
    ensures IsSubsequence(Where(rows, SelectedFn(sel)), rows)
    ensures forall x :: x in Where(rows, SelectedFn(sel)) <==> x in rows && Selected(x, sel)
    ensures NoSelection(sel) ==> Where(rows, SelectedFn(sel)) == rows
  {
    WhereIsSubsequence(rows, SelectedFn(sel));
    forall x ensures x in Where(rows, SelectedFn(sel)) <==> x in rows && Selected(x, sel) {
      WhereMembership(rows, SelectedFn(sel), x);
    }
    if NoSelection(sel) {
      WhereAll(rows, SelectedFn(sel));
    }
  }

  /** A kept row holds, in each column with a non-empty choice, one of the chosen values. */
  lemma SelectedValues(rows: seq<Record>, sel: Selections, x: Record)
    requires x in Where(rows, SelectedFn(sel))
    ensures |sel.cancerTypes| > 0 ==> Get(x, CancerType).Text? && Get(x, CancerType).text in sel.cancerTypes
    ensures |sel.categories| > 0 ==> Get(x, BiomarkerCategory).Text? && Get(x, BiomarkerCategory).text in sel.categories
    ensures |sel.methods| > 0 ==> Get(x, TestingMethod).Text? && Get(x, TestingMethod).text in sel.methods
  {
    WhereMembership(rows, SelectedFn(sel), x);
  }

  // ---------------------------------------------------------------------------
  // The script's data frame and one run of the script
  // ---------------------------------------------------------------------------

  /** The data frame `df` of the script, whose columns are overwritten step by step. */
  class Frame {
    var columns: seq<string>
    var rows: seq<Record>

    /** `df = pd.read_csv(...)`, given what the reader produced. */
    constructor (columns: seq<string>, raw: seq<RawRecord>)
      ensures this.columns == columns && rows == Loaded(raw)
    {
      this.columns := columns;
      rows := Loaded(raw);
    }

    /** `fillna("Unknown")` on the three required columns. */
    method FillMissing()
      modifies this
      ensures columns == old(columns) && rows == Filled(old(rows))
    {
      rows := Filled(rows);
    }

    /** The four reassignments of `df["Cancer Type"]`, and the explode, one statement each. */
    method NormaliseCancerType()
      modifies this
      ensures columns == old(columns) && rows == Normalised(old(rows))
    {
      rows := MapColumn(rows, CancerType, ReplaceCell);
      rows := MapColumn(rows, CancerType, SplitCell);
      rows := Explode(rows);
      rows := MapColumn(rows, CancerType, StripCell);
    }

    /** Start from a copy of the table and narrow it once per non-empty choice. */
    method ApplyFilters(sel: Selections) returns (filtered: seq<Record>)
      ensures filtered == Where(rows, SelectedFn(sel))
      ensures IsSubsequence(filtered, rows)
      ensures forall x :: x in filtered <==> x in rows && Selected(x, sel)
      ensures NoSelection(sel) ==> filtered == rows
    {
      filtered := rows;
      NarrowStep(filtered, CancerType, sel.cancerTypes);
      if |sel.cancerTypes| > 0 {
        filtered := Where(filtered, InColumn(CancerType, sel.cancerTypes));
      }
      ghost var first := filtered;
      NarrowStep(filtered, BiomarkerCategory, sel.categories);
      if |sel.categories| > 0 {
        filtered := Where(filtered, InColumn(BiomarkerCategory, sel.categories));
      }
      ghost var second := filtered;
      NarrowStep(filtered, TestingMethod, sel.methods);
      if |sel.methods| > 0 {
        filtered := Where(filtered, InColumn(TestingMethod, sel.methods));
      }
      ThreeNarrowings(rows, sel, first, second, filtered);
      SelectionSpec(rows, sel);
    }
  }

  /** Narrowing by the three choices one after the other is the selection by all three at once. */
  lemma ThreeNarrowings(rows: seq<Record>, sel: Selections, first: seq<Record>, second: seq<Record>, third: seq<Record>)
    requires first == Where(rows, AllowsFn(CancerType, sel.cancerTypes))
    requires second == Where(first, AllowsFn(BiomarkerCategory, sel.categories))
    requires third == Where(second, AllowsFn(TestingMethod, sel.methods))
    ensures third == Where(rows, SelectedFn(sel))
  {
    var byCancerType := AllowsFn(CancerType, sel.cancerTypes);
    var byCategory := AllowsFn(BiomarkerCategory, sel.categories);
    var byMethod := AllowsFn(TestingMethod, sel.methods);
    var two := Both(byCancerType, byCategory);
    var three := Both(two, byMethod);
    WhereWhere(rows, byCancerType, byCategory, two);
    WhereWhere(rows, two, byMethod, three);
    forall x ensures three(x) == SelectedFn(sel)(x) {
      assert three(x) == (two(x) && byMethod(x));
      assert two(x) == (byCancerType(x) && byCategory(x));
    }
    WhereExt(rows, three, SelectedFn(sel));
  }

  /** Why the script stops early. */
  datatype Halt = MissingColumns

  /** What one run of the script shows: the three option lists, the matching rows and their count. */
  datatype View = View(cancerOptions: seq<string>, categoryOptions: seq<string>, methodOptions: seq<string>,
                       filtered: seq<Record>, matchCount: nat)

  /**
   * One run of the script after the CSV was read: it stops before any
   * cleaning or filtering when a required column is absent; otherwise the
   * option lists come from the prepared table, the filter chain selects from
   * it, and the count shown is the number of selected rows.
   */
  method Render(columns: seq<string>, raw: seq<RawRecord>, sel: Selections) returns (out: Result<View, Halt>)
    ensures out.Failure? <==> !HasRequiredColumns(columns)
    ensures out.Failure? ==> out.error == MissingColumns
    ensures out.Success? ==>
      var table := Prepared(raw);
      && out.value.cancerOptions == Options(table, CancerType)
      && out.value.categoryOptions == Options(table, BiomarkerCategory)
      && out.value.methodOptions == Options(table, TestingMethod)
      && out.value.filtered == Where(table, SelectedFn(sel))
      && out.value.matchCount == |out.value.filtered|
  {
    var df := new Frame(columns, raw);
    if !HasRequiredColumns(df.columns) {
      return Failure(MissingColumns);
    }
    df.FillMissing();
    df.NormaliseCancerType();
    var cancerOptions := Options(df.rows, CancerType);
    var categoryOptions := Options(df.rows, BiomarkerCategory);
    var methodOptions := Options(df.rows, TestingMethod);
    var filtered := df.ApplyFilters(sel);
    return Success(View(cancerOptions, categoryOptions, methodOptions, filtered, |filtered|));
  }
}
