/**
 * The console front end: keyword filtering of loaded records, the per-category
 * tally of the matches, and what an export writes.
 */
module Explorer {
  import opened Wrappers
  import opened Ascii
  import opened Seqs
  import opened Schema

  /** One column of a record as `csv.DictReader` yields it. */
  datatype Field = Field(name: string, value: string)

  /** A record: a Python dict from column name to text, its fields in header order. */
  type Row = seq<Field>

  /** The exception `row[name]` raises for an absent column. */
  datatype KeyError = KeyError(key: string)

  /** `row[name]`, or None when the record has no such column. */
  function Lookup(row: Row, name: string): (v: Option<string>)
    ensures v.None? <==> forall i :: 0 <= i < |row| ==> row[i].name != name
    ensures v.Some? ==> Field(name, v.value) in row
  {
    if |row| == 0 then None
    else if row[0].name == name then Some(row[0].value)
    else Lookup(row[1..], name)
  }

  /** `row.keys()`, in order. */
  function Names(row: Row): (names: seq<string>)
    ensures |names| == |row|
    ensures forall i :: 0 <= i < |row| ==> names[i] == row[i].name
  {
    seq(|row|, i requires 0 <= i < |row| => row[i].name)
  }

  /** A dict holds each key once. */
  predicate DistinctNames(row: Row) {
    forall i, j :: 0 <= i < j < |row| ==> row[i].name != row[j].name
  }

  lemma {:induction false} LookupDistinct(row: Row, i: int)
    requires DistinctNames(row) && 0 <= i < |row|
    ensures Lookup(row, row[i].name) == Some(row[i].value)
  {
    if i > 0 {
      LookupDistinct(row[1..], i - 1);
    }
  }

  // ---------------------------------------------------------------------------
  // filter_biomarkers
  // ---------------------------------------------------------------------------

  /** The three optional keyword arguments of `filter_biomarkers`. */
  datatype Criteria = Criteria(cancer: Option<string>, category: Option<string>, testingMethod: Option<string>)

  /** Python truthiness of a criterion: both None and "" mean "no constraint". */
  predicate Active(criterion: Option<string>) {
    criterion.Some? && criterion.value != ""
  }

  predicate NoCriteria(c: Criteria) {
    !Active(c.cancer) && !Active(c.category) && !Active(c.testingMethod)
  }

  /**
   * One guard of the loop: an inactive criterion passes without reading the
   * record; an active one reads the column (a KeyError when it is absent) and
   * passes when the lower-cased criterion occurs in the lower-cased value.
   */
  function Test(row: Row, criterion: Option<string>, column: string): (r: Result<bool, KeyError>)
    ensures r.Failure? <==> Active(criterion) && Lookup(row, column).None?
    ensures r.Failure? ==> r.error == KeyError(column)
    ensures !Active(criterion) ==> r == Success(true)
    ensures r.Success? && Active(criterion) ==>
      (r.value <==> IsSubstring(LowerStr(criterion.value), LowerStr(Lookup(row, column).value)))
  {
    if !Active(criterion) then Success(true)
    else
      match Lookup(row, column)
      case None => Failure(KeyError(column))
      case Some(v) => Success(Contains(LowerStr(v), LowerStr(criterion.value)))
  }

  /** The three guards in source order; the first one that fails skips the record without reading further columns. */
  function Keep(row: Row, c: Criteria): (r: Result<bool, KeyError>)
    ensures r.Failure? ==> Lookup(row, r.error.key).None?
    ensures r.Failure? ==>
      || (r.error.key == CancerType && Active(c.cancer))
      || (r.error.key == BiomarkerCategory && Active(c.category))
      || (r.error.key == TestingMethod && Active(c.testingMethod))
    ensures NoCriteria(c) ==> r == Success(true)
    ensures r == Failure(KeyError(CancerType)) <==> Active(c.cancer) && Lookup(row, CancerType).None?
    ensures r == Failure(KeyError(BiomarkerCategory)) <==>
      Meets(row, c.cancer, CancerType) && Active(c.category) && Lookup(row, BiomarkerCategory).None?
    ensures r == Failure(KeyError(TestingMethod)) <==>
      && Meets(row, c.cancer, CancerType) && Meets(row, c.category, BiomarkerCategory)
      && Active(c.testingMethod) && Lookup(row, TestingMethod).None?
  {
    match Test(row, c.cancer, CancerType)
    case Failure(e) => Failure(e)
    case Success(pass) =>
      if !pass then Success(false)
      else
        match Test(row, c.category, BiomarkerCategory)
        case Failure(e) => Failure(e)
        case Success(pass) =>
          if !pass then Success(false)
          else Test(row, c.testingMethod, TestingMethod)
  }

  /** What an active criterion demands of a record, independent of evaluation order. */
  predicate Meets(row: Row, criterion: Option<string>, column: string) {
    Active(criterion) ==>
      Lookup(row, column).Some? && Contains(LowerStr(Lookup(row, column).value), LowerStr(criterion.value))
  }

  /** A record matches when it meets every active criterion (logical AND). */
  predicate Satisfies(row: Row, c: Criteria) {
    Meets(row, c.cancer, CancerType) && Meets(row, c.category, BiomarkerCategory)
    && Meets(row, c.testingMethod, TestingMethod)
  }

  function Matcher(c: Criteria): Row -> bool {
    row => Satisfies(row, c)
  }

  /** The list `filter_biomarkers` returns, or the KeyError it raises for the first record that lacks a column it reads. */
  function Filter(data: seq<Row>, c: Criteria): (r: Result<seq<Row>, KeyError>)
    ensures r.Success? ==> |r.value| <= |data|
  {
    if |data| == 0 then Success([])
    else
      match Filter(data[..|data| - 1], c)
      case Failure(e) => Failure(e)
      case Success(kept) =>
        match Keep(data[|data| - 1], c)
        case Failure(e) => Failure(e)
        case Success(pass) => Success(if pass then kept + [data[|data| - 1]] else kept)
  }

  /** The loop of `filter_biomarkers`, appending each record that passes all guards to `results`. */
  method FilterBiomarkers(data: seq<Row>, cancer: Option<string>, category: Option<string>, testingMethod: Option<string>)
    returns (r: Result<seq<Row>, KeyError>)
    ensures r == Filter(data, Criteria(cancer, category, testingMethod))
  {
    ghost var c := Criteria(cancer, category, testingMethod);
    var results: seq<Row> := [];
    for i := 0 to |data|
      invariant Filter(data[..i], c) == Success(results)
    {
      var row := data[i];
      assert data[..i + 1][..i] == data[..i];
      if Active(cancer) {
        var v := Lookup(row, CancerType);
        if v.None? {
          FailurePersists(data, c, i + 1);
          return Failure(KeyError(CancerType));
        }
        if !Contains(LowerStr(v.value), LowerStr(cancer.value)) {
          continue;
        }
      }
      if Active(category) {
        var v := Lookup(row, BiomarkerCategory);
        if v.None? {
          FailurePersists(data, c, i + 1);
          return Failure(KeyError(BiomarkerCategory));
        }
        if !Contains(LowerStr(v.value), LowerStr(category.value)) {
          continue;
        }
      }
      if Active(testingMethod) {
        var v := Lookup(row, TestingMethod);
        if v.None? {
          FailurePersists(data, c, i + 1);
          return Failure(KeyError(TestingMethod));
        }
        if !Contains(LowerStr(v.value), LowerStr(testingMethod.value)) {
          continue;
        }
      }
      results := results + [row];
    }
    assert data[..|data|] == data;
    return Success(results);
  }

  /** A KeyError raised on some record ends the whole call. */
  lemma {:induction false} FailurePersists(data: seq<Row>, c: Criteria, i: nat)
    requires i <= |data| && Filter(data[..i], c).Failure?
    ensures Filter(data, c) == Filter(data[..i], c)
    decreases |data| - i
  {
    if i < |data| {
      assert data[..i + 1][..i] == data[..i];
      FailurePersists(data, c, i + 1);
    } else {
      assert data[..i] == data;
    }
  }

  /** A guard chain succeeds with "keep" exactly for the records that satisfy the criteria. */
  lemma KeepMeansSatisfies(row: Row, c: Criteria)
    ensures Keep(row, c) == Success(true) <==> Satisfies(row, c)
    ensures Keep(row, c).Failure? ==> !Satisfies(row, c)
  {
  }

  /** The call raises exactly when some record makes a guard read a column it lacks. */
  lemma {:induction false} FilterSucceeds(data: seq<Row>, c: Criteria)
    ensures Filter(data, c).Success? <==> forall i :: 0 <= i < |data| ==> Keep(data[i], c).Success?
  {
    if |data| > 0 {
      var n := |data| - 1;
      var init := data[..n];
      assert forall i :: 0 <= i < n ==> init[i] == data[i];
      FilterSucceeds(init, c);
      assert Filter(data, c).Success? <==> Filter(init, c).Success? && Keep(data[n], c).Success?;
    }
  }

  /** A KeyError names a column that is the target of an active criterion and is absent from some record. */
  lemma {:induction false} FilterFailure(data: seq<Row>, c: Criteria)
    requires Filter(data, c).Failure?
    ensures var k := Filter(data, c).error.key;
      && ((k == CancerType && Active(c.cancer)) || (k == BiomarkerCategory && Active(c.category))
          || (k == TestingMethod && Active(c.testingMethod)))
      && exists i :: 0 <= i < |data| && Lookup(data[i], k).None?
  {
    var n := |data| - 1;
    if Filter(data[..n], c).Failure? {
      FilterFailure(data[..n], c);
      var k := Filter(data, c).error.key;
      var i :| 0 <= i < n && Lookup(data[..n][i], k).None?;
      assert data[..n][i] == data[i];
    }
  }

  /** Records that carry the three columns never raise. */
  lemma FilterOnCompleteRecords(data: seq<Row>, c: Criteria)
    requires forall i :: 0 <= i < |data| ==>
      Lookup(data[i], CancerType).Some? && Lookup(data[i], BiomarkerCategory).Some?
      && Lookup(data[i], TestingMethod).Some?
    ensures Filter(data, c).Success?
  {
    FilterSucceeds(data, c);
  }

  /** The result is the order-preserving selection of the matching records. */
  lemma {:induction false} FilterIsWhere(data: seq<Row>, c: Criteria)
    requires Filter(data, c).Success?
    ensures Filter(data, c).value == Where(data, Matcher(c))
  {
    if |data| > 0 {
      var n := |data| - 1;
      var init := data[..n];
      var kept := Filter(init, c);
      assert kept.Success?;
      FilterIsWhere(init, c);
      KeepMeansSatisfies(data[n], c);
      var pass := Satisfies(data[n], c);
      assert Filter(data, c).value == if pass then kept.value + [data[n]] else kept.value;
      assert Where(data, Matcher(c)) == if Matcher(c)(data[n]) then Where(init, Matcher(c)) + [data[n]] else Where(init, Matcher(c));
    }
  }

  /** The result is a subsequence of the input: the same record values, in their original relative order. */
  lemma FilterIsSubsequence(data: seq<Row>, c: Criteria)
    requires Filter(data, c).Success?
    ensures IsSubsequence(Filter(data, c).value, data)
  {
    FilterIsWhere(data, c);
    WhereIsSubsequence(data, Matcher(c));
  }

  /** Soundness: in every returned record, each active criterion occurs, case-insensitively, in its column. */
  lemma FilterSound(data: seq<Row>, c: Criteria, row: Row)
    requires Filter(data, c).Success? && row in Filter(data, c).value
    ensures row in data
    ensures Active(c.cancer) ==>
      (Lookup(row, CancerType).Some? && IsSubstring(LowerStr(c.cancer.value), LowerStr(Lookup(row, CancerType).value)))
    ensures Active(c.category) ==>
      (Lookup(row, BiomarkerCategory).Some? && IsSubstring(LowerStr(c.category.value), LowerStr(Lookup(row, BiomarkerCategory).value)))
    ensures Active(c.testingMethod) ==>
      (Lookup(row, TestingMethod).Some? && IsSubstring(LowerStr(c.testingMethod.value), LowerStr(Lookup(row, TestingMethod).value)))
  {
    FilterIsWhere(data, c);
    WhereMembership(data, Matcher(c), row);
  }

  /** Completeness: every input record that meets all active criteria is returned. */
  lemma FilterComplete(data: seq<Row>, c: Criteria, row: Row)
    requires Filter(data, c).Success? && row in data && Satisfies(row, c)
    ensures row in Filter(data, c).value
  {
    FilterIsWhere(data, c);
    WhereMembership(data, Matcher(c), row);
  }

  /** With no active criterion the input comes back unchanged, whatever columns its records have. */
  lemma FilterNoCriteria(data: seq<Row>, c: Criteria)
    requires NoCriteria(c)
    ensures Filter(data, c) == Success(data)
  {
    forall i | 0 <= i < |data| ensures Keep(data[i], c).Success? && Matcher(c)(data[i]) {
      KeepMeansSatisfies(data[i], c);
    }
    FilterSucceeds(data, c);
    FilterIsWhere(data, c);
    WhereAll(data, Matcher(c));
  }

  /** Filtering the result again with the same criteria changes nothing. */
  lemma FilterIdempotent(data: seq<Row>, c: Criteria)
    requires Filter(data, c).Success?
    ensures Filter(Filter(data, c).value, c) == Filter(data, c)
  {
    var r := Filter(data, c).value;
    FilterIsWhere(data, c);
    forall i | 0 <= i < |r| ensures Keep(r[i], c).Success? {
      assert r[i] in r;
      KeepMeansSatisfies(r[i], c);
    }
    FilterSucceeds(r, c);
    FilterIsWhere(r, c);
    WhereIdempotent(data, Matcher(c));
  }

  // ---------------------------------------------------------------------------
  // summarize_categories (the tally; printing is not modelled)
  // ---------------------------------------------------------------------------

  /** The insertion-ordered dict `summary`: its keys in order, and the count held for each. */
  datatype Summary = Summary(keys: seq<string>, counts: map<string, nat>)

  /** The `Biomarker Category` of each record, in order. */
  function Categories(results: seq<Row>): (cats: seq<string>)
    requires forall i :: 0 <= i < |results| ==> Lookup(results[i], BiomarkerCategory).Some?
    ensures |cats| == |results|
  {
    seq(|results|, i requires 0 <= i < |results| => Lookup(results[i], BiomarkerCategory).value)
  }

  lemma CategoriesExtend(results: seq<Row>, i: nat)
    requires i < |results|
    requires forall j :: 0 <= j <= i ==> Lookup(results[j], BiomarkerCategory).Some?
    ensures Categories(results[..i + 1]) == Categories(results[..i]) + [Lookup(results[i], BiomarkerCategory).value]
  {
  }

  /** The sum of the counts of `keys`. */
  function Total(keys: seq<string>, counts: map<string, nat>): nat
    requires forall i :: 0 <= i < |keys| ==> keys[i] in counts
  {
    if |keys| == 0 then 0 else Total(keys[..|keys| - 1], counts) + counts[keys[|keys| - 1]]
  }

  /**
   * `summary` tallies `cats`: one key per distinct category (case-sensitive),
   * keys in order of first appearance, and each count the number of records
   * with exactly that category.
   */
  ghost predicate Tallies(summary: Summary, cats: seq<string>) {
    && (forall i, j :: 0 <= i < j < |summary.keys| ==> summary.keys[i] != summary.keys[j])
    && (forall k :: k in summary.keys <==> k in cats)
    && (forall k :: k in summary.counts <==> k in cats)
    && (forall k :: k in summary.counts ==> summary.counts[k] == multiset(cats)[k])
    && FirstSeenOrder(summary.keys, cats)
  }

  /** Each key first occurs in `cats` before every occurrence of any later key. */
  ghost predicate FirstSeenOrder(keys: seq<string>, cats: seq<string>) {
    forall i, j, p :: 0 <= i < j < |keys| && 0 <= p < |cats| && cats[p] == keys[j] ==> keys[i] in cats[..p]
  }

  /** `summary[key] = summary.get(key, 0) + 1` on an insertion-ordered dict: a new key goes last. */
  function Add(summary: Summary, key: string): (r: Summary)
    ensures key in r.counts
    ensures key in summary.counts ==> r.keys == summary.keys && r.counts[key] == summary.counts[key] + 1
    ensures key !in summary.counts ==> r.keys == summary.keys + [key] && r.counts[key] == 1
    ensures forall k :: k != key ==> (k in r.counts <==> k in summary.counts)
    ensures forall k :: k != key && k in summary.counts ==> r.counts[k] == summary.counts[k]
  {
    var count := if key in summary.counts then summary.counts[key] else 0;
    Summary(if key in summary.counts then summary.keys else summary.keys + [key],
            summary.counts[key := count + 1])
  }

  /** The dict `summarize_categories` builds from a sequence of categories, one `Add` per category in order. */
  function Tally(cats: seq<string>): (r: Summary)
    ensures |r.keys| <= |cats|
    ensures forall k :: k in r.counts <==> k in cats
  {
    if |cats| == 0 then Summary([], map[]) else Add(Tally(cats[..|cats| - 1]), cats[|cats| - 1])
  }

  /** The tally is exact, in first-seen order, and its counts sum to the number of categories. */
  lemma {:induction false} TallyCorrect(cats: seq<string>)
    ensures Tallies(Tally(cats), cats)
    ensures Total(Tally(cats).keys, Tally(cats).counts) == |cats|
  {
    if |cats| > 0 {
      var n := |cats| - 1;
      var init := cats[..n];
      assert cats == init + [cats[n]];
      TallyCorrect(init);
      AddStep(Tally(init), init, cats[n]);
    }
  }

  /** The loop of `summarize_categories`, adding each record's category to `summary`. */
  method SummarizeCategories(results: seq<Row>) returns (r: Result<Summary, KeyError>)
    ensures r.Failure? <==> exists i :: 0 <= i < |results| && Lookup(results[i], BiomarkerCategory).None?
    ensures r.Failure? ==> r.error == KeyError(BiomarkerCategory)
    ensures r.Success? ==> r.value == Tally(Categories(results))
    ensures |results| == 0 ==> r == Success(Summary([], map[]))
  {
    var summary := Summary([], map[]);
    for i := 0 to |results|
      invariant forall j :: 0 <= j < i ==> Lookup(results[j], BiomarkerCategory).Some?
      invariant summary == Tally(Categories(results[..i]))
    {
      var key := Lookup(results[i], BiomarkerCategory);
      if key.None? {
        return Failure(KeyError(BiomarkerCategory));
      }
      CategoriesExtend(results, i);
      summary := Add(summary, key.value);
    }
    assert results[..|results|] == results;
    return Success(summary);
  }

  /** What the summary promises: exact counts per category, keys in first-seen order, counts summing to the number of records. */
  lemma SummaryCorrect(results: seq<Row>)
    requires forall i :: 0 <= i < |results| ==> Lookup(results[i], BiomarkerCategory).Some?
    ensures Tallies(Tally(Categories(results)), Categories(results))
    ensures Total(Tally(Categories(results)).keys, Tally(Categories(results)).counts) == |results|
  {
    TallyCorrect(Categories(results));
  }

  /** Adding one record's category keeps the tally exact and the total equal to the number of records. */
  lemma AddStep(summary: Summary, cats: seq<string>, k: string)
    requires Tallies(summary, cats) && Total(summary.keys, summary.counts) == |cats|
    ensures Tallies(Add(summary, k), cats + [k])
    ensures Total(Add(summary, k).keys, Add(summary, k).counts) == |cats| + 1
  {
    TallyStep(summary, cats, k);
    TotalAdd(summary, k);
  }

  lemma TotalAdd(summary: Summary, k: string)
    requires forall i :: 0 <= i < |summary.keys| ==> summary.keys[i] in summary.counts
    requires forall i, j :: 0 <= i < j < |summary.keys| ==> summary.keys[i] != summary.keys[j]
    requires k in summary.counts <==> k in summary.keys
    ensures forall i :: 0 <= i < |Add(summary, k).keys| ==> Add(summary, k).keys[i] in Add(summary, k).counts
    ensures Total(Add(summary, k).keys, Add(summary, k).counts) == Total(summary.keys, summary.counts) + 1
  {
    if k in summary.counts {
      TotalIncrement(summary.keys, summary.counts, k);
    } else {
      TotalAppend(summary.keys, summary.counts, k);
    }
  }

  /** One more record keeps the tally exact: an existing key gains one, a new key is appended with count one. */
  lemma TallyStep(summary: Summary, cats: seq<string>, k: string)
    requires Tallies(summary, cats)
    ensures Tallies(Add(summary, k), cats + [k])
  {
    assert multiset(cats + [k]) == multiset(cats) + multiset{k};
    if k in summary.counts {
      SeenOrderKept(summary.keys, cats, k);
    } else {
      SeenOrderAppended(summary.keys, cats, k);
    }
  }

  /** A category already seen leaves the first-seen order of the keys intact. */
  lemma SeenOrderKept(keys: seq<string>, cats: seq<string>, k: string)
    requires FirstSeenOrder(keys, cats) && k in keys
    requires forall x :: x in keys ==> x in cats
    ensures FirstSeenOrder(keys, cats + [k])
  {
    var cats' := cats + [k];
    forall i, j, p | 0 <= i < j < |keys| && 0 <= p < |cats'| && cats'[p] == keys[j]
      ensures keys[i] in cats'[..p]
    {
      if p < |cats| {
        assert cats'[..p] == cats[..p];
      } else {
        assert cats'[..p] == cats && keys[i] in keys;
      }
    }
  }

  /** A category seen for the first time goes after every key, in first-seen order. */
  lemma SeenOrderAppended(keys: seq<string>, cats: seq<string>, k: string)
    requires FirstSeenOrder(keys, cats) && k !in cats
    requires forall x :: x in keys <==> x in cats
    ensures FirstSeenOrder(keys + [k], cats + [k])
  {
    var cats' := cats + [k];
    var keys' := keys + [k];
    forall i, j, p | 0 <= i < j < |keys'| && 0 <= p < |cats'| && cats'[p] == keys'[j]
      ensures keys'[i] in cats'[..p]
    {
      assert keys'[i] in keys;
      if p < |cats| {
        assert cats'[..p] == cats[..p] && cats[p] == keys'[j];
        assert cats[p] in cats;
      } else {
        assert cats'[..p] == cats;
      }
    }
  }

  lemma {:induction false} TotalIgnoresOthers(keys: seq<string>, counts: map<string, nat>, k: string, v: nat)
    requires forall i :: 0 <= i < |keys| ==> keys[i] in counts
    requires k !in keys
    ensures Total(keys, counts[k := v]) == Total(keys, counts)
  {
    if |keys| > 0 {
      TotalIgnoresOthers(keys[..|keys| - 1], counts, k, v);
    }
  }

  lemma {:induction false} TotalIncrement(keys: seq<string>, counts: map<string, nat>, k: string)
    requires forall i :: 0 <= i < |keys| ==> keys[i] in counts
    requires forall i, j :: 0 <= i < j < |keys| ==> keys[i] != keys[j]
    requires k in keys && k in counts
    ensures Total(keys, counts[k := counts[k] + 1]) == Total(keys, counts) + 1
  {
    var n := |keys| - 1;
    if keys[n] == k {
      assert k !in keys[..n];
      TotalIgnoresOthers(keys[..n], counts, k, counts[k] + 1);
    } else {
      assert k in keys[..n];
      TotalIncrement(keys[..n], counts, k);
    }
  }

  lemma TotalAppend(keys: seq<string>, counts: map<string, nat>, k: string)
    requires forall i :: 0 <= i < |keys| ==> keys[i] in counts
    requires k !in keys
    ensures Total(keys + [k], counts[k := 1]) == Total(keys, counts) + 1
  {
    assert (keys + [k])[..|keys|] == keys;
    TotalIgnoresOthers(keys, counts, k, 1);
  }

  // ---------------------------------------------------------------------------
  // export_results (which lines a DictWriter writes; the file itself is not modelled)
  // ---------------------------------------------------------------------------

  /** Nothing is written for an empty result; otherwise the written lines, and whether all records were written. */
  datatype Export = NothingToExport | Written(lines: seq<seq<string>>, complete: bool)

  /** DictWriter accepts a record only when all its keys are field names (otherwise ValueError). */
  predicate FitsHeader(row: Row, header: seq<string>) {
    forall i :: 0 <= i < |row| ==> row[i].name in header
  }

  /** The line DictWriter writes for a record: its value per field name, "" where it has none. */
  function Line(header: seq<string>, row: Row): (line: seq<string>)
    ensures |line| == |header|
    ensures forall j :: 0 <= j < |header| ==> line[j] == "" || Field(header[j], line[j]) in row
    ensures forall j :: 0 <= j < |header| && (forall i :: 0 <= i < |row| ==> row[i].name != header[j]) ==> line[j] == ""
    ensures DistinctNames(row) ==>
      forall i, j :: 0 <= i < |row| && 0 <= j < |header| && row[i].name == header[j] ==> line[j] == row[i].value
  {
    seq(|header|, j requires 0 <= j < |header| => Lookup(row, header[j]).GetOr(""))
  }

  /**
   * `writer.writerows(rows)`: the lines of the records before the first one
   * that does not fit the header, and whether every record fit.
   */
  function Body(header: seq<string>, rows: seq<Row>): (out: (seq<seq<string>>, bool))
    ensures |out.0| <= |rows|
    ensures forall i :: 0 <= i < |out.0| ==> FitsHeader(rows[i], header) && out.0[i] == Line(header, rows[i])
    ensures out.1 <==> |out.0| == |rows|
    ensures !out.1 ==> !FitsHeader(rows[|out.0|], header)
  {
    if |rows| == 0 then ([], true)
    else if !FitsHeader(rows[0], header) then ([], false)
    else
      var rest := Body(header, rows[1..]);
      var lines := [Line(header, rows[0])] + rest.0;
      assert forall i :: 0 < i < |lines| ==> lines[i] == rest.0[i - 1];
      assert forall i :: 0 < i < |lines| ==> rows[i] == rows[1..][i - 1];
      (lines, rest.1)
  }

  /** `export_results`: nothing for an empty list; else the header from the first record's keys, then the body. */
  function ExportLayout(results: seq<Row>): (e: Export)
    ensures e.NothingToExport? <==> |results| == 0
    ensures e.Written? ==> 1 <= |e.lines| <= |results| + 1 && e.lines[0] == Names(results[0])
    ensures e.Written? ==> (e.complete <==> forall i :: 0 <= i < |results| ==> FitsHeader(results[i], e.lines[0]))
    ensures e.Written? ==>
      forall i :: 0 < i < |e.lines| ==> FitsHeader(results[i - 1], e.lines[0]) && e.lines[i] == Line(e.lines[0], results[i - 1])
    ensures e.Written? ==> (e.complete <==> |e.lines| == |results| + 1)
    ensures e.Written? && !e.complete ==> !FitsHeader(results[|e.lines| - 1], e.lines[0])
  {
    if |results| == 0 then NothingToExport
    else
      var header := Names(results[0]);
      var body := Body(header, results);
      WrittenLines(header, results, body.0);
      StopsAtMisfit(header, results, |body.0|, body.1);
      Written([header] + body.0, body.1)
  }

  /** The header line put in front of what `Body` wrote keeps `Body`'s facts, shifted by one line. */
  lemma WrittenLines(header: seq<string>, results: seq<Row>, written: seq<seq<string>>)
    requires |written| <= |results|
    requires forall i :: 0 <= i < |written| ==> FitsHeader(results[i], header) && written[i] == Line(header, results[i])
    ensures forall i :: 0 < i < |[header] + written| ==>
      FitsHeader(results[i - 1], header) && ([header] + written)[i] == Line(header, results[i - 1])
  {
    var lines := [header] + written;
    forall i | 0 < i < |lines|
      ensures FitsHeader(results[i - 1], header) && lines[i] == Line(header, results[i - 1])
    {
      var k := i - 1;
      assert lines[i] == written[k];
      assert FitsHeader(results[k], header) && written[k] == Line(header, results[k]);
    }
  }

  /** Writing stops only at a record that does not fit, so the export completes exactly when every record fits. */
  lemma StopsAtMisfit(header: seq<string>, results: seq<Row>, written: nat, complete: bool)
    requires written <= |results|
    requires forall i :: 0 <= i < written ==> FitsHeader(results[i], header)
    requires complete <==> written == |results|
    requires !complete ==> !FitsHeader(results[written], header)
    ensures complete <==> forall i :: 0 <= i < |results| ==> FitsHeader(results[i], header)
  {
  }

  /** Reading a written line back against the header (what csv.DictReader does). */
  function Zip(header: seq<string>, line: seq<string>): Row
    requires |line| == |header|
  {
    seq(|header|, j requires 0 <= j < |header| => Field(header[j], line[j]))
  }

  /**
   * Round trip: when all records have the first record's keys in the same
   * order (as csv.DictReader produces them), every record is written, and
   * reading each line back against the header gives the record again.
   */
  lemma ExportRoundTrip(results: seq<Row>)
    requires |results| > 0 && DistinctNames(results[0])
    requires forall i :: 0 <= i < |results| ==> Names(results[i]) == Names(results[0])
    ensures var e := ExportLayout(results);
      && e.Written? && e.complete && |e.lines| == |results| + 1
      && forall i :: 0 <= i < |results| ==> Zip(e.lines[0], e.lines[i + 1]) == results[i]
  {
    var header := Names(results[0]);
    forall i | 0 <= i < |results| ensures FitsHeader(results[i], header) {
      forall j | 0 <= j < |results[i]| ensures results[i][j].name in header {
        assert Names(results[i])[j] == header[j];
      }
    }
    var e := ExportLayout(results);
    forall i | 0 <= i < |results| ensures Zip(header, e.lines[i + 1]) == results[i] {
      var row := results[i];
      forall j | 0 <= j < |row| ensures Zip(header, e.lines[i + 1])[j] == row[j] {
        assert header[j] == row[j].name by {
          assert Names(row)[j] == header[j];
        }
        assert DistinctNames(row) by {
          forall a, b | 0 <= a < b < |row| ensures row[a].name != row[b].name {
            assert Names(row)[a] == header[a] && Names(row)[b] == header[b];
          }
        }
        LookupDistinct(row, j);
      }
    }
  }
}
