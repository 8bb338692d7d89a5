/**
 * Worked cases proved on small, concrete inputs: records given to the console
 * filter, the category summary and the export, and a cell of the dashboard
 * given to the cancer-type normalisation.
 */
module Scenarios {
  import opened Wrappers
  import opened Ascii
  import opened Seqs
  import opened Schema
  import opened Explorer
  import opened Dashboard

  const Her2: Row := [
    Field("Biomarker", "HER2"),
    Field(CancerType, "Breast|Gastric"),
    Field(BiomarkerCategory, "Predictive"),
    Field(TestingMethod, "IHC")
  ]

  /** A record the CSV reader delivered without a `Testing Method` entry. */
  const Short: Row := [Field("Biomarker", "KRAS"), Field(CancerType, "Lung"), Field(BiomarkerCategory, "Predictive")]

  /** The match is a case-insensitive substring test: "breast" finds "Breast|Gastric". */
  lemma HerTwoMatchesBreast()
    ensures Filter([Her2], Criteria(Some("breast"), None, None)) == Success([Her2])
  {
    var c := Criteria(Some("breast"), None, None);
    HerTwoCancerType();
    BreastFound();
    assert Keep(Her2, c) == Success(true);
    FilterOne(Her2, c);
  }

  /** An empty criterion counts as no criterion, so the absent method column is never read. */
  lemma EmptyCriterionIgnored()
    ensures Filter([Short], Criteria(Some(""), None, Some(""))) == Success([Short])
  {
    FilterNoCriteria([Short], Criteria(Some(""), None, Some("")));
  }

  /** A criterion that does not occur in the value drops the record. */
  lemma LungExcludesHerTwo()
    ensures Filter([Her2], Criteria(Some("lung"), None, None)) == Success([])
  {
    var c := Criteria(Some("lung"), None, None);
    HerTwoCancerType();
    LungNotFound();
    assert Keep(Her2, c) == Success(false);
    FilterOne(Her2, c);
  }

  /** A record without the column an active criterion reads raises the KeyError for that column. */
  lemma ShortRecordRaises()
    ensures Filter([Her2, Short], Criteria(None, None, Some("pcr"))) == Failure(KeyError(TestingMethod))
  {
    var c := Criteria(None, None, Some("pcr"));
    var data := [Her2, Short];
    assert data[..1] == [Her2];
    assert Lookup(Short, TestingMethod).None?;
    assert Keep(Short, c) == Failure(KeyError(TestingMethod));
    LookupDistinct(Her2, 3);
    assert Keep(Her2, c).Success?;
    FilterOne(Her2, c);
  }

  /** Filtering a single record keeps it, drops it or raises, as its guard chain says. */
  lemma FilterOne(row: Row, c: Criteria)
    ensures Filter([row], c) == match Keep(row, c)
      case Failure(e) => Failure(e)
      case Success(pass) => Success(if pass then [row] else [])
  {
    assert [row][..0] == [];
    assert Filter([], c) == Success([]);
    assert [] + [row] == [row];
  }

  lemma HerTwoCancerType()
    ensures Lookup(Her2, CancerType) == Some("Breast|Gastric")
    ensures LowerStr("Breast|Gastric") == "breast|gastric"
  {
    LookupDistinct(Her2, 1);
    LoweredCancerType();
  }

  lemma LoweredCancerType()
    ensures LowerStr("Breast|Gastric") == "breast|gastric"
  {
  }

  lemma BreastFound()
    ensures Contains("breast|gastric", LowerStr("breast"))
  {
    assert LowerStr("breast") == "breast";
    assert "breast" <= "breast|gastric";
  }

  lemma LungNotFound()
    ensures !Contains("breast|gastric", LowerStr("lung"))
  {
    var hay := "breast|gastric";
    assert LowerStr("lung") == "lung";
    assert 'l' !in hay;
    forall i ensures !OccursAt("lung", hay, i) {
      if 0 <= i <= |hay| - 4 {
        assert hay[i..i + 4][0] == hay[i];
      }
    }
  }

  /** Categories are counted in first-seen order: a repeated category raises its count and keeps its place. */
  lemma TallyInFirstSeenOrder()
    ensures Tally(["Predictive", "Diagnostic", "Predictive"])
      == Summary(["Predictive", "Diagnostic"], map["Predictive" := 2, "Diagnostic" := 1])
  {
    var p, d := "Predictive", "Diagnostic";
    var cats := [p, d, p];
    assert cats[..2] == [p, d] && [p, d][..1] == [p] && [p][..0] == [];
    var one := Summary([p], map[p := 1]);
    assert Tally([p]) == one;
    var two := Summary([p, d], map[p := 1, d := 1]);
    assert Tally([p, d]) == Add(one, d) == two;
    assert Add(two, p) == Summary([p, d], map[p := 2, d := 1]);
  }

  const Egfr: Row := [Field("Biomarker", "EGFR"), Field("Gene", "EGFR")]
  const Alk: Row := [Field("Gene", "ALK")]
  const Kras: Row := [Field("Biomarker", "KRAS"), Field("Drug", "sotorasib")]

  /** The header comes from the first record; a record without some field gets an empty value there. */
  lemma ExportFillsBlanks()
    ensures ExportLayout([Egfr, Alk]) == Written([["Biomarker", "Gene"], ["EGFR", "EGFR"], ["", "ALK"]], true)
  {
    var header := ["Biomarker", "Gene"];
    assert Names(Egfr) == header;
    EgfrLine();
    AlkLine();
    BodyTwo(header, Egfr, Alk);
  }

  /** A record with a key the header lacks stops the export after the lines already written. */
  lemma ExportStopsAtExtraKey()
    ensures ExportLayout([Egfr, Kras]) == Written([["Biomarker", "Gene"], ["EGFR", "EGFR"]], false)
  {
    var header := ["Biomarker", "Gene"];
    assert Names(Egfr) == header;
    EgfrLine();
    assert !FitsHeader(Kras, header) by {
      assert Kras[1].name == "Drug";
    }
    var rows := [Egfr, Kras];
    assert rows[1..] == [Kras];
    assert Body(header, [Kras]) == ([], false);
  }

  lemma EgfrLine()
    ensures FitsHeader(Egfr, ["Biomarker", "Gene"])
    ensures Line(["Biomarker", "Gene"], Egfr) == ["EGFR", "EGFR"]
  {
  }

  lemma AlkLine()
    ensures FitsHeader(Alk, ["Biomarker", "Gene"])
    ensures Line(["Biomarker", "Gene"], Alk) == ["", "ALK"]
  {
  }

  /** Two records that fit the header are written as two lines. */
  lemma BodyTwo(header: seq<string>, first: Row, second: Row)
    requires FitsHeader(first, header) && FitsHeader(second, header)
    ensures Body(header, [first, second]) == ([Line(header, first), Line(header, second)], true)
  {
    var rows := [first, second];
    assert rows[0] == first && rows[1..] == [second];
    BodyOne(header, second);
    assert Body(header, rows) == ([Line(header, first)] + [Line(header, second)], true);
    assert [Line(header, first)] + [Line(header, second)] == [Line(header, first), Line(header, second)];
  }

  /** A single record that fits the header is written as one line. */
  lemma BodyOne(header: seq<string>, row: Row)
    requires FitsHeader(row, header)
    ensures Body(header, [row]) == ([Line(header, row)], true)
  {
    assert [row][1..] == [];
    assert Body(header, []) == ([], true);
    assert [Line(header, row)] + [] == [Line(header, row)];
  }

  /** A pipe separates cancer types; the parts are title-cased and stripped. */
  lemma PipeSplit()
    ensures CancerTypes("lung| breast") == ["Lung", "Breast"]
  {
    PipeParts();
    TwoTypes("lung| breast", "Lung", " Breast");
    StrippedParts();
  }

  lemma PipeParts()
    ensures Split(Strip(Title(ReplaceChar("lung| breast", '|', ','))), ',') == ["Lung", " Breast"]
  {
    ReplacedTitled();
    StrippedWhole();
    SplitTwo();
  }

  lemma TwoTypes(v: string, a: string, b: string)
    requires Split(Strip(Title(ReplaceChar(v, '|', ','))), ',') == [a, b]
    ensures CancerTypes(v) == [Strip(a), Strip(b)]
  {
    CancerTypesOfParts(v, [a, b]);
    TwoStripped([a, b]);
  }

  lemma TwoStripped(parts: seq<string>)
    requires |parts| == 2
    ensures seq(|parts|, i requires 0 <= i < |parts| => Strip(parts[i])) == [Strip(parts[0]), Strip(parts[1])]
  {
  }

  lemma CancerTypesOfParts(v: string, parts: seq<string>)
    requires Split(Strip(Title(ReplaceChar(v, '|', ','))), ',') == parts
    ensures CancerTypes(v) == seq(|parts|, i requires 0 <= i < |parts| => Strip(parts[i]))
  {
  }

  lemma ReplacedTitled()
    ensures Title(ReplaceChar("lung| breast", '|', ',')) == "Lung, Breast"
  {
    Replaced();
    Titled();
  }

  lemma Replaced()
    ensures ReplaceChar("lung| breast", '|', ',') == "lung, breast"
  {
  }

  lemma Titled()
    ensures Title("lung, breast") == "Lung, Breast"
  {
  }

  lemma StrippedWhole()
    ensures Strip("Lung, Breast") == "Lung, Breast"
  {
    assert StripStart("Lung, Breast") == "Lung, Breast";
  }

  lemma SplitTwo()
    ensures Split("Lung, Breast", ',') == ["Lung", " Breast"]
  {
    SplitPair("Lung, Breast", "Lung", " Breast", ',');
  }

  lemma StrippedParts()
    ensures Strip("Lung") == "Lung" && Strip(" Breast") == "Breast"
  {
    assert StripStart("Lung") == "Lung";
    LeadingSpace();
  }

  lemma LeadingSpace()
    ensures Strip(" Breast") == "Breast"
  {
    var s := " Breast";
    assert s[1..] == "Breast";
    assert StripStart("Breast") == "Breast";
    assert StripStart(s) == "Breast";
  }
}
