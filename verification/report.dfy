/**
 The content of the downloadable report. The document is modelled as the
 sequence of blocks written to it, in order: the notice of an empty report,
 one heading, one field line per field and a gap per record, and the chart
 image at the end when there is one. Fonts, cell sizes, pagination and the
 PDF bytes are not modelled.
 */
module Report {
  import opened Text
  import opened Records
  import opened LineWrap
  import opened RiskChart

  datatype Block =
    | Notice(text: string)     // the paragraph of a report without records
    | Heading(text: string)    // the bold, underlined line opening a record
    | FieldLine(text: string)  // one field; its line feeds start new physical lines
    | Gap                      // the small vertical space after a record
    | ChartImage(chart: Chart) // the embedded risk chart

  const EmptyNotice := "No SNP data to report."
  const Placeholder := "[Value could not be displayed]"
  const HeadingPrefix := "SNP Data - Genotype: "
  const GenotypeField := "Genotype"
  const NoGenotype := "N/A"

  /** The field-name part of a line: the title-cased name and a colon. */
  function Label(key: string): string {
    Title(key) + ": "
  }

  /** The text of the line written for one field. `tooWide` stands for the
      font-metric test "the unwrapped line is wider than 180 units". */
  function FieldText(f: Field, tooWide: string -> bool): string {
    match f.value
    case Unrenderable => Label(f.key) + Placeholder
    case Text(s) =>
      var v := Sanitise(s);
      if tooWide(Label(f.key) + v) then Label(f.key) + Wrap(v) else Label(f.key) + v
  }

  /** A field's line is its title-cased name and a colon, followed by the
      placeholder when the value cannot be shown, and otherwise by the value
      with its line breaks turned into spaces: deleting the line feeds the
      wrap inserted gives that value back; a line that fits has none, and
      the physical lines of a wrapped one are its 100-character pieces. */
  lemma FieldTextMeaning(f: Field, tooWide: string -> bool)
    ensures var t := FieldText(f, tooWide);
      var n := |Label(f.key)|;
      && n <= |t| && t[..n] == Label(f.key)
      && (f.value.Unrenderable? ==> t[n..] == Placeholder)
      && (f.value.Text? ==> Remove(t[n..], '\n') == Sanitise(f.value.s))
      && (f.value.Text? && !tooWide(Label(f.key) + Sanitise(f.value.s)) ==> '\n' !in t[n..])
      && (f.value.Text? && f.value.s != [] && tooWide(Label(f.key) + Sanitise(f.value.s)) ==>
            Split(t[n..], '\n') == Chunks(Sanitise(f.value.s)))
  {
    var name := Label(f.key);
    match f.value
    case Unrenderable =>
      assert (name + Placeholder)[|name|..] == Placeholder;
    case Text(s) =>
      var v := Sanitise(s);
      if tooWide(name + v) {
        WrapRecovers(v);
        WrapLines(v);
        assert (name + Wrap(v))[|name|..] == Wrap(v);
      } else {
        RemoveAbsent(v, '\n');
        assert (name + v)[|name|..] == v;
      }
  }

  /** A value without line breaks whose line fits is written unchanged
      after its label. */
  lemma FieldLineFits(f: Field, line: string, tooWide: string -> bool)
    requires f.value.Text? && '\n' !in f.value.s && '\r' !in f.value.s
    requires line == Label(f.key) + f.value.s && !tooWide(line)
    ensures FieldText(f, tooWide) == line
  {
    SanitiseKeepsClean(f.value.s);
  }

  /** The texts of a record's field lines, in the record's order. */
  function FieldTexts(r: Record, tooWide: string -> bool): (ts: seq<string>)
    ensures |ts| == |r|
    decreases |r|
  {
    if |r| == 0 then [] else [FieldText(r[0], tooWide)] + FieldTexts(r[1..], tooWide)
  }

  lemma {:induction false} FieldTextsAt(r: Record, tooWide: string -> bool, j: nat)
    requires j < |r|
    ensures FieldTexts(r, tooWide)[j] == FieldText(r[j], tooWide)
    decreases j
  {
    if j > 0 {
      FieldTextsAt(r[1..], tooWide, j - 1);
    }
  }

  /** The genotype shown in a record's heading. A record without one shows
      "N/A"; one whose genotype cannot be shown gets the same placeholder as
      an unshowable field. */
  function GenotypeText(r: Record): string {
    match Get(r, GenotypeField)
    case None => NoGenotype
    case Some(Text(g)) => g
    case Some(Unrenderable) => Placeholder
  }

  function HeadingText(r: Record): string {
    HeadingPrefix + GenotypeText(r)
  }

  /** What the report says about one record: a heading and the field lines. */
  datatype Section = Section(heading: string, lines: seq<string>)

  function SectionOf(r: Record, tooWide: string -> bool): Section {
    Section(HeadingText(r), FieldTexts(r, tooWide))
  }

  /** The blocks a section is written as: heading, one line per field, gap. */
  function SectionBlocks(s: Section): seq<Block> {
    [Heading(s.heading)] + Lines(s.lines) + [Gap]
  }

  function Lines(ls: seq<string>): (bs: seq<Block>)
    ensures |bs| == |ls|
    ensures forall j :: 0 <= j < |ls| ==> bs[j] == FieldLine(ls[j])
    decreases |ls|
  {
    if |ls| == 0 then [] else [FieldLine(ls[0])] + Lines(ls[1..])
  }

  /** The blocks of the records, one section after another, in input order. */
  function Sections(records: seq<Record>, tooWide: string -> bool): seq<Block>
    decreases |records|
  {
    if |records| == 0 then []
    else SectionBlocks(SectionOf(records[0], tooWide)) + Sections(records[1..], tooWide)
  }

  function ChartTail(chart: Option<Chart>): seq<Block> {
    match chart
    case Some(c) => [ChartImage(c)]
    case None => []
  }

  /** The report: the notice when there are no records, the records' blocks
      otherwise, and then the chart whenever one is supplied, whether or not
      there were records. */
  function Compose(records: seq<Record>, chart: Option<Chart>, tooWide: string -> bool): seq<Block> {
    var body := if records == [] then [Notice(EmptyNotice)] else Sections(records, tooWide);
    body + ChartTail(chart)
  }

  // ---------------------------------------------------------------------------
  // Reading a report back into its sections

  /** What a reader of the report sees: one section per record, and the
      chart at the end if there is one. */
  datatype Outline = Outline(sections: seq<Section>, chart: Option<Chart>)

  /** The field lines up to the gap that closes a record, and what follows the gap. */
  function TakeLines(bs: seq<Block>): (res: Option<(seq<string>, seq<Block>)>)
    ensures res.Some? ==> |res.value.1| < |bs|
    decreases |bs|
  {
    if |bs| == 0 then None
    else match bs[0]
      case Gap => Some(([], bs[1..]))
      case FieldLine(t) =>
        (match TakeLines(bs[1..])
         case Some((ls, rest)) => Some(([t] + ls, rest))
         case None => None)
      case _ => None
  }

  /** A run of records, each a heading, its field lines and a gap. */
  function ParseSections(bs: seq<Block>): Option<seq<Section>>
    decreases |bs|
  {
    if |bs| == 0 then Some([])
    else match bs[0]
      case Heading(h) =>
        (match TakeLines(bs[1..])
         case Some((ls, rest)) =>
           (match ParseSections(rest)
            case Some(ss) => Some([Section(h, ls)] + ss)
            case None => None)
         case None => None)
      case _ => None
  }

  /** The outline of a report: a trailing chart image is set aside, and the
      rest must be the empty-report notice or a non-empty run of records. */
  function ParseReport(doc: seq<Block>): Option<Outline> {
    if |doc| > 0 && doc[|doc| - 1].ChartImage? then ParseBody(doc[..|doc| - 1], Some(doc[|doc| - 1].chart))
    else ParseBody(doc, None)
  }

  function ParseBody(body: seq<Block>, chart: Option<Chart>): Option<Outline> {
    if body == [Notice(EmptyNotice)] then Some(Outline([], chart))
    else match ParseSections(body)
      case Some(ss) => if ss != [] then Some(Outline(ss, chart)) else None
      case None => None
  }

  /** A body that does not end in a chart image reads back the same with a
      chart after it, the chart set aside. */
  lemma ParseWithChart(body: seq<Block>, chart: Option<Chart>)
    requires body != [] && !body[|body| - 1].ChartImage?
    ensures ParseReport(body + ChartTail(chart)) == ParseBody(body, chart)
  {
    if chart.Some? {
      assert (body + ChartTail(chart))[..|body|] == body;
    } else {
      assert body + ChartTail(chart) == body;
    }
  }

  /** Sections written one after another. */
  function Layout(ss: seq<Section>): seq<Block>
    decreases |ss|
  {
    if |ss| == 0 then [] else SectionBlocks(ss[0]) + Layout(ss[1..])
  }

  /** The sections a report should hold: one per record, in input order. */
  function Expected(records: seq<Record>, tooWide: string -> bool): seq<Section> {
    seq(|records|, i requires 0 <= i < |records| => SectionOf(records[i], tooWide))
  }

  lemma {:induction false} TakeLinesBack(ls: seq<string>, rest: seq<Block>)
    ensures TakeLines(Lines(ls) + [Gap] + rest) == Some((ls, rest))
    decreases |ls|
  {
    var bs := Lines(ls) + [Gap] + rest;
    if |ls| == 0 {
      assert bs == [Gap] + rest;
      assert bs[1..] == rest;
    } else {
      assert bs[1..] == Lines(ls[1..]) + [Gap] + rest;
      TakeLinesBack(ls[1..], rest);
      assert [ls[0]] + ls[1..] == ls;
    }
  }

  /** Reading sections back from their layout gives the sections. */
  lemma {:induction false} ParseLayout(ss: seq<Section>)
    ensures ParseSections(Layout(ss)) == Some(ss)
    decreases |ss|
  {
    if |ss| > 0 {
      var rest := Layout(ss[1..]);
      var bs := Layout(ss);
      assert bs == [Heading(ss[0].heading)] + (Lines(ss[0].lines) + [Gap] + rest);
      assert bs[1..] == Lines(ss[0].lines) + [Gap] + rest;
      TakeLinesBack(ss[0].lines, rest);
      ParseLayout(ss[1..]);
      assert [Section(ss[0].heading, ss[0].lines)] + ss[1..] == ss;
    }
  }

  /** The loop over the records lays out exactly the expected sections. */
  lemma {:induction false} SectionsAreLayout(records: seq<Record>, tooWide: string -> bool)
    ensures Sections(records, tooWide) == Layout(Expected(records, tooWide))
    decreases |records|
  {
    if |records| > 0 {
      SectionsAreLayout(records[1..], tooWide);
      assert Expected(records, tooWide)[1..] == Expected(records[1..], tooWide);
    }
  }

  /** Reading the report back gives one section per record, in input order,
      each with the record's heading and its field lines in field order,
      followed by the chart exactly when one was supplied; a report without
      records reads back as the notice alone, plus the chart if one was
      supplied. */
  lemma ComposeParsesBack(records: seq<Record>, chart: Option<Chart>, tooWide: string -> bool)
    ensures ParseReport(Compose(records, chart, tooWide)) == Some(Outline(Expected(records, tooWide), chart))
  {
    if records == [] {
      ParseWithChart([Notice(EmptyNotice)], chart);
    } else {
      var ss := Expected(records, tooWide);
      SectionsAreLayout(records, tooWide);
      ParseLayout(ss);
      LayoutEndsWithGap(ss);
      var body := Layout(ss);
      assert body[0] == Heading(ss[0].heading);
      ParseWithChart(body, chart);
    }
  }

  lemma {:induction false} LayoutEndsWithGap(ss: seq<Section>)
    requires ss != []
    ensures |Layout(ss)| > 0 && Layout(ss)[|Layout(ss)| - 1] == Gap
    decreases |ss|
  {
    if |ss| > 1 {
      LayoutEndsWithGap(ss[1..]);
    }
  }

  /** A report without records is the notice, then the chart if one was
      supplied, and nothing else. */
  lemma EmptyReport(chart: Option<Chart>, tooWide: string -> bool)
    ensures Compose([], chart, tooWide)[0] == Notice(EmptyNotice)
    ensures chart.None? ==> |Compose([], chart, tooWide)| == 1
    ensures chart.Some? ==> Compose([], chart, tooWide) == [Notice(EmptyNotice), ChartImage(chart.value)]
  {
  }

  /** A field whose value cannot be shown changes its own line, to the field
      name and the placeholder, and nothing else in the report, except that
      a genotype that cannot be shown is also shown as the placeholder in
      its record's heading. */
  lemma UnrenderableOnlyOwnLine(records: seq<Record>, k: nat, i: nat, tooWide: string -> bool)
    requires k < |records| && i < |records[k]| && UniqueKeys(records[k])
    ensures var key := records[k][i].key;
      var changed := records[k := records[k][i := Field(key, Unrenderable)]];
      var before := Expected(records, tooWide);
      var after := Expected(changed, tooWide);
      && |after| == |before|
      && (forall k' :: 0 <= k' < |records| && k' != k ==> after[k'] == before[k'])
      && after[k].heading == (if key == GenotypeField then HeadingPrefix + Placeholder else before[k].heading)
      && |after[k].lines| == |before[k].lines|
      && after[k].lines[i] == Label(key) + Placeholder
      && (forall j :: 0 <= j < |records[k]| && j != i ==> after[k].lines[j] == before[k].lines[j])
  {
    var key := records[k][i].key;
    var r := records[k];
    var r' := r[i := Field(key, Unrenderable)];
    if key == GenotypeField {
      assert forall a, b :: 0 <= a < b < |r'| ==> r'[a].key == r[a].key && r'[b].key == r[b].key;
      GetAt(r', i);
    } else {
      GetIgnoresOtherKey(r, i, Field(key, Unrenderable), GenotypeField);
    }
    FieldTextsAt(r', tooWide, i);
    forall j | 0 <= j < |r| && j != i
      ensures FieldTexts(r', tooWide)[j] == FieldTexts(r, tooWide)[j]
    {
      FieldTextsAt(r, tooWide, j);
      FieldTextsAt(r', tooWide, j);
    }
  }

  /** Replacing the value at one position leaves the lookup of any other key alone. */
  lemma {:induction false} GetIgnoresOtherKey(r: Record, i: nat, f: Field, key: string)
    requires i < |r| && r[i].key == f.key && f.key != key
    ensures Get(r[i := f], key) == Get(r, key)
    decreases |r|
  {
    if i > 0 && r[0].key != key {
      assert r[i := f][1..] == r[1..][i - 1 := f];
      GetIgnoresOtherKey(r[1..], i - 1, f, key);
    } else if i == 0 {
      assert r[i := f][1..] == r[1..];
    }
  }

  // ---------------------------------------------------------------------------
  // The report as the code builds it: the heading is written outside the
  // per-field guard, so a genotype that cannot be shown aborts the report.

  function HeadingAsWritten(r: Record): Option<string> {
    match Get(r, GenotypeField)
    case None => Some(HeadingPrefix + NoGenotype)
    case Some(Text(g)) => Some(HeadingPrefix + g)
    case Some(Unrenderable) => None
  }

  function SectionsAsWritten(records: seq<Record>, tooWide: string -> bool): Option<seq<Block>>
    decreases |records|
  {
    if |records| == 0 then Some([])
    else match HeadingAsWritten(records[0])
      case None => None
      case Some(h) =>
        (match SectionsAsWritten(records[1..], tooWide)
         case None => None
         case Some(rest) => Some([Heading(h)] + Lines(FieldTexts(records[0], tooWide)) + [Gap] + rest))
  }

  function ComposeAsWritten(records: seq<Record>, chart: Option<Chart>, tooWide: string -> bool): Option<seq<Block>> {
    if records == [] then Some([Notice(EmptyNotice)] + ChartTail(chart))
    else match SectionsAsWritten(records, tooWide)
      case None => None
      case Some(body) => Some(body + ChartTail(chart))
  }

  /** True when some record has a genotype that cannot be shown. */
  predicate SomeGenotypeUnshowable(records: seq<Record>) {
    exists i :: 0 <= i < |records| && Get(records[i], GenotypeField) == Some(Unrenderable)
  }

  lemma HeadingAsWrittenAgrees(r: Record)
    ensures HeadingAsWritten(r).None? <==> Get(r, GenotypeField) == Some(Unrenderable)
    ensures HeadingAsWritten(r).Some? ==> HeadingAsWritten(r).value == HeadingText(r)
  {
  }

  lemma {:induction false} SectionsAsWrittenFail(records: seq<Record>, tooWide: string -> bool)
    ensures SectionsAsWritten(records, tooWide).None? <==> SomeGenotypeUnshowable(records)
    decreases |records|
  {
    if |records| > 0 {
      SectionsAsWrittenFail(records[1..], tooWide);
      HeadingAsWrittenAgrees(records[0]);
      if SomeGenotypeUnshowable(records[1..]) {
        var i :| 0 <= i < |records[1..]| && Get(records[1..][i], GenotypeField) == Some(Unrenderable);
        assert records[i + 1] == records[1..][i];
      }
      if SomeGenotypeUnshowable(records) {
        var i :| 0 <= i < |records| && Get(records[i], GenotypeField) == Some(Unrenderable);
        if i > 0 {
          assert records[1..][i - 1] == records[i];
        }
      }
    }
  }

  lemma {:induction false} SectionsAsWrittenMatch(records: seq<Record>, tooWide: string -> bool)
    ensures SectionsAsWritten(records, tooWide).Some? ==>
      SectionsAsWritten(records, tooWide).value == Sections(records, tooWide)
    decreases |records|
  {
    if |records| > 0 {
      SectionsAsWrittenMatch(records[1..], tooWide);
      HeadingAsWrittenAgrees(records[0]);
    }
  }

  /** The report as written fails exactly when some matched record has a
      genotype that cannot be shown, and otherwise is the corrected report. */
  lemma ComposeAsWrittenAgrees(records: seq<Record>, chart: Option<Chart>, tooWide: string -> bool)
    ensures ComposeAsWritten(records, chart, tooWide).None? <==> SomeGenotypeUnshowable(records)
    ensures ComposeAsWritten(records, chart, tooWide).Some? ==>
      ComposeAsWritten(records, chart, tooWide).value == Compose(records, chart, tooWide)
  {
    SectionsAsWrittenFail(records, tooWide);
    SectionsAsWrittenMatch(records, tooWide);
  }

  /** A single record whose genotype cannot be shown: the report as written
      is lost, while the corrected report still holds the record's section. */
  lemma UnshowableGenotypeAbortsReport(tooWide: string -> bool)
    ensures var records := [[Field(GenotypeField, Unrenderable), Field("SNP", Text("rs1801133"))]];
      && ComposeAsWritten(records, None, tooWide) == None
      && Compose(records, None, tooWide)[0] == Heading(HeadingPrefix + Placeholder)
  {
    var records := [[Field(GenotypeField, Unrenderable), Field("SNP", Text("rs1801133"))]];
    assert Get(records[0], GenotypeField) == Some(Unrenderable);
  }

  // ---------------------------------------------------------------------------
  // The report for the reference table's record

  lemma ThreeFieldTexts(r: Record, tooWide: string -> bool)
    requires |r| == 3
    ensures FieldTexts(r, tooWide) == [FieldText(r[0], tooWide), FieldText(r[1], tooWide), FieldText(r[2], tooWide)]
  {
    FieldTextsAt(r, tooWide, 0);
    FieldTextsAt(r, tooWide, 1);
    FieldTextsAt(r, tooWide, 2);
  }

  lemma ExampleSnpLine(rec: Record, tooWide: string -> bool)
    requires rec == ExampleTable()[0] && !tooWide("Snp: rs1801133")
    ensures FieldText(rec[0], tooWide) == "Snp: rs1801133"
  {
    TitleSnp();
    FieldLineFits(rec[0], "Snp: rs1801133", tooWide);
  }

  lemma ExampleGenotypeLine(rec: Record, tooWide: string -> bool)
    requires rec == ExampleTable()[0] && !tooWide("Genotype: AA")
    ensures FieldText(rec[1], tooWide) == "Genotype: AA"
  {
    TitleGenotype();
    FieldLineFits(rec[1], "Genotype: AA", tooWide);
  }

  lemma ExampleRiskLine(rec: Record, tooWide: string -> bool)
    requires rec == ExampleTable()[0] && !tooWide("Risk Level: High")
    ensures FieldText(rec[2], tooWide) == "Risk Level: High"
  {
    TitleRiskLevel();
    FieldLineFits(rec[2], "Risk Level: High", tooWide);
  }

  /** The three field lines of the reference record when each fits. */
  lemma ExampleFieldTexts(rec: Record, tooWide: string -> bool)
    requires rec == ExampleTable()[0]
    requires !tooWide("Snp: rs1801133") && !tooWide("Genotype: AA") && !tooWide("Risk Level: High")
    ensures FieldTexts(rec, tooWide) == ["Snp: rs1801133", "Genotype: AA", "Risk Level: High"]
  {
    ThreeFieldTexts(rec, tooWide);
    ExampleSnpLine(rec, tooWide);
    ExampleGenotypeLine(rec, tooWide);
    ExampleRiskLine(rec, tooWide);
  }

  /** The report for one record whose heading and field lines are known, and a chart. */
  lemma OneRecordReport(r: Record, heading: string, lines: seq<string>, c: Chart, tooWide: string -> bool)
    requires HeadingText(r) == heading && FieldTexts(r, tooWide) == lines
    ensures Compose([r], Some(c), tooWide) == [Heading(heading)] + Lines(lines) + [Gap, ChartImage(c)]
  {
    assert [r][1..] == [];
    var front := [Heading(heading)] + Lines(lines);
    assert Sections([r], tooWide) == front + [Gap];
    assert front + [Gap] + [ChartImage(c)] == front + [Gap, ChartImage(c)];
  }

  lemma ThreeLines(lines: seq<string>)
    requires |lines| == 3
    ensures Lines(lines) == [FieldLine(lines[0]), FieldLine(lines[1]), FieldLine(lines[2])]
  {
  }

  lemma ExampleHeading(rec: Record)
    requires rec == ExampleTable()[0]
    ensures HeadingText(rec) == "SNP Data - Genotype: AA"
  {
    assert Get(rec, GenotypeField) == Some(Text("AA"));
  }

  lemma ExampleBlocks(doc: seq<Block>)
    requires doc == [Heading("SNP Data - Genotype: AA")]
      + Lines(["Snp: rs1801133", "Genotype: AA", "Risk Level: High"]) + [Gap, ChartImage(Chart(Red))]
    ensures doc == [
      Heading("SNP Data - Genotype: AA"),
      FieldLine("Snp: rs1801133"),
      FieldLine("Genotype: AA"),
      FieldLine("Risk Level: High"),
      Gap,
      ChartImage(Chart(Red))]
  {
    ThreeLines(["Snp: rs1801133", "Genotype: AA", "Risk Level: High"]);
  }

  /** The report for the reference record and a red chart: the heading with
      its genotype, its three field lines, the gap, and the chart. */
  lemma ExampleReport(rec: Record, tooWide: string -> bool)
    requires rec == ExampleTable()[0]
    requires !tooWide("Snp: rs1801133") && !tooWide("Genotype: AA") && !tooWide("Risk Level: High")
    ensures Compose([rec], Some(Chart(Red)), tooWide) == [
      Heading("SNP Data - Genotype: AA"),
      FieldLine("Snp: rs1801133"),
      FieldLine("Genotype: AA"),
      FieldLine("Risk Level: High"),
      Gap,
      ChartImage(Chart(Red))]
  {
    ExampleHeading(rec);
    ExampleFieldTexts(rec, tooWide);
    var ls := ["Snp: rs1801133", "Genotype: AA", "Risk Level: High"];
    OneRecordReport(rec, "SNP Data - Genotype: AA", ls, Chart(Red), tooWide);
    ExampleBlocks(Compose([rec], Some(Chart(Red)), tooWide));
  }
}
