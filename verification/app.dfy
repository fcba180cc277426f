/**
 What pressing "Analyze SNP" computes: the lookup, then, when something
 matched, the chart for the first match's risk level and the report with
 that chart. The messages and widgets that present these are not modelled.
 */
module App {
  import opened Records
  import opened SnpLookup
  import opened RiskChart
  import opened Report

  datatype Outcome =
    | NotFound
    | Found(records: seq<Record>, chart: Chart, report: seq<Block>)

  /** The outcome for the text typed into the input box. `tooWide` is the
      report's font-metric test. */
  function Analyze(table: seq<Record>, input: string, tooWide: string -> bool): (o: Outcome)
    ensures o.NotFound? <==> forall i :: 0 <= i < |table| ==> !Matches(table[i], QueryKey(input))
    ensures o.Found? ==> o.records == Lookup(table, input) && o.records != []
    ensures o.Found? ==> o.chart == RenderChart(FirstRiskLabel(o.records))
    ensures o.Found? ==>
      ParseReport(o.report) == Some(Outline(Expected(o.records, tooWide), Some(o.chart)))
  {
    var records := Lookup(table, input);
    LookupEmpty(table, input);
    if records == [] then NotFound
    else
      var chart := RenderChart(FirstRiskLabel(records));
      ComposeParsesBack(records, Some(chart), tooWide);
      Found(records, chart, Compose(records, Some(chart), tooWide))
  }

  /** The report `generate_pdf_report` produces as written, for a found
      outcome: none at all when some matched record's genotype cannot be
      shown, and otherwise exactly the report `Analyze` holds. */
  lemma AnalyzeAsWritten(table: seq<Record>, input: string, tooWide: string -> bool)
    requires Lookup(table, input) != []
    ensures Analyze(table, input, tooWide).Found?
    ensures var o := Analyze(table, input, tooWide);
      && (ComposeAsWritten(o.records, Some(o.chart), tooWide).None? <==> SomeGenotypeUnshowable(o.records))
      && (ComposeAsWritten(o.records, Some(o.chart), tooWide).Some? ==>
            ComposeAsWritten(o.records, Some(o.chart), tooWide).value == o.report)
  {
    var o := Analyze(table, input, tooWide);
    ComposeAsWrittenAgrees(o.records, Some(o.chart), tooWide);
  }

  /** Querying the reference table with the upper-case identifier finds its
      record, draws a red chart, and writes one section headed with the
      genotype, the three fields under title-cased names, a gap and the chart. */
  lemma ExampleSession(tooWide: string -> bool)
    requires !tooWide("Snp: rs1801133") && !tooWide("Genotype: AA") && !tooWide("Risk Level: High")
    ensures Analyze(ExampleTable(), "RS1801133", tooWide) == Found(ExampleTable(), Chart(Red), [
      Heading("SNP Data - Genotype: AA"),
      FieldLine("Snp: rs1801133"),
      FieldLine("Genotype: AA"),
      FieldLine("Risk Level: High"),
      Gap,
      ChartImage(Chart(Red))])
  {
    ExampleLookup();
    ExampleChart();
    ExampleReport(ExampleTable()[0], tooWide);
    assert ExampleTable() == [ExampleTable()[0]];
  }
}
