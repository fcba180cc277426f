/**
 The part of the risk chart that is logic rather than drawing: the colour of
 the single bar, chosen from the risk level of the first matched record.
 */
module RiskChart {
  import opened Records

  datatype Colour = Red | Orange | Green | Gray

  /** The rendered chart, reduced to the colour of its bar. */
  datatype Chart = Chart(colour: Colour)

  const RiskField := "Risk Level"
  const UnknownRisk := "UNKNOWN"

  /** The chart's label-to-colour dictionary; any other label falls back to gray. */
  const RiskColours: map<string, Colour> := map["High" := Red, "Medium" := Orange, "Low" := Green]

  /** `risk_colors.get(risk, 'gray')`. */
  function ColourOf(risk: string): (c: Colour)
    ensures c == Red <==> risk == "High"
    ensures c == Orange <==> risk == "Medium"
    ensures c == Green <==> risk == "Low"
    ensures c == Gray <==> risk != "High" && risk != "Medium" && risk != "Low"
  {
    if risk in RiskColours then RiskColours[risk] else Gray
  }

  /** The label handed to the chart: the first record's `Risk Level`, or
      `"UNKNOWN"` when that record has none. */
  function FirstRiskLabel(records: seq<Record>): (risk: Value)
    requires |records| > 0
    ensures (forall i :: 0 <= i < |records[0]| ==> records[0][i].key != RiskField) ==> risk == Text(UnknownRisk)
    ensures (exists i :: 0 <= i < |records[0]| && records[0][i].key == RiskField) ==>
      exists i :: 0 <= i < |records[0]| && records[0][i] == Field(RiskField, risk)
  {
    match Get(records[0], RiskField)
    case Some(v) => v
    case None => Text(UnknownRisk)
  }

  /** In a record with distinct field names, the label is the value stored
      under `Risk Level`, wherever that field sits. */
  lemma FirstRiskLabelField(records: seq<Record>, i: nat)
    requires |records| > 0 && UniqueKeys(records[0])
    requires i < |records[0]| && records[0][i].key == RiskField
    ensures FirstRiskLabel(records) == records[0][i].value
  {
    GetAt(records[0], i);
  }

  /** The chart drawn for a label. A value that is not text is no key of the
      dictionary, so it is drawn gray. */
  function RenderChart(risk: Value): (c: Chart)
    ensures c.colour != Gray <==> risk in {Text("High"), Text("Medium"), Text("Low")}
  {
    match risk
    case Text(s) => Chart(ColourOf(s))
    case Unrenderable => Chart(Gray)
  }

  /** The bar colour of the chart for a set of matches is red, orange or
      green exactly when the first record's risk level is "High", "Medium" or
      "Low"; a missing risk level, like every other label, gives gray. */
  lemma FirstRecordColour(records: seq<Record>)
    requires |records| > 0
    ensures var c := RenderChart(FirstRiskLabel(records)).colour;
      && (c == Red <==> Get(records[0], RiskField) == Some(Text("High")))
      && (c == Orange <==> Get(records[0], RiskField) == Some(Text("Medium")))
      && (c == Green <==> Get(records[0], RiskField) == Some(Text("Low")))
      && (Get(records[0], RiskField).None? ==> c == Gray)
  {
  }

  /** The reference record's risk level is "High", so its chart is red. */
  lemma ExampleChart()
    ensures RenderChart(FirstRiskLabel(ExampleTable())) == Chart(Red)
  {
    assert Get(ExampleTable()[0], RiskField) == Some(Text("High"));
  }
}
