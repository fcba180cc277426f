# NutriGene SNP analyzer: lookup, risk colour and report content

NutriGene is a small Streamlit application (`app.py`). The user types an SNP
identifier and the application looks it up in a table of annotation records.
For a match it draws a one-bar chart coloured by the first record's risk level
and offers a PDF report. The report lists every matched record and ends with
the chart.

This project models the logic inside that glue, in Dafny:

- `Text`: the string methods the application uses.
  - `strip()` over the full `str.isspace()` whitespace set.
  - `lower()` and `upper()`.
  - `title()`, given pointwise and also as the left-to-right scan CPython performs, with ASCII letters as the only cased characters.
- `Records`: a record as an insertion-ordered sequence of fields with a `dict.get` lookup.
  - A field value is `Text(s)`, the text `str()` gives for it.
  - Or it is `Unrenderable`, for a value whose conversion or rendering raises.
- `SnpLookup`: the query key (strip, then lowercase) and the filter over the table (app.py:72-73).
- `RiskChart`: the label-to-colour dictionary with its gray fallback (app.py:15-16).
  - Also the `"UNKNOWN"` default for a missing risk level (app.py:84).
- `LineWrap`: two string operations on a field value.
  - Line breaks are replaced by spaces (app.py:43).
  - The manual wrap cuts the value into 100-character slices joined by line feeds (app.py:46).
- `Report`: `generate_pdf_report` as a sequence of blocks instead of a PDF (app.py:29-58).
  - The blocks are `Notice`, `Heading`, `FieldLine`, `Gap` and `ChartImage`.
  - The font-metric test `get_string_width(...) > 180` is a predicate parameter `tooWide`.
  - The module also has a reader, `ParseReport`, that turns a block sequence back into an outline.
  - `ComposeParsesBack` proves that composing and then reading gives one section per record, in order, and the chart.
- `App`: what pressing "Analyze SNP" computes (app.py:71-89).
  - The lookup runs first.
  - When something matched, the chart is drawn from the first match's risk level.
  - The report is then composed with that chart.

The report is appended with the chart whenever one is supplied, even when the
record list is empty: the `if chart_buffer:` test (app.py:54) sits outside the
`if/else` on the records. The model follows the code here. It does not follow
the reading that an empty report holds only the notice.

## Model

| member | source | states |
|---|---|---|
| `Text.TrimExact` | app.py:72 | `strip()` keeps exactly the infix between an all-whitespace prefix and an all-whitespace suffix whose boundary characters are not whitespace |
| `Text.TrimBounds` | app.py:72 | every string has such a prefix and suffix, so `strip()` only ever removes surrounding whitespace |
| `Text.TrimEmpty` | app.py:72 | a query strips to the empty string exactly when it consists of whitespace only |
| `Text.TrimIgnoresPadding` | app.py:72 | whitespace added around a string does not change what `strip()` returns |
| `Text.TrimLower` | app.py:72 | stripping then lowercasing is the same as lowercasing then stripping |
| `Text.LowerUpper` | app.py:72 | lowercasing the upper-case form of a string gives its lowercase form |
| `Text.TitleScan` | app.py:44 | for names whose cased characters are ASCII letters, CPython's left-to-right `title()` scan, which carries whether the previous character was cased, equals the pointwise definition |
| `Text.TitleAt` | app.py:44 | for names whose cased characters are ASCII letters, `title()` uppercases exactly the letters that start a run of letters and lowercases every other letter; other characters are kept |
| `Text.TitleIdempotent` | app.py:44 | title-casing an already title-cased field name changes nothing |
| `Records.Get` | app.py:39 | `dict.get` returns nothing exactly when no field has the key; what it returns is a value stored under that key |
| `Records.GetAt` | app.py:39 | with distinct keys, `dict.get` of any field's key returns that field's value |
| `SnpLookup.LookupExact` | app.py:72-73 | the result lists exactly the records whose lowercased `SNP` text equals the stripped, lowercased query, each once and in table order |
| `SnpLookup.LookupEmpty` | app.py:73-75 | the result is empty exactly when no record matches the query |
| `SnpLookup.LookupCaseInsensitive` | app.py:72-73 | two queries with the same lowercase form select the same records |
| `SnpLookup.LookupUpper` | app.py:72-73 | the upper-case form of a query selects the same records as the query |
| `SnpLookup.LookupIgnoresPadding` | app.py:72 | a query with whitespace added around it selects the same records |
| `SnpLookup.ExampleLookup` | app.py:72-73 | in a one-record table, the query `RS1801133` finds the record whose `SNP` is `rs1801133` |
| `RiskChart.ColourOf` | app.py:15-16 | `High` gives red, `Medium` orange and `Low` green, each for that label only; every other label gives gray |
| `RiskChart.FirstRiskLabel` | app.py:84 | when no field of the first record is named `Risk Level` the label is `"UNKNOWN"`; when one is, the label is a value stored in the first record under that name |
| `RiskChart.FirstRiskLabelField` | app.py:84 | with distinct field names, the label is exactly the value of the first record's `Risk Level` field, wherever that field sits |
| `RiskChart.RenderChart` | app.py:15-16 | the bar is coloured exactly when the label is the text `High`, `Medium` or `Low`; any other value, text or not, gives gray |
| `RiskChart.FirstRecordColour` | app.py:84-85 | the chart is red, orange or green exactly when the first record's risk level is `High`, `Medium` or `Low`; a missing risk level gives gray |
| `RiskChart.ExampleChart` | app.py:84-85 | a first record whose risk level is `High` gets a red chart |
| `LineWrap.ReplaceAt` | app.py:43 | `replace` of one character keeps the length and changes exactly the occurrences of that character |
| `LineWrap.Sanitise` | app.py:43 | sanitising keeps the length and turns every line feed and carriage return into a space, leaving the other characters alone, so none of either remains |
| `LineWrap.SanitiseIdempotent` | app.py:43 | sanitising twice is the same as sanitising once |
| `LineWrap.SanitiseKeepsClean` | app.py:43 | a value without line breaks is left unchanged |
| `LineWrap.ChunkAt` | app.py:46 | piece `k` is the Python slice `value[100k:100k+100]` |
| `LineWrap.ChunkCount` | app.py:46 | there are `ceil(len/100)` pieces, and none exactly for the empty value |
| `LineWrap.ChunksConcat` | app.py:46 | concatenating the pieces gives the value back |
| `LineWrap.ChunkSizes` | app.py:46 | every piece is 1 to 100 characters long, and every piece but the last is exactly 100 |
| `LineWrap.RemoveJoin` | app.py:46 | deleting the separators from a join of separator-free pieces gives the concatenated pieces |
| `LineWrap.SplitJoin` | app.py:46 | splitting a join of separator-free pieces at the separator gives the pieces back |
| `LineWrap.WrapRecovers` | app.py:43-47 | deleting the line feeds from a wrapped sanitised value gives that value back exactly |
| `LineWrap.WrapLines` | app.py:46-47 | the physical lines of a wrapped non-empty value are exactly its 100-character pieces |
| `Report.FieldTextMeaning` | app.py:41-51 | a field's line is its title-cased name and `": "`, then one of three things: the placeholder when the value cannot be shown; a value that fits, without line feeds; or a wrapped value whose lines are its 100-character pieces; deleting the line feeds gives back the sanitised value |
| `Report.FieldLineFits` | app.py:43-49 | a value without line breaks whose line fits is written unchanged after the field name |
| `Report.FieldTextsAt` | app.py:41-51 | the record's lines come one per field, in field order |
| `Report.SectionsAreLayout` | app.py:37-52 | the loop over the records writes, for each record in input order, its heading, its field lines and a gap (corrected composer of the app.py:39 finding) |
| `Report.LayoutEndsWithGap` | app.py:52 | a non-empty run of records ends with a gap |
| `Report.ComposeParsesBack` | app.py:29-58 | reading the report back gives one section per record, in input order, with the record's heading and field lines, and then the chart exactly when one was supplied; an empty record list reads back as the notice alone |
| `Report.EmptyReport` | app.py:33-58 | without records the report is the notice `"No SNP data to report."`, followed by the chart when one is supplied, and nothing else |
| `Report.UnrenderableOnlyOwnLine` | app.py:39-51 | making one field's value unrenderable changes only that field's line, which becomes the field name and the placeholder; other records and lines are unchanged; only a `Genotype` field's change also reaches the heading, as the placeholder (corrected composer of the app.py:39 finding) |
| `Report.ExampleReport` | app.py:29-58 | the report for the reference record and a red chart holds six blocks: the heading `SNP Data - Genotype: AA`, the lines `Snp: rs1801133`, `Genotype: AA` and `Risk Level: High`, a gap, and the chart |
| `Report.HeadingAsWrittenAgrees` | app.py:39 | the heading as written fails exactly when the record's genotype cannot be shown, and otherwise equals the corrected heading |
| `Report.SectionsAsWrittenFail` | app.py:37-52 | the record loop as written fails exactly when some record's genotype cannot be shown |
| `Report.ComposeAsWrittenAgrees` | app.py:29-58 | the report as written is lost exactly when some record's genotype cannot be shown, and otherwise equals the corrected report |
| `Report.UnshowableGenotypeAbortsReport` | app.py:39 | for a record whose genotype cannot be shown, the report as written is lost, while the corrected report opens with the placeholder heading |
| `App.Analyze` | app.py:71-89 | the outcome is "not found" exactly when no record matches. Otherwise it holds the lookup result (non-empty), the chart for the first record's risk label, and a report that reads back as those records' sections followed by that chart; the report is the corrected one of the app.py:39 finding |
| `App.AnalyzeAsWritten` | app.py:89 | when the lookup finds records, the outcome is found and `generate_pdf_report` as written produces no report exactly when some matched record's genotype cannot be shown, and otherwise the report `App.Analyze` holds |
| `App.ExampleSession` | app.py:71-89 | querying the reference table with `RS1801133` finds its record, draws a red chart and produces the six-block report |

## Left out

- Streamlit I/O is not modelled (app.py:67-69, 77-82, 86, 91-98). This covers the title, input box, button, success and error messages, the on-screen record listing and the download button. Apart from the listing's conversion of values to text (see the `App.Analyze` line below), they only present results; the typed text is a parameter of `App.Analyze`.
- The matplotlib figure is not modelled (app.py:14, 17-27): bar, axis limits, chart title and PNG encoding. It is floating-point drawing in a foreign library. The chart is reduced to the colour of its bar.
- fpdf page set-up, fonts, cell heights and pagination are not modelled (app.py:30-31, 34, 38, 40), nor is the byte output (app.py:61-64). The block sequence stands in for the document.
- `get_string_width` (app.py:44) is a floating-point font metric. It is the uninterpreted predicate `tooWide`.
- The temporary file `chart_temp.png` (app.py:55-59) is filesystem I/O. The chart is passed in as a value.
- pandas is not modelled: building the DataFrame (app.py:10), filling columns a record lacks with NaN, and `to_dict('records')` (app.py:76). The table is a sequence of records given as a parameter.
- `str()` of arbitrary objects is not modelled: a value is the text `str()` gives for it, or `Unrenderable`.
- `Text.LowerChar`: case mapping covers ASCII letters only. Python's `lower()`, `upper()` and `title()` also map non-ASCII letters.
- `Text.TitleScan`: the scan counts only ASCII letters as cased. Python's `title()` treats every cased character as one, so a non-ASCII cased letter ends a word in the model but not in Python: the model gives `Title("naïve") == "NaïVe"` where Python gives `"Naïve"`, which changes an ASCII character of the output.
- `Text.TitleAt`: for the same reason, a letter after a non-ASCII cased character is upper-cased in the model and lower-cased by Python (`naïve` above).
- `SnpLookup.Matches`: a record whose `SNP` cell holds text matches on that text; an `Unrenderable` cell never matches. Two cases differ from pandas. First, `.str.lower()` turns a cell that is not a Python string (a number, say) into NaN, which never matches, while the model matches it on its `str()` text. Second, `Unrenderable` also stands for a Python string the report font cannot encode, which pandas lowercases and matches, while the model does not; `Value` keeps no text for such a cell.
- `SnpLookup.Lookup`: two crashes at app.py:73 are not modelled. When no record of the table has an `SNP` field (an empty table included), `snp_df["SNP"]` raises `KeyError`. When no `SNP` cell is a Python string (every id a number, or numbers and NaN), `.str` raises `AttributeError` ("Can only use .str accessor with string values"); for the table `[[Field("SNP", Text("123"))]]` standing for the number 123, the model finds the record for the query `"123"`. In both cases the model returns records or none, and `App.Analyze` reports "found" or "not found", instead of the crash.
- `App.Analyze`: the report it holds is built with the corrected composer `Report.Compose`. As written, app.py:89 raises inside `generate_pdf_report` when a matched genotype cannot be shown, and no report or download button appears; `App.AnalyzeAsWritten` states that behaviour. In addition, the on-screen listing formats every matched value in an f-string (app.py:80, 82) before the chart (app.py:84) and the report (app.py:89) are made, so a value whose `str()` raises, in any field, stops the source there with neither chart nor report. `Unrenderable` does not tell such a value from a string the report font cannot encode, so for it the model still returns `Found` with a chart and a report.
- `Report.UnrenderableOnlyOwnLine`: its `Genotype` clause describes the corrected composer. As written, an unshowable `Genotype` aborts the whole report at app.py:39, as `Report.ComposeAsWrittenAgrees` states.
- `Report.FieldText`: the field name itself is assumed renderable. The placeholder line (app.py:51) is written outside the `try`, so a field name the font cannot encode would still abort the report.
- `Report.FieldText`: a `multi_cell` that raises after writing part of a line is not modelled. The whole line becomes the placeholder.
- The module-level `last_match_data` (app.py:11, 76) is mutable state that only carries the lookup result to the report. The model passes that result directly.
- The `snp_data` import (app.py:7) is not modelled; the table is a parameter.

## Findings

| source | as written | input that shows it | evidently intended | confidence | as-written member | corrected member |
|---|---|---|---|---|---|---|
| app.py:39 | The heading `SNP Data - Genotype: {data_record.get('Genotype', 'N/A')}` is written outside the per-field `try`. If the genotype's conversion or rendering raises, the exception leaves `generate_pdf_report` and no report is produced. | A matched record whose `Genotype` value cannot be converted or encoded, e.g. `[Field("Genotype", Unrenderable), Field("SNP", Text("rs1801133"))]` | A value that cannot be shown becomes `[Value could not be displayed]`, as the per-field fallback at app.py:50-51 does for every field line, and the report is still produced | medium, not executed | `Report.UnshowableGenotypeAbortsReport` | `Report.ComposeParsesBack` |
