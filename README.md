# Table export of the iXBRL viewer, modelled in Dafny

The iXBRL viewer shows the facts tagged in an inline-XBRL report. It can also
export an HTML table of that report to a spreadsheet. This project models the
export pipeline of `TableExport` and proves properties of it. The pipeline
has four stages:

1. **Grid extraction** (`_getRawTable`) turns the visible table cells into a
   grid of `static` and `fact` cells. A column span of *n* becomes *n* − 1
   leading empty cells. Each fact cell gets a `negative` hint and two border
   flags. The hint tests `/[\(-]\s*\d/` against the fact's own text with
   the text of every text node met on the backward walk to the cell put in
   front: the preceding siblings of the fact element and of its ancestors.
   Text inside a preceding element is not collected. Short rows are padded
   on the right to the longest row.
2. **Constant-aspect reduction** (`_getFactsInSlice`,
   `_getConstantAspectsForSlice`) computes, for one row or column, the Map
   of aspect names on which all of its facts agree. It gives `null` when the
   slice holds no fact.
3. **Label synthesis** (`exportTable`) computes the constant aspects of every
   row and every column. It takes every column aspect name out of the row
   aspect names, puts one header row per column aspect name in front of the
   grid, and puts one label cell per remaining row aspect name in front of
   each row.
4. **Cell presentation** (`_writeTable`) decides what each worksheet cell
   holds: the value, its sign, the borders and the grey font.

The project also models three pure helpers of the viewer page script:
`localName`, `getLabel`, and the `%hh` escaping step of `b64DecodeUnicode`.

Modules:

- `Wrappers`: `Option`.
- `JsCollections`: JavaScript's insertion-ordered `Set` and `Map`. A Set is a
  sequence without repeats; a Map is its key sequence plus a value or
  `undefined` per key.
- `Facts`: aspects and facts.
- `Cells`: grid cells.
- `GridExtraction`, `AspectReducer`, `LabelSynthesis`, `WorkbookWriter`: the
  four stages.
- `TableExport`: the stages put together.
- `ViewerTemplate`: the page-script helpers.

Each loop of the source is a method. Each method is proved against a
specification function, and the properties are lemmas about those functions.
`_getFactsInSlice`, the per-cell decision of `_writeTable`, `getLabel`,
`localName` and the escaping step contain no loop, so they are pure functions
here.

Points of the code's behaviour that the model keeps:

- The header rows come out in **reverse** order of the column aspect names,
  because each one is put on top with `data.unshift` (tableExport.js:239).
- The negative-sign pattern is **not anchored**. It matches anywhere in the
  string it tests, which starts as the fact's own text (tableExport.js:65)
  and grows with every text node met on the way back to the cell.
- `universalColumnAspectSet` is computed but never read. The code comment at
  tableExport.js:209-212 describes removing only the aspects present on
  every column that has facts. The loop at tableExport.js:222-224 removes
  every column aspect name from the row aspect names.
- A label cell holds `valueLabel("std") || ""` (tableExport.js:235-237 and
  249-251), so a missing or empty label gives "".
- A header row starts with bare `""` strings, not cell objects
  (tableExport.js:230), which is the `Blank` cell here. `_writeTable` writes
  them with no value and the grey font.

## Model

| member | source | states |
|---|---|---|
| GridExtraction.IsJsSpace | iXBRLViewerPlugin/viewer/src/js/tableExport.js:77 | `\s` is JavaScript's white-space class; no white space is a digit, `(` or `-` |
| GridExtraction.PrecedingText | iXBRLViewerPlugin/viewer/src/js/tableExport.js:64-76 | a walk over non-text nodes only (elements, comments, …) adds nothing; the text of the last node visited comes first |
| GridExtraction.NegativeHint | iXBRLViewerPlugin/viewer/src/js/tableExport.js:64-79 | the hint is true exactly when the preceding text nodes, latest-visited first, followed by the fact's own text, contain a match of the pattern (`HasSignedDigit`, the reference definition of the unanchored regex test) |
| GridExtraction.PrecedingTextAppend | iXBRLViewerPlugin/viewer/src/js/tableExport.js:66-76 | text nodes visited later in the walk end up further left in `s` |
| GridExtraction.MatchesNegativePatternIsRegex | iXBRLViewerPlugin/viewer/src/js/tableExport.js:77 | the left-to-right scan succeeds exactly when `(` or `-`, then only white space, then a digit occur somewhere in the text, which is `HasSignedDigit` |
| GridExtraction.SignedDigitInContext | iXBRLViewerPlugin/viewer/src/js/tableExport.js:74-77 | the pattern is not anchored: a match inside any piece of the text is a match of the whole text |
| GridExtraction.BorderKeywords | iXBRLViewerPlugin/viewer/src/js/tableExport.js:80-81 | the styles `solid` and `double` give a border and `none` gives none |
| GridExtraction.HasBorder | iXBRLViewerPlugin/viewer/src/js/tableExport.js:80-81 | a border needs `solid` or `double` in the style, so a style shorter than five characters gives none |
| GridExtraction.BorderInContext | iXBRLViewerPlugin/viewer/src/js/tableExport.js:80-81 | the style pattern is not anchored: a keyword anywhere in the style gives a border |
| GridExtraction.ToNumber | iXBRLViewerPlugin/viewer/src/js/tableExport.js:49 | `Number()` of a run of decimal digits is its decimal value; only a string with something besides white space can be NaN |
| GridExtraction.ColspanPaddingOfSpelling | iXBRLViewerPlugin/viewer/src/js/tableExport.js:47-52 | a non-empty span whose number is k, however spelt, adds k − 1 cells when k ≥ 2 and none otherwise |
| GridExtraction.ColspanPadding | iXBRLViewerPlugin/viewer/src/js/tableExport.js:47-52 | empty cells are pushed only for a present span attribute whose number is the count plus one |
| GridExtraction.ColspanPaddingOfNumber | iXBRLViewerPlugin/viewer/src/js/tableExport.js:47-52 | a span written as the number n adds n − 1 empty cells when n ≥ 2 and none for 0 or 1 |
| GridExtraction.ColspanPaddingNotNumeric | iXBRLViewerPlugin/viewer/src/js/tableExport.js:47-52 | a missing, empty or non-numeric span adds no cells |
| GridExtraction.CellFor | iXBRLViewerPlugin/viewer/src/js/tableExport.js:54-88 | a fact cell exactly when the cell's tagged element resolves to a fact, carrying that fact, the negative hint of its text and the two border flags; otherwise a static cell with the cell's text |
| GridExtraction.ExpandShape | iXBRLViewerPlugin/viewer/src/js/tableExport.js:47-88 | each source cell contributes exactly its span padding of `{static, ""}` cells, then its own cell |
| GridExtraction.RowCellsAppend | iXBRLViewerPlugin/viewer/src/js/tableExport.js:45-89 | a row's cells are the contributions of its source cells, concatenated in order |
| GridExtraction.PushCell | iXBRLViewerPlugin/viewer/src/js/tableExport.js:47-88 | the row grows by the cell's span padding followed by its fact cell (with hint and borders) or static cell |
| GridExtraction.BuildRow | iXBRLViewerPlugin/viewer/src/js/tableExport.js:45-89 | the row built from a table row is the concatenation of its cells' contributions |
| GridExtraction.Widest | iXBRLViewerPlugin/viewer/src/js/tableExport.js:90-92 | `maxRowLength` bounds every row and is the length of some row (0 for no rows) |
| GridExtraction.WidestAppend | iXBRLViewerPlugin/viewer/src/js/tableExport.js:90-93 | one more row raises the longest length to its own length exactly when it is longer |
| GridExtraction.RecordRow | iXBRLViewerPlugin/viewer/src/js/tableExport.js:90-93 | the finished row is appended and `maxRowLength` stays the length of the longest row so far |
| GridExtraction.PadRow | iXBRLViewerPlugin/viewer/src/js/tableExport.js:96-98 | the result is `Pad`, the reference definition of the `while` loop: a short row is extended with empty static cells to the longest length; a long enough row is unchanged |
| GridExtraction.PadRows | iXBRLViewerPlugin/viewer/src/js/tableExport.js:95-99 | every row is padded to the longest length, in place |
| GridExtraction.GetRawTable | iXBRLViewerPlugin/viewer/src/js/tableExport.js:39-101 | the extracted grid is `RawGrid`, the reference definition of `_getRawTable`: every built row padded to the longest built row |
| GridExtraction.RawGridRectangular | iXBRLViewerPlugin/viewer/src/js/tableExport.js:90-99 | one grid row per table row, all of the length of the longest built row, which some row reaches |
| GridExtraction.RawGridPadding | iXBRLViewerPlugin/viewer/src/js/tableExport.js:95-99 | padding keeps the built cells in place and in order, and appends only `{static, ""}` cells |
| Facts.Lookup | iXBRLViewerPlugin/viewer/src/js/tableExport.js:126 | `fact.aspect(name)` is present exactly when the fact has an aspect of that name, and then it is one of its aspects |
| AspectReducer.FactsInSlice | iXBRLViewerPlugin/viewer/src/js/tableExport.js:103-105 | every fact cell's fact is kept, and every kept fact comes from a fact cell |
| AspectReducer.FactsInSliceAppend | iXBRLViewerPlugin/viewer/src/js/tableExport.js:103-105 | filtering keeps slice order: the facts of a concatenation concatenate |
| AspectReducer.FactsInSliceSingle | iXBRLViewerPlugin/viewer/src/js/tableExport.js:104 | a fact cell gives its fact and any other cell gives nothing |
| AspectReducer.AllAspectNames | iXBRLViewerPlugin/viewer/src/js/tableExport.js:117-122 | the name set holds each aspect name of each fact, once |
| AspectReducer.CollectAspectNames | iXBRLViewerPlugin/viewer/src/js/tableExport.js:117-122 | the nested loop builds exactly that name set, in first-seen order |
| AspectReducer.ConstantNames | iXBRLViewerPlugin/viewer/src/js/tableExport.js:124-132 | a name is kept exactly when every fact carries the aspect with the first fact's value |
| AspectReducer.ConstantNamesStep | iXBRLViewerPlugin/viewer/src/js/tableExport.js:125-131 | one more name joins the kept names exactly when it is constant |
| AspectReducer.ConstantMapValid | iXBRLViewerPlugin/viewer/src/js/tableExport.js:124-133 | the resulting Map is well formed and its keys are exactly the constant names |
| AspectReducer.ConstantMapStep | iXBRLViewerPlugin/viewer/src/js/tableExport.js:125-131 | one more name sets that key to the first fact's aspect when it is constant, and leaves the Map alone otherwise |
| AspectReducer.NamedAspectPresent | iXBRLViewerPlugin/viewer/src/js/tableExport.js:117-126 | a name taken from the facts is carried by the first fact when there is no later fact |
| AspectReducer.AgreeUpToAll | iXBRLViewerPlugin/viewer/src/js/tableExport.js:127-131 | surviving the comparison with every later fact is the same as being constant |
| AspectReducer.KeepIfConstant | iXBRLViewerPlugin/viewer/src/js/tableExport.js:125-131 | set-then-delete-on-disagreement leaves the key set to the first fact's aspect if it is constant, and leaves no trace otherwise |
| AspectReducer.GetConstantAspectsForSlice | iXBRLViewerPlugin/viewer/src/js/tableExport.js:112-134 | the method returns the slice's constant aspects: `null` without facts, otherwise the Map of constant names |
| AspectReducer.SliceConstantsNull | iXBRLViewerPlugin/viewer/src/js/tableExport.js:113-116 | the result is `null` exactly when the slice has no fact cell |
| AspectReducer.ConstantAspectsMeaning | iXBRLViewerPlugin/viewer/src/js/tableExport.js:124-133 | a key is present iff every fact has that aspect equal to the first's; its value is the first fact's aspect, never undefined; keys are distinct and among the facts' names |
| AspectReducer.AgreeingAndDifferingAspects | iXBRLViewerPlugin/viewer/src/js/tableExport.js:124-133 | of two facts, an aspect they share is kept and one on which they differ is dropped |
| JsCollections.Add | iXBRLViewerPlugin/viewer/src/js/tableExport.js:120 | `set.add` keeps the existing order, adds the element once, and keeps the Set free of repeats |
| JsCollections.AddAll | iXBRLViewerPlugin/viewer/src/js/tableExport.js:187-189 | adding keys one by one gives the union, with the old elements first and no repeats |
| JsCollections.AddAllPresent | iXBRLViewerPlugin/viewer/src/js/tableExport.js:118-122 | adding names that are already there changes nothing |
| JsCollections.AddAllDistinct | iXBRLViewerPlugin/viewer/src/js/tableExport.js:118-122 | adding distinct names to an empty Set keeps their order |
| JsCollections.Without | iXBRLViewerPlugin/viewer/src/js/tableExport.js:222-224 | after the deletions exactly the undeleted elements remain, without repeats; their order is kept by WithoutAppend and WithoutSingle |
| JsCollections.WithoutAppend | iXBRLViewerPlugin/viewer/src/js/tableExport.js:222-224 | deletion keeps order: deleting from a concatenation deletes from each part |
| JsCollections.WithoutSingle | iXBRLViewerPlugin/viewer/src/js/tableExport.js:223 | one element survives exactly when it is not deleted |
| JsCollections.WithoutThenDelete | iXBRLViewerPlugin/viewer/src/js/tableExport.js:222-224 | deleting one more element extends the list of deleted elements |
| JsCollections.WithoutAbsent | iXBRLViewerPlugin/viewer/src/js/tableExport.js:223 | deleting absent elements changes nothing |
| JsCollections.WithoutNothing | iXBRLViewerPlugin/viewer/src/js/tableExport.js:222-224 | deleting nothing changes nothing |
| JsCollections.WithoutPrefixStep | iXBRLViewerPlugin/viewer/src/js/tableExport.js:222-224 | deleting the names one by one is deleting all of them |
| JsCollections.WithoutTwice | iXBRLViewerPlugin/viewer/src/js/tableExport.js:215-218 | deleting a name again once it is gone changes nothing |
| JsCollections.WithoutSameElements | iXBRLViewerPlugin/viewer/src/js/tableExport.js:222-224 | only which names are deleted matters, not their order or repetition |
| JsCollections.JsMap.Get | iXBRLViewerPlugin/viewer/src/js/tableExport.js:216 | `map.get(k)` is the key's value, and undefined for a key the Map lacks; on a well-formed Map, a key outside the iteration order gives undefined and a defined result comes from a key in it |
| JsCollections.JsMap.Set | iXBRLViewerPlugin/viewer/src/js/tableExport.js:126 | `map.set` gives the key the new value and keeps every other key's value; a new key goes last and an existing key keeps its place |
| JsCollections.JsMap.Delete | iXBRLViewerPlugin/viewer/src/js/tableExport.js:129 | `map.delete` makes the key undefined, keeps every other key's value, and leaves the other keys in their order |
| JsCollections.JsMap.DeleteMissing | iXBRLViewerPlugin/viewer/src/js/tableExport.js:129 | deleting a key the Map lacks leaves it as it was |
| JsCollections.JsMap.SetThenDeleteFresh | iXBRLViewerPlugin/viewer/src/js/tableExport.js:126-129 | setting a new key and deleting it again leaves the Map as it was |
| LabelSynthesis.Column | iXBRLViewerPlugin/viewer/src/js/tableExport.js:199 | `data.map(row => row[i])` has one cell per row, the row's i-th |
| LabelSynthesis.LabelOf | iXBRLViewerPlugin/viewer/src/js/tableExport.js:232-237 | a `null` slice gives ""; when the slice's Map holds an aspect under that name that has a std label, the result is that label; any non-empty result is such a label |
| LabelSynthesis.SliceNames | iXBRLViewerPlugin/viewer/src/js/tableExport.js:186-190 | the name set holds exactly the keys of the non-null Maps, once each |
| LabelSynthesis.SliceNamesStep | iXBRLViewerPlugin/viewer/src/js/tableExport.js:184-190 | one more slice adds its keys, if it has facts |
| LabelSynthesis.WidestStep | iXBRLViewerPlugin/viewer/src/js/tableExport.js:191-193 | `rowLength` grows to a longer row's length |
| LabelSynthesis.AddNames | iXBRLViewerPlugin/viewer/src/js/tableExport.js:187-189 | the loop over a Map's entries adds its keys to the Set, in order |
| LabelSynthesis.CollectRowAspects | iXBRLViewerPlugin/viewer/src/js/tableExport.js:179-194 | one constant-aspect result per row, the union of their names, and `rowLength` the longest row |
| LabelSynthesis.CollectColumnAspects | iXBRLViewerPlugin/viewer/src/js/tableExport.js:196-207 | one constant-aspect result per column `data.map(row => row[i])`, and the union of their names |
| LabelSynthesis.NotOnEveryColumn | iXBRLViewerPlugin/viewer/src/js/tableExport.js:214-219 | the names to drop are exactly those that some column with facts lacks |
| LabelSynthesis.NotOnEveryColumnStep | iXBRLViewerPlugin/viewer/src/js/tableExport.js:214-219 | one more name is dropped exactly when some column with facts lacks it |
| LabelSynthesis.OnEveryColumnStep | iXBRLViewerPlugin/viewer/src/js/tableExport.js:215-218 | one more column keeps the name when it has no facts or has the aspect |
| LabelSynthesis.Universal | iXBRLViewerPlugin/viewer/src/js/tableExport.js:213-220 | a name is universal exactly when every column with facts has it (columns without facts are exempt) |
| LabelSynthesis.DeleteUnlessOnEveryColumn | iXBRLViewerPlugin/viewer/src/js/tableExport.js:215-219 | the inner loop deletes the name exactly when a column with facts lacks it |
| LabelSynthesis.UniversalColumnAspects | iXBRLViewerPlugin/viewer/src/js/tableExport.js:213-220 | the loop leaves exactly the universal column aspect names |
| LabelSynthesis.SuppressColumnNames | iXBRLViewerPlugin/viewer/src/js/tableExport.js:222-224 | the row aspect names lose every column aspect name and keep their order |
| LabelSynthesis.SuppressionIgnoresUniversality | iXBRLViewerPlugin/viewer/src/js/tableExport.js:213-224 | an aspect that is on one column with facts but missing from another is not universal, yet it is still removed from the row names |
| LabelSynthesis.BuildHeaderRow | iXBRLViewerPlugin/viewer/src/js/tableExport.js:230-238 | one blank per row-label column, then one label cell per column |
| LabelSynthesis.PrependHeaders | iXBRLViewerPlugin/viewer/src/js/tableExport.js:228-240 | unshifting one row per column aspect name puts the rows for the last names first |
| LabelSynthesis.BuildRowLabels | iXBRLViewerPlugin/viewer/src/js/tableExport.js:244-252 | one label cell per remaining row aspect name, in order |
| LabelSynthesis.PrependRowLabels | iXBRLViewerPlugin/viewer/src/js/tableExport.js:243-255 | the header rows are untouched and every later row gets its label cells in front |
| LabelSynthesis.LabelTable | iXBRLViewerPlugin/viewer/src/js/tableExport.js:178-255 | the augmented grid is the header rows followed by the labelled data rows, as the analysis of the grid prescribes |
| LabelSynthesis.AnalyseMeaning | iXBRLViewerPlugin/viewer/src/js/tableExport.js:178-224 | per-row and per-column constant aspects; the column names are the columns' keys; the row names are the rows' keys that are not column names, none repeated |
| LabelSynthesis.AssembledShape | iXBRLViewerPlugin/viewer/src/js/tableExport.js:228-254 | (column aspect names + rows) rows, each (remaining row aspect names + row length) long |
| LabelSynthesis.HeaderRowsReversed | iXBRLViewerPlugin/viewer/src/js/tableExport.js:228-240 | header row i is for the i-th column aspect name counted from the end: blanks over the label columns, then that aspect's label per column |
| LabelSynthesis.DataRowsLabelled | iXBRLViewerPlugin/viewer/src/js/tableExport.js:243-255 | each data row keeps its cells after its label cells, which come from that row's constant aspects |
| LabelSynthesis.LabelOfSlice | iXBRLViewerPlugin/viewer/src/js/tableExport.js:232-237 | a label is the std label of the first fact's aspect when all facts of the slice agree on it, and "" when the slice has no facts or they do not agree |
| WorkbookWriter.Abs | iXBRLViewerPlugin/viewer/src/js/tableExport.js:151-154 | `Math.abs` is the value or its negation, and never negative |
| WorkbookWriter.WriteCell | iXBRLViewerPlugin/viewer/src/js/tableExport.js:145-170 | only fact cells are numbers with a border object, with the top and bottom lines exactly as flagged; labels and static cells keep their text; static and padding cells are grey |
| WorkbookWriter.FactSign | iXBRLViewerPlugin/viewer/src/js/tableExport.js:150-155 | the written magnitude is the fact's, and it is negative exactly when hinted (for a non-zero value) |
| WorkbookWriter.StoredSignIgnored | iXBRLViewerPlugin/viewer/src/js/tableExport.js:146-155 | the report's stored sign does not affect what is written |
| WorkbookWriter.WriteTable | iXBRLViewerPlugin/viewer/src/js/tableExport.js:141-172 | the worksheet has the grid's shape and each cell is written by the per-cell rule |
| TableExport.RawGridWidest | iXBRLViewerPlugin/viewer/src/js/tableExport.js:90-99 | the extracted grid is as wide as its longest built row, and all its rows have that length |
| TableExport.ExportedShape | iXBRLViewerPlugin/viewer/src/js/tableExport.js:176-255 | the exported grid has a row per column aspect name plus a row per table row, all as wide as the row labels plus the longest row |
| TableExport.ExportTable | iXBRLViewerPlugin/viewer/src/js/tableExport.js:176-258 | extraction, label synthesis and writing give the worksheet of the labelled grid, cell by cell |
| TableExport.ParenthesisedFact | iXBRLViewerPlugin/viewer/src/js/tableExport.js:64-81 | a fact shown as "(42)" is written as −42 and one shown as "42" as 42, whatever the stored sign; a `solid` bottom style gives a bottom border |
| TableExport.SharedAspectNames | iXBRLViewerPlugin/viewer/src/js/tableExport.js:117-122 | any number of facts that all carry the same two aspects give both names, in order |
| TableExport.SharedAspectsConstant | iXBRLViewerPlugin/viewer/src/js/tableExport.js:124-132 | both of those aspects are constant over the facts |
| TableExport.SharedAspectLookup | iXBRLViewerPlugin/viewer/src/js/tableExport.js:126-128 | every such fact's `aspect(name)` gives the same aspect for each of the two names |
| TableExport.SharedAspectsKept | iXBRLViewerPlugin/viewer/src/js/tableExport.js:112-134 | the slice's Map holds both aspects under their names, in that order |
| ViewerTemplate.IndexOf | templates/ixbrlviewer.js:46 | `indexOf` is -1 exactly when the character is absent, and otherwise its first position |
| ViewerTemplate.LocalName | templates/ixbrlviewer.js:45-52 | the result is a suffix of the name: the whole name when it has no colon, and otherwise what follows the first colon |
| ViewerTemplate.LocalNameOfPrefixed | templates/ixbrlviewer.js:49-50 | a prefix without a colon is stripped and the local part is kept whole, later colons included |
| ViewerTemplate.GetLabel | templates/ixbrlviewer.js:9-17 | throws exactly for an unknown concept; undefined when the role has no labels; otherwise a non-empty `en` label, else the `en-us` label, else undefined |
| ViewerTemplate.EnglishFirst | templates/ixbrlviewer.js:15 | a non-empty `en` label is returned whatever other languages the role has |
| ViewerTemplate.EnglishUsFallback | templates/ixbrlviewer.js:15 | a missing or empty `en` label falls back to the `en-us` label when there is one |
| ViewerTemplate.NoEnglishLabel | templates/ixbrlviewer.js:15 | without `en-us`, a missing or empty `en` label gives undefined |
| ViewerTemplate.ToHex | templates/ixbrlviewer.js:5 | `toString(16)` is non-empty and ends with the lowest hexadecimal digit |
| ViewerTemplate.TwoHexDigits | templates/ixbrlviewer.js:5 | `('00' + hex).slice(-2)` is the two lowest hexadecimal digits, zero-padded, in lower case |
| ViewerTemplate.EscapeChar | templates/ixbrlviewer.js:5 | each character becomes three characters starting with `%` |
| ViewerTemplate.Escape | templates/ixbrlviewer.js:4-6 | the escaped text is three times as long, with character i's escape at positions 3i to 3i+2 |
| ViewerTemplate.EscapedBytes | templates/ixbrlviewer.js:4 | reading `%hh` escapes yields one byte below 256 per three characters |
| ViewerTemplate.LowBytes | templates/ixbrlviewer.js:4-5 | each character's code modulo 256, which is the code itself for the characters `atob` yields |
| ViewerTemplate.EscapedBytesOfEscape | templates/ixbrlviewer.js:4-5 | an escape in front reads back as the character's low byte |
| ViewerTemplate.SplitByte | templates/ixbrlviewer.js:5 | the two hexadecimal digits rebuild the low byte |
| ViewerTemplate.EscapeRoundTrip | templates/ixbrlviewer.js:3-7 | reading the escapes back gives exactly the characters' codes (below 256), one byte per character |

## Left out

- The DOM is abstract. Finding the rows and `td:visible, th:visible` cells, the `:visible` test, `$(this).text()`, the computed border styles, and the walk over `previousSibling`/`parentNode` are inputs. A table is its rows of cells. Each cell carries its span attribute, its fact, the fact element's text, the nodes its walk visits, and its two border styles.
- `report.getItemById`, `Fact.aspects()`, `Fact.aspect(name)`, `Aspect.equalTo` and `Aspect.valueLabel("std")` are not part of this model. A fact is its list of aspects and an integer value. Two aspects are equal when both are present and equal, and a missing aspect equals nothing. `valueLabel("std")` is the parameter `stdLabel`.
- `Number(cell.fact.value())` is modelled on integers. Floating point, non-numeric fact values (NaN) and `-0` are not modelled.
- GridExtraction.ColspanPadding: `Number()` of the span attribute is modelled only for blank strings and optionally signed decimal integers around white space. Fractions (which loop up to the ceiling), hexadecimal, exponent and `Infinity` spellings are treated as NaN. With `colspan="Infinity"` the loop at tableExport.js:49 never ends, and `"1e9"` pushes a billion cells; the model leaves that non-termination and that size out.
- The exceljs workbook and worksheet, `numFmt '#,##0'`, the column width of 18, the border colour and `medium` style, `writeBuffer`, `Blob` and `FileSaver.saveAs` are left out: they are a foreign library and asynchronous I/O. The worksheet is the grid of written cells.
- `TableExport.addHandles` (the export button and its click handler) is user-interface wiring and is left out.
- `TableExport` keeps no state beyond its constructor's table and report, so it is a module of methods over the table rather than a class.
- `getLabel` reads a global `taxonomy`; here it is a parameter. Keys inherited from `Object.prototype` (a concept or role named `constructor`, say) are not modelled.
- `atob` and `decodeURIComponent` are built-ins. Only the escaping step between them is modelled, together with the reading of the `%hh` escapes back into bytes; the UTF-8 decoding is not.
- `selectElement`, `selectNextTag`, `preProcessiXBRL`, the iframe set-up, the template directives and the `interact` resize handling are DOM and UI glue and are left out.
