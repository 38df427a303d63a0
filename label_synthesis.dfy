/**
 * Label synthesis (the body of `TableExport.exportTable`): constant aspects
 * per row and per column, row aspect names stripped of every column aspect
 * name, one header row per column aspect name put in front of the grid, and
 * one label cell per remaining row aspect name put in front of each row.
 *
 * `Aspect.valueLabel("std")` belongs to the report's fact model, which is
 * not part of this model; it is the parameter `stdLabel`, None standing for
 * `undefined`.
 */
module LabelSynthesis {
  import opened Wrappers
  import opened JsCollections
  import opened Facts
  import opened Cells
  import opened AspectReducer
  import GridExtraction
  import opened SeqFacts

  /** The constant aspects of each row, or of each column: a Map or `null` per slice. */
  type Slices<V> = seq<Option<AspectMap<V>>>

  ghost function RowAspects<V>(data: Grid<V>): Slices<V> {
    seq(|data|, i requires 0 <= i < |data| => SliceConstants(data[i]))
  }

  /** `data.map(row => row[i])` */
  function Column<V>(data: Grid<V>, i: nat): (col: seq<Cell<V>>)
    requires forall r :: 0 <= r < |data| ==> i < |data[r]|
    ensures |col| == |data| && forall r :: 0 <= r < |data| ==> col[r] == data[r][i]
  {
    seq(|data|, r requires 0 <= r < |data| => data[r][i])
  }

  ghost function ColumnAspects<V>(data: Grid<V>, w: nat): Slices<V>
    requires Rectangular(data, w)
  {
    seq(w, i requires 0 <= i < w => SliceConstants(Column(data, i)))
  }

  /** The set of aspect names met on the non-null Maps, in first-seen order. */
  function SliceNames<V>(cs: Slices<V>): (r: seq<string>)
    ensures Distinct(r)
    ensures forall a :: a in r <==> exists k :: 0 <= k < |cs| && cs[k].Some? && a in cs[k].value.keys
  {
    if |cs| == 0 then []
    else
      var init := cs[..|cs| - 1];
      assert forall k :: 0 <= k < |cs| - 1 ==> init[k] == cs[k];
      match cs[|cs| - 1]
      case None => SliceNames(init)
      case Some(m) => AddAll(SliceNames(init), m.keys)
  }

  /** One more slice: its keys, if it has facts, join the names. */
  lemma SliceNamesStep<V>(cs: Slices<V>, c: Option<AspectMap<V>>)
    ensures SliceNames(cs + [c]) == if c.Some? then AddAll(SliceNames(cs), c.value.keys) else SliceNames(cs)
  {
    assert (cs + [c])[..|cs|] == cs;
  }

  /** One more row: `rowLength` grows to its length if it is longer. */
  lemma WidestStep<V>(data: Grid<V>, i: nat)
    requires i < |data|
    ensures GridExtraction.Widest(data[..i + 1])
         == if |data[i]| > GridExtraction.Widest(data[..i]) then |data[i]| else GridExtraction.Widest(data[..i])
  {
    assert data[..i + 1][..i] == data[..i];
  }

  /** Every column that has facts has aspect `a`. */
  ghost predicate OnEveryColumn<V>(cs: Slices<V>, a: string) {
    forall k :: 0 <= k < |cs| && cs[k].Some? ==> cs[k].value.Get(a).Some?
  }

  /** The names of `names` that are not on every column that has facts. */
  ghost function NotOnEveryColumn<V>(names: seq<string>, cs: Slices<V>): (r: seq<string>)
    ensures forall a :: a in r <==> a in names && !OnEveryColumn(cs, a)
  {
    if |names| == 0 then []
    else
      var init := names[..|names| - 1];
      var last := names[|names| - 1];
      assert names == init + [last];
      NotOnEveryColumn(init, cs) + (if OnEveryColumn(cs, last) then [] else [last])
  }

  /** `universalColumnAspectSet` (tableExport.js:213-220). */
  ghost function Universal<V>(names: seq<string>, cs: Slices<V>): (r: seq<string>)
    ensures forall a :: a in r <==> a in names && OnEveryColumn(cs, a)
  {
    Without(names, NotOnEveryColumn(names, cs))
  }

  /** `(ca || new Map()).get(a)`, then `valueLabel("std")`, then `|| ""`. */
  function LabelOf<V>(ca: Option<AspectMap<V>>, a: string, stdLabel: Aspect<V> -> Option<string>): (l: string)
    ensures ca.None? ==> l == ""
    ensures l != "" ==> ca.Some? && ca.value.Get(a).Some? && stdLabel(ca.value.Get(a).value) == Some(l)
    ensures ca.Some? && ca.value.Get(a).Some? && stdLabel(ca.value.Get(a).value).Some?
            ==> l == stdLabel(ca.value.Get(a).value).value
  {
    match ca
    case None => ""
    case Some(m) =>
      match m.Get(a)
      case None => ""
      case Some(v) => match stdLabel(v) case None => "" case Some(l) => l
  }

  /** A header row for column aspect `a`: `lead` bare empty strings, then the
      label of `a` in each column. */
  function HeaderRow<V>(a: string, lead: nat, cas: Slices<V>, stdLabel: Aspect<V> -> Option<string>): seq<Cell<V>> {
    seq(lead, _ => Blank) + seq(|cas|, k requires 0 <= k < |cas| => AspectLabel(LabelOf(cas[k], a, stdLabel)))
  }

  /** The label cells put in front of a row. */
  function RowLabels<V>(ra: Option<AspectMap<V>>, rowNames: seq<string>, stdLabel: Aspect<V> -> Option<string>): seq<Cell<V>> {
    seq(|rowNames|, j requires 0 <= j < |rowNames| => AspectLabel(LabelOf(ra, rowNames[j], stdLabel)))
  }

  /** The header rows in the order in which they stand in the grid: each is
      put in front of the ones before it, so the last name comes first. */
  function Headers<V>(names: seq<string>, lead: nat, cas: Slices<V>, stdLabel: Aspect<V> -> Option<string>): Grid<V> {
    seq(|names|, i requires 0 <= i < |names| => HeaderRow(names[|names| - 1 - i], lead, cas, stdLabel))
  }

  /** The data rows with their label cells in front. */
  function LabelledRows<V>(data: Grid<V>, ras: Slices<V>, rowNames: seq<string>, stdLabel: Aspect<V> -> Option<string>): Grid<V>
    requires |ras| == |data|
  {
    seq(|data|, k requires 0 <= k < |data| => RowLabels(ras[k], rowNames, stdLabel) + data[k])
  }

  /** The slices' constant aspects and the two name lists `exportTable` works with. */
  datatype Analysis<V> = Analysis(rowAspects: Slices<V>, columnAspects: Slices<V>, rowNames: seq<string>, columnNames: seq<string>)

  ghost function Analyse<V>(data: Grid<V>): (an: Analysis<V>)
    requires Rectangular(data, GridExtraction.Widest(data))
  {
    var cas := ColumnAspects(data, GridExtraction.Widest(data));
    var ras := RowAspects(data);
    Analysis(ras, cas, Without(SliceNames(ras), SliceNames(cas)), SliceNames(cas))
  }

  /** The header rows followed by the labelled data rows. */
  function Assemble<V>(data: Grid<V>, an: Analysis<V>, stdLabel: Aspect<V> -> Option<string>): Grid<V>
    requires |an.rowAspects| == |data|
  {
    Headers(an.columnNames, |an.rowNames|, an.columnAspects, stdLabel)
    + LabelledRows(data, an.rowAspects, an.rowNames, stdLabel)
  }

  /** The grid `exportTable` hands to `_writeTable`. */
  ghost function Labelled<V>(data: Grid<V>, stdLabel: Aspect<V> -> Option<string>): Grid<V>
    requires Rectangular(data, GridExtraction.Widest(data))
  {
    Assemble(data, Analyse(data), stdLabel)
  }

  // ---------------------------------------------------------------------------
  // Properties

  /** What the analysis holds: the constant aspects of every row and of every
      column, the column aspect names, and the row aspect names with every
      column aspect name taken out. */
  lemma AnalyseMeaning<V>(data: Grid<V>)
    requires Rectangular(data, GridExtraction.Widest(data))
    ensures var an := Analyse(data);
      && |an.rowAspects| == |data|
      && (forall r :: 0 <= r < |data| ==> an.rowAspects[r] == SliceConstants(data[r]))
      && |an.columnAspects| == GridExtraction.Widest(data)
      && (forall k :: 0 <= k < |an.columnAspects| ==> an.columnAspects[k] == SliceConstants(Column(data, k)))
      && Distinct(an.columnNames) && Distinct(an.rowNames)
      && (forall a :: a in an.columnNames <==> exists k :: 0 <= k < |an.columnAspects| && an.columnAspects[k].Some? && a in an.columnAspects[k].value.keys)
      && (forall a :: a in an.rowNames <==> a !in an.columnNames && exists r :: 0 <= r < |data| && an.rowAspects[r].Some? && a in an.rowAspects[r].value.keys)
  {
  }

  /** The labelled grid has one header row per column aspect name plus the
      data rows, and every row is as long as the label columns plus the
      width of the data. */
  lemma AssembledShape<V>(data: Grid<V>, w: nat, an: Analysis<V>, stdLabel: Aspect<V> -> Option<string>)
    requires Rectangular(data, w) && |an.rowAspects| == |data| && |an.columnAspects| == w
    ensures |Assemble(data, an, stdLabel)| == |an.columnNames| + |data|
    ensures Rectangular(Assemble(data, an, stdLabel), |an.rowNames| + w)
  {
    var out := Assemble(data, an, stdLabel);
    var n := |an.columnNames|;
    forall i | 0 <= i < |out| ensures |out[i]| == |an.rowNames| + w {
      if i < n {
        assert out[i] == HeaderRow(an.columnNames[n - 1 - i], |an.rowNames|, an.columnAspects, stdLabel);
      } else {
        assert out[i] == RowLabels(an.rowAspects[i - n], an.rowNames, stdLabel) + data[i - n];
      }
    }
  }

  /** Header row `i` is the one for the `i`-th column aspect name counted from
      the end: blank over the label columns, then that aspect's label in
      each column. */
  lemma HeaderRowsReversed<V>(data: Grid<V>, an: Analysis<V>, stdLabel: Aspect<V> -> Option<string>, i: nat)
    requires |an.rowAspects| == |data| && i < |an.columnNames|
    ensures var row := Assemble(data, an, stdLabel)[i];
      var a := an.columnNames[|an.columnNames| - 1 - i];
      && |row| == |an.rowNames| + |an.columnAspects|
      && (forall j :: 0 <= j < |an.rowNames| ==> row[j] == Blank)
      && (forall k :: 0 <= k < |an.columnAspects| ==>
            row[|an.rowNames| + k] == AspectLabel(LabelOf(an.columnAspects[k], a, stdLabel)))
  {
    assert Assemble(data, an, stdLabel)[i]
        == HeaderRow(an.columnNames[|an.columnNames| - 1 - i], |an.rowNames|, an.columnAspects, stdLabel);
  }

  /** Row `|columnNames| + r` is data row `r` behind its label cells, one per
      remaining row aspect name, taken from that row's constant aspects. */
  lemma DataRowsLabelled<V>(data: Grid<V>, an: Analysis<V>, stdLabel: Aspect<V> -> Option<string>, r: nat)
    requires |an.rowAspects| == |data| && r < |data|
    ensures var row := Assemble(data, an, stdLabel)[|an.columnNames| + r];
      && row[|an.rowNames|..] == data[r]
      && (forall j :: 0 <= j < |an.rowNames| ==> row[j] == AspectLabel(LabelOf(an.rowAspects[r], an.rowNames[j], stdLabel)))
  {
    assert Assemble(data, an, stdLabel)[|an.columnNames| + r] == RowLabels(an.rowAspects[r], an.rowNames, stdLabel) + data[r];
  }

  /** What a label cell says: the std label of the aspect when every fact of
      the slice carries it with the first fact's value, and "" when the slice
      has no facts or its facts do not agree on it. */
  lemma LabelOfSlice<V>(slice: seq<Cell<V>>, a: string, stdLabel: Aspect<V> -> Option<string>)
    ensures var facts := FactsInSlice(slice);
      LabelOf(SliceConstants(slice), a, stdLabel)
      == if |facts| > 0 && forall i :: 0 <= i < |facts| ==> FactAspect(facts[i], a).Some? && FactAspect(facts[i], a) == FactAspect(facts[0], a)
         then (match stdLabel(FactAspect(facts[0], a).value) case None => "" case Some(l) => l)
         else ""
  {
    var facts := FactsInSlice(slice);
    if |facts| > 0 {
      ConstantAspectsMeaning(facts, a);
    }
  }

  /** The universal column aspects are those on every column with facts; yet
      suppression uses all column aspect names, so a column aspect missing
      from some column still disappears from the row labels. */
  lemma SuppressionIgnoresUniversality<V>(period: Aspect<V>)
    ensures var m := JsMap([period.name], map[period.name := Some(period)]);
      var cs: Slices<V> := [Some(m), Some(JsMap([], map[]))];
      && SliceNames(cs) == [period.name]
      && Universal(SliceNames(cs), cs) == []
      && Without([period.name], SliceNames(cs)) == []
  {
    var m := JsMap([period.name], map[period.name := Some(period)]);
    var cs: Slices<V> := [Some(m), Some(JsMap([], map[]))];
    SliceNamesStep([], Some(m));
    assert AddAll([], [period.name]) == [period.name] by {
      assert [period.name][..0] == [];
    }
    assert [Some(m)] + [Some(JsMap([], map[]))] == cs;
    SliceNamesStep([Some(m)], Some(JsMap([], map[])));
    assert !OnEveryColumn(cs, period.name) by {
      assert cs[1].value.Get(period.name).None?;
    }

  }

  // ---------------------------------------------------------------------------
  // exportTable, step by step

  /** `for (const [aspectName, value] of constantAspects) set.add(aspectName)` */
  method AddNames(s: seq<string>, keys: seq<string>) returns (r: seq<string>)
    ensures r == AddAll(s, keys)
  {
    r := s;
    for k := 0 to |keys|
      invariant r == AddAll(s, keys[..k])
    {
      assert keys[..k + 1][..k] == keys[..k];
      r := Add(r, keys[k]);
    }
    assert keys[..|keys|] == keys;
  }

  /** Row constants, row aspect names and `rowLength` (tableExport.js:179-194). */
  method CollectRowAspects<V(==)>(data: Grid<V>) returns (rowAspects: Slices<V>, rowNames: seq<string>, rowLength: nat)
    ensures rowAspects == RowAspects(data)
    ensures rowNames == SliceNames(rowAspects)
    ensures rowLength == GridExtraction.Widest(data)
  {
    rowAspects, rowNames, rowLength := [], [], 0;
    for i := 0 to |data|
      invariant rowAspects == RowAspects(data)[..i]
      invariant rowNames == SliceNames(rowAspects)
      invariant rowLength == GridExtraction.Widest(data[..i])
    {
      var constantAspects := GetConstantAspectsForSlice(data[i]);
      SliceNamesStep(rowAspects, constantAspects);
      PrefixStep(RowAspects(data), i);
      rowAspects := rowAspects + [constantAspects];
      if constantAspects.Some? {
        rowNames := AddNames(rowNames, constantAspects.value.keys);
      }
      WidestStep(data, i);
      if |data[i]| > rowLength {
        rowLength := |data[i]|;
      }
    }
    assert data[..|data|] == data;
    assert RowAspects(data)[..|data|] == RowAspects(data);
  }

  /** Column constants and column aspect names (tableExport.js:196-207). */
  method CollectColumnAspects<V(==)>(data: Grid<V>, rowLength: nat) returns (columnAspects: Slices<V>, columnNames: seq<string>)
    requires Rectangular(data, rowLength)
    ensures columnAspects == ColumnAspects(data, rowLength)
    ensures columnNames == SliceNames(columnAspects)
  {
    columnAspects, columnNames := [], [];
    for i := 0 to rowLength
      invariant columnAspects == ColumnAspects(data, rowLength)[..i]
      invariant columnNames == SliceNames(columnAspects)
    {
      var column := Column(data, i);
      var constantAspects := GetConstantAspectsForSlice(column);
      SliceNamesStep(columnAspects, constantAspects);
      PrefixStep(ColumnAspects(data, rowLength), i);
      columnAspects := columnAspects + [constantAspects];
      if constantAspects.Some? {
        columnNames := AddNames(columnNames, constantAspects.value.keys);
      }
    }
    assert ColumnAspects(data, rowLength)[..rowLength] == ColumnAspects(data, rowLength);
  }

  /** One more name: it joins the names to delete unless every column with facts has it. */
  lemma NotOnEveryColumnStep<V>(names: seq<string>, cs: Slices<V>, i: nat)
    requires i < |names|
    ensures NotOnEveryColumn(names[..i + 1], cs)
         == NotOnEveryColumn(names[..i], cs) + (if OnEveryColumn(cs, names[i]) then [] else [names[i]])
  {
    assert names[..i + 1][..i] == names[..i];
  }

  /** One more column: it has the aspect, or has no facts. */
  lemma OnEveryColumnStep<V>(cs: Slices<V>, a: string, k: nat)
    requires k < |cs|
    ensures OnEveryColumn(cs[..k + 1], a) <==> OnEveryColumn(cs[..k], a) && (cs[k].Some? ==> cs[k].value.Get(a).Some?)
  {
    assert forall j :: 0 <= j < k ==> cs[..k + 1][j] == cs[..k][j];
    assert cs[..k + 1][k] == cs[k];
  }

  /** The inner loop of `universalColumnAspectSet` (tableExport.js:214-219):
      the name goes once a column with facts lacks it. */
  method DeleteUnlessOnEveryColumn<V>(universal: seq<string>, aspectName: string, columnAspects: Slices<V>)
    returns (r: seq<string>)
    ensures r == if OnEveryColumn(columnAspects, aspectName) then universal else Without(universal, [aspectName])
  {
    r := universal;
    ghost var deleted := Without(universal, [aspectName]);
    ghost var onEvery := true;
    for k := 0 to |columnAspects|
      invariant onEvery == OnEveryColumn(columnAspects[..k], aspectName)
      invariant r == if onEvery then universal else deleted
    {
      var ca := columnAspects[k];
      OnEveryColumnStep(columnAspects, aspectName, k);
      if ca.Some? && ca.value.Get(aspectName).None? {
        WithoutAgain(universal, r, aspectName);
        r := Without(r, [aspectName]);
        onEvery := false;
      }
    }
    assert columnAspects[..|columnAspects|] == columnAspects;
  }

  /** `universalColumnAspectSet` (tableExport.js:213-220): computed, and never read. */
  method UniversalColumnAspects<V>(columnNames: seq<string>, columnAspects: Slices<V>) returns (universal: seq<string>)
    ensures universal == Universal(columnNames, columnAspects)
  {
    universal := columnNames;
    WithoutNothing(columnNames);
    for i := 0 to |columnNames|
      invariant universal == Without(columnNames, NotOnEveryColumn(columnNames[..i], columnAspects))
    {
      ghost var before := NotOnEveryColumn(columnNames[..i], columnAspects);
      NotOnEveryColumnStep(columnNames, columnAspects, i);
      WithoutThenDelete(columnNames, before, columnNames[i]);
      universal := DeleteUnlessOnEveryColumn(universal, columnNames[i], columnAspects);
      if OnEveryColumn(columnAspects, columnNames[i]) {
        assert before + [] == before;
      }
    }
    assert columnNames[..|columnNames|] == columnNames;
  }

  /** Deleting every column aspect name from the row aspect names (tableExport.js:222-224). */
  method SuppressColumnNames(rowNames: seq<string>, columnNames: seq<string>) returns (r: seq<string>)
    ensures r == Without(rowNames, columnNames)
  {
    r := rowNames;
    WithoutNothing(rowNames);
    for i := 0 to |columnNames|
      invariant r == Without(rowNames, columnNames[..i])
    {
      WithoutPrefixStep(rowNames, columnNames, i);
      r := Without(r, [columnNames[i]]);
    }
    assert columnNames[..|columnNames|] == columnNames;
  }

  /** One header row (tableExport.js:230-238). */
  method BuildHeaderRow<V>(a: string, lead: nat, columnAspects: Slices<V>, stdLabel: Aspect<V> -> Option<string>) returns (newRow: seq<Cell<V>>)
    ensures newRow == HeaderRow(a, lead, columnAspects, stdLabel)
  {
    newRow := seq(lead, _ => Blank);
    for k := 0 to |columnAspects|
      invariant |newRow| == lead + k
      invariant newRow == HeaderRow(a, lead, columnAspects[..k], stdLabel)
    {
      var v := LabelOf(columnAspects[k], a, stdLabel);
      newRow := newRow + [AspectLabel(v)];
    }
    assert columnAspects[..|columnAspects|] == columnAspects;
  }

  /** `data.unshift(newRow)` for each column aspect name (tableExport.js:228-240). */
  method PrependHeaders<V>(data: Grid<V>, columnNames: seq<string>, lead: nat, columnAspects: Slices<V>,
                           stdLabel: Aspect<V> -> Option<string>) returns (out: Grid<V>)
    ensures out == Headers(columnNames, lead, columnAspects, stdLabel) + data
  {
    out := data;
    for i := 0 to |columnNames|
      invariant out == Headers(columnNames[..i], lead, columnAspects, stdLabel) + data
    {
      var newRow := BuildHeaderRow(columnNames[i], lead, columnAspects, stdLabel);
      assert columnNames[..i + 1][..i] == columnNames[..i];
      assert Headers(columnNames[..i + 1], lead, columnAspects, stdLabel)
          == [newRow] + Headers(columnNames[..i], lead, columnAspects, stdLabel);
      out := [newRow] + out;
    }
    assert columnNames[..|columnNames|] == columnNames;
  }

  /** The label cells of one row (tableExport.js:244-252). */
  method BuildRowLabels<V>(ra: Option<AspectMap<V>>, rowNames: seq<string>, stdLabel: Aspect<V> -> Option<string>) returns (newCols: seq<Cell<V>>)
    ensures newCols == RowLabels(ra, rowNames, stdLabel)
  {
    newCols := [];
    for j := 0 to |rowNames|
      invariant newCols == RowLabels(ra, rowNames[..j], stdLabel)
    {
      var v := LabelOf(ra, rowNames[j], stdLabel);
      newCols := newCols + [AspectLabel(v)];
    }
    assert rowNames[..|rowNames|] == rowNames;
  }

  /** `data[k] = newCols.concat(data[k])` for every row after the headers (tableExport.js:243-255). */
  method PrependRowLabels<V>(data: Grid<V>, n: nat, rowAspects: Slices<V>, rowNames: seq<string>,
                             stdLabel: Aspect<V> -> Option<string>) returns (out: Grid<V>)
    requires n + |rowAspects| == |data|
    ensures out == data[..n] + LabelledRows(data[n..], rowAspects, rowNames, stdLabel)
  {
    out := data;
    for k := n to |data|
      invariant |out| == |data|
      invariant out[..n] == data[..n]
      invariant forall r :: n <= r < k ==> out[r] == RowLabels(rowAspects[r - n], rowNames, stdLabel) + data[r]
      invariant out[k..] == data[k..]
    {
      var newCols := BuildRowLabels(rowAspects[k - n], rowNames, stdLabel);
      assert out[k] == data[k] by { assert out[k..][0] == data[k..][0]; }
      out := out[k := newCols + out[k]];
      assert out[k + 1..] == data[k + 1..] by {
        assert forall r :: k + 1 <= r < |data| ==> out[r] == data[k..][r - k];
      }
    }
  }

  /** Label synthesis as `exportTable` runs it (tableExport.js:178-255). */
  method LabelTable<V(==)>(data: Grid<V>, stdLabel: Aspect<V> -> Option<string>) returns (out: Grid<V>)
    requires Rectangular(data, GridExtraction.Widest(data))
    ensures out == Labelled(data, stdLabel)
  {
    var rowAspects, allRowNames, rowLength := CollectRowAspects(data);
    var columnAspects, allColumnNames := CollectColumnAspects(data, rowLength);
    var universal := UniversalColumnAspects(allColumnNames, columnAspects);
    allRowNames := SuppressColumnNames(allRowNames, allColumnNames);
    out := PrependHeaders(data, allColumnNames, |allRowNames|, columnAspects, stdLabel);
    assert out[|allColumnNames|..] == data;
    assert out[..|allColumnNames|] == Headers(allColumnNames, |allRowNames|, columnAspects, stdLabel);
    out := PrependRowLabels(out, |allColumnNames|, rowAspects, allRowNames, stdLabel);
  }
}
