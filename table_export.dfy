/**
 * `TableExport.exportTable` end to end: the grid of the HTML table, its
 * labelled form, and the worksheet cells written from it. Building the
 * `.xlsx` file and saving it are not part of this model.
 */
module TableExport {
  import opened Wrappers
  import opened Facts
  import opened Cells
  import opened JsCollections
  import opened AspectReducer
  import opened GridExtraction
  import opened LabelSynthesis
  import opened WorkbookWriter

  /** The extracted grid is as wide as its longest row, so every row is as
      long as the longest. */
  lemma RawGridWidest<V>(table: seq<SourceRow<V>>)
    ensures Widest(RawGrid(table)) == Widest(BuiltRows(table))
    ensures Rectangular(RawGrid(table), Widest(RawGrid(table)))
  {
    RawGridRectangular(table);
    var g := RawGrid(table);
    var w := Widest(BuiltRows(table));
    if |table| > 0 {
      var i :| 0 <= i < |g| && |g[i]| == Widest(g);
      assert |g[0]| == w <= Widest(g);
    }
  }

  /** The grid `exportTable` hands to `_writeTable`. */
  ghost function ExportedGrid<V>(table: seq<SourceRow<V>>, stdLabel: Aspect<V> -> Option<string>): Grid<V> {
    RawGridWidest(table);
    Labelled(RawGrid(table), stdLabel)
  }

  /** The exported grid: one header row per column aspect name, then one row
      per table row, each as wide as the row labels plus the longest row. */
  lemma ExportedShape<V>(table: seq<SourceRow<V>>, stdLabel: Aspect<V> -> Option<string>)
    ensures Rectangular(RawGrid(table), Widest(RawGrid(table)))
    ensures var an := Analyse(RawGrid(table));
      && |ExportedGrid(table, stdLabel)| == |an.columnNames| + |table|
      && Rectangular(ExportedGrid(table, stdLabel), |an.rowNames| + Widest(BuiltRows(table)))
  {
    RawGridWidest(table);
    RawGridRectangular(table);
    var g := RawGrid(table);
    AnalyseMeaning(g);
    AssembledShape(g, Widest(g), Analyse(g), stdLabel);
  }

  /** `exportTable` up to the workbook (tableExport.js:176-258). */
  method ExportTable<V(==)>(table: seq<SourceRow<V>>, stdLabel: Aspect<V> -> Option<string>) returns (sheet: seq<seq<SheetCell>>)
    ensures |sheet| == |ExportedGrid(table, stdLabel)|
    ensures forall i :: 0 <= i < |sheet| ==> |sheet[i]| == |ExportedGrid(table, stdLabel)[i]|
    ensures forall i, j :: 0 <= i < |sheet| && 0 <= j < |sheet[i]| ==>
      sheet[i][j] == WriteCell(ExportedGrid(table, stdLabel)[i][j])
  {
    var data := GetRawTable(table);
    RawGridWidest(table);
    data := LabelTable(data, stdLabel);
    sheet := WriteTable(data);
  }

  /** A fact shown as "(42)" is written as -42 and one shown as "42" as 42,
      whatever the sign stored in the report; a `solid` bottom border style
      gives a bottom border, `none` gives none. */
  lemma ParenthesisedFact<V>(aspects: seq<Aspect<V>>, v: int)
    requires v == 42 || v == -42
    ensures var c := SourceCell(None, Some(Fact(aspects, v)), "42", [TextNode("(")], "none", "solid", "(42)");
      WriteCell(CellFor(c)) == SheetCell(Number(-42), Some(Border(false, true)), false)
    ensures var c := SourceCell(None, Some(Fact(aspects, v)), "42", [], "none", "none", "42");
      WriteCell(CellFor(c)) == SheetCell(Number(42), Some(Border(false, false)), false)
  {
    BorderKeywords();
    var walk := [TextNode("(")];
    assert walk[..0] == [];
    assert PrecedingText(walk) == "(";
    assert MatchAt("(" + "42", 0, 1);
    assert !HasSignedDigit("42") by {
      MatchesNegativePatternIsRegex("42");
      assert !MatchesNegativePattern("42"[2..]);
      assert "42"[1..][1..] == "42"[2..];
    }
    assert PrecedingText([]) + "42" == "42";
  }

  // ---------------------------------------------------------------------------
  // A slice whose facts all carry the same two aspects (a period and a unit,
  // say)

  /** Every fact has exactly the aspects `p` and `u`, in that order. */
  ghost predicate AllCarry<V>(facts: seq<Fact<V>>, p: Aspect<V>, u: Aspect<V>) {
    forall i :: 0 <= i < |facts| ==> facts[i].aspects == [p, u]
  }

  /** A Map holding both aspects under their names, in that order. */
  ghost predicate HoldsBoth<V>(c: Option<AspectMap<V>>, p: Aspect<V>, u: Aspect<V>) {
    c.Some? && c.value.keys == [p.name, u.name] && c.value.Get(p.name) == Some(p) && c.value.Get(u.name) == Some(u)
  }

  /** Facts with the same two aspects: both names, in order. */
  lemma {:induction false} SharedAspectNames<V>(p: Aspect<V>, u: Aspect<V>, facts: seq<Fact<V>>)
    requires p.name != u.name && |facts| > 0 && AllCarry(facts, p, u)
    ensures AllAspectNames(facts) == [p.name, u.name]
  {
    var names := [p.name, u.name];
    var init := facts[..|facts| - 1];
    assert NamesOf(facts[|facts| - 1].aspects) == names;
    if |init| == 0 {
      AddAllDistinct(names);
    } else {
      assert AllCarry(init, p, u);
      SharedAspectNames(p, u, init);
      AddAllPresent(names, names);
    }
  }

  /** Every fact's aspect of each of the two names is the same aspect. */
  lemma SharedAspectLookup<V>(p: Aspect<V>, u: Aspect<V>, facts: seq<Fact<V>>)
    requires p.name != u.name && AllCarry(facts, p, u)
    ensures forall i :: 0 <= i < |facts| ==> FactAspect(facts[i], p.name) == Some(p) && FactAspect(facts[i], u.name) == Some(u)
  {
    assert Lookup([p, u], p.name) == Some(p);
    assert Lookup([p, u], u.name) == Some(u) by {
      assert [p, u][1..] == [u];
    }
  }

  /** Facts with the same two aspects: both are constant. */
  lemma SharedAspectsConstant<V>(p: Aspect<V>, u: Aspect<V>, facts: seq<Fact<V>>)
    requires p.name != u.name && |facts| > 0 && AllCarry(facts, p, u)
    ensures ConstantNames(facts, [p.name, u.name]) == [p.name, u.name]
  {
    var names := [p.name, u.name];
    SharedAspectLookup(p, u, facts);
    assert IsConstant(facts, p.name);
    assert IsConstant(facts, u.name);
    assert names[..1] == [p.name];
    assert names[..1][..0] == [];
    assert ConstantNames(facts, names[..1]) == [p.name];
    assert ConstantNames(facts, names) == ConstantNames(facts, names[..1]) + [u.name];
  }

  /** The constant aspects of such facts: both aspects, in that order. */
  lemma SharedAspectsKept<V>(p: Aspect<V>, u: Aspect<V>, facts: seq<Fact<V>>)
    requires p.name != u.name && |facts| > 0 && AllCarry(facts, p, u)
    ensures HoldsBoth(ConstantAspects(facts), p, u)
  {
    SharedAspectNames(p, u, facts);
    SharedAspectsConstant(p, u, facts);
    SharedAspectLookup(p, u, facts);
  }
}
