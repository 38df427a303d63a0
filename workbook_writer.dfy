/**
 * The cell presentation rule of `TableExport._writeTable`: what each grid
 * cell becomes in the worksheet (value, borders, font colour). Row `i` and
 * column `j` of the grid become worksheet row `i + 1`, cell `j + 1`; here the
 * worksheet is the grid of written cells in the same positions.
 */
module WorkbookWriter {
  import opened Wrappers
  import opened Facts
  import opened Cells

  /** What a worksheet cell holds: a number, a text, or `undefined`. */
  datatype CellValue = Number(n: int) | Text(s: string) | Missing

  /** `cc.border`: a medium black line above and/or below. */
  datatype Border = Border(top: bool, bottom: bool)

  /** One written worksheet cell: its value, its border object (fact cells
      only) and whether it has the grey font `FF707070`. */
  datatype SheetCell = SheetCell(value: CellValue, border: Option<Border>, grey: bool)

  /** `Math.abs` */
  function Abs(n: int): (r: nat)
    ensures r == n || r == -n
  {
    if n < 0 then -n else n
  }

  /** The per-cell decision (tableExport.js:145-170). A fact's value keeps
      its magnitude and takes its sign from the `negative` hint alone; a bare
      empty string (the header padding) has no `value` property, so it is
      written as `undefined`, with the grey font like a static cell. */
  function WriteCell<V>(cell: Cell<V>): (w: SheetCell)
    ensures w.grey <==> cell.Static? || cell.Blank?
    ensures w.border.Some? <==> cell.FactCell?
    ensures cell.FactCell? ==> w.value.Number? && w.border == Some(Border(cell.topBorder, cell.bottomBorder))
    ensures cell.Static? ==> w.value == Text(cell.value)
    ensures cell.AspectLabel? ==> w.value == Text(cell.value)
    ensures cell.Blank? ==> w.value == Missing
  {
    match cell
    case FactCell(fact, negative, topBorder, bottomBorder) =>
      var magnitude: int := Abs(fact.value);
      SheetCell(Number(if negative then -magnitude else magnitude), Some(Border(topBorder, bottomBorder)), false)
    case AspectLabel(v) => SheetCell(Text(v), None, false)
    case Static(v) => SheetCell(Text(v), None, true)
    case Blank => SheetCell(Missing, None, true)
  }

  /** A fact is written with the magnitude of its value, negative exactly
      when the hint is set (and the value is not zero). */
  lemma FactSign<V>(f: Fact<V>, negative: bool, top: bool, bottom: bool)
    ensures var n := WriteCell(FactCell(f, negative, top, bottom)).value.n;
      && Abs(n) == Abs(f.value)
      && (n < 0 <==> negative && f.value != 0)
  {
  }

  /** The sign the report stores is discarded: a value and its negation are
      written alike. */
  lemma StoredSignIgnored<V>(aspects: seq<Aspect<V>>, v: int, negative: bool, top: bool, bottom: bool)
    ensures WriteCell(FactCell(Fact(aspects, v), negative, top, bottom))
         == WriteCell(FactCell(Fact(aspects, -v), negative, top, bottom))
  {
  }

  /** `_writeTable`'s loops over rows and cells (tableExport.js:141-172). */
  method WriteTable<V>(data: Grid<V>) returns (sheet: seq<seq<SheetCell>>)
    ensures |sheet| == |data|
    ensures forall i :: 0 <= i < |data| ==> |sheet[i]| == |data[i]|
    ensures forall i, j :: 0 <= i < |data| && 0 <= j < |data[i]| ==> sheet[i][j] == WriteCell(data[i][j])
  {
    sheet := [];
    for i := 0 to |data|
      invariant |sheet| == i
      invariant forall r :: 0 <= r < i ==> |sheet[r]| == |data[r]|
      invariant forall r, j :: 0 <= r < i && 0 <= j < |data[r]| ==> sheet[r][j] == WriteCell(data[r][j])
    {
      var row := data[i];
      var written := [];
      for j := 0 to |row|
        invariant |written| == j
        invariant forall k :: 0 <= k < j ==> written[k] == WriteCell(row[k])
      {
        written := written + [WriteCell(row[j])];
      }
      sheet := sheet + [written];
    }
  }
}
