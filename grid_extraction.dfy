/**
 * Grid extraction (`TableExport._getRawTable`): the rows of an HTML table
 * become a rectangular grid of static and fact cells. Column spans expand into
 * leading empty cells, each fact cell gets a negative-sign hint from the text
 * around it and two border flags, and short rows are padded at the end.
 *
 * The DOM is abstract: a table is its rows of visible cells, and each cell
 * carries what the extractor reads from it.
 */
module GridExtraction {
  import opened Wrappers
  import opened Facts
  import opened Cells
  import opened SeqFacts

  /** A node met on the backward walk from a fact's element to its cell: a
      text node (nodeType 3), or any other node (element, comment, CDATA, …),
      whose text the walk does not collect. */
  datatype Node = TextNode(text: string) | OtherNode

  /** One visible `td` or `th`, as the extractor reads it. */
  datatype SourceCell<V> = SourceCell(
    colspan: Option<string>,  // the `colspan` attribute; None when absent
    fact: Option<Fact<V>>,    // what the cell's first tagged element resolves to, when that is a fact
    factText: string,         // the text content of that element
    walk: seq<Node>,          // the nodes the backward walk visits before it reaches the cell, in visiting order
    topStyle: string,         // the computed `border-top-style`
    bottomStyle: string,      // the computed `border-bottom-style`
    text: string)             // the text of the whole cell

  type SourceRow<V> = seq<SourceCell<V>>

  // ---------------------------------------------------------------------------
  // The regular expression /[\(-]\s*\d/ and the text it is tested against

  /** `\s` in a JavaScript regular expression. */
  predicate IsJsSpace(c: char)
    ensures IsJsSpace(c) ==> !IsDigit(c) && c != '(' && c != '-'
  {
    var n := c as int;
    (0x09 <= n <= 0x0D) || n == 0x20 || n == 0xA0 || n == 0x1680 || (0x2000 <= n <= 0x200A)
    || n == 0x2028 || n == 0x2029 || n == 0x202F || n == 0x205F || n == 0x3000 || n == 0xFEFF
  }

  /** `\d` */
  predicate IsDigit(c: char) {
    '0' <= c <= '9'
  }

  /** The pattern matches `s[i..j+1]`: `(` or `-`, then only spaces, then a digit. */
  ghost predicate MatchAt(s: string, i: int, j: int) {
    0 <= i < j < |s| && (s[i] == '(' || s[i] == '-')
    && (forall k :: i < k < j ==> IsJsSpace(s[k])) && IsDigit(s[j])
  }

  /** `s.match(/[\(-]\s*\d/) !== null`: the pattern is not anchored. */
  ghost predicate HasSignedDigit(s: string) {
    exists i, j :: MatchAt(s, i, j)
  }

  /** A digit after nothing but spaces. */
  function DigitAfterSpaces(t: string): bool {
    |t| > 0 && (IsDigit(t[0]) || (IsJsSpace(t[0]) && DigitAfterSpaces(t[1..])))
  }

  /** The regular-expression test, as a left-to-right scan. */
  function MatchesNegativePattern(s: string): bool {
    |s| > 0 && (((s[0] == '(' || s[0] == '-') && DigitAfterSpaces(s[1..])) || MatchesNegativePattern(s[1..]))
  }

  lemma {:induction false} DigitAfterSpacesIff(s: string, i: int)
    requires 0 <= i < |s|
    ensures DigitAfterSpaces(s[i + 1..]) <==> exists j :: MatchAtTail(s, i, j)
    decreases |s| - i
  {
    var t := s[i + 1..];
    if |t| > 0 {
      assert t[1..] == s[i + 2..];
      if IsDigit(t[0]) {
        assert MatchAtTail(s, i, i + 1);
      } else if IsJsSpace(t[0]) && i + 1 < |s| {
        DigitAfterSpacesIff(s, i + 1);
        if DigitAfterSpaces(t[1..]) {
          var j :| MatchAtTail(s, i + 1, j);
          assert MatchAtTail(s, i, j);
        } else {
          forall j | MatchAtTail(s, i, j) ensures false {
            assert j != i + 1;
            assert MatchAtTail(s, i + 1, j);
          }
        }
      } else {
        forall j | MatchAtTail(s, i, j) ensures false {
        }
      }
    }
  }

  /** What follows position `i` matches `\s*\d`, ending at `j`. */
  ghost predicate MatchAtTail(s: string, i: int, j: int) {
    0 <= i < j < |s| && (forall k :: i < k < j ==> IsJsSpace(s[k])) && IsDigit(s[j])
  }

  /** The scan finds exactly the matches of the regular expression. */
  lemma {:induction false} MatchesNegativePatternIsRegex(s: string)
    ensures MatchesNegativePattern(s) <==> HasSignedDigit(s)
  {
    ScanFrom(s, 0);
    assert s[0..] == s;
  }

  lemma {:induction false} ScanFrom(s: string, i: nat)
    requires i <= |s|
    ensures MatchesNegativePattern(s[i..]) <==> exists i', j :: i <= i' && MatchAt(s, i', j)
    decreases |s| - i
  {
    if i < |s| {
      assert s[i..][1..] == s[i + 1..];
      ScanFrom(s, i + 1);
      DigitAfterSpacesIff(s, i);
      if (s[i] == '(' || s[i] == '-') && DigitAfterSpaces(s[i + 1..]) {
        var j :| MatchAtTail(s, i, j);
        assert MatchAt(s, i, j);
      }
      if exists i', j :: i <= i' && MatchAt(s, i', j) {
        var i', j :| i <= i' && MatchAt(s, i', j);
        if i' == i {
          assert MatchAtTail(s, i, j);
        }
      }
    }
  }

  /** A match anywhere in a piece of the text is a match in the text. */
  lemma SignedDigitInContext(p: string, s: string, q: string)
    requires HasSignedDigit(s)
    ensures HasSignedDigit(p + s + q)
  {
    var i, j :| MatchAt(s, i, j);
    var t := p + s + q;
    forall k | |p| + i < k < |p| + j ensures IsJsSpace(t[k]) {
      assert t[k] == s[k - |p|];
    }
    assert MatchAt(t, |p| + i, |p| + j);
  }

  /** The text the backward walk puts before the fact's own text: each text
      node visited is prepended, other nodes (elements, comments, …) add nothing. */
  function PrecedingText(walk: seq<Node>): (r: string)
    ensures (forall k :: 0 <= k < |walk| ==> walk[k].OtherNode?) ==> r == ""
    ensures |walk| > 0 && walk[|walk| - 1].TextNode? ==>
      var t := walk[|walk| - 1].text; |t| <= |r| && r[..|t|] == t
  {
    if |walk| == 0 then ""
    else
      var last := walk[|walk| - 1];
      (if last.TextNode? then last.text else "") + PrecedingText(walk[..|walk| - 1])
  }

  /** Nodes visited later end up further to the left. */
  lemma {:induction false} PrecedingTextAppend(a: seq<Node>, b: seq<Node>)
    ensures PrecedingText(a + b) == PrecedingText(b) + PrecedingText(a)
  {
    if |b| > 0 {
      var init := b[..|b| - 1];
      assert (a + b)[..|a + b| - 1] == a + init;
      PrecedingTextAppend(a, init);
    } else {
      assert a + b == a;
    }
  }

  /** The walk at tableExport.js:64-79: `s` starts as the fact element's text,
      every text node visited is prepended, and the hint is the regex test. */
  method NegativeHint(walk: seq<Node>, factText: string) returns (negative: bool)
    ensures negative == HasSignedDigit(PrecedingText(walk) + factText)
  {
    var s := factText;
    var k := 0;
    while k < |walk|
      invariant 0 <= k <= |walk|
      invariant s == PrecedingText(walk[..k]) + factText
    {
      assert walk[..k + 1][..k] == walk[..k];
      if walk[k].TextNode? {
        s := walk[k].text + s;
      }
      k := k + 1;
    }
    assert walk[..k] == walk;
    negative := MatchesNegativePattern(s);
    MatchesNegativePatternIsRegex(s);
  }

  // ---------------------------------------------------------------------------
  // Borders

  /** `p` occurs in `s` at position `i`. */
  predicate OccursAt(s: string, p: string, i: int) {
    0 <= i <= |s| - |p| && s[i..i + |p|] == p
  }

  /** `s` contains `p` as a contiguous piece. */
  predicate Contains(s: string, p: string) {
    exists i :: 0 <= i <= |s| - |p| && OccursAt(s, p, i)
  }

  /** `style.match(/(solid|double)/) !== null` */
  predicate HasBorder(style: string)
    ensures HasBorder(style) ==> 5 <= |style|
  {
    Contains(style, "solid") || Contains(style, "double")
  }

  /** The style pattern is not anchored either: a keyword anywhere in the
      style gives a border. */
  lemma BorderInContext(p: string, s: string, q: string)
    requires HasBorder(s)
    ensures HasBorder(p + s + q)
  {
    var t := p + s + q;
    var key := if Contains(s, "solid") then "solid" else "double";
    var i :| 0 <= i <= |s| - |key| && OccursAt(s, key, i);
    assert t[|p| + i..|p| + i + |key|] == s[i..i + |key|];
    assert OccursAt(t, key, |p| + i);
  }

  /** The border styles `solid` and `double` give a border, `none` does not. */
  lemma BorderKeywords()
    ensures HasBorder("solid") && HasBorder("double") && !HasBorder("none")
  {
    assert OccursAt("solid", "solid", 0);
    assert OccursAt("double", "double", 0);
  }

  // ---------------------------------------------------------------------------
  // Column spans: `colspan - 1` converts the attribute with JavaScript's Number()

  predicate AllDigits(s: string) {
    forall i :: 0 <= i < |s| ==> IsDigit(s[i])
  }

  function DigitsValue(s: string): (n: nat)
    requires AllDigits(s)
  {
    if |s| == 0 then 0 else 10 * DigitsValue(s[..|s| - 1]) + (s[|s| - 1] as int - '0' as int)
  }

  function TrimStart(s: string): string {
    if |s| > 0 && IsJsSpace(s[0]) then TrimStart(s[1..]) else s
  }

  function TrimEnd(s: string): string {
    if |s| > 0 && IsJsSpace(s[|s| - 1]) then TrimEnd(s[..|s| - 1]) else s
  }

  /** Number(s) for a string that is blank or an optionally signed run of
      decimal digits around optional white space; None stands for NaN. */
  function ToNumber(s: string): (r: Option<int>)
    ensures s != "" && AllDigits(s) ==> r == Some(DigitsValue(s))
    ensures r.None? ==> TrimEnd(TrimStart(s)) != ""
  {
    DigitsUntrimmed(s);
    var t := TrimEnd(TrimStart(s));
    if |t| == 0 then Some(0)
    else if (t[0] == '+' || t[0] == '-') && |t| > 1 && AllDigits(t[1..]) then
      var magnitude: int := DigitsValue(t[1..]);
      Some(if t[0] == '-' then -magnitude else magnitude)
    else if AllDigits(t) then Some(DigitsValue(t))
    else None
  }

  /** White-space trimming leaves a run of digits alone. */
  lemma DigitsUntrimmed(s: string)
    ensures s != "" && AllDigits(s) ==> TrimEnd(TrimStart(s)) == s
  {
    if s != "" && AllDigits(s) {
      assert !IsJsSpace(s[0]);
      assert TrimStart(s) == s;
      assert !IsJsSpace(s[|s| - 1]);
    }
  }

  /** How many empty cells `if (colspan) for (i = 0; i < colspan - 1; i++)`
      pushes: a span must be a truthy string whose number is at least 2. */
  function ColspanPadding(colspan: Option<string>): (n: nat)
    ensures n > 0 ==> colspan.Some? && ToNumber(colspan.value) == Some(n + 1)
  {
    match colspan
    case None => 0
    case Some(s) =>
      if s == "" then 0
      else match ToNumber(s)
        case None => 0
        case Some(k) => if k >= 2 then k - 1 else 0
  }

  /** The decimal spelling of `n`, as a colspan attribute is usually written. */
  function DecimalString(n: nat): (r: string)
    ensures |r| > 0 && AllDigits(r) && DigitsValue(r) == n
  {
    if n < 10 then ['0' + n as char]
    else
      var r := DecimalString(n / 10) + ['0' + (n % 10) as char];
      assert r[..|r| - 1] == DecimalString(n / 10);
      r
  }

  /** A span whose number is `k`, however it is spelt (" 3", "+3", "03"),
      adds `k - 1` cells when `k >= 2` and none otherwise. */
  lemma ColspanPaddingOfSpelling(s: string, k: int)
    requires s != "" && ToNumber(s) == Some(k)
    ensures ColspanPadding(Some(s)) == if k >= 2 then k - 1 else 0
  {
  }

  /** A span written as the number `n` adds `n - 1` cells when `n >= 2` and none otherwise. */
  lemma ColspanPaddingOfNumber(n: nat)
    ensures ColspanPadding(Some(DecimalString(n))) == if n >= 2 then n - 1 else 0
  {
    ColspanPaddingOfSpelling(DecimalString(n), n);
  }

  /** A span that is missing, empty, or not a number adds nothing. */
  lemma ColspanPaddingNotNumeric(colspan: Option<string>)
    requires colspan.None? || colspan.value == "" || ToNumber(colspan.value).None?
    ensures ColspanPadding(colspan) == 0
  {
  }

  // ---------------------------------------------------------------------------
  // The grid

  function Blanks<V>(n: nat): (r: seq<Cell<V>>) {
    seq(n, _ => Static(""))
  }

  /** The cell pushed for a source cell after its span padding. */
  ghost function CellFor<V>(c: SourceCell<V>): (r: Cell<V>)
    ensures r.FactCell? <==> c.fact.Some?
    ensures r.FactCell? ==> && r.fact == c.fact.value
                            && r.negative == HasSignedDigit(PrecedingText(c.walk) + c.factText)
                            && r.topBorder == HasBorder(c.topStyle) && r.bottomBorder == HasBorder(c.bottomStyle)
    ensures !r.FactCell? ==> r == Static(c.text)
  {
    match c.fact
    case None => Static(c.text)
    case Some(f) =>
      FactCell(f, HasSignedDigit(PrecedingText(c.walk) + c.factText),
               HasBorder(c.topStyle), HasBorder(c.bottomStyle))
  }

  /** What one source cell contributes to its row. */
  ghost function Expand<V>(c: SourceCell<V>): seq<Cell<V>> {
    Blanks(ColspanPadding(c.colspan)) + [CellFor(c)]
  }

  /** The row built from a table row, before padding. */
  ghost function RowCells<V>(r: SourceRow<V>): seq<Cell<V>> {
    if |r| == 0 then [] else RowCells(r[..|r| - 1]) + Expand(r[|r| - 1])
  }

  /** Rows are built cell by cell, so the cells of a row concatenate. */
  lemma {:induction false} RowCellsAppend<V>(a: SourceRow<V>, b: SourceRow<V>)
    ensures RowCells(a + b) == RowCells(a) + RowCells(b)
  {
    if |b| == 0 {
      assert a + b == a;
    } else {
      var init, last := b[..|b| - 1], b[|b| - 1];
      assert (a + b)[..|a + b| - 1] == a + init;
      assert (a + b)[|a + b| - 1] == last;
      RowCellsAppend(a, init);
      calc {
        RowCells(a + b);
        RowCells(a + init) + Expand(last);
        RowCells(a) + RowCells(init) + Expand(last);
        RowCells(a) + RowCells(b);
      }
    }
  }

  /** Each source cell's contribution: exactly its span padding of empty
      static cells, then its own cell. */
  lemma ExpandShape<V>(c: SourceCell<V>)
    ensures |RowCells([c])| == ColspanPadding(c.colspan) + 1
    ensures forall k :: 0 <= k < ColspanPadding(c.colspan) ==> RowCells([c])[k] == Static("")
    ensures RowCells([c])[ColspanPadding(c.colspan)] == CellFor(c)
  {
    assert [c][..0] == [];
  }

  /** `maxRowLength`: the length of the longest row. */
  function Widest<V>(rows: Grid<V>): (w: nat)
    ensures forall i :: 0 <= i < |rows| ==> |rows[i]| <= w
    ensures |rows| > 0 ==> exists i :: 0 <= i < |rows| && |rows[i]| == w
    ensures |rows| == 0 ==> w == 0
  {
    if |rows| == 0 then 0
    else
      var w0 := Widest(rows[..|rows| - 1]);
      assert forall i :: 0 <= i < |rows| - 1 ==> rows[i] == rows[..|rows| - 1][i];
      if |rows[|rows| - 1]| > w0 then |rows[|rows| - 1]| else w0
  }

  /** `while (row.length < maxRowLength) row.push({type: "static", value: ""})` */
  function Pad<V>(row: seq<Cell<V>>, w: nat): seq<Cell<V>> {
    if |row| < w then row + Blanks(w - |row|) else row
  }

  ghost function BuiltRows<V>(table: seq<SourceRow<V>>): Grid<V> {
    seq(|table|, i requires 0 <= i < |table| => RowCells(table[i]))
  }

  function PadAll<V>(rows: Grid<V>, w: nat): Grid<V> {
    seq(|rows|, i requires 0 <= i < |rows| => Pad(rows[i], w))
  }

  /** The grid `_getRawTable` returns. */
  ghost function RawGrid<V>(table: seq<SourceRow<V>>): Grid<V> {
    PadAll(BuiltRows(table), Widest(BuiltRows(table)))
  }

  /** Every row of the extracted grid is as long as the longest row built. */
  lemma RawGridRectangular<V>(table: seq<SourceRow<V>>)
    ensures |RawGrid(table)| == |table|
    ensures Rectangular(RawGrid(table), Widest(BuiltRows(table)))
    ensures forall i :: 0 <= i < |table| ==> |RowCells(table[i])| <= Widest(BuiltRows(table))
    ensures |table| > 0 ==> exists i :: 0 <= i < |table| && |RowCells(table[i])| == Widest(BuiltRows(table))
  {
    var built := BuiltRows(table);
    assert forall i :: 0 <= i < |table| ==> built[i] == RowCells(table[i]);
  }

  /** Padding keeps the built cells in place and appends only empty static cells. */
  lemma RawGridPadding<V>(table: seq<SourceRow<V>>, i: nat)
    requires i < |table|
    ensures RawGrid(table)[i][..|RowCells(table[i])|] == RowCells(table[i])
    ensures forall k :: |RowCells(table[i])| <= k < |RawGrid(table)[i]| ==> RawGrid(table)[i][k] == Static("")
  {
    var built := BuiltRows(table);
    assert built[i] == RowCells(table[i]);
  }

  /** The cells one source cell pushes (tableExport.js:47-88). */
  method PushCell<V>(row: seq<Cell<V>>, c: SourceCell<V>) returns (r: seq<Cell<V>>)
    ensures r == row + Expand(c)
  {
    r := row;
    var pushed := 0;
    if c.colspan.Some? && c.colspan.value != "" {
      var n := ToNumber(c.colspan.value);
      if n.Some? {  // a NaN span makes `i < colspan - 1` false at once
        var i := 0;
        while i < n.value - 1
          invariant 0 <= i && (i <= n.value - 1 || i == 0)
          invariant r == row + Blanks(i)
        {
          r := r + [Static("")];
          i := i + 1;
        }
        pushed := i;
      }
    }
    assert pushed == ColspanPadding(c.colspan);
    match c.fact {
      case None =>
        r := r + [Static(c.text)];
      case Some(f) =>
        var negative := NegativeHint(c.walk, c.factText);
        r := r + [FactCell(f, negative, HasBorder(c.topStyle), HasBorder(c.bottomStyle))];
    }
  }

  /** The cells of one table row (tableExport.js:45-89). */
  method BuildRow<V>(r: SourceRow<V>) returns (row: seq<Cell<V>>)
    ensures row == RowCells(r)
  {
    row := [];
    for j := 0 to |r|
      invariant row == RowCells(r[..j])
    {
      assert r[..j + 1][..j] == r[..j];
      row := PushCell(row, r[j]);
    }
    assert r[..|r|] == r;
  }

  /** Right-padding one row to the longest row's length (tableExport.js:96-98). */
  method PadRow<V>(row: seq<Cell<V>>, maxRowLength: nat) returns (r: seq<Cell<V>>)
    ensures r == Pad(row, maxRowLength)
  {
    r := row;
    while |r| < maxRowLength
      invariant |row| <= |r|
      invariant r == row + Blanks(|r| - |row|)
      invariant |row| < maxRowLength ==> |r| <= maxRowLength
      invariant maxRowLength <= |row| ==> r == row
      decreases maxRowLength - |r|
    {
      r := r + [Static("")];
    }
  }

  /** One more row: the widest length grows to its length if it is longer. */
  lemma WidestAppend<V>(rows: Grid<V>, row: seq<Cell<V>>)
    ensures Widest(rows + [row]) == if |row| > Widest(rows) then |row| else Widest(rows)
  {
    assert (rows + [row])[..|rows|] == rows;
  }

  /** A finished row raises `maxRowLength` if it is longer, and is added to
      the rows (tableExport.js:90-93). */
  method RecordRow<V>(rows: Grid<V>, maxRowLength: nat, row: seq<Cell<V>>) returns (rows': Grid<V>, maxRowLength': nat)
    requires maxRowLength == Widest(rows)
    ensures rows' == rows + [row]
    ensures maxRowLength' == Widest(rows')
  {
    WidestAppend(rows, row);
    maxRowLength' := maxRowLength;
    if |row| > maxRowLength {
      maxRowLength' := |row|;
    }
    rows' := rows + [row];
  }

  /** `_getRawTable` (tableExport.js:39-101). */
  method GetRawTable<V>(table: seq<SourceRow<V>>) returns (rows: Grid<V>)
    ensures rows == RawGrid(table)
  {
    var maxRowLength := 0;
    rows := [];
    for i := 0 to |table|
      invariant rows == BuiltRows(table)[..i]
      invariant maxRowLength == Widest(rows)
    {
      var row := BuildRow(table[i]);
      PrefixStep(BuiltRows(table), i);
      rows, maxRowLength := RecordRow(rows, maxRowLength, row);
    }
    assert BuiltRows(table)[..|table|] == BuiltRows(table);
    rows := PadRows(rows, maxRowLength);
  }

  /** `for (const row of rows) while (row.length < maxRowLength) row.push(...)` */
  method PadRows<V>(built: Grid<V>, maxRowLength: nat) returns (rows: Grid<V>)
    ensures rows == PadAll(built, maxRowLength)
  {
    rows := built;
    for i := 0 to |rows|
      invariant |rows| == |built|
      invariant forall k :: 0 <= k < i ==> rows[k] == Pad(built[k], maxRowLength)
      invariant forall k :: i <= k < |rows| ==> rows[k] == built[k]
    {
      var padded := PadRow(rows[i], maxRowLength);
      rows := rows[i := padded];
    }
  }
}
