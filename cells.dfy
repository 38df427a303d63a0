/** The cells of the grid that the table exporter builds and writes. */
module Cells {
  import opened Facts

  /**
   * `{type: "static", value}`, `{type: "fact", fact, negative, topBorder,
   * bottomBorder}` (an unset `negative` is false), `{type: "aspectLabel",
   * value}`, and the bare empty string the exporter uses to pad header rows.
   */
  datatype Cell<V> =
    | Static(value: string)
    | FactCell(fact: Fact<V>, negative: bool, topBorder: bool, bottomBorder: bool)
    | AspectLabel(value: string)
    | Blank

  type Grid<V> = seq<seq<Cell<V>>>

  /** Every row has length `w`. */
  predicate Rectangular<V>(g: Grid<V>, w: nat) {
    forall i :: 0 <= i < |g| ==> |g[i]| == w
  }
}
