/** The spreadsheet grid the engine reads and writes: a sheet is a sparse
    map from cell positions to values, where an absent cell reads as
    undefined, as an unwritten spreadsheet cell does. */
module Grid {
  import opened Values

  /** A 1-based sheet position. */
  datatype Cell = Cell(row: int, col: int)

  type Cells = map<Cell, Value>

  /** A rectangle of a sheet, by its first and last row and column. */
  datatype Extent = Extent(top: int, left: int, bottom: int, right: int)

  predicate Ordered(e: Extent) {
    e.top <= e.bottom && e.left <= e.right
  }

  /** The number of columns of an extent. */
  function Span(e: Extent): (w: nat)
    requires e.left <= e.right
    ensures w >= 1
  {
    e.right - e.left + 1
  }

  /** The value of one cell. */
  function At(m: Cells, r: int, c: int): Value {
    if Cell(r, c) in m then m[Cell(r, c)] else Undef
  }

  /** The `w` cells of row `r` starting at column `c0`. */
  function RowAt(m: Cells, r: int, c0: int, w: nat): (s: seq<Value>)
    ensures |s| == w
    ensures forall j :: 0 <= j < w ==> s[j] == At(m, r, c0 + j)
  {
    seq(w, j => At(m, r, c0 + j))
  }

  /** The `h` rows of width `w` whose top-left cell is (`r0`, `c0`). */
  function Rows(m: Cells, r0: int, c0: int, h: nat, w: nat): (s: seq<seq<Value>>)
    ensures |s| == h
    ensures forall i :: 0 <= i < h ==> s[i] == RowAt(m, r0 + i, c0, w)
  {
    seq(h, i => RowAt(m, r0 + i, c0, w))
  }

  /** Writing one cell changes what that cell reads and nothing else. */
  lemma AtUpdate(m: Cells, r: int, c: int, v: Value, m': Cells)
    requires m' == m[Cell(r, c) := v]
    ensures forall i, j :: At(m', i, j) == (if i == r && j == c then v else At(m, i, j))
  {
  }

  /** Rows whose cells agree read the same. */
  lemma SameRow(m1: Cells, r1: int, m0: Cells, r0: int, c0: int, w: nat)
    requires forall j :: c0 <= j < c0 + w ==> At(m1, r1, j) == At(m0, r0, j)
    ensures RowAt(m1, r1, c0, w) == RowAt(m0, r0, c0, w)
  {
  }

  /** The first row of a range: a table's header. */
  function HeaderRow(m: Cells, e: Extent): (h: seq<Value>)
    requires Ordered(e)
    ensures |h| == Span(e)
  {
    RowAt(m, e.top, e.left, Span(e))
  }

  /** The rows of a range below its first: a table's body. */
  function BodyRows(m: Cells, e: Extent): (b: seq<seq<Value>>)
    requires Ordered(e)
    ensures |b| == e.bottom - e.top
    ensures forall i :: 0 <= i < |b| ==> |b[i]| == Span(e)
  {
    Rows(m, e.top + 1, e.left, e.bottom - e.top, Span(e))
  }

  /** Every cell outside rows `r0..r1` of columns `c0..c1` reads in `m` as
      it does in `m0`. */
  ghost predicate SameOutside(m: Cells, m0: Cells, r0: int, r1: int, c0: int, c1: int) {
    forall i, j {:trigger At(m, i, j)} :: !(r0 <= i <= r1 && c0 <= j <= c1) ==> At(m, i, j) == At(m0, i, j)
  }

  /** A change confined to rows `s0..s1` of a rectangle, after changes
      confined to the whole rectangle, is still confined to it. */
  lemma SameOutsideStep(m0: Cells, m1: Cells, m2: Cells, r0: int, r1: int, c0: int, c1: int, s0: int, s1: int)
    requires r0 <= s0 && s1 <= r1
    requires SameOutside(m1, m0, r0, r1, c0, c1) && SameOutside(m2, m1, s0, s1, c0, c1)
    ensures SameOutside(m2, m0, r0, r1, c0, c1)
  {
  }

  /** Every one of the `w` cells of row `r` from column `c0` is undefined. */
  predicate BlankRow(m: Cells, r: int, c0: int, w: nat) {
    forall c :: c0 <= c < c0 + w ==> At(m, r, c) == Undef
  }

  /** One sheet of a workbook. Its used extent is given, as the
      spreadsheet library reports it when a statement starts. */
  class Worksheet {
    const name: string
    const used: Extent
    var cells: Cells

    constructor (name: string, used: Extent, cells: Cells)
      ensures this.name == name && this.used == used && this.cells == cells
    {
      this.name := name;
      this.used := used;
      this.cells := cells;
    }
  }
}
