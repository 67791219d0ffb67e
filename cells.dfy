/** Grid cells and the cells a bridge passes over. */
module Cells {

  /** A grid coordinate (row, column). */
  type Cell = (int, int)

  /** A puzzle: rows of integers, 0 for an empty cell and the island number otherwise. */
  type Grid = seq<seq<int>>

  /** All rows have the length of the first one. */
  predicate Rectangular(g: Grid) {
    forall r :: 0 <= r < |g| ==> |g[r]| == |g[0]|
  }

  function Width(g: Grid): nat {
    if |g| == 0 then 0 else |g[0]|
  }

  predicate InGrid(g: Grid, c: Cell) {
    0 <= c.0 < |g| && 0 <= c.1 < Width(g)
  }

  function At(g: Grid, c: Cell): int
    requires Rectangular(g) && InGrid(g, c)
  {
    g[c.0][c.1]
  }

  /** Column `c` read from top to bottom. */
  function Column(g: Grid, c: nat): (col: seq<int>)
    requires Rectangular(g) && c < Width(g)
    ensures |col| == |g|
    ensures forall r :: 0 <= r < |g| ==> col[r] == g[r][c]
  {
    seq(|g|, r requires 0 <= r < |g| => g[r][c])
  }

  /** The length of Python's range(a + 1, b). */
  function Between(a: int, b: int): nat {
    if b - a - 1 > 0 then b - a - 1 else 0
  }

  /**
   * The cells a bridge from `start` to `end` passes over: for a horizontal bridge the
   * cells of start's row at the columns of range(start.col + 1, end.col), for a vertical
   * one the cells of start's column at the rows of range(start.row + 1, end.row).
   */
  function Interior(start: Cell, end: Cell, horizontal: bool): seq<Cell> {
    if horizontal then seq(Between(start.1, end.1), k => (start.0, start.1 + 1 + k))
    else seq(Between(start.0, end.0), k => (start.0 + 1 + k, start.1))
  }

  /** The loop over range(a + 1, b) that collects the cells a bridge passes over. */
  method InteriorCells(start: Cell, end: Cell, horizontal: bool) returns (cells: seq<Cell>)
    ensures cells == Interior(start, end, horizontal)
  {
    cells := [];
    var a, b := Along(start, horizontal), Along(end, horizontal);
    var i := a + 1;
    while i < b
      invariant a + 1 <= i
      invariant i <= b || cells == []
      invariant |cells| == i - a - 1
      invariant forall k :: 0 <= k < |cells| ==> cells[k] == Interior(start, end, horizontal)[k]
    {
      cells := cells + [if horizontal then (start.0, i) else (i, start.1)];
      i := i + 1;
    }
  }

  /** Cell `c` lies strictly between `start` and `end` on the bridge's row or column. */
  predicate StrictlyBetween(c: Cell, start: Cell, end: Cell, horizontal: bool) {
    if horizontal then c.0 == start.0 && start.1 < c.1 < end.1
    else c.1 == start.1 && start.0 < c.0 < end.0
  }

  /** The position of a cell along the bridge's axis. */
  function Along(c: Cell, horizontal: bool): int {
    if horizontal then c.1 else c.0
  }

  /** No cell occurs twice. */
  predicate Distinct<T(==)>(s: seq<T>) {
    forall i, j :: 0 <= i < j < |s| ==> s[i] != s[j]
  }

  /** Two cell lists have a cell in common. */
  predicate Meet(xs: seq<Cell>, ys: seq<Cell>) {
    exists x :: x in xs && x in ys
  }

  /**
   * Interior lists exactly the cells strictly between the two ends, in increasing order
   * along the axis, without the ends themselves; when the ends are in order along the
   * axis it has one cell fewer than their distance.
   */
  lemma InteriorSpec(start: Cell, end: Cell, horizontal: bool)
    ensures forall c :: c in Interior(start, end, horizontal) <==> StrictlyBetween(c, start, end, horizontal)
    ensures forall i, j :: 0 <= i < j < |Interior(start, end, horizontal)| ==>
      Along(Interior(start, end, horizontal)[i], horizontal) < Along(Interior(start, end, horizontal)[j], horizontal)
    ensures start !in Interior(start, end, horizontal) && end !in Interior(start, end, horizontal)
    ensures Along(start, horizontal) < Along(end, horizontal) ==>
      |Interior(start, end, horizontal)| == Along(end, horizontal) - Along(start, horizontal) - 1
  {
    var cells := Interior(start, end, horizontal);
    forall c | StrictlyBetween(c, start, end, horizontal)
      ensures c in cells
    {
      var k := Along(c, horizontal) - Along(start, horizontal) - 1;
      assert cells[k] == c;
    }
  }

  /** The interior of a bridge never repeats a cell. */
  lemma InteriorDistinct(start: Cell, end: Cell, horizontal: bool)
    ensures Distinct(Interior(start, end, horizontal))
  {
    InteriorSpec(start, end, horizontal);
  }

  /** Sharing a cell is symmetric. */
  lemma MeetSymmetric(xs: seq<Cell>, ys: seq<Cell>)
    ensures Meet(xs, ys) <==> Meet(ys, xs)
  {
  }
}
