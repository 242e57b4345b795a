/**
 * What the geometric neighbour test means on the board the layout draws:
 * equal square frames in rows and columns, with a horizontal gap and a
 * vertical gap (the layout's item spacing and line spacing) of at most half a
 * side each. There `IsNextTo` holds exactly between the eight cells
 * around a cell (its Moore neighbourhood), so no count exceeds 8.
 */
module Grid {
  import opened Wrappers
  import opened Geometry
  import opened Cells
  import opened Life

  /**
   * The frame of the cell in row `row` and column `col`: squares of side `side`,
   * `gapX` apart within a row and `gapY` apart between rows.
   */
  function GridFrame(row: int, col: int, side: real, gapX: real, gapY: real): Frame
    requires side >= 0.0
  {
    Rect((col as real) * (side + gapX), (row as real) * (side + gapY), side, side)
  }

  /** Two grid positions are Moore neighbours: different, and at most one row and one column apart. */
  predicate MooreAdjacent(r1: int, c1: int, r2: int, c2: int) {
    (r1 != r2 || c1 != c2) && -1 <= r1 - r2 <= 1 && -1 <= c1 - c2 <= 1
  }

  /** On one axis: an offset of `d` cells brings the centre into the widened window iff |d| <= 1. */
  lemma AxisWindow(d: int, side: real, gap: real)
    requires side > 0.0 && 0.0 <= gap <= side / 2.0
    ensures (-(3.0 * side / 2.0) <= (d as real) * (side + gap) <= 3.0 * side / 2.0) <==> -1 <= d <= 1
  {
    var s := side + gap;
    if d >= 2 {
      assert ((d - 2) as real) * s >= 0.0;
      assert (d as real) * s == ((d - 2) as real) * s + 2.0 * s;
    } else if d <= -2 {
      var e := -d - 2;
      assert (e as real) * s >= 0.0;
      assert (d as real) == -(e as real) - 2.0;
      assert (d as real) * s == -((e as real) * s) - 2.0 * s;
      assert (d as real) * s <= -2.0 * s < -(3.0 * side / 2.0);
    } else {
      assert d == -1 || d == 0 || d == 1;
    }
  }

  /** Offsetting a position by `d` cells offsets its coordinate by `d` times the pitch. */
  lemma Pitch(a: int, b: int, s: real)
    ensures (b as real) * s - (a as real) * s == ((b - a) as real) * s
  {
  }

  /** The centre of the cell `b` steps along lies in the window around the cell `a` steps along iff |b - a| <= 1. */
  lemma CentreInWindow(a: int, b: int, side: real, gap: real)
    requires side > 0.0 && 0.0 <= gap <= side / 2.0
    ensures var s := side + gap;
      ((a as real) * s - side <= (b as real) * s + side / 2.0 <= (a as real) * s + side + side)
      <==> -1 <= b - a <= 1
  {
    Pitch(a, b, side + gap);
    AxisWindow(b - a, side, gap);
  }

  /** Two grid frames are equal iff they sit at the same row and column. */
  lemma GridFrameInjective(r1: int, c1: int, r2: int, c2: int, side: real, gapX: real, gapY: real)
    requires side > 0.0 && 0.0 <= gapX && 0.0 <= gapY
    ensures GridFrame(r1, c1, side, gapX, gapY) == GridFrame(r2, c2, side, gapX, gapY) <==> r1 == r2 && c1 == c2
  {
    var f1 := GridFrame(r1, c1, side, gapX, gapY);
    var f2 := GridFrame(r2, c2, side, gapX, gapY);
    if c1 != c2 {
      var s := side + gapX;
      Separated(c1, c2, s);
      assert f1.x != f2.x;
    }
    if r1 != r2 {
      var s := side + gapY;
      Separated(r1, r2, s);
      assert f1.y != f2.y;
    }
  }

  /** On the tiled board, `other` is next to `cell` exactly when they are Moore neighbours. */
  lemma MooreNeighborhood(r1: int, c1: int, r2: int, c2: int, side: real, gapX: real, gapY: real)
    requires side > 0.0 && 0.0 <= gapX <= side / 2.0 && 0.0 <= gapY <= side / 2.0
    ensures IsNextTo(Some(GridFrame(r1, c1, side, gapX, gapY)), Some(GridFrame(r2, c2, side, gapX, gapY)))
      <==> MooreAdjacent(r2, c2, r1, c1)
  {
    CentreInWindow(c1, c2, side, gapX);
    CentreInWindow(r1, r2, side, gapY);
    GridFrameInjective(r1, c1, r2, c2, side, gapX, gapY);
  }

  /** Distinct rows (or columns) lie at distinct coordinates. */
  lemma Separated(a: int, b: int, s: real)
    requires a != b && s > 0.0
    ensures (a as real) * s != (b as real) * s
  {
    Pitch(a, b, s);
    NonZeroOffset(b - a, s);
  }

  lemma NonZeroOffset(d: int, s: real)
    requires d != 0 && s > 0.0
    ensures (d as real) * s != 0.0
  {
  }

  /** The board is laid out row by row, `Dimension` cells per row, as the collection view does. */
  predicate Tiled(board: seq<CellState>, side: real, gapX: real, gapY: real)
    requires side >= 0.0
  {
    forall i :: 0 <= i < |board| ==>
      board[i].frame == Some(GridFrame(i / Dimension, i % Dimension, side, gapX, gapY))
  }

  /** The live Moore neighbours of the cell at index `k` of a row-by-row board. */
  ghost function MooreLiveIndices(board: seq<CellState>, k: int): set<int> {
    set i: int | 0 <= i < |board| && board[i].isAlive
      && MooreAdjacent(i / Dimension, i % Dimension, k / Dimension, k % Dimension)
  }

  /**
   * On a tiled board the count of `livingNeighbors` for the cell at index `k`
   * is the number of its live Moore neighbours, hence at most 8.
   */
  lemma {:induction false} TiledCountIsMoore(board: seq<CellState>, side: real, gapX: real, gapY: real, k: nat)
    requires side > 0.0 && 0.0 <= gapX <= side / 2.0 && 0.0 <= gapY <= side / 2.0
    requires Tiled(board, side, gapX, gapY) && k < |board|
    ensures LivingNeighbors(board, board[k].frame) == |MooreLiveIndices(board, k)|
    ensures LivingNeighbors(board, board[k].frame) <= 8
  {
    var moore := MooreLiveIndices(board, k);
    var counted := NeighborIndices(board, board[k].frame);
    forall i | 0 <= i < |board|
      ensures IsNextTo(board[k].frame, board[i].frame)
        <==> MooreAdjacent(i / Dimension, i % Dimension, k / Dimension, k % Dimension)
    {
      MooreNeighborhood(k / Dimension, k % Dimension, i / Dimension, i % Dimension, side, gapX, gapY);
    }
    assert counted == moore;
    LivingNeighborsIsCardinality(board, board[k].frame);
    AtMostEight(board, k);
  }

  /** The Moore neighbours of index `k` lie among the eight indices around it. */
  lemma AtMostEight(board: seq<CellState>, k: nat)
    ensures |MooreLiveIndices(board, k)| <= 8
  {
    var d := Dimension;
    var around: set<int> := {k - d - 1, k - d, k - d + 1, k - 1, k + 1, k + d - 1, k + d, k + d + 1};
    forall i | i in MooreLiveIndices(board, k)
      ensures i in around
    {
      assert i == (i / d) * d + i % d;
      assert k == (k / d) * d + k % d;
    }
    SubsetCardinality(MooreLiveIndices(board, k), around);
  }

  lemma SubsetCardinality(a: set<int>, b: set<int>)
    requires a <= b
    ensures |a| <= |b|
  {
    assert b == a + (b - a);
    assert a * (b - a) == {};

  }
}
