/**
 * The rules of the engine stated on values: which frames are neighbours, how
 * many live neighbours a cell has, the B3/S23 generation step, the lazy seed,
 * reset and touch resolution. The `Game` class in module Engine is proved to
 * change its cells exactly as these functions say.
 */
module Life {
  import opened Wrappers
  import opened Geometry
  import opened Cells

  /** The side of the square board. */
  const Dimension: nat := 10
  /** The number of cells the lazy seed creates: 10 * 10 instead of `Int(pow(10.0, 2))`. */
  const CellCount: nat := Dimension * Dimension

  // ---------------------------------------------------------------- neighbours

  /**
   * `other` is next to `cell` when both frames exist, differ, and the centre of
   * `other` lies in `cell`'s frame widened by one width and one height on every side.
   */
  predicate IsNextTo(cell: Option<Frame>, other: Option<Frame>)
    ensures IsNextTo(cell, other) ==> cell.Some? && other.Some? && cell != other
  {
    match (cell, other)
    case (Some(f), Some(g)) =>
      g != f
      && f.MinX() - f.w <= g.MidX() <= f.MaxX() + f.w
      && f.MinY() - f.h <= g.MidY() <= f.MaxY() + f.h
    case _ => false
  }

  /** Live cells of `board` that are next to a cell with frame `frame`. */
  function LivingNeighbors(board: seq<CellState>, frame: Option<Frame>): nat {
    if board == [] then 0
    else
      var last := board[|board| - 1];
      LivingNeighbors(board[..|board| - 1], frame) + (if last.isAlive && IsNextTo(frame, last.frame) then 1 else 0)
  }

  /** The positions in `board` that `LivingNeighbors` counts. */
  ghost function NeighborIndices(board: seq<CellState>, frame: Option<Frame>): set<int> {
    set i: int | 0 <= i < |board| && board[i].isAlive && IsNextTo(frame, board[i].frame)
  }

  // ---------------------------------------------------------------- the rule

  /** Conway's rule B3/S23: a live cell survives with 2 or 3 live neighbours, a dead one is born with 3. */
  predicate Rule(alive: bool, neighbors: nat) {
    (alive && 2 <= neighbors <= 3) || (!alive && neighbors == 3)
  }

  // ---------------------------------------------------------------- whole-board operations

  /** The board the first `iterate` creates: 100 unplaced dead cells. */
  function Seed(): seq<CellState> {
    seq(CellCount, _ => Unplaced)
  }

  /**
   * One generation: every cell is replaced by an unplaced copy whose liveness
   * follows the rule, with every count taken on the old board.
   */
  function Step(board: seq<CellState>): seq<CellState> {
    seq(|board|, i requires 0 <= i < |board| =>
          Unplaced.(isAlive := Rule(board[i].isAlive, LivingNeighbors(board, board[i].frame))))
  }

  /** Every cell dead, placements kept. */
  function Reset(board: seq<CellState>): seq<CellState> {
    seq(|board|, i requires 0 <= i < |board| => board[i].(isAlive := false))
  }

  /** Whether the frame of the cell exists and contains `p`, bounds included. */
  predicate Hits(s: CellState, p: Point) {
    s.frame.Some? && s.frame.value.Contains(p)
  }

  /** The index of the first cell of `board` whose frame contains `p`. */
  function FirstHit(board: seq<CellState>, p: Point): (r: Option<nat>)
    ensures r.Some? ==> r.value < |board| && Hits(board[r.value], p)
    ensures r.Some? ==> forall j :: 0 <= j < r.value ==> !Hits(board[j], p)
    ensures r.None? <==> forall j :: 0 <= j < |board| ==> !Hits(board[j], p)
  {
    if board == [] then None
    else if Hits(board[0], p) then Some(0)
    else match FirstHit(board[1..], p)
      case Some(k) => Some(k + 1)
      case None => None
  }

  /** What a touch at `p` reports: the index path of the first hit cell. */
  function TouchResult(board: seq<CellState>, p: Point): Option<IndexPath> {
    match FirstHit(board, p)
    case Some(k) => board[k].indexPath
    case None => None
  }

  /** The board after a touch at `p`: the first hit cell, if any, is alive. */
  function Touched(board: seq<CellState>, p: Point): seq<CellState> {
    match FirstHit(board, p)
    case Some(k) => board[k := board[k].(isAlive := true)]
    case None => board
  }

  // ---------------------------------------------------------------- neighbour lemmas

  /** For two different frames that are both present, the test is the window test alone. */
  lemma IsNextToWindow(f: Frame, g: Frame)
    requires f != g
    ensures IsNextTo(Some(f), Some(g)) <==>
      (f.MinX() - f.w <= g.MidX() <= f.MaxX() + f.w && f.MinY() - f.h <= g.MidY() <= f.MaxY() + f.h)
  {
  }

  /** The count is the number of positions of live cells next to `frame`. */
  lemma {:induction false} LivingNeighborsIsCardinality(board: seq<CellState>, frame: Option<Frame>)
    ensures LivingNeighbors(board, frame) == |NeighborIndices(board, frame)|
  {
    if board == [] {
      assert NeighborIndices(board, frame) == {};
    } else {
      var n := |board| - 1;
      var front := board[..n];
      LivingNeighborsIsCardinality(front, frame);
      var before := NeighborIndices(front, frame);
      assert n !in before;
      if board[n].isAlive && IsNextTo(frame, board[n].frame) {
        assert NeighborIndices(board, frame) == before + {n};
      } else {
        assert NeighborIndices(board, frame) == before;
      }
    }
  }

  /** The count never exceeds the number of cells of the board. */
  lemma {:induction false} LivingNeighborsBound(board: seq<CellState>, frame: Option<Frame>)
    ensures LivingNeighbors(board, frame) <= |board|
  {
    if board != [] {
      LivingNeighborsBound(board[..|board| - 1], frame);
    }
  }

  /** No neighbour is counted when no cell of the board has a frame. */
  lemma {:induction false} NoNeighborsWithoutFrames(board: seq<CellState>, frame: Option<Frame>)
    requires forall i :: 0 <= i < |board| ==> board[i].frame.None?
    ensures LivingNeighbors(board, frame) == 0
  {
    if board != [] {
      NoNeighborsWithoutFrames(board[..|board| - 1], frame);
    }
  }

  /** Only live cells are counted: with none alive, every count is 0. */
  lemma {:induction false} NoNeighborsWithoutLife(board: seq<CellState>, frame: Option<Frame>)
    requires forall i :: 0 <= i < |board| ==> !board[i].isAlive
    ensures LivingNeighbors(board, frame) == 0
  {
    if board != [] {
      NoNeighborsWithoutLife(board[..|board| - 1], frame);
    }
  }

  /** The count depends only on the liveness and frames of the board. */
  lemma {:induction false} LivingNeighborsIgnoresIndexPaths(a: seq<CellState>, b: seq<CellState>, frame: Option<Frame>)
    requires |a| == |b|
    requires forall i :: 0 <= i < |a| ==> a[i].isAlive == b[i].isAlive && a[i].frame == b[i].frame
    ensures LivingNeighbors(a, frame) == LivingNeighbors(b, frame)
  {
    if a != [] {
      LivingNeighborsIgnoresIndexPaths(a[..|a| - 1], b[..|b| - 1], frame);
    }
  }

  // ---------------------------------------------------------------- step lemmas

  /** The step keeps the board size and applies the rule at every index against the old board. */
  lemma StepAt(board: seq<CellState>, i: nat)
    requires i < |board|
    ensures |Step(board)| == |board|
    ensures Step(board)[i].isAlive <==>
      (board[i].isAlive && 2 <= LivingNeighbors(board, board[i].frame) <= 3)
      || (!board[i].isAlive && LivingNeighbors(board, board[i].frame) == 3)
    ensures Step(board)[i].frame.None? && Step(board)[i].indexPath.None?
  {
  }

  /**
   * After one step every cell has lost its frame, so a second step before
   * the layout places the cells again sees no neighbours and kills every cell.
   */
  lemma {:induction false} SecondStepKillsAll(board: seq<CellState>)
    ensures Step(Step(board)) == seq(|board|, _ => Unplaced)
  {
    var once := Step(board);
    forall i | 0 <= i < |once|
      ensures Step(once)[i] == Unplaced
    {
      NoNeighborsWithoutFrames(once, once[i].frame);
    }
  }

  /** A live cell that no other live cell is next to dies: under-population. */
  lemma {:induction false} LoneCellDies(board: seq<CellState>, k: nat)
    requires k < |board| && board[k].isAlive
    requires forall j :: 0 <= j < |board| && j != k ==> !board[j].isAlive
    ensures !Step(board)[k].isAlive
  {
    LoneCellHasNoNeighbors(board, k, |board|);
    assert board[..|board|] == board;
  }

  lemma {:induction false} LoneCellHasNoNeighbors(board: seq<CellState>, k: nat, n: nat)
    requires k < |board| && n <= |board|
    requires forall j :: 0 <= j < |board| && j != k ==> !board[j].isAlive
    ensures LivingNeighbors(board[..n], board[k].frame) == 0
  {
    if n > 0 {
      assert board[..n][..n - 1] == board[..n - 1];
      LoneCellHasNoNeighbors(board, k, n - 1);
    }
  }

  /** Stepping a board without live cells yields a board without live cells. */
  lemma EmptyStaysEmpty(board: seq<CellState>)
    requires forall i :: 0 <= i < |board| ==> !board[i].isAlive
    ensures forall i :: 0 <= i < |board| ==> !Step(board)[i].isAlive
  {
    forall i | 0 <= i < |board| ensures !Step(board)[i].isAlive {
      NoNeighborsWithoutLife(board, board[i].frame);
    }
  }

  // ---------------------------------------------------------------- seed and reset lemmas

  /** The seed has 100 cells, all dead and unplaced. */
  lemma SeedShape()
    ensures |Seed()| == CellCount == 100
    ensures forall i :: 0 <= i < |Seed()| ==> !Seed()[i].isAlive && Seed()[i].frame.None?
  {
  }

  /** Reset kills every cell, keeps size and placements, and a second reset changes nothing. */
  lemma ResetProperties(board: seq<CellState>)
    ensures |Reset(board)| == |board|
    ensures forall i :: 0 <= i < |board| ==>
      !Reset(board)[i].isAlive && Reset(board)[i].frame == board[i].frame && Reset(board)[i].indexPath == board[i].indexPath
    ensures Reset(Reset(board)) == Reset(board)
  {
  }

  // ---------------------------------------------------------------- touch lemmas

  /** Where the first cell is hit depends only on the frames. */
  lemma {:induction false} FirstHitOnlyReadsFrames(a: seq<CellState>, b: seq<CellState>, p: Point)
    requires |a| == |b|
    requires forall i :: 0 <= i < |a| ==> a[i].frame == b[i].frame
    ensures FirstHit(a, p) == FirstHit(b, p)
  {
    if a != [] {
      FirstHitOnlyReadsFrames(a[1..], b[1..], p);
    }
  }

  /**
   * A touch changes only the first hit cell, which becomes alive; with no hit
   * nothing changes and nothing is reported.
   */
  lemma TouchEffect(board: seq<CellState>, p: Point)
    ensures |Touched(board, p)| == |board|
    ensures FirstHit(board, p).None? ==> Touched(board, p) == board && TouchResult(board, p).None?
    ensures FirstHit(board, p).Some? ==>
      var k := FirstHit(board, p).value;
      Touched(board, p)[k].isAlive
      && Touched(board, p)[k].frame == board[k].frame
      && Touched(board, p)[k].indexPath == board[k].indexPath == TouchResult(board, p)
      && forall j :: 0 <= j < |board| && j != k ==> Touched(board, p)[j] == board[j]
  {
  }

  /** Touching the same point again reports the same index path and changes nothing more. */
  lemma TouchIdempotent(board: seq<CellState>, p: Point)
    ensures Touched(Touched(board, p), p) == Touched(board, p)
    ensures TouchResult(Touched(board, p), p) == TouchResult(board, p)
  {
    FirstHitOnlyReadsFrames(Touched(board, p), board, p);
  }
}
