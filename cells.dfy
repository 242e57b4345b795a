/** The `Cell` object of the engine: a grid position, a screen frame and a liveness flag. */
module Cells {
  import opened Wrappers
  import opened Geometry

  /** A collection-view index path (section and item). */
  datatype IndexPath = IndexPath(section: int, item: int)

  /** The value of a cell's three fields at one moment. */
  datatype CellState = CellState(indexPath: Option<IndexPath>, frame: Option<Frame>, isAlive: bool) {
    /** The state after the layout placed the cell at `p` with frame `r`. */
    function Placed(p: IndexPath, r: Frame): CellState {
      this.(indexPath := Some(p), frame := Some(r))
    }
  }

  /** What every freshly constructed cell holds: no position, no frame, dead. */
  const Unplaced: CellState := CellState(None, None, false)

  lemma PlacedIdempotent(s: CellState, p: IndexPath, r: Frame)
    ensures s.Placed(p, r).Placed(p, r) == s.Placed(p, r)
    ensures s.Placed(p, r).isAlive == s.isAlive
  {
  }

  class Cell {
    var indexPath: Option<IndexPath>
    var frame: Option<Frame>
    var isAlive: bool

    function State(): CellState
      reads this
    {
      CellState(indexPath, frame, isAlive)
    }

    /** The argument is ignored: every new cell starts dead. */
    constructor (isAlive: bool)
      ensures State() == Unplaced
    {
      this.isAlive := false;
      indexPath := None;
      frame := None;
    }

    /** Records where the layout put this cell; liveness is untouched. */
    method Set(indexPath: IndexPath, frame: Frame)
      modifies this
      ensures State() == old(State()).Placed(indexPath, frame)
    {
      this.indexPath := Some(indexPath);
      this.frame := Some(frame);
    }

    /**
     * A new cell built with `Cell(isAlive: isAlive)`. Since the constructor
     * ignores its argument, the copy is dead and carries no placement.
     */
    method Copy() returns (c: Cell)
      ensures fresh(c)
      ensures c.State() == Unplaced
    {
      c := new Cell(isAlive);
    }
  }

  /** The states of a sequence of cells, in order. */
  function Snapshot(cs: seq<Cell>): (s: seq<CellState>)
    reads set c | c in cs
    ensures |s| == |cs|
    ensures forall i :: 0 <= i < |cs| ==> s[i] == cs[i].State()
  {
    seq(|cs|, i requires 0 <= i < |cs| reads set c | c in cs => cs[i].State())
  }
}
