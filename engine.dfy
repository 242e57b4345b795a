/**
 * The `Game` engine: it owns the ordered cells, seeds them lazily, steps them
 * by the B3/S23 rule, resets them and resolves touches to cells. Each method
 * is proved to change the cells' states exactly as the matching function of
 * module Life says.
 */
module Engine {
  import opened Wrappers
  import opened Geometry
  import opened Cells
  import opened Life

  class Game {
    var cells: seq<Cell>

    /** The cells are distinct objects, and there are none before the first step or exactly 100 after it. */
    ghost predicate Valid()
      reads this
    {
      (|cells| == 0 || |cells| == CellCount)
      && forall i, j :: 0 <= i < j < |cells| ==> cells[i] != cells[j]
    }

    /** The states of the cells, in order. */
    function Board(): (b: seq<CellState>)
      reads this, set c | c in cells
      ensures |b| == |cells|
    {
      Snapshot(cells)
    }

    constructor ()
      ensures Valid() && cells == []
    {
      cells := [];
    }

    /** Kills every cell in place; sizes and placements stay. */
    method ResetStates()
      modifies set c | c in cells
      ensures cells == old(cells)
      ensures Board() == Reset(old(Board()))
    {
      for i := 0 to |cells|
        invariant forall j :: 0 <= j < |cells| ==>
          cells[j].frame == old(cells[j].frame) && cells[j].indexPath == old(cells[j].indexPath)
        invariant forall j :: 0 <= j < i ==> !cells[j].isAlive
      {
        cells[i].isAlive := false;
      }
    }

    /**
     * Marks the first cell whose frame contains the point as alive and reports
     * its index path; reports nothing and changes nothing when no frame does.
     */
    method ValidateTouchpoint(touchPoint: Point) returns (selected: Option<IndexPath>)
      requires Valid()
      modifies set c | c in cells
      ensures cells == old(cells)
      ensures selected == TouchResult(old(Board()), touchPoint)
      ensures Board() == Touched(old(Board()), touchPoint)
    {
      var i := 0;
      while i < |cells| && !Hits(cells[i].State(), touchPoint)
        invariant 0 <= i <= |cells|
        invariant forall j :: 0 <= j < i ==> !Hits(Board()[j], touchPoint)
      {
        i := i + 1;
      }
      if i == |cells| {
        selected := None;
        return;
      }
      assert FirstHit(Board(), touchPoint) == Some(i);
      cells[i].isAlive := true;
      selected := cells[i].indexPath;
    }

    /** Counts the live cells that are next to `cell`. */
    method LivingNeighbors(cell: Cell) returns (neighborCount: nat)
      ensures neighborCount == Life.LivingNeighbors(Board(), cell.frame)
    {
      neighborCount := 0;
      for i := 0 to |cells|
        invariant neighborCount == Life.LivingNeighbors(Board()[..i], cell.frame)
      {
        assert Board()[..i + 1][..i] == Board()[..i];
        var otherCell := cells[i];
        if otherCell.isAlive && IsNextTo(cell.frame, otherCell.frame) {
          neighborCount := neighborCount + 1;
        }
      }
      assert Board()[..|cells|] == Board();
    }

    /**
     * Seeds an empty board with 100 new dead cells; otherwise computes the next
     * generation into fresh copies and installs them. `castSucceeds` stands for
     * the outcome of casting the copies to `[Cell]`: when it fails, nothing changes.
     */
    method Iterate(castSucceeds: bool) returns (ok: bool)
      requires Valid()
      modifies this
      ensures Valid()
      ensures ok <==> old(cells) == [] || castSucceeds
      ensures old(cells) == [] ==> Board() == Seed()
      ensures old(cells) != [] && castSucceeds ==> Board() == Step(old(Board()))
      ensures !ok ==> cells == old(cells)
      ensures ok ==> forall i :: 0 <= i < |cells| ==> fresh(cells[i])
      ensures Snapshot(old(cells)) == old(Board())
    {
      if |cells| == 0 {
        for k := 0 to CellCount
          invariant |cells| == k
          invariant forall i :: 0 <= i < k ==> fresh(cells[i]) && cells[i].State() == Unplaced
          invariant forall i, j :: 0 <= i < j < k ==> cells[i] != cells[j]
        {
          var c := new Cell(false);
          cells := cells + [c];
        }
        return true;
      }

      var updatedCells: seq<Cell> := [];
      for k := 0 to |cells|
        invariant cells == old(cells)
        invariant |updatedCells| == k
        invariant forall i :: 0 <= i < k ==> fresh(updatedCells[i]) && updatedCells[i].State() == Unplaced
        invariant forall i, j :: 0 <= i < j < k ==> updatedCells[i] != updatedCells[j]
      {
        var c := cells[k].Copy();
        updatedCells := updatedCells + [c];
      }
      if !castSucceeds {
        return false;
      }

      ghost var before := Board();
      for x := 0 to |cells|
        invariant cells == old(cells)
        invariant Board() == before
        invariant forall i :: 0 <= i < |cells| ==> fresh(updatedCells[i])
        invariant forall i :: 0 <= i < x ==> updatedCells[i].State() == Step(before)[i]
        invariant forall i :: x <= i < |cells| ==> updatedCells[i].State() == Unplaced
      {
        var cell := cells[x];
        var livingNeighbors := LivingNeighbors(cell);
        if cell.isAlive {
          if 2 <= livingNeighbors <= 3 {
            updatedCells[x].isAlive := true;
          } else {
            updatedCells[x].isAlive := false;
          }
        } else if livingNeighbors == 3 {
          updatedCells[x].isAlive := true;
        }
      }

      cells := updatedCells;
      return true;
    }
  }
}
