# Game of Life engine — a Dafny model

This project models the engine of a UIKit Game of Life app: the `Game` class and the `Cell` objects it drives.
The board is 10 × 10 cells. Each cell has an optional index path, an optional screen frame and a liveness flag.
The engine finds a cell's neighbours from geometry, not from row and column arithmetic. A cell `other` is next to `cell` when both have frames, the frames differ, and the centre of `other`'s frame lies inside `cell`'s frame widened by one width and one height on every side.

The engine has four operations:

- `iterate` seeds an empty board with 100 dead cells. On a non-empty board it builds the next generation under Conway's rule B3/S23. The new cells are fresh copies, and every neighbour count is taken on the old cells.
- `resetStates` kills every cell in place.
- `validateTouchpoint` marks alive the first cell whose frame contains a point and reports that cell's index path.
- `livingNeighbors` counts the live neighbours of one cell.

Files:

- `wrappers.dfy` — `Option`, which stands for Swift's optionals.
- `geometry.dfy` — `Point`, `Rect` and its derived `MinX`/`MaxX`/`MidX` (and the same for y), and `Frame`, a rectangle whose width and height are not negative.
- `cells.dfy` — the `Cell` class, the value `CellState` of its three fields, and `Snapshot`, which gives the states of a sequence of cells.
- `life.dfy` — the engine's rules written as functions on values: `IsNextTo`, the count `LivingNeighbors`, `Rule` (B3/S23), `Step`, `Seed`, `Reset`, `FirstHit`, `TouchResult` and `Touched`. The lemmas about them are here too.
- `engine.dfy` — the `Game` class. Each method is proved to change the cells' states exactly as the matching function of `life.dfy` says. The `Game` invariant `Valid()` states that the cells are distinct objects and that there are 0 or 100 of them.
- `grid.dfy` — what the geometric neighbour test means on a tiled layout like the one the app draws. There the cells are equal squares in rows of 10. The horizontal gap (the item spacing) and the vertical gap (the line spacing) are separate parameters, each at most half a side. On such a layout the test picks out exactly the 8-cell Moore neighbourhood, so no count exceeds 8.

Coordinates are exact `real`s. Index paths are pairs of integers.

The "copies" in a generation step are dead and unplaced: `copy()` passes `isAlive` to `Cell.init(isAlive:)`, which suggests it meant to keep the liveness, but `init` ignores its argument (Cell.swift:17-19, 26-29), and the model follows the code.

The step still follows B3/S23, because every branch for a live cell writes `isAlive` explicitly. Every cell loses its frame in a step, so a second step with no new layout in between kills every cell (`Life.SecondStepKillsAll`).

`Cell.set` is called by the view controller each time it lays out a cell. Here it is `Cells.Cell.Set`, and callers may invoke it between engine calls.

## Model

| member | source | states |
|---|---|---|
| `Cells.Cell.constructor` | UIKit-GameOfLife/UIKit-GameOfLife/GameOfLife/Cell.swift:17-19 | a new cell is dead, with no index path and no frame, whatever `isAlive` argument is passed |
| `Cells.Cell.Set` | UIKit-GameOfLife/UIKit-GameOfLife/GameOfLife/Cell.swift:21-24 | the index path and frame become the given ones and liveness is kept; only this cell may change (`modifies this`) |
| `Cells.PlacedIdempotent` | UIKit-GameOfLife/UIKit-GameOfLife/GameOfLife/Cell.swift:21-24 | placing a cell twice with the same arguments is the same as placing it once, and placing never touches liveness |
| `Cells.Cell.Copy` | UIKit-GameOfLife/UIKit-GameOfLife/GameOfLife/Cell.swift:26-29 | the copy is a fresh object (so it is distinct from the receiver) and is dead and unplaced; the receiver is not modified |
| `Life.IsNextTo` | UIKit-GameOfLife/UIKit-GameOfLife/GameOfLife/Game.swift:39-65 | `other` counts as next to `cell` only when both frames are present and differ, and the centre of `other`'s frame lies in `cell`'s frame widened by one width on each side in x and one height on each side in y, bounds included; the contract states the first half (a neighbour always has both frames and they differ) |
| `Life.IsNextToWindow` | UIKit-GameOfLife/UIKit-GameOfLife/GameOfLife/Game.swift:52-64 | for two different frames that are both present, `IsNextTo` holds exactly when the other frame's centre lies in the closed x-range from minX − width to maxX + width and in the closed y-range from minY − height to maxY + height |
| `Grid.MooreNeighborhood` | UIKit-GameOfLife/UIKit-GameOfLife/GameOfLife/Game.swift:42-64 | for equal square frames tiled with a horizontal gap and a vertical gap of at most half a side each, the window test holds exactly when the two cells are different and at most one row and one column apart |
| `Life.LivingNeighborsIsCardinality` | UIKit-GameOfLife/UIKit-GameOfLife/GameOfLife/Game.swift:68-77 | the neighbour count equals the number of positions holding a live cell that is next to the given frame |
| `Life.LivingNeighborsBound` | UIKit-GameOfLife/UIKit-GameOfLife/GameOfLife/Game.swift:68-77 | the count is at most the number of cells on the board |
| `Life.NoNeighborsWithoutLife` | UIKit-GameOfLife/UIKit-GameOfLife/GameOfLife/Game.swift:71 | only live cells are counted: on a board with no live cell every count is 0 |
| `Life.NoNeighborsWithoutFrames` | UIKit-GameOfLife/UIKit-GameOfLife/GameOfLife/Game.swift:40 | on a board where no cell has a frame every count is 0 |
| `Life.LivingNeighborsIgnoresIndexPaths` | UIKit-GameOfLife/UIKit-GameOfLife/GameOfLife/Game.swift:68-77 | the count depends only on the cells' liveness and frames |
| `Grid.TiledCountIsMoore` | UIKit-GameOfLife/UIKit-GameOfLife/GameOfLife/Game.swift:68-77 | on a row-by-row tiled board, a cell's count is the number of its live Moore neighbours, and so at most 8 |
| `Engine.Game.LivingNeighbors` | UIKit-GameOfLife/UIKit-GameOfLife/GameOfLife/Game.swift:68-77 | the counting loop returns exactly the live neighbours of the cell among the current cells |
| `Life.SeedShape` | UIKit-GameOfLife/UIKit-GameOfLife/GameOfLife/Game.swift:81-83 | the seed holds 10 × 10 = 100 cells, all dead and without frames |
| `Life.StepAt` | UIKit-GameOfLife/UIKit-GameOfLife/GameOfLife/Game.swift:92-105 | a step keeps the board size; each new cell is alive iff the old cell was alive with 2 or 3 live neighbours, or was dead with exactly 3; each new cell has no frame or index path |
| `Life.LoneCellDies` | UIKit-GameOfLife/UIKit-GameOfLife/GameOfLife/Game.swift:96-101 | a live cell with no other live cell on the board dies in the next step |
| `Life.EmptyStaysEmpty` | UIKit-GameOfLife/UIKit-GameOfLife/GameOfLife/Game.swift:102-104 | a board without live cells has none after a step |
| `Life.SecondStepKillsAll` | UIKit-GameOfLife/UIKit-GameOfLife/GameOfLife/Game.swift:87-107 | a second step before the cells are placed again leaves every cell dead and unplaced |
| `Engine.Game.Iterate` | UIKit-GameOfLife/UIKit-GameOfLife/GameOfLife/Game.swift:80-111 | on an empty board, 100 fresh dead cells are added and the result is true; otherwise, if the cast of the copies fails, the result is false and the cells are unchanged; if it succeeds, the cells are replaced by fresh objects whose states are `Step` of the old board (counts from the old cells) and the result is true; in every case the old cell objects keep their states and the invariant holds (distinct cells, 0 or 100 of them) |
| `Life.ResetProperties` | UIKit-GameOfLife/UIKit-GameOfLife/GameOfLife/Game.swift:17-20 | after reset every cell is dead, with size, frames and index paths kept; a second reset changes nothing |
| `Engine.Game.ResetStates` | UIKit-GameOfLife/UIKit-GameOfLife/GameOfLife/Game.swift:17-20 | the cell sequence is unchanged and the cells' states become `Reset` of the old board |
| `Life.FirstHit` | UIKit-GameOfLife/UIKit-GameOfLife/GameOfLife/Game.swift:24-29 | the index returned is one whose frame contains the point with bounds included, and no earlier cell's frame does; no index is returned exactly when no cell's frame contains the point (cells without a frame never match) |
| `Life.FirstHitOnlyReadsFrames` | UIKit-GameOfLife/UIKit-GameOfLife/GameOfLife/Game.swift:24-27 | which cell a touch selects depends only on the frames |
| `Life.TouchEffect` | UIKit-GameOfLife/UIKit-GameOfLife/GameOfLife/Game.swift:29-34 | with no hit, nothing changes and nothing is reported; with a hit, the first hit cell becomes alive with its placement kept, its index path is reported, and every other cell stays as it was |
| `Life.TouchIdempotent` | UIKit-GameOfLife/UIKit-GameOfLife/GameOfLife/Game.swift:23-35 | touching the same point again reports the same index path and leaves the same board |
| `Engine.Game.ValidateTouchpoint` | UIKit-GameOfLife/UIKit-GameOfLife/GameOfLife/Game.swift:23-35 | the cell sequence is unchanged; the reported index path is `TouchResult` and the new board is `Touched` of the old board |
| `Engine.Game.constructor` | UIKit-GameOfLife/UIKit-GameOfLife/GameOfLife/Game.swift:15 | a new game has no cells and satisfies its invariant |

## Left out

- The view controller (layout, buttons, gestures, reloading, the generation counter, the seed-placement gating) is not part of this model. Its call of `cell.set(indexPath, frame)` is modelled only as an outside caller of `Cells.Cell.Set`.
- CoreGraphics floating point: coordinates are exact reals, and `Int(pow(10.0, 2))` is the integer 100.
- CGRect's handling of negative sizes: frames have non-negative width and height (`Geometry.Frame`).
- Completion closures and `[weak self]`: each method returns its result directly, and `resetStates` returns nothing.
- `NSCopying`/`NSZone`: `Copy` returns a `Cell` directly.
- The runtime cast `as? [Cell]` cannot be computed in the model. `Engine.Game.Iterate` takes its outcome as the parameter `castSucceeds`. Every copy is a `Cell`, so in the app the cast always succeeds.
- `Engine.Game.ValidateTouchpoint`: the source filters every cell and then takes the first match. The model stops scanning at the first match instead. The result and the new state are the same.
- `isNextTo` is private in the source and takes two cells. Here it is `Life.IsNextTo`, a predicate on their two optional frames, which are all it reads.
- `Grid.TiledCountIsMoore` assumes an exact layout: equal squares placed at multiples of side plus gap. The view controller's rounded `itemWidth` and the actual frames UIKit computes are not part of this model.
