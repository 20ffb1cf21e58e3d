# Ant maze: maze generation and ant-colony simulation in Dafny

This project models the two algorithmic parts of a small "ant maze" game:

* **Maze generation** (`generateMaze` in `src/utils/mazeGenerator.ts`).
  - The requested size is normalised by the difficulty.
  - A grid is built that is all wall.
  - A randomised depth-first backtracker carves rooms at odd coordinates and opens the wall cell between each room and the room it was reached from.
  - The start (1, 1) and the end (W-2, H-2) are forced open.
  - A "dead-end" pass then runs over every room.
* **The colony simulation** (class `AntColonyOptimization` in `src/utils/antColony.ts`).
  - One state record is kept per ant.
  - Each tick advances every ant that has not arrived: it picks a target among the open rooms two steps away, advances its progress by its type's speed, and settles on the target, possibly arriving at the end.
  - Pheromone is deposited on the cells an ant crosses, and on its whole path when it arrives.
  - Every cell's pheromone evaporates once per tick.
  - There are also a drawing snapshot (`getAnts`), an arrival query and `reset`.

Files:

| file | module | contents |
|---|---|---|
| `random.dfy` | `Randomness` | `Math.random()` as an injected stream of draws in [0, 1). `Pick` is `Math.floor(r * n)`. |
| `maze.dfy` | `MazeModel` | Positions. The class `Maze`, whose `cells[y][x]` are three `array2` grids indexed `[y, x]`: wall, visited, pheromone. Walks, reachability, and a reachability certificate (parent and depth maps) that turns into walks. |
| `generator.dfy` | `MazeGenerator` | Difficulty parameters, size normalisation, `getUnvisitedNeighbors`, `getNeighbors`, `countExits`, and the imperative generator: grid setup, backtracker loop, start/end, dead-end pass. |
| `ant.dfy` | `AntTypes` | The ant profile: type and explore ratio. |
| `colony.dfy` | `AntColony` | The ant state record, the per-ant tick as a pure function `Advance` with its invariant `AntInv`, neighbour selection and pheromone arithmetic, and the class `AntColonyOptimization` whose methods change the ants and the pheromone grid in place. |

Main results:

* **Generated mazes.** `GenerateMaze` always returns a maze with these properties:
  - odd sides of at least 11;
  - walls on the border;
  - every room open, and exactly the rooms visited;
  - start and end open;
  - every open cell reachable from the start through 4-adjacent open cells;
  - all pheromone 0.

  The dead-end pass provably leaves the grid exactly as it found it (`AddDeadEnds`). The cell it re-walls is always drawn from neighbours that are already walls, so the pass only consumes random draws.
* **Ant invariant.** Every ant keeps this invariant through any number of ticks and resets:
  - its position, its target and every path entry are open rooms;
  - a target means a move in progress;
  - an arrived ant stands on the end;
  - since the last reset, consecutive path entries are exactly two steps apart.
* **Pheromone.** Every level stays in [0, 1]. Within a tick no level decreases before the evaporation, and after the tick every level is at most 0.98. When no ant settles during a tick, every level is exactly its old value times 0.98.
* **`step`.** Ant `i` ends the tick in state `Advance(old state, choice, increment)`. Here `choice` is exactly the answer of `getNextPosition`: none when no target is needed or there is no valid neighbour, and otherwise `Choose` of the neighbours, on the levels the ant saw and the two draws at its own draw index. Each ant's draws follow those of the ant before it. The levels an ant sees are read from an exact per-ant grid: the grid before the loop, with the deposits of every earlier ant that settled applied in order. So they are at least those before the loop, equal to them while no earlier ant has settled, and differ from them only on cells an earlier settler deposited on. The grid after the last ant, times 0.98, is the pheromone after the tick.
* **Moves.** The tick that sets a target is the first of the ticks toward it. Once a target is set, an ant keeps it for `TicksToSettle - 1` ticks and settles on it at the next tick.

Three behaviours of the code are kept as written:

* An ant reads the pheromone already deposited by the ants ticked before it in the same `step`. The code deposits inside the loop and does not read a snapshot of the grid.
* `reset` keeps each ant's path, progress and target.
* `isAllAntsReachedEnd` holds when at least one ant has arrived.

## Model

| member | source | states |
|---|---|---|
| Randomness.Pick | src/utils/mazeGenerator.ts:88 | `Math.floor(r * n)` for a draw `r` in [0, 1) is a valid index `k < n` with `k <= r*n < k+1` |
| MazeModel.CertifiedReachable | src/utils/mazeGenerator.ts:72-98 | an open cell that a parent/depth certificate reaches is reachable from the root by a walk of 4-adjacent open cells |
| MazeModel.CertifiedConnected | src/utils/mazeGenerator.ts:72-98 | a reachability certificate makes every open cell reachable from the root |
| MazeModel.CornersAreRooms | src/utils/mazeGenerator.ts:101-102 | in every valid maze the start (1, 1) and the end (W-2, H-2) are odd-coordinate interior rooms |
| MazeModel.Maze.constructor | src/utils/mazeGenerator.ts:120-128 | the returned maze record holds the sizes, grids, start, end and standard completion rate it was given, and an actual completion rate of 0 |
| MazeGenerator.Params | src/utils/mazeGenerator.ts:15-43 | the parameters of each difficulty, with dead-end factor in (0, 0.5], completion rate in (0, 1] and scale in [0.2, 1.2] |
| MazeGenerator.ForceOdd | src/utils/mazeGenerator.ts:52-53 | an even size loses one, an odd one is kept; the result is odd |
| MazeGenerator.NormalizedSize | src/utils/mazeGenerator.ts:48-58 | the final size is odd and at least 11; it is the forced-odd scaled size exactly when that is at least 11, and 11 otherwise |
| MazeGenerator.NormalizedSizeOf31 | src/utils/mazeGenerator.ts:46-58 | a request of 31 gives 11, 27, 31, 33 and 37 for very easy, easy, normal, hard and very hard |
| MazeGenerator.NormalKeepsOddSizes | src/utils/mazeGenerator.ts:26-30 | at normal difficulty a request of at least 11 is only forced odd |
| MazeGenerator.NormalizedSizeIsValid | src/utils/mazeGenerator.ts:51-58 | for every request and difficulty the final size is odd and at least 11 |
| MazeGenerator.UnvisitedNeighbors | src/utils/mazeGenerator.ts:131-154 | at most 4 cells; a cell is listed iff it is two steps along one axis from `pos`, strictly inside the border and unvisited; empty iff every such cell is visited |
| MazeGenerator.Neighbors | src/utils/mazeGenerator.ts:156-178 | at most 4 cells; a cell is listed iff it is in bounds and one step along one axis from `pos` |
| MazeGenerator.WallsAmong | src/utils/mazeGenerator.ts:111 | the `isWall` filter: a cell is kept iff it is listed and a wall |
| MazeGenerator.CountExits | src/utils/mazeGenerator.ts:180-200 | a value in [0, 4] equal to the number of in-bounds 4-neighbours of `pos` minus the walls among them, that is, its open in-bounds 4-neighbours |
| MazeGenerator.ExitAtCounts | src/utils/mazeGenerator.ts:188-199 | one step of the `reduce` counts 1 exactly for an in-bounds non-wall neighbour |
| MazeGenerator.RoomStep | src/utils/mazeGenerator.ts:88-95 | a room two steps from a room and inside the border is a room, and the wall cell between them is inside the grid and 4-adjacent to both |
| MazeGenerator.OpenPassage | src/utils/mazeGenerator.ts:89-95 | the new room is opened and marked visited and the cell midway is opened; no other cell of either grid changes |
| MazeGenerator.PushRoom | src/utils/mazeGenerator.ts:88-97 | visiting an unvisited neighbour of the stack top keeps the backtracker invariant, with that room pushed and no longer unvisited |
| MazeGenerator.PopKeepsClosure | src/utils/mazeGenerator.ts:83-85 | popping a stack top without unvisited neighbours keeps "every visited room off the stack has no unvisited neighbour" |
| MazeGenerator.RoomVisited | src/utils/mazeGenerator.ts:79-98 | once the stack is empty, every room is visited |
| MazeGenerator.CarvedShapeFacts | src/utils/mazeGenerator.ts:72-98 | after carving, every room is open and every border cell is a wall |
| MazeGenerator.Carve | src/utils/mazeGenerator.ts:72-98 | the backtracker terminates with exactly the rooms visited and all of them open. Every other open cell is an interior door cell (between two rooms), so the border stays wall. A certificate shows that every open cell is reachable from (1, 1) |
| MazeGenerator.NewGrid | src/utils/mazeGenerator.ts:61-69 | a `finalHeight` by `finalWidth` grid that is all wall and all unvisited |
| MazeGenerator.OpenStartAndEnd | src/utils/mazeGenerator.ts:101-104 | start (1, 1) and end (W-2, H-2) are open, and the grid is unchanged because the carving already opened both |
| MazeGenerator.AddDeadEnds | src/utils/mazeGenerator.ts:107-118 | the dead-end pass leaves every cell of the wall grid as it was, whatever the draws |
| MazeGenerator.GenerateMaze | src/utils/mazeGenerator.ts:11-129 | a valid maze of the normalised sizes and the difficulty's completion rate in which the border is wall, the visited cells are exactly the rooms, every room (start and end included) is open, every open cell is reachable from the start and every pheromone level is 0 |
| AntColony.SpeedMultiplier | src/utils/antColony.ts:194-211 | each type's multiplier, in [0.6, 2.0]; 2.0 exactly for a sprinter and 0.6 exactly for a patient ant |
| AntColony.TicksToSettle | src/utils/antColony.ts:73-77 | the least number of ticks whose increments of `0.05 * multiplier` reach a progress of 1 |
| AntColony.TickPending | src/utils/antColony.ts:71-77 | a tick of an ant with a target that does not reach progress 1 only adds the increment |
| AntColony.TicksBelowOne | src/utils/antColony.ts:71-77 | from progress 0 with a target, `k` ticks whose increments stay below 1 keep the target and room and leave progress `k` increments |
| AntColony.TicksKeepTarget | src/utils/antColony.ts:71-77 | from progress 0 with a target, each of the first `TicksToSettle - 1` ticks keeps the target and room, with progress `k` increments |
| AntColony.TargetTickIsFirst | src/utils/antColony.ts:49-77 | the tick that sets a target equals setting it and then one tick of the move, from progress 0 with that target |
| AntColony.SettlesAfterTicks | src/utils/antColony.ts:71-93 | the `TicksToSettle`-th tick after a target is set settles the ant on it: new position, path extended by it, target dropped, arrived iff it is the end |
| AntColony.ValidNeighbors | src/utils/antColony.ts:131-157 | at most 4 cells; each listed cell is two steps along one axis from `pos`, open, and the cell midway is open |
| AntColony.ValidNeighborsComplete | src/utils/antColony.ts:131-157 | the converse: every cell two steps along one axis from `pos` that is open, with the cell midway open, is listed |
| AntColony.MidpointsOfSteps | src/utils/antColony.ts:143-144 | the midway cell of each of the four moves is `pos + dir / 2` |
| AntColony.NeighborIsRoom | src/utils/antColony.ts:131-157 | a valid neighbour of an open room is an open room two steps away |
| AntColony.MaxPheromone | src/utils/antColony.ts:122-123 | `Math.max` of the neighbours' levels: attained by one of them and at least every one's level |
| AntColony.Levels | src/utils/antColony.ts:122 | one level per neighbour, in order: the pheromone of that cell |
| AntColony.BestIndices | src/utils/antColony.ts:124 | the filter by index: every kept index has a level equal to the maximum, and some index is kept when one has it |
| AntColony.BestIndicesComplete | src/utils/antColony.ts:124 | the converse: every index whose level equals the maximum is kept |
| AntColony.Choose | src/utils/antColony.ts:113-128 | the chosen cell is a neighbour; when exploring it is the neighbour at the drawn index; when following pheromone its level is the maximum over the neighbours |
| AntColony.FollowTakesMaximum | src/utils/antColony.ts:121-125 | when following pheromone, no neighbour has a higher level in the grid than the chosen one |
| AntColony.Consumed | src/utils/antColony.ts:109-125 | a call of `getNextPosition` consumes no draw exactly when it answers nothing |
| AntColony.ChosenIsLegal | src/utils/antColony.ts:49-50 | the exact answer is legal: given only when a target is needed, nothing exactly when there is no valid neighbour, and otherwise a valid neighbour |
| AntColony.Share | src/utils/antColony.ts:160 | `0.5 / n`, so that `n` shares add up to 0.5 |
| AntColony.Deposited | src/utils/antColony.ts:161-167 | a cell listed `count` times gains `count` shares capped at 1; the level never decreases and stays at most 1 |
| AntColony.DepositedStep | src/utils/antColony.ts:162-166 | listing a cell once more applies one more add-and-cap step |
| AntColony.SettledLevel | src/utils/antColony.ts:84-96 | the level of one cell after an ant settles: 0.25 shares for the new cell and the cell crossed, then the path shares on arrival; never below the old level and at most 1 |
| AntColony.Deposits | src/utils/antColony.ts:84-96 | the whole grid after one ant's tick: same shape, levels in [0, 1], unchanged when the ant did not settle, and otherwise every cell at its `SettledLevel` |
| AntColony.DepositsTouchOnly | src/utils/antColony.ts:84-96 | a cell whose level one ant's tick changes is the new cell, the cell crossed, or, on arrival, a cell of the path |
| AntColony.UnchangedUnlessDeposited | src/utils/antColony.ts:42-99 | after `j` ants of the loop, a cell whose level differs from the one before the loop is a deposit cell of some earlier settling ant |
| AntColony.SeenUnlessDeposited | src/utils/antColony.ts:42-99 | a level ant `j` saw that differs from the grid before the loop is on a cell some earlier ant deposited on when it settled |
| AntColony.GridsGrow | src/utils/antColony.ts:42-99 | one more iteration extends the per-ant grids by that ant's deposits and the seen levels by those read from its grid |
| AntColony.InitialAnts | src/utils/antColony.ts:27-36 | one fresh state per ant: at the start, path [start], not arrived, progress 0, no target, no direction |
| AntColony.Advance | src/utils/antColony.ts:43-98 | an arrived ant is unchanged. A new target resets progress to 0 and sets direction to target minus position. The path grows by exactly the new position on settling, and only then the target is dropped and the ant is arrived iff it stands on the end. A move in progress has its progress grown by the increment and stays below 1 |
| AntColony.RetargetKeepsInv | src/utils/antColony.ts:49-68 | choosing a legal target keeps the ant invariant (the target is an open room two steps away) |
| AntColony.MoveKeepsInv | src/utils/antColony.ts:71-98 | advancing progress and settling keep the ant invariant |
| AntColony.AdvanceKeepsInv | src/utils/antColony.ts:43-98 | a whole tick with a legal choice keeps the ant invariant |
| AntColony.ResetKeepsInv | src/utils/antColony.ts:215-219 | the reset of one ant keeps the invariant, its two-step chain restarting at the end of its kept path |
| AntColony.TickKeepsAllInv | src/utils/antColony.ts:42-99 | ticking one ant of the colony keeps every ant's invariant, and the ticked ant's position and path stay in the grid |
| AntColony.TickedFrame | src/utils/antColony.ts:42-99 | the record of the first iterations does not depend on the ants not yet ticked |
| AntColony.TickedGrow | src/utils/antColony.ts:42-99 | one more iteration of the loop: the next ant's tick, with its exact answer, the levels it saw and its draw index, extends the record |
| AntColony.TickedEach | src/utils/antColony.ts:42-99 | every recorded iteration: ant `j` is `Advance` of its old state with the exact answer on its levels and draws, and the next ant draws where it stopped |
| AntColony.TickedDone | src/utils/antColony.ts:42-99 | once every ant is recorded, the record is the whole loop's |
| AntColony.SeenAtEnd | src/utils/antColony.ts:42-99 | at the end of the loop every ant saw levels at least those before the loop, and exactly those when no earlier ant settled |
| AntColony.MidpointInGrid | src/utils/antColony.ts:84-85 | the midpoint of two cells of the grid is in the grid |
| AntColony.View | src/utils/antColony.ts:183-191 | the drawn record copies every field but the position; the position is the settled one unless a move is in progress, and the start of the move at progress 0 |
| AntColony.ViewOnSegment | src/utils/antColony.ts:185-189 | during a move the drawn position lies between the position and the target on each axis, and equals them on an axis where they agree |
| AntColony.Interpolate | src/utils/antColony.ts:187-188 | `p + (t - p) * g` for `g` in [0, 1) lies between `p` and `t` |
| AntColony.Views | src/utils/antColony.ts:182-192 | same length and order, one view per state |
| AntColony.AnyReached | src/utils/antColony.ts:178-180 | `some`: true iff at least one state is arrived |
| AntColony.AntColonyOptimization.constructor | src/utils/antColony.ts:21-36 | the colony holds the maze and the ant group, one fresh state per ant profile, and its invariant |
| AntColony.AntColonyOptimization.GetNextPosition | src/utils/antColony.ts:105-129 | none iff the ant has no valid neighbour, consuming no draw; otherwise `Choose` of the neighbours with the next two draws, which are consumed |
| AntColony.AntColonyOptimization.NextTarget | src/utils/antColony.ts:49-50 | `getNextPosition` is consulted only when the ant needs a target; the answer is exactly `Choose` on the levels and the next two draws, legal, and the draws consumed are counted |
| AntColony.AntColonyOptimization.DepositPheromone | src/utils/antColony.ts:159-168 | each cell's new level is its old level plus as many capped shares `0.5 / |cells|` as it is listed; levels stay in [0, 1] |
| AntColony.AntColonyOptimization.EvaporatePheromone | src/utils/antColony.ts:170-176 | every cell's level is multiplied by 0.98 |
| AntColony.AntColonyOptimization.Settle | src/utils/antColony.ts:84-96 | a share of 0.25 goes to the new cell and to the wall cell crossed, then, on arrival, a share of `0.5 / |path|` goes to each cell of the path: every level becomes its `SettledLevel` |
| AntColony.AntColonyOptimization.AdvanceAnt | src/utils/antColony.ts:45-81 | only ant `i` changes: it becomes `Advance` of its old state with the exact answer of `getNextPosition` on its entry levels and draws, and the colony invariant holds |
| AntColony.AntColonyOptimization.StepAnt | src/utils/antColony.ts:43-98 | only ant `i` changes, advanced with the exact answer of `getNextPosition` on the levels and draws on entry. The colony invariant holds. No level changes when the ant does not settle, and when it settles every level is exactly its `SettledLevel` |
| AntColony.AntColonyOptimization.TickAt | src/utils/antColony.ts:42-99 | one loop iteration, skipping an arrived ant: only ant `i` changes. It ticks with the exact answer of `getNextPosition` on the levels and draws on entry. Pheromone changes only when it settles, never decreases, and is then exactly the `SettledLevel` of each cell |
| AntColony.AntColonyOptimization.TickNext | src/utils/antColony.ts:42-99 | one loop iteration with its record: the loop's state after ant `i` extends the one before it by that tick |
| AntColony.AntColonyOptimization.Recorded | src/utils/antColony.ts:42-99 | the facts one tick establishes turn the loop's state before it into the state after it |
| AntColony.AntColonyOptimization.GridsRecorded | src/utils/antColony.ts:42-99 | one tick extends the per-ant grids by that ant's `Deposits`, and the last grid still matches the pheromone |
| AntColony.AntColonyOptimization.Advanced | src/utils/antColony.ts:42-99 | both parts of the loop's state, the record and the per-ant grids, carry over one tick |
| AntColony.AntColonyOptimization.LoopStart | src/utils/antColony.ts:42 | before the first iteration the loop's state holds with nothing recorded |
| AntColony.AntColonyOptimization.LoopDone | src/utils/antColony.ts:42-99 | after the last iteration: every ant's exact tick, the draws they used, the levels they saw against those before the loop, and a grid nowhere below the one before and equal to it when no ant settled. The per-ant grids start at the grid before the loop, each follows from the one before by that ant's deposits, each ant's levels are read from its own grid, and the last grid is the pheromone |
| AntColony.AntColonyOptimization.TickAll | src/utils/antColony.ts:42-99 | every ant has ticked once with the exact answer of `getNextPosition` for the neighbours it had before the loop, the levels it saw and the draws at its index, each ant drawing after the one before. The levels seen are at least those before the loop and equal to them while no earlier ant settled. Levels never decrease, and no level changes when no ant settled. Exactly: ant `j` read its levels from grid `j`, grid 0 is the pheromone before the loop, grid `j + 1` is grid `j` with ant `j`'s deposits, and the last grid is the pheromone after the loop |
| AntColony.AntColonyOptimization.Step | src/utils/antColony.ts:38-103 | every ant is `Advance` of its old state with the exact answer of `getNextPosition`, as for the loop. Every level ends between 0.98 times its old value and 0.98, and equals 0.98 times its old value when no ant settled. Exactly: the levels each ant saw come from the per-ant grids as for the loop, and every final level is 0.98 times the last grid's. The colony invariant holds |
| AntColony.AntColonyOptimization.IsAllAntsReachedEnd | src/utils/antColony.ts:178-180 | true iff at least one ant has arrived, so false for an empty colony |
| AntColony.AntColonyOptimization.GetAnts | src/utils/antColony.ts:182-192 | one drawn view per ant, same length and order, without changing anything |
| AntColony.AntColonyOptimization.Reset | src/utils/antColony.ts:213-227 | every ant is at the start with direction (0, 0) and not arrived, with its path, progress and target kept. Every pheromone level is 0. The colony invariant holds |

## Left out

- Floating point: progress and pheromone are exact reals. In binary floating point the accumulated progress can need one more tick than `TicksToSettle` says (ten additions of `0.1` stay just below 1), and `* 0.98` and the size scaling round differently. The model does not reproduce that drift.
- `Math.random()`: every draw comes from an injected stream `rng` of values in [0, 1), read at an index (`draws`) that the model threads explicitly. The properties hold for every stream. The uniformity of the draws and any statistical claim are not modelled.
- AntColony.AntColonyOptimization.GetNextPosition: the ant is named by its index rather than found with `indexOf`. The states are distinct records, so `indexOf` returns that index.
- `console.log` calls are left out.
- The UI, which calls `step` on a timer and stops once `isAllAntsReachedEnd` holds, is not part of this model. The same goes for the sprite drawing and the ant selector.
- The unused fields of the ant and maze types are left out: tokens' skills, rarity, level, experience, base speed (`src/types/ant.ts`:17), memory affinity and elite chance, the group's aggregates `totalSpeed`, `avgMemoryAffinity`, `avgExploreRatio` and `avgEliteChance` (`src/types/ant.ts`:28-31, filled only by the UI), and each cell's own `x`, `y`. The standard and actual completion rates are carried but never read.
- AntColony.SpeedMultiplier: the `default` branch (1.0) cannot be reached, since the ant type is a closed datatype of six kinds.
- MazeGenerator.GenerateMaze: only connectivity from the start is proved, not that the maze is acyclic (a "perfect" maze). The pheromone grid is allocated after the carving; its cells are 0 from the start in the code and untouched until then.
- AntColony.Share: returns 0 for an empty list, where the code would divide by zero. Every list `depositPheromone` receives has at least one cell, so the case is never used.
- Fractional wall coordinates: `(x + x') / 2` is always an integer in the code, because every ant position and target is a room with odd coordinates (`AntInv`). The model therefore uses integer halving.
- AntColony.AntColonyOptimization.constructor: requires a maze of the generator's shape (`Maze.Valid`, open start, levels in [0, 1]). The code accepts any maze object. The requirement holds at every call site, because the UI builds each colony from a maze that `generateMaze` returned (src/components/Game.tsx:51, 78, 240), and `GenerateMaze` ensures a valid shape, an open start and every level 0. `Step` and `Reset` keep the levels in [0, 1]. Colonies over other mazes are not modelled.
- The per-ant grids that `TickAll` and `Step` return are ghost values: they state the exact levels, but the code keeps no such copies.
- AntColony.AntColonyOptimization.GetAnts: `getAnts` copies each record shallowly, so every copy shares the live `path` array with the colony and sees later pushes. The model returns values, so that sharing is not captured.
- Concurrency and reentrancy are not modelled: the code is single-threaded and `step` runs to completion.
