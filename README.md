# Maze game core, modelled in Dafny

The model covers the logic of a Unity maze game. It has four parts.

- **The maze grid** (`Assets/Scripts/GridGeneration.cs`, repeated in `Assets/GridGeneral.cs`).
  - A `Grid` is a 2-D array of wall (0) and maze (1) values. It has bounds and state tests, `MarkCell`, `GetWalls` (the orthogonal wall neighbours of a cell) and `DividedCells` (a maze neighbour and the cell opposite it).
  - `RandomizedPrim` carves a maze with randomized Prim's algorithm. It keeps a wall list (the frontier). It picks an entry at random, opens it when the cell behind it is unvisited, adds that cell's walls and drops the entry.
  - `grid_generation.dfy` models this as class `GridGeneration.Grid` over an `array2<int>`, with a ghost set of maze cells.
  - `maze_spec.dfy` (module `MazeSpec`) holds the matching value-level definitions and the proofs about them.
  - `grid_general.dfy` models what the second copy changes: its generator has a fixed seed.
- **The wall manager** (`Assets/Scripts/WallManagement.cs`, `wall_management.dfy`).
  - Each grid cell has a wall with a height quality, 1 raised and 0 sunk, and a vertical position.
  - A list of scheduled moves (`InterpData`) says how the walls change. The block, outline and clearing schedulers append to that list.
  - `Update` is the per-frame tick. It advances every move to the current time, writes each wall's position and settles finished moves into the qualities.
  - The arithmetic the two managers share (`quality`, `linterp`, `yPosFromHeightQuality`, the move record) is in `interpolation.dfy`.
- **The scene script** (`Assets/Scripts/SpawnScript.cs`, `spawn_script.dfy`).
  - It holds an older nested copy of the wall manager. That copy keeps positions only and drops moves that have not started.
  - `Start` builds a 39 x 39 maze and schedules one move. `Update` ticks the manager.
- **The key debouncer** `Stopper` (`Assets/Scripts/InputAssist.cs`, `input_assist.dfy`). It answers true on the first frame of a press only.

Things the source takes from its environment become parameters:

- Unity's `Time.time` becomes `now`.
- The draws of `System.Random` become a function `next(k, n)`: the k-th draw with bound n. The pick is `next(k, n) % n`.
- `float` is modelled as `real`.
- `int` is modelled as Dafny's unbounded `int`; where a 32-bit wrap-around changes the outcome, "## Left out" says so.
- `uint` keeps its range through the `uint` subset type. Its wrap-around on `- 1` and `+ 1` is written out as `Dec` and `Inc`.

Each imperative method is proved against a specification function:

- **GetWalls and DividedCells:** `WallsAsWritten` (the test as the repository writes it), `Walls` (the test corrected) and `Divided`, the 3 x 3 window scans.
- **The carving loop:** `PrimStep` and `PrimLoop`. They grow the wall list with `WallsAsWritten`, as the source's `RandomizedPrim` does.
- **The schedulers:** `Block`, `Outline`, `Walled` and `ClearedWalled`.
- **The wall manager's Update:** `Pending`, `SettledQuality` and `ShownHeight`.
- **The scene script's Update:** `Active` and `LastHeight`.
- **Stopper:** `Answers`.

The properties are then proved about those functions.

## Model

| member | source | states |
|---|---|---|
| MazeSpec.Mark | Assets/Scripts/GridGeneration.cs:51-62 | marking keeps the dimensions; the cell is in the maze afterwards exactly when it is valid; no other cell changes; a well-formed board stays well-formed |
| MazeSpec.ScanWalls | Assets/Scripts/GridGeneration.cs:73-87 | after k window positions the loop has collected at most k cells |
| MazeSpec.ScanWallsAsWritten | Assets/Scripts/GridGeneration.cs:73-87 | with the test as written, after k window positions the loop has likewise collected at most k cells |
| MazeSpec.Walls | Assets/Scripts/GridGeneration.cs:69-90 | with the test corrected, the result is the valid wall neighbours in the order up, left, right, down: row-major order in the 3 x 3 window |
| MazeSpec.WallsMembers | Assets/Scripts/GridGeneration.cs:69-90 | a cell is in the result exactly when it is a valid wall cell orthogonally adjacent to the centre |
| MazeSpec.WallsAsWritten | Assets/Scripts/GridGeneration.cs:69-90 | with the comparison as written: off the diagonal the centre is also kept when it is a wall; on the diagonal (row == col) only the up and down neighbours are returned |
| MazeSpec.WallsAsWrittenMembers | Assets/Scripts/GridGeneration.cs:69-90 | around a carved cell, every cell the test as written returns is a valid wall cell adjacent to it |
| MazeSpec.WallsAsWrittenAtCorner | Assets/Scripts/GridGeneration.cs:166-168 | on any grid at least 2 x 2, the wall list of the start (0, 0) is [(1, 0)] as written and would be [(0, 1), (1, 0)] with the test corrected |
| MazeSpec.WallsAsWrittenAgreesOffDiagonal | Assets/Scripts/GridGeneration.cs:79-82 | off the diagonal, with the centre carved, the test as written and the intended test give the same list |
| MazeSpec.WallsAsWrittenDropsSideWalls | Assets/Scripts/GridGeneration.cs:79-82 | on the diagonal, a left or right wall neighbour makes the two lists differ; a right wall neighbour is in the intended list and not in the written one |
| MazeSpec.WallsAsWrittenCounterexample | Assets/Scripts/GridGeneration.cs:81 | on a 2 x 2 grid carved only at (0,0), the written test returns [(1,0)] and the intended one [(0,1), (1,0)] |
| MazeSpec.ScanDivided | Assets/Scripts/GridGeneration.cs:131-150 | the scan returns nothing or two cells: a valid orthogonal maze neighbour and its reflection through the centre |
| MazeSpec.Divided | Assets/Scripts/GridGeneration.cs:127-151 | nothing, or a valid orthogonal maze neighbour followed by the cell opposite it through the centre |
| MazeSpec.DividedInOrder | Assets/Scripts/GridGeneration.cs:131-145 | the first maze neighbour in the order up, left, right, down is paired with the cell opposite it, which is not bounds-checked; with no maze neighbour the result is empty |
| MazeSpec.DividedShape | Assets/Scripts/GridGeneration.cs:127-151 | 0 or 2 cells; 2 exactly when some orthogonal neighbour is a maze cell; then the first is a valid maze neighbour and the second its reflection, also adjacent to the centre |
| MazeSpec.PrimStartInvariant | Assets/Scripts/GridGeneration.cs:166-168 | after a valid start is marked, every entry of its wall list, taken with the test as written, touches the maze |
| MazeSpec.PrimStep | Assets/Scripts/GridGeneration.cs:176-203 | one pass of the loop keeps the grid's size and never turns a maze cell back into a wall; the walls of a newly carved cell join the list by the test as written |
| MazeSpec.PrimStepProgress | Assets/Scripts/GridGeneration.cs:176-203 | one iteration keeps every wall-list entry touching the maze, so `dividedCells[0]` and `[1]` exist, also with the list grown by the test as written. Either an unvisited cell is carved or the grid is unchanged and the list shrinks by one, which is the loop's termination measure |
| MazeSpec.PrimLoop | Assets/Scripts/GridGeneration.cs:174-204 | the finished loop keeps every cell carved before it and carves only valid cells |
| MazeSpec.PrimResult | Assets/Scripts/GridGeneration.cs:158-208 | the maze the source as written carves, its wall list grown by the test as written: it lies in the grid; the start cell is carved exactly when it is valid; an invalid start carves nothing |
| MazeSpec.PrimSingleCell | Assets/Scripts/GridGeneration.cs:158-208 | on a 1 x 1 grid the maze is the start cell, whatever is drawn |
| GridGeneration.Grid.constructor | Assets/Scripts/GridGeneration.cs:26-39 | the grid has the requested size and every cell holds the wall value |
| GridGeneration.Grid.IsVisited | Assets/Scripts/GridGeneration.cs:97-100 | true for every out-of-range cell; on a valid grid, true exactly for invalid or carved cells |
| GridGeneration.Grid.IsMaze | Assets/Scripts/GridGeneration.cs:107-110 | implies the cell is valid; on a valid grid, true exactly for carved cells |
| GridGeneration.Grid.IsWall | Assets/Scripts/GridGeneration.cs:117-120 | true for every out-of-range cell; for a valid cell holding 0 or 1, exactly one of IsWall and IsMaze holds |
| GridGeneration.Grid.MarkCell | Assets/Scripts/GridGeneration.cs:51-62 | returns whether the cell is valid; sets exactly that cell to the maze value when it is, leaves every other cell unchanged, and changes nothing when it is not |
| GridGeneration.Grid.GetWallsAsWritten | Assets/Scripts/GridGeneration.cs:69-90 | the nested loop, with the comparison of line 81 as written, returns exactly `WallsAsWritten` of the grid, without changing the grid |
| GridGeneration.Grid.GetWalls | Assets/Scripts/GridGeneration.cs:69-90 | the nested loop with line 81 corrected to `wallCol == col` returns exactly the intended scan `Walls` of the grid, without changing the grid |
| GridGeneration.Grid.DividedCells | Assets/Scripts/GridGeneration.cs:127-151 | the nested loop with its early return gives exactly `Divided` of the grid, without changing the grid |
| GridGeneration.Grid.CarveAt | Assets/Scripts/GridGeneration.cs:177-203 | one pass of the loop with the picked index, calling GetWalls as written, does to the grid and the wall list exactly what `PrimStep` does, and keeps the grid consistent |
| GridGeneration.Grid.RandomizedPrim | Assets/Scripts/GridGeneration.cs:158-208 | a fresh grid of the requested size whose maze is `PrimResult` for the start and the draws, with GetWalls as written; an invalid start leaves every cell a wall |
| GridGeneral.RandomizedPrim | Assets/GridGeneral.cs:126-162 | the same carving, with GetWalls as written, and the generator seeded by 1: the maze depends only on the size and the start |
| Interpolation.Dec | Assets/Scripts/WallManagement.cs:95-96 | `x - 1` on a uint, with 0 wrapping to 4294967295 |
| Interpolation.Inc | Assets/Scripts/WallManagement.cs:97-98 | `x + 1` on a uint, with 4294967295 wrapping to 0 |
| Interpolation.Quality | Assets/Scripts/WallManagement.cs:65-67 | for a != b the quality recovers x by interpolation; it is 0 exactly at a and 1 exactly at b |
| Interpolation.Linterp | Assets/Scripts/WallManagement.cs:68-70 | linterp(0, a, b) = a and linterp(1, a, b) = b |
| Interpolation.LinterpBetween | Assets/Scripts/WallManagement.cs:68-70 | a fraction in [0, 1] interpolates to a point between the two ends, in either order |
| Interpolation.QualityOfLinterp | Assets/Scripts/WallManagement.cs:65-70 | quality is the inverse of linterp: quality(linterp(q, a, b), a, b) = q |
| Interpolation.QualityRange | Assets/Scripts/WallManagement.cs:120-127 | on an increasing interval the quality is below 0 exactly before it, above 1 exactly after it, and in [0, 1] exactly inside it |
| Interpolation.YPos | Assets/Scripts/WallManagement.cs:71-73 | quality 0 gives -wallHeight/2, quality 1 gives wallHeight/2; in general the wall's top is h * wallHeight above the ground |
| Interpolation.YPosBetween | Assets/Scripts/SpawnScript.cs:77-82 | a move between qualities in [0, 1] keeps the wall between -wallHeight/2 and wallHeight/2 |
| Interpolation.SeedQuality | Assets/Scripts/WallManagement.cs:45-50 | 1 exactly for the wall value, 0 exactly for the maze value, 0.5 exactly for any other value |
| Interpolation.TimePhase | Assets/Scripts/WallManagement.cs:120-127 | for startTime < endTime: not started exactly before the start, finished exactly after the end, running (a fraction in [0, 1] that interpolates back to now) exactly inside, end points included; with startTime == endTime the division by zero gives the NaN case only at that instant |
| WallManagement.Pending | Assets/Scripts/WallManagement.cs:116-140 | Update never adds moves |
| WallManagement.PendingMembers | Assets/Scripts/WallManagement.cs:127-138 | a move stays on the list exactly when it was there and has not finished |
| WallManagement.PendingKeepsAtEndTime | Assets/Scripts/WallManagement.cs:127 | the finished test is strict: at its end time a move is still on the list |
| WallManagement.PendingAppend | Assets/Scripts/WallManagement.cs:116-140 | the list is filtered entry by entry in order: the moves kept from s + t are those kept from s followed by those kept from t |
| WallManagement.PendingIdempotent | Assets/Scripts/WallManagement.cs:116-140 | a second Update at the same time leaves the list as the first left it |
| WallManagement.PendingSettlesNothing | Assets/Scripts/WallManagement.cs:127-132 | a second Update at the same time changes no quality |
| WallManagement.PendingDropsFinished | Assets/Scripts/WallManagement.cs:127-128 | appending moves that have all finished does not change what stays on the list |
| WallManagement.SettledAppend | Assets/Scripts/WallManagement.cs:127-132 | the qualities are settled in list order: handling s then t is handling t from the qualities s leaves |
| WallManagement.SettledQuality | Assets/Scripts/WallManagement.cs:127-132 | a wall that no move targets keeps its quality |
| WallManagement.SettledUniform | Assets/Scripts/WallManagement.cs:127-132 | when every move of a wall has finished with the same end value, the wall ends at that value if it was moved at all, and keeps its quality otherwise |
| WallManagement.WrittenHeight | Assets/Scripts/WallManagement.cs:129-136 | a finished move writes the end height; a move between qualities in [0, 1] writes a height between -wallHeight/2 and wallHeight/2 |
| WallManagement.WrittenHeightAtEnds | Assets/Scripts/WallManagement.cs:133-136 | a running move shows its start height at its start time and its end height at its end time |
| WallManagement.ShownHeight | Assets/Scripts/WallManagement.cs:129-136 | a wall that no move targets keeps its height |
| WallManagement.StepAsWritten | Assets/Scripts/WallManagement.cs:118-138 | one pass of the loop as written; a finished move shortens the list by one |
| WallManagement.RunAsWritten | Assets/Scripts/WallManagement.cs:117-138 | passes of the loop as written never add moves |
| WallManagement.RunAsWrittenFinishes | Assets/Scripts/WallManagement.cs:116-140 | when no move is still to start, the loop as written, resumed after any number of entries, ends with the index at the end of the list and the list that the corrected Update leaves |
| WallManagement.UpdateAsWrittenAgrees | Assets/Scripts/WallManagement.cs:116-140 | when no move is still to start, the loop as written ends within one pass per entry and leaves `Pending` of the list, as the corrected Update does |
| WallManagement.UpdateAsWrittenStalls | Assets/Scripts/WallManagement.cs:117-126 | as written, once the index reaches a move that has not started, no number of passes changes the state, and the loop test stays true |
| WallManagement.UpdateAsWrittenStallsOnFutureMove | Assets/Scripts/WallManagement.cs:117-126 | a concrete frame that never ends: one move of wall (0, 0) scheduled to start a second later |
| WallManagement.WallManager.constructor | Assets/Scripts/WallManagement.cs:24-64 | copies the grid's size, starts with no moves, seeds each quality as `SeedQuality` of the cell and puts each wall at the height of that quality |
| WallManagement.WallManager.Entry | Assets/Scripts/WallManagement.cs:77-84 | the move for wall (i, j) targets that wall |
| WallManagement.WallManager.Row | Assets/Scripts/WallManagement.cs:76-85 | the inner loop schedules one move per column |
| WallManagement.WallManager.RowsLength | Assets/Scripts/WallManagement.cs:75-86 | a block of rows holds (rows) * (columns) moves |
| WallManagement.WallManager.InterpolateRow | Assets/Scripts/WallManagement.cs:76-85 | the inner loop appends the row's moves, left to right, after the existing ones |
| WallManagement.WallManager.BlockInterpolate | Assets/Scripts/WallManagement.cs:74-87 | appends `Block` after the existing moves, leaving them and the qualities unchanged |
| WallManagement.WallManager.Block | Assets/Scripts/WallManagement.cs:74-87 | a block sr..er by sc..ec schedules (er - sr + 1) * (ec - sc + 1) moves, none when its range is empty |
| WallManagement.WallManager.BlockCount | Assets/Scripts/WallManagement.cs:74-87 | each wall of the box is scheduled exactly once and no other wall is |
| WallManagement.WallManager.BlockScheduled | Assets/Scripts/WallManagement.cs:74-87 | every move starts from its wall's current quality and goes to the final quality over [timeStart, timeStart + timeTaken]; a wall is in the box exactly when it is scheduled once |
| WallManagement.WallManager.CreateClearing | Assets/Scripts/WallManagement.cs:88-90 | appends the block's moves to quality 0 |
| WallManagement.WallManager.OutlineInterpolate | Assets/Scripts/WallManagement.cs:94-99 | appends the four edge blocks (left column, bottom row, right column, top row), with the source's uint bound arithmetic |
| WallManagement.WallManager.OutlineCount | Assets/Scripts/WallManagement.cs:94-99 | for sr < er and sc < ec, each border wall is scheduled exactly once and no interior or outside wall is |
| WallManagement.WallManager.Outline | Assets/Scripts/WallManagement.cs:94-99 | for sr < er and sc < ec the outline holds 2(er - sr) + 2(ec - sc) moves |
| WallManagement.WallManager.OutlineScheduled | Assets/Scripts/WallManagement.cs:94-99 | every outline move starts from its wall's current quality and goes to the final quality over the given interval |
| WallManagement.WallManager.OutlineSingleRow | Assets/Scripts/WallManagement.cs:94-100 | with no bounds check, a one-row outline schedules the walls strictly between its end columns twice and the two end walls once |
| WallManagement.WallManager.BlockSettles | Assets/Scripts/WallManagement.cs:74-87 | once a block's moves have run their course, Update leaves each wall of the box at the final quality and every other wall as the earlier moves left it |
| WallManagement.WallManager.OutlineSettles | Assets/Scripts/WallManagement.cs:94-99 | the same for an outline at least two rows high and two columns wide, and its border walls |
| WallManagement.WallManager.CreateWalledClearing | Assets/Scripts/WallManagement.cs:101-105 | appends the outline to quality 1 followed by the inner block to quality 0 |
| WallManagement.WallManager.Walled | Assets/Scripts/WallManagement.cs:101-105 | for sr < er and sc < ec a walled clearing schedules one move per wall of the box: (er - sr + 1) * (ec - sc + 1) |
| WallManagement.WallManager.WalledFromCurrent | Assets/Scripts/WallManagement.cs:101-105 | every move of a walled clearing starts from its wall's current quality |
| WallManagement.WallManager.WalledSettles | Assets/Scripts/WallManagement.cs:101-105 | once the clearing has run its course, Update leaves its border at 1, its inside at 0 and every other wall as the earlier moves left it |
| WallManagement.WallManager.CreateClearedWalledClearing | Assets/Scripts/WallManagement.cs:109-112 | appends the outline to quality 0 followed by a walled clearing of the box inside it |
| WallManagement.WallManager.ClearedWalled | Assets/Scripts/WallManagement.cs:109-112 | for a box at least four rows high and four columns wide, a cleared walled clearing schedules one move per wall of the box |
| WallManagement.WallManager.ClearedWalledFromCurrent | Assets/Scripts/WallManagement.cs:109-112 | every move of a cleared walled clearing starts from its wall's current quality |
| WallManagement.WallManager.ClearedWalledSettles | Assets/Scripts/WallManagement.cs:109-112 | once it has run its course, Update leaves the outer ring at 0, the next ring at 1, the rest of the box at 0 and every other wall as before |
| WallManagement.WallManager.Advance | Assets/Scripts/WallManagement.cs:119-137 | one pass at the index. A finished move is removed and sets its wall's quality and height to the end values. A running move writes its interpolated height. A move not started yet is passed over. No other wall changes |
| WallManagement.WallManager.Update | Assets/Scripts/WallManagement.cs:116-140 | the list becomes `Pending` of the old list. Each quality becomes the end value of the last finished move of that wall, if any. Each height becomes the one written by the last move of that wall that writes one |
| SpawnScript.Active | Assets/Scripts/SpawnScript.cs:83-105 | this Update never adds moves |
| SpawnScript.ActiveMembers | Assets/Scripts/SpawnScript.cs:88-103 | a move stays on the list exactly when it has neither finished nor not yet started |
| SpawnScript.ActiveIdempotent | Assets/Scripts/SpawnScript.cs:83-105 | a second Update at the same time leaves the list as the first left it |
| SpawnScript.ActiveOutsideInterval | Assets/Scripts/SpawnScript.cs:88-97 | moves whose interval does not contain now all leave the list, on either side of it |
| SpawnScript.WrittenHeight | Assets/Scripts/SpawnScript.cs:87-101 | a move not started writes its start height, a finished one its end height; a move between qualities in [0, 1] writes a height between -wallHeight/2 and wallHeight/2 |
| SpawnScript.LastHeight | Assets/Scripts/SpawnScript.cs:83-105 | a wall that no move targets keeps its height |
| SpawnScript.StartMoveHeights | Assets/Scripts/SpawnScript.cs:109-120 | during its ten seconds the move of Start shows wall (0, 0) at the height of the elapsed fraction and stays listed; afterwards the wall stands raised and the move is gone |
| SpawnScript.WallManager.constructor | Assets/Scripts/SpawnScript.cs:35-73 | copies the grid's size, starts with no moves and puts each wall at the height of its seeded quality |
| SpawnScript.WallManager.Advance | Assets/Scripts/SpawnScript.cs:86-103 | one pass at the index. A move not started yet is removed and writes the start height. A finished move is removed and writes the end height. A running move writes the interpolated height and the index moves past it. No other wall changes |
| SpawnScript.WallManager.Update | Assets/Scripts/SpawnScript.cs:83-105 | the loop always ends. The list becomes `Active` of the old list. Each height becomes the one written by the last move of that wall |
| SpawnScript.SpawnScript.constructor | Assets/Scripts/SpawnScript.cs:11-15 | no manager before Start |
| SpawnScript.SpawnScript.Start | Assets/Scripts/SpawnScript.cs:109-120 | builds a 39 x 39 manager from the maze the source as written carves at (0, 0), GetWalls included: maze walls sunk, the others raised. The list holds exactly one move: wall (0, 0) from 0 to 1 over ten seconds from now |
| SpawnScript.SpawnScript.Update | Assets/Scripts/SpawnScript.cs:123-125 | one tick of the manager |
| InputAssist.Stopper.constructor | Assets/Scripts/InputAssist.cs:7-10 | a new Stopper is unlocked |
| InputAssist.Stopper.Update | Assets/Scripts/InputAssist.cs:12-31 | the lock becomes the signal; the answer is true exactly when the signal is on and the lock was off |
| InputAssist.Answers | Assets/Scripts/InputAssist.cs:12-31 | successive calls give one answer each; the answer at call i is true exactly when the signal rises there: on at call i, off at call i - 1 (or, for the first call, the starting lock off) |
| InputAssist.NoTwoInARow | Assets/Scripts/InputAssist.cs:14-24 | from a fresh Stopper, two consecutive calls never both answer true |
| InputAssist.OnlyWhenPressed | Assets/Scripts/InputAssist.cs:26-30 | no call with the signal off answers true |
| InputAssist.AnswersAppend | Assets/Scripts/InputAssist.cs:12-31 | two batches of calls answer as one, the second starting from the lock the first left |

## Left out

- GameObjects, transforms, scale, names and the maze parent object are not modelled. Only each wall's vertical position is kept, in `heights`; the x and z placement and `wallHorizontalDimension` only place objects in the scene.
- `Time.time` is the parameter `now`. The `CreateClearingNow`, `CreateWalledClearingNow` and `CreateClearedWalledClearingNow` wrappers (Assets/Scripts/WallManagement.cs:91-93, 106-108, 113-115) only pass it in and are not modelled separately.
- `System.Random` is the parameter `next` (or `random(seed)`); its distribution is not modelled.
- The `Cell` overloads of `IsValidCell`, `MarkCell`, `GetWalls`, `IsVisited`, `IsMaze`, `IsWall` and `DividedCells` only unpack the cell and are not modelled separately.
- `Assets/GridGeneral.cs` repeats `Assets/Scripts/GridGeneration.cs` with `m_` field names and the same namespace. The shared members (Assets/GridGeneral.cs:22-120) are modelled once, by `GridGeneration.Grid`, and their rows cite the first copy; `GridGeneral.RandomizedPrim` models the fixed seed. The GetWalls finding applies to the copy at Assets/GridGeneral.cs:63 as well.
- IsValidCell is a plain predicate with no contract; IsVisited, IsMaze and IsWall state its meaning.
- Overriding the scene script's fields in the Unity inspector is not modelled; `SpawnScript.SpawnScript` uses the defaults 1.0, 39 and 39.
- Assets/Scripts/CreationGeneral.cs, Assets/SpawnScript.cs, PlayerLook.cs and PlayerMovement.cs are not part of this model. They are scene set-up and player input.
- GridGeneration.Grid.GetWallsAsWritten: does not model the wrap-around of C#'s 32-bit `int` in the loop header (Assets/Scripts/GridGeneration.cs:73, 75). With row or col equal to 2147483646, `row + 1` is int.MaxValue, the test `<= row + 1` never fails, and the source's loop never ends; the model, whose integers are unbounded, returns a list. At 2147483647 and at -2147483648 the source's loop makes no pass and returns an empty list, which the model returns too unless the grid has at least 2147483647 rows (for row equal to 2147483647) or at least 2147483647 columns (for col equal to 2147483647).
- GridGeneration.Grid.GetWalls: the same `int` wrap-around at row or col equal to 2147483646 is not modelled.
- GridGeneration.Grid.DividedCells: the `int` wrap-around of the loop headers (Assets/Scripts/GridGeneration.cs:131, 133) at row or col equal to 2147483646 is not modelled. The effects below hold on a grid with fewer than 2147483646 rows and columns. With row equal to 2147483646 and col below it, each inner loop ends normally, and the row counter wraps past int.MaxValue and comes round to the grid's rows. The source then returns at the first row k whose cell (k, col) is a maze cell, with [(k, col), (-4 - k, col)], because `row - (cellRow - row)` wraps too. When column col has no maze cell, it never returns. With col equal to 2147483646 the inner counter wraps and the source never returns. The model, whose integers are unbounded, returns `Divided` of the nine-cell window instead.
- GridGeneration.Grid.RandomizedPrim: calls GetWalls on the start before it tests whether the start was marked (Assets/Scripts/GridGeneration.cs:166-170), so in the source a startingRow or startingCol of 2147483646 never returns. The model returns an all-wall grid for that start, as for every other invalid start.
- GridGeneral.RandomizedPrim: the same hang at a startingRow or startingCol of 2147483646 (Assets/GridGeneral.cs:57-58, 133) is not modelled.
- GridGeneration.Grid.GetWalls: the corrected scan is proved, but nothing in the model calls it; the carving calls GetWallsAsWritten, as the source does.
- The maze carved by RandomizedPrim is not proved to be a spanning tree of the carved cells; only the local rules of the loop are proved.
- float is modelled as real, so rounding is not modelled.
- Interpolation.Quality: requires a != b. The division by zero at startTime == endTime is modelled instead by `TimePhase`, with its infinite and NaN outcomes.
- WallManagement.WallManager.Update: when startTime == endTime == now, the source writes a NaN position and keeps the move. The model keeps the move and leaves the wall's position unchanged.
- SpawnScript.WallManager.Update: same NaN case and the same treatment as WallManagement.WallManager.Update.
- WallManagement.WallManager.BlockInterpolate: requires `BlockFits`. The source throws on a wall outside the grid, and so does a non-empty column range that reaches 4294967295: `qualities[i, j]` fails at j == numCols before the counter can wrap. Only an endingRow of 4294967295 with an empty column range makes the uint row counter wrap, and then the loop never ends. Neither case is modelled.
- WallManagement.WallManager.OutlineInterpolate, CreateWalledClearing and CreateClearedWalledClearing require each of their blocks to fit. The same holds for the uint bounds computed with `- 1` and `+ 1`, which the comment at Assets/Scripts/WallManagement.cs:100 leaves unchecked.
- WallManagement.WallManager.constructor: requires the grid's size to fit a uint, which it does in the source, where the size is a uint.

## Findings

| source | as written | input that shows it | evidently intended | confidence | as-written member | corrected member |
|---|---|---|---|---|---|---|
| Assets/Scripts/GridGeneration.cs:81 (and Assets/GridGeneral.cs:63) | `!(wallRow == row && wallRow == col)` compares the row with the column | 2 x 2 grid carved only at (0, 0), GetWalls(0, 0): returns [(1,0)], missing the wall (0, 1). Off the diagonal a wall centre would also be returned. RandomizedPrim from (0, 0) on any grid at least 2 x 2 (the 39 x 39 grid of Start included) starts its wall list as [(1, 0)] (`WallsAsWrittenAtCorner`). The carving in this model follows the code as written | `!(wallRow == row && wallCol == col)`: exactly the orthogonal wall neighbours | not executed | MazeSpec.WallsAsWrittenCounterexample | GridGeneration.Grid.GetWalls |
| Assets/Scripts/WallManagement.cs:121-126 | a move with time quality below 0 takes an empty branch that neither removes it nor advances `index` | one move of wall (0, 0) starting a second after now: the loop never ends | a move not started yet is left for a later frame, and the loop goes on to the next one | not executed | WallManagement.UpdateAsWrittenStalls | WallManagement.WallManager.Update |
