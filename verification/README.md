# Game of Life on a torus: a Dafny model

This project models the core of a browser Game of Life (`script.js`, class
`Game`):
- the birth/death rule (`BREAKPOINTS`);
- the toroidal neighbour count with its early exit (`NEIGHBOURS`, `getNeighboursCount`);
- the per-cell update (`updateCellState`);
- the two-phase generation step of `drawField`: compute into a scratch buffer from an unmodified snapshot, collect the diff and a liveness flag, then commit the diff;
- the cell toggle on a canvas click (`setFirstGen`);
- the idle/running state machine (`init`, `reset`, `start`, `render`).

It also proves properties of that model.

The board keeps the source's indexing. `generateField` builds `COLS` lines of
`ROWS` cells, and a cell is read as `currentState[y][x]`. So x ranges over
`[0, ROWS)` and wraps against `ROWS`, and y ranges over `[0, COLS)` and wraps
against `COLS`. Both dimensions must be at least one.

Modules:

| module | file | contents |
|---|---|---|
| `Grid` | grid.dfy | the board as `seq<seq<int>>` of 0/1 cells, `generateField`, the single-cell flip |
| `Rules` | rules.dfy | the `BREAKPOINTS` constants and the rule applied to one cell |
| `Neighbours` | neighbours.dfy | `NEIGHBOURS`, the one-step wrap, the early-exit count as the source's loop, and the reference count `TorusCount` (the 3x3 block around the cell, taken with Euclidean remainders, minus the cell) |
| `Step` | step.dfy | `updateCellState`, the reference next generation `NextGeneration`, the scan of `drawField` (nested loops), the commit loop, and the diff |
| `Driver` | driver.dfy | the `Game` record, `init`/`reset`, the abstract `render` transition `Tick` and its executable counterpart, `start`, the click handler, and runs of events |
| `Scenarios` | scenarios.dfy | whole runs: an empty board perishes at once; a 2x2 block drawn by four clicks is a still life and ends the run in harmony |

Partners:
- The loop methods (`GetNeighboursCount`, `UpdateCellState`, `ComputeNext`, `Commit`, `DrawField`, `Render`) are proved against independent reference definitions (`TorusCount`, `NextCell`, `NextGeneration`, `LastWrite`, `Tick`).
- The flip and the click are proved to be their own inverses.
- The state machine is proved to keep "running implies clicks disabled" over any run of events.

Every array read in the loop methods is checked by the verifier. This includes the wrapped neighbour coordinates, which shows that every index the count reads is in bounds.

After a run ends in harmony (an empty diff with live cells) the click
listener stays detached. Only `reset` (via `init`) re-attaches it, and the
code calls `reset` only in the perished case. So after harmony the board
accepts no clicks until reset is pressed. `Driver.Tick`, `Driver.Start` and
`Scenarios.BlockRunReachesHarmony` state this.

## Model

| member | source | states |
|---|---|---|
| `Grid.GenerateField` | script.js:42 | the new board has `cols` lines of `rows` cells, all dead |
| `Grid.Flip` | script.js:145 | the chosen cell becomes `1 - old`, every other cell is unchanged, and the board stays well formed |
| `Grid.FlipTwice` | script.js:142-147 | flipping the same cell twice gives back the board |
| `Rules.NextCellState` | script.js:130-136 | the next value is 0 or 1, and it is 1 exactly when the count is 3, or the cell is alive and the count is 2 (B3/S23) |
| `Rules.RuleTable` | script.js:130-134 | dies with more than 3 or fewer than 2 neighbours when alive; born with exactly 3 when dead; keeps its value otherwise |
| `Rules.RuleIgnoresCountsAboveFour` | script.js:103 | the rule gives the same result for any count above four as for four, so stopping the count at four is unobservable |
| `Neighbours.Wrap` | script.js:109-119 | the one-step wrap lands in `[0, bound)` and equals the Euclidean remainder: -1 goes to the last index, `bound` goes to 0 |
| `Neighbours.SumOfNeighbourOffsets` | script.js:3-7 | reading the eight offsets of the table, with wrapping, sums to the true toroidal count of the 3x3 block minus the cell |
| `Neighbours.SumIsTorusCount` | script.js:3-7 | the `NEIGHBOURS` table itself lists exactly those eight offsets, so its full sum is the toroidal count |
| `Neighbours.PrefixSumBounded` | script.js:102-103 | the sum over the offsets visited before the early exit never exceeds the full sum |
| `Neighbours.CountOffsets` | script.js:100-124 | the loop with its early exit returns the full sum capped at four |
| `Neighbours.GetNeighboursCount` | script.js:100-124 | the count is in 0..4; it equals the true toroidal count when that is at most 4, and is 4 otherwise |
| `Neighbours.CountWrapsAcrossEdges` | script.js:109-113 | on any board, a live cell in the last column is a neighbour of column 0 on the same line, and the other way round |
| `Step.UpdateCellState` | script.js:126-136 | the value written is the rule applied to the true toroidal count, although the count used stops early |
| `Step.ScanCellValue` | script.js:73 | writing cell (x, y) extends the computed part of the scratch buffer by that cell and leaves the cells already computed alone |
| `Step.ScanCellDiff` | script.js:74-80 | the diff gains an entry for cell (x, y), with its new value, exactly when that value differs from the current one, and stays in scan order |
| `Step.ScanCellLife` | script.js:137-139 | the liveness flag becomes true exactly when some scanned cell of the new generation is alive |
| `Step.ScanColumn` | script.js:72-82 | the inner loop over y scans a whole column and keeps the buffer, diff and flag invariants |
| `Step.ComputeNext` | script.js:68-83 | the scratch buffer ends as the next generation computed from `cur` alone, whatever it held before; the diff names exactly the changed cells, in scan order, with their new values; the flag holds iff some new cell is alive |
| `Step.EmptyDiffMeansStill` | script.js:85 | an exact diff is empty iff the generation did not change |
| `Step.Commit` | script.js:94-97 | after the commit loop, each cell holds the value of the last change naming it, or its old value |
| `Step.CommitOfDiff` | script.js:94-97 | writing an exact diff over the current generation yields the next generation everywhere |
| `Step.DrawField` | script.js:67-98 | the committed board equals the next generation; the diff is exact; it is empty iff nothing changed; the flag holds iff some cell of the new generation lives |
| `Driver.Init` | script.js:34-42 | two all-dead buffers of the construction dimensions, not running, clicks accepted |
| `Driver.Reset` | script.js:164-169 | back to the state `init` builds: dimensions kept, both buffers dead, idle, clicks accepted |
| `Driver.ResetForgetsHistory` | script.js:164-169 | any two games of the same dimensions reset to the same state |
| `Driver.Tick` | script.js:85-92 | not running: nothing happens. Running: the board becomes the next generation. The run continues exactly when the board changed. An unchanged board with life always ends in harmony: the run stops, the board is kept and clicks stay as they were. An unchanged dead board always ends in perished, and the game is reset. |
| `Driver.Render` | script.js:149-151 | the executable render, using the two-phase step and deciding from the diff and the flag, has the same effect and outcome as `Tick` |
| `Driver.Start` | script.js:157-162 | ignored when running. Otherwise it sets the game running with clicks disabled and performs the first step at once. The game keeps running exactly when that step changed the board. An unchanged board ends in harmony if alive and in perished if dead, and clicks stay disabled except in the perished case, where the game is reset and accepts clicks again. |
| `Driver.CellOf` | script.js:143-144 | a pixel offset falls in cell `k` with `k * cellSize <= offset < (k + 1) * cellSize` |
| `Driver.Click` | script.js:142-147 | with the listener attached, flips exactly the cell under the click; without it, changes nothing |
| `Driver.ClickTwice` | script.js:142-147 | two clicks at the same spot give back the game |
| `Driver.Apply` | script.js:173-176 | one button press, timer firing or click keeps the dimensions and the invariant "running implies clicks disabled" |
| `Driver.RunKeepsInvariant` | script.js:157-162 | no sequence of events reaches a state that is running while accepting clicks |
| `Scenarios.DeadBoardStaysDead` | script.js:126-134 | on an all-dead board nothing is born |
| `Scenarios.EmptyBoardPerishes` | script.js:85-92 | a running game on an all-dead board perishes at its first tick and is reset to the state `init` builds |
| `Scenarios.BlockCount` | script.js:100-124 | the neighbour counts around a 2x2 block on the 4x4 torus: three for each block cell, at most two elsewhere |
| `Scenarios.BlockIsStillLife` | script.js:126-136 | a 2x2 block on the 4x4 torus is its own next generation |
| `Scenarios.ClicksDrawBlock` | script.js:142-147 | four clicks on a fresh 4x4 game with 10-pixel cells draw the block |
| `Scenarios.StartOnBlockReachesHarmony` | script.js:85-92 | starting on the block ends the run at once in harmony, with the board kept and clicks still disabled |
| `Scenarios.BlockRunReachesHarmony` | script.js:157-162 | from construction, four clicks and start end in harmony with clicks disabled |

## Left out

- Drawing is not modelled: `drawCell`, `drawGrid`, `clearRect`, the colours, line styles and canvas sizing. It has no effect on the game's state.
- Timers are not modelled: `setTimeout`, `requestAnimationFrame`, `cancelAnimationFrame` and `FPS`. Every firing of the render chain is one `TimerFired` event.
  - `TimerFired` may occur in any state, at any point of a run of events, and the properties proved about runs hold for every such interleaving.
  - This covers stale timers. After a run perishes, `reset` runs inside `drawField` before `render` schedules its next timer, so that timer survives the reset and `start` does not cancel it. If the player draws cells and presses start again before it fires, it fires while the game is running and performs an extra tick. Otherwise `render` returns at its guard and the event is `Skipped`.
  - How many render chains are pending, and their cancellation, is not modelled.
- `alert` is not modelled. Its two messages are the outcomes `Stabilized` ("reached harmony") and `Extinct` ("perished").
- DOM wiring is reduced to the flag `clicksEnabled`. Adding the listener in `init` sets it and removing it in `start` clears it. The button bindings are the events `StartPressed` and `ResetPressed`.
- `hasSignsOfLife` is not kept as a field of the game. It is an output of the step, and it is meaningful only inside `drawField`.
- The dimensions must be at least one (`rows`, `cols`, `cellSize`). The source never checks them, and it fixes them at 100, 50 and 15.
- `Driver.Click`: only non-negative offsets inside the canvas are modelled, which the canvas sizing guarantees. Fractional offsets, and the `Math.floor` of negative values, are not modelled.
- On a board narrower than three cells in either direction, one wrapped position can be reached from two offsets. It is then counted twice, and on a one-wide board the cell counts itself. The reference count `TorusCount` has the same behaviour, so the model agrees with the code there and does not call it an error.
