# Conway's Game of Life engine, simulation driver and snapshot import/export

This project models the core of a JavaFX Game of Life application in Dafny:

- **States** (`gol_state.dfy`): the two cell states, `toggle`, and the all-dead field constructor.
- **Life** (`game_of_life.dfy`): the engine. It holds a rows x columns field advanced by the B3/S23 rule with hard edges. Each advance emits one observer notification per cell in row-major order. Static and cyclic configurations are recognised through a bounded first-in-first-out history of past fields. Any cell edit starts a new detection epoch.
- **LifeScenarios** (`game_of_life_scenarios.dfy`): concrete runs of the engine: the blinker, the block, and an empty field.
- **View** (`gol_grid.dfy`): the simulation driver behind the grid view, taken as a sequential state machine. It covers the guarded start, resize and clear operations, one iteration of the simulation loop as a step, the loop itself bounded by a fuel argument, stop, and reset to the copy taken at start.
- **Conf** (`config.dfy`): the in-memory snapshot. It records the dimensions and the alive points in row-major order.
- **Controls** (`controller.dfy`): the controller actions that drive the core:
  - `start`, which toggles between starting and stopping;
  - parsing of the time period;
  - manual advance;
  - loading a snapshot into a fresh engine.
- **Wrappers** and **Exceptions** (`wrappers.dfy`): `Option`, `Result`, and the Java exceptions the core throws.

Engines, views and controllers are immutable values. Operations return the new value together with what the Java code would emit: observer notifications, reported patterns, alert messages, or an escaping exception.

The model follows the code as written:

- The history is scanned oldest first. The period is `size - k` for the first (oldest) matching entry at index `k`.
- The field drawn with `setCell` never enters the history. So a blinker drawn by hand is first recognised as cyclic (period 2) on its third advance, not its second (`LifeScenarios.BlinkerIsCyclicFromThirdAdvance`).
- `allDead()` in `advance` is evaluated on the field before the advance. `Life.StaticIffFixedPoint` shows this changes nothing: the static flag is set exactly when the next field equals the old one.
- `reset` keeps the copy taken at start; it is not discarded.
- `keepTrack` is not validated. The history bound proved is `size <= max(keepTrack, 1)`. Polling an empty history removes nothing.

The export and the simulation driver call `getField()` as a boolean matrix, `getRowCount()`, `getColumnCount()` and `clone()`. None of these appears in `GameOfLife.java`. They are modelled as the obvious accessors on the engine value: alive is true, the rows are the field's length, and the columns are the first row's length.

## Model

| member | source | states |
|---|---|---|
| States.Toggle | src/main/java/de/ostfalia/umwinf/ws16/logic/GolState.java:12-16 | toggling always yields the other state |
| States.ToggleInvolution | src/main/java/de/ostfalia/umwinf/ws16/logic/GolState.java:12-16 | toggling twice gives back the original state |
| States.DeadField | src/main/java/de/ostfalia/umwinf/ws16/logic/GolState.java:23-28 | `field(r, c)` has exactly r rows of c cells, every cell dead |
| Life.New | src/main/java/de/ostfalia/umwinf/ws16/logic/GameOfLife.java:31-37 | fails with IllegalArgumentException("size invalid") exactly when a dimension is not positive; otherwise an all-dead rows x columns engine in a fresh epoch (no advances, not static, period unset, empty history) with keepTrack 100 |
| Life.SetCell | src/main/java/de/ostfalia/umwinf/ws16/logic/GameOfLife.java:46-54 | writes exactly cell (x, y) and leaves every other cell as it was; starts a fresh epoch; emits exactly the one notification (state, x, y) |
| Life.GetCell | src/main/java/de/ostfalia/umwinf/ws16/logic/GameOfLife.java:56-58 | the state of the cell in column x of row y; what it returns after a write is stated by Life.GetCellAfterSetCell |
| Life.GetCellAfterSetCell | src/main/java/de/ostfalia/umwinf/ws16/logic/GameOfLife.java:46-58 | reading a cell after `setCell` gives the written state at (x, y) and the old state everywhere else |
| Life.SetKeepTrack | src/main/java/de/ostfalia/umwinf/ws16/logic/GameOfLife.java:171-177 | only keepTrack changes; the history bound holds afterwards exactly when the current history fits the new capacity |
| Life.AliveNeighbours | src/main/java/de/ostfalia/umwinf/ws16/logic/GameOfLife.java:140-148 | the neighbour count never exceeds 8 |
| Life.NextState | src/main/java/de/ostfalia/umwinf/ws16/logic/GameOfLife.java:150-168 | B3/S23: a dead cell becomes alive iff it has 3 alive neighbours; an alive cell stays alive iff it has 2 or 3 |
| Life.NextField | src/main/java/de/ostfalia/umwinf/ws16/logic/GameOfLife.java:95-104 | the next field has the old dimensions and every cell is the rule applied to the same old field |
| Life.CountAliveNeighbours | src/main/java/de/ostfalia/umwinf/ws16/logic/GameOfLife.java:139-148 | the double loop over the 3 x 3 block, skipping the centre and out-of-field positions, computes the neighbour count |
| Life.BlockTallyIsAliveNeighbours | src/main/java/de/ostfalia/umwinf/ws16/logic/GameOfLife.java:141-148 | the loop's running tally over the whole block equals the neighbour count |
| Life.GetNextState | src/main/java/de/ostfalia/umwinf/ws16/logic/GameOfLife.java:138-169 | the neighbour loop followed by the switch yields the rule's next state |
| Life.NextStateIsLocal | src/main/java/de/ostfalia/umwinf/ws16/logic/GameOfLife.java:138-169 | a cell's next state depends only on the 3 x 3 block around it |
| Life.LonelyCellDies | src/main/java/de/ostfalia/umwinf/ws16/logic/GameOfLife.java:156-160 | a cell with fewer than two alive neighbours is dead in the next generation |
| Life.AllDead | src/main/java/de/ostfalia/umwinf/ws16/logic/GameOfLife.java:125-127 | every cell of every row is dead; equivalent to a zero alive count by Life.AllDeadIffNoneAlive |
| Life.CountAlive | src/main/java/de/ostfalia/umwinf/ws16/logic/GameOfLife.java:129-131 | the number of alive cells, summed row by row; zero exactly when Life.AllDead holds (Life.AllDeadIffNoneAlive) |
| Life.AllDeadIffNoneAlive | src/main/java/de/ostfalia/umwinf/ws16/logic/GameOfLife.java:125-131 | `allDead()` holds exactly when `countAlive()` is zero |
| Life.AllDeadIsFixedPoint | src/main/java/de/ostfalia/umwinf/ws16/logic/GameOfLife.java:150-155 | no cell is born in an all-dead field, so it is its own successor |
| Life.IsRepeating | src/main/java/de/ostfalia/umwinf/ws16/logic/GameOfLife.java:75-77 | a cycle has been recognised exactly when the period is set; Life.Generation states when an advance sets it |
| Life.FindPeriod | src/main/java/de/ostfalia/umwinf/ws16/logic/GameOfLife.java:107-117 | unset exactly when the new field is not in the history; otherwise a period between 1 and the history size whose entry matches, with no older entry matching |
| Life.Record | src/main/java/de/ostfalia/umwinf/ws16/logic/GameOfLife.java:118-121 | evicts the oldest entry only when the history holds keepTrack or more and is non-empty; keeps the remaining entries in order; appends the new field last; preserves `size <= max(keepTrack, 1)` |
| Life.RowNotifications | src/main/java/de/ostfalia/umwinf/ws16/logic/GameOfLife.java:98-103 | one notification per cell of a row, left to right, carrying the new state |
| Life.Notifications | src/main/java/de/ostfalia/umwinf/ws16/logic/GameOfLife.java:96-104 | one notification per cell of the new field, row by row; its order and contents are stated by Life.NotificationsRowMajor |
| Life.NotificationsRowMajor | src/main/java/de/ostfalia/umwinf/ws16/logic/GameOfLife.java:96-104 | the notifications report every cell once, the one for (x, y) at position y * columns + x |
| Life.Generation | src/main/java/de/ostfalia/umwinf/ws16/logic/GameOfLife.java:94-122 | count + 1 and the next field; static iff the field did not change or the old field was all dead; a set period is never overwritten; a newly set period points at the oldest matching history entry; the history is updated as `Record` states |
| Life.Advance | src/main/java/de/ostfalia/umwinf/ws16/logic/GameOfLife.java:90-123 | a static engine is left untouched with no notifications; otherwise one generation; validity and the history bound are preserved |
| Life.AdvanceNotifiesRowMajor | src/main/java/de/ostfalia/umwinf/ws16/logic/GameOfLife.java:96-104 | a non-static advance reports rows x columns notifications in row-major order, each with the new state |
| Life.StaticIffFixedPoint | src/main/java/de/ostfalia/umwinf/ws16/logic/GameOfLife.java:105-106 | after an advance the engine is static exactly when the next field equals the old field |
| Life.ExtinctionMarkedStaticOneAdvanceLate | src/main/java/de/ostfalia/umwinf/ws16/logic/GameOfLife.java:105-106 | a field that dies out during an advance is not yet static; the following advance marks it |
| Life.AdvanceTimes | src/main/java/de/ostfalia/umwinf/ws16/logic/GameOfLife.java:90-94 | n advances keep the engine valid and keepTrack unchanged, and increase the count by at most n; a static engine stays as it is, and an engine that is still not static after n advances has counted exactly n more |
| LifeScenarios.VerticalBecomesHorizontal | src/main/java/de/ostfalia/umwinf/ws16/logic/GameOfLife.java:138-169 | the upright blinker turns into the lying one |
| LifeScenarios.HorizontalBecomesVertical | src/main/java/de/ostfalia/umwinf/ws16/logic/GameOfLife.java:138-169 | the lying blinker turns into the upright one |
| LifeScenarios.DrawBlinker | src/main/java/de/ostfalia/umwinf/ws16/logic/GameOfLife.java:46-54 | three `setCell` calls on a fresh 5 x 5 engine draw the upright blinker in a fresh epoch |
| LifeScenarios.BlinkerStep | src/main/java/de/ostfalia/umwinf/ws16/logic/GameOfLife.java:90-123 | advancing either blinker phase gives the other phase and never marks the engine static |
| LifeScenarios.FirstAdvance | src/main/java/de/ostfalia/umwinf/ws16/logic/GameOfLife.java:105-121 | after the first advance the history holds only the new phase and no period is set |
| LifeScenarios.SecondAdvance | src/main/java/de/ostfalia/umwinf/ws16/logic/GameOfLife.java:105-121 | the second advance restores the drawn field but finds no match, since the drawn field was never recorded |
| LifeScenarios.ThirdAdvance | src/main/java/de/ostfalia/umwinf/ws16/logic/GameOfLife.java:105-121 | the third advance finds its field two entries back and sets period 2 |
| LifeScenarios.BlinkerIsCyclicFromThirdAdvance | src/main/java/de/ostfalia/umwinf/ws16/logic/GameOfLife.java:105-121 | the blinker is first recognised as cyclic on its third advance, with period 2 and the cycle starting after 1 advance |
| LifeScenarios.BlockIsStillLife | src/main/java/de/ostfalia/umwinf/ws16/logic/GameOfLife.java:138-169 | the block is a non-empty fixed point of the rule |
| LifeScenarios.BlockBecomesStatic | src/main/java/de/ostfalia/umwinf/ws16/logic/GameOfLife.java:90-106 | an engine showing the block is static after one advance; later advances do nothing |
| LifeScenarios.EmptyFieldStaticAtOnce | src/main/java/de/ostfalia/umwinf/ws16/logic/GameOfLife.java:90-106 | a freshly constructed engine is static after its first advance |
| View.ApplyField | src/main/java/de/ostfalia/umwinf/ws16/view/GolGrid.java:170-209 | installs the engine and takes over its dimensions; the running flag and copy stay |
| View.NewGolGrid | src/main/java/de/ostfalia/umwinf/ws16/view/GolGrid.java:41-43 | fails with "size invalid" exactly when a dimension is not positive; otherwise an idle view of a fresh all-dead engine of that size with keepTrack 100, with no copy |
| View.StartSimulation | src/main/java/de/ostfalia/umwinf/ws16/view/GolGrid.java:67-78 | IllegalStateException when already running, checked before the period; IllegalArgumentException for a period of 0 or less; otherwise running, with the copy equal to the engine |
| View.StopSimulation | src/main/java/de/ostfalia/umwinf/ws16/view/GolGrid.java:124-126 | clears the running flag and changes nothing else |
| View.StopIsIdempotent | src/main/java/de/ostfalia/umwinf/ws16/view/GolGrid.java:124-126 | stopping twice is the same as stopping once |
| View.SetFieldSize | src/main/java/de/ostfalia/umwinf/ws16/view/GolGrid.java:138-146 | IllegalStateException while running, else IllegalArgumentException for a non-positive size, else a fresh all-dead engine with y rows and x columns |
| View.Clear | src/main/java/de/ostfalia/umwinf/ws16/view/GolGrid.java:153-158 | IllegalStateException while running, else a fresh all-dead engine of the same size with keepTrack 100; the copy is kept |
| View.Reset | src/main/java/de/ostfalia/umwinf/ws16/view/GolGrid.java:160-165 | afterwards not running; the engine is the copy when there is one and unchanged otherwise; the copy is kept |
| View.Tick | src/main/java/de/ostfalia/umwinf/ws16/view/GolGrid.java:85-103 | one loop iteration. When not running it does nothing. Otherwise it advances once and reports, in order: extinct iff the new field is all dead; else static iff the engine is static (and then the field did not change); else a cycle report exactly when a cycle is now recognised and the run-local flag was clear. Terminal reports stop the loop and carry the advance count. A cycle report gives the period and count - period, and sets the run-local flag. |
| View.Iterate | src/main/java/de/ostfalia/umwinf/ws16/view/GolGrid.java:85-103 | one pass of the loop body while running: the engine is advanced once; at most one report is appended to those shown, extinct iff the new field is all dead, else static iff the engine is static, else a cycle iff one is recognised while the run-local flag is clear, with its period and count - period; only a cycle report sets the flag; the loop ends exactly after a terminal report, whose count is the engine's |
| View.Simulate | src/main/java/de/ostfalia/umwinf/ws16/view/GolGrid.java:79-104 | the loop: a cycle is reported at most once per run; only the last report can be terminal; a running loop ends by itself exactly after a terminal report; the copy is untouched |
| View.StartRunReset | src/main/java/de/ostfalia/umwinf/ws16/view/GolGrid.java:67-165 | start, any number of loop iterations, stop and reset give back the engine as it was at start |
| Conf.NewConfig | src/main/java/de/ostfalia/umwinf/ws16/conf/Config.java:35-38 | the given dimensions and no alive points |
| Conf.AddPoint | src/main/java/de/ostfalia/umwinf/ws16/conf/Config.java:51-53 | appends one point at the end, keeping the earlier ones and the dimensions |
| Conf.RowPointsExact | src/main/java/de/ostfalia/umwinf/ws16/conf/Config.java:44-47 | a row's scan lists exactly its alive columns, left to right |
| Conf.AlivePointsExact | src/main/java/de/ostfalia/umwinf/ws16/conf/Config.java:42-48 | the exported points are exactly the alive cells, all inside the field, in strict row-major order |
| Conf.SortedPointsAreDistinct | src/main/java/de/ostfalia/umwinf/ws16/conf/Config.java:42-48 | strictly row-major points contain no duplicates |
| Conf.Export | src/main/java/de/ostfalia/umwinf/ws16/conf/Config.java:40-49 | the snapshot of an engine: its column and row counts, and every alive cell listed exactly once, inside the field, in strict row-major order |
| Conf.FromGame | src/main/java/de/ostfalia/umwinf/ws16/conf/Config.java:40-49 | the constructor's nested scan yields x = columns, y = rows and the row-major alive points |
| Controls.Start | src/main/java/de/ostfalia/umwinf/ws16/view/Controller.java:78-86 | when running it only stops; a period of 0 or less shows an alert, then the start throws IllegalArgumentException and the view stays idle; otherwise the simulation starts with the engine copied |
| Controls.StartTwiceStops | src/main/java/de/ostfalia/umwinf/ws16/view/Controller.java:78-86 | pressing start twice from idle stops the simulation it started, with the engine unchanged |
| Controls.TimeChanged | src/main/java/de/ostfalia/umwinf/ws16/view/Controller.java:94-102 | the period becomes the parsed number, or -1 when the text is not a number |
| Controls.UnparsablePeriodBlocksStart | src/main/java/de/ostfalia/umwinf/ws16/view/Controller.java:83-102 | after unparsable text, start shows the alert and throws IllegalArgumentException("Invalid period") |
| Controls.AdvanceOnce | src/main/java/de/ostfalia/umwinf/ws16/view/Controller.java:89-91 | one advance of the displayed engine whether or not a simulation runs: the engine becomes exactly `advance()`'s result (a static engine is unchanged, otherwise count + 1 and the next field); the view is otherwise unchanged |
| Controls.SetAllAlive | src/main/java/de/ostfalia/umwinf/ws16/view/Controller.java:162-163 | after setting the listed points alive, a cell is alive iff it was alive or is listed; a non-empty list starts a fresh epoch |
| Controls.Import | src/main/java/de/ostfalia/umwinf/ws16/view/Controller.java:161-163 | IllegalArgumentException for a non-positive size; ArrayIndexOutOfBoundsException for a point outside the field; otherwise a fresh-epoch engine with y rows and x columns whose alive cells are exactly the listed points |
| Controls.Load | src/main/java/de/ostfalia/umwinf/ws16/view/Controller.java:158-169 | an invalid size shows "File invalid." and changes nothing; an out-of-range point escapes as an exception and changes nothing; otherwise the new engine and its size are installed |
| Controls.ExportImportRoundTrip | src/main/java/de/ostfalia/umwinf/ws16/view/Controller.java:161-163 | importing an exported engine succeeds and reproduces its field in a fresh epoch |
| Controls.ImportExportNormalises | src/main/java/de/ostfalia/umwinf/ws16/conf/Config.java:40-49 | exporting an imported snapshot lists exactly the imported points, once each, in row-major order |
| Controls.ImportDependsOnlyOnPointSet | src/main/java/de/ostfalia/umwinf/ws16/view/Controller.java:162-163 | the order and repetition of listed points do not affect the imported engine |

## Left out

- Rendering: the cell rectangles and their colours, the rectangle size computation (floating point), the click handler that toggles a cell, and the observer callback that recolours a cell. These are JavaFX presentation.
- The background thread: the sleeps, `Platform.runLater` and the `Task` callbacks. The loop is modelled as sequential iterations of `View.Iterate`, each one `View.Tick`, bounded by a fuel argument that stands for the thread being stopped from outside. Cross-thread visibility of the non-volatile `running` flag is not modelled.
- The deferred installation in `applyField`: Java swaps the engine only after the next layout pass. Here installation is immediate.
- Snapshot aliasing: Java's `reset` reinstalls the same `copy` object without cloning it again, so a second reset after more advances may not restore the original field. The copy is modelled as an immutable value, and the body of `clone()` is not part of this model.
- XML marshalling, file choosers and file I/O in save and load. `Controls.Load` starts from the already-read snapshot; the "Loading failed." path for unreadable files is not modelled.
- Number parsing: `Long.parseLong` is a foreign call. Its result is a parameter, `None` for unparsable text. The range of a Java long is not imposed on the parsed value.
- Wall-clock timing, date formatting, status and pattern labels, text fields, `applyFieldSize`, `clearField`, `reset` and `save` in the controller, and the application launcher.
- `java.util.Observable` registration and delivery. Notifications are returned as a sequence of `ObserverArgs` in delivery order.
- Life.SetCell, Life.GetCell: in-range coordinates are a precondition. Out of range, Java throws ArrayIndexOutOfBoundsException; only `Controls.Import` models that exception, because `load` can actually meet it.
- Life.Advance: `countAdvances` is a Java long and its overflow is not modelled.
- Life.AliveNeighbours: the count is a plain sum of eight terms; the Java loop is modelled separately by Life.CountAliveNeighbours.
- View.Simulate: the contract does not relate the final engine to the starting one. Each iteration's `View.Iterate` states that its engine is the advanced one, and `Life.AdvanceTimes` describes repeated advances.
- Life.SetKeepTrack: the capacity is not validated, so the bound proved is `size <= max(keepTrack, 1)`. After the capacity is lowered below the current history size, the history never shrinks: each advance evicts one entry and appends one.
