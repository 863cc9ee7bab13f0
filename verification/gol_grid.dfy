/**
 * The simulation driver behind the grid view, as a sequential state
 * machine: guarded start, resize and clear, the per-tick terminal decision
 * of the simulation loop, stop, and reset to the snapshot taken at start.
 * One loop iteration is one `Tick`; the background thread, its sleeps and
 * the rendering of cells are not modelled.
 */
module View {
  import opened Wrappers
  import opened Exceptions
  import opened States
  import opened Life

  /**
   * The displayed engine, the view's own record of its dimensions, the
   * `running` flag and the copy taken at the last start (if any).
   */
  datatype GolGrid = GolGrid(gol: GameOfLife, columns: int, rows: int, running: bool, copy: Option<GameOfLife>)

  /** The pattern messages the loop reports. */
  datatype Pattern =
    | Extinct(after: int)               // "extinct (after %d)"
    | Static(after: int)                // "static (after %d)"
    | Cyclic(period: int, after: int)   // "cyclic (period: %d, after %d)"

  predicate Terminal(p: Pattern) {
    p.Extinct? || p.Static?
  }

  /** The view's dimensions are those of its engine, and every engine it holds is valid. */
  predicate Consistent(s: GolGrid) {
    && Valid(s.gol)
    && s.rows == |s.gol.field|
    && s.columns == |s.gol.field[0]|
    && (s.copy.Some? ==> Valid(s.copy.value))
  }

  /** `applyField(gol)`: installs an engine and takes over its dimensions. */
  function ApplyField(s: GolGrid, g: GameOfLife): (r: GolGrid)
    requires Valid(g)
    ensures r.gol == g && r.running == s.running && r.copy == s.copy
    ensures (s.copy.Some? ==> Valid(s.copy.value)) ==> Consistent(r)
  {
    s.(gol := g, rows := |g.field|, columns := |g.field[0]|)
  }

  /** The constructor `GolGrid(columns, rows)`: an idle view of a fresh all-dead engine. */
  function NewGolGrid(columns: int, rows: int): (r: Result<GolGrid, Exception>)
    ensures r.Failure? <==> columns <= 0 || rows <= 0
    ensures r.Failure? ==> r.error == IllegalArgumentException("size invalid")
    ensures r.Success? ==>
      && Consistent(r.value) && !r.value.running && r.value.copy == None
      && r.value.columns == columns && r.value.rows == rows
      && FreshEpoch(r.value.gol) && AllDead(r.value.gol.field)
      && r.value.gol.keepTrack == DEFAULT_KEEP_TRACK
  {
    if columns <= 0 || rows <= 0 then Failure(IllegalArgumentException("size invalid"))
    else Success(GolGrid(New(rows, columns).value, columns, rows, false, None))
  }

  /**
   * `startSimulation(period)`: refused while running, then refused for a
   * non-positive period; otherwise the engine is copied and the view runs.
   */
  function StartSimulation(s: GolGrid, period: int): (r: Result<GolGrid, Exception>)
    ensures s.running ==> r == Failure(IllegalStateException("Simulation already running"))
    ensures !s.running && period <= 0 ==> r == Failure(IllegalArgumentException("Invalid period"))
    ensures r.Success? <==> !s.running && period > 0
    ensures r.Success? ==>
      && r.value.running && r.value.copy == Some(s.gol)
      && r.value.gol == s.gol && r.value.rows == s.rows && r.value.columns == s.columns
    ensures r.Success? && Consistent(s) ==> Consistent(r.value)
  {
    if s.running then Failure(IllegalStateException("Simulation already running"))
    else if period <= 0 then Failure(IllegalArgumentException("Invalid period"))
    else Success(s.(copy := Some(s.gol), running := true))
  }

  /** `stopSimulation()`: clears the flag whatever its value. */
  function StopSimulation(s: GolGrid): (r: GolGrid)
    ensures !r.running
    ensures r.gol == s.gol && r.copy == s.copy && r.rows == s.rows && r.columns == s.columns
  {
    s.(running := false)
  }

  lemma StopIsIdempotent(s: GolGrid)
    ensures StopSimulation(StopSimulation(s)) == StopSimulation(s)
  {
  }

  /** `setFieldSize(x, y)`: refused while running or for a non-positive size; installs a fresh engine. */
  function SetFieldSize(s: GolGrid, x: int, y: int): (r: Result<GolGrid, Exception>)
    ensures s.running ==> r == Failure(IllegalStateException("simulation is running"))
    ensures !s.running && (x <= 0 || y <= 0) ==> r == Failure(IllegalArgumentException("size invalid"))
    ensures r.Success? <==> !s.running && x > 0 && y > 0
    ensures r.Success? ==>
      && r.value.columns == x && r.value.rows == y && IsField(r.value.gol.field, y, x)
      && AllDead(r.value.gol.field) && FreshEpoch(r.value.gol)
      && r.value.gol.keepTrack == DEFAULT_KEEP_TRACK
      && !r.value.running && r.value.copy == s.copy
    ensures r.Success? && Consistent(s) ==> Consistent(r.value)
  {
    if s.running then Failure(IllegalStateException("simulation is running"))
    else if x <= 0 || y <= 0 then Failure(IllegalArgumentException("size invalid"))
    else Success(s.(columns := x, rows := y, gol := New(y, x).value))
  }

  /**
   * `clear()`: refused while running; otherwise a fresh all-dead engine of
   * the view's size. The engine constructor's own check on the size can only
   * fail for an inconsistent view.
   */
  function Clear(s: GolGrid): (r: Result<GolGrid, Exception>)
    ensures s.running ==> r == Failure(IllegalStateException("simulation is running"))
    ensures !s.running && Consistent(s) ==> r.Success?
    ensures r.Success? ==>
      && IsField(r.value.gol.field, s.rows, s.columns) && AllDead(r.value.gol.field)
      && FreshEpoch(r.value.gol) && r.value.rows == s.rows && r.value.columns == s.columns
      && r.value.gol.keepTrack == DEFAULT_KEEP_TRACK
      && !r.value.running && r.value.copy == s.copy
    ensures r.Success? && Consistent(s) ==> Consistent(r.value)
  {
    if s.running then Failure(IllegalStateException("simulation is running"))
    else
      match New(s.rows, s.columns)
      case Failure(e) => Failure(e)
      case Success(g) => Success(s.(gol := g))
  }

  /** `reset()`: stops a running simulation, then reinstalls the copy taken at the last start. */
  function Reset(s: GolGrid): (r: GolGrid)
    requires s.copy.Some? ==> Valid(s.copy.value)
    ensures Consistent(s) ==> Consistent(r)
    ensures !r.running && r.copy == s.copy
    ensures s.copy == None ==> r.gol == s.gol
    ensures s.copy.Some? ==> r.gol == s.copy.value
  {
    var stopped := if s.running then StopSimulation(s) else s;
    if stopped.copy.Some? then ApplyField(stopped, stopped.copy.value) else stopped
  }

  // ---------------------------------------------------------------------
  // The simulation loop

  /** The loop's state: the view and the run-local `repeating` flag. */
  datatype Run = Run(grid: GolGrid, repeating: bool)

  /** One pass of the loop: the view afterwards, a reported pattern, and whether the loop goes on. */
  datatype TickResult = TickResult(run: Run, report: Option<Pattern>, continues: bool)

  /**
   * One iteration of the loop `while (running) { ... }`: nothing when the
   * flag is down. Otherwise advance, then test the NEW field for extinction,
   * then the static flag, then report a recognised cycle once per run.
   */
  method Tick(run: Run) returns (t: TickResult)
    requires Consistent(run.grid)
    ensures Consistent(t.run.grid)
    ensures t.continues <==> t.run.grid.running
    ensures t.run.grid.copy == run.grid.copy
    ensures !run.grid.running ==> t == TickResult(run, None, false)
    ensures run.grid.running ==> t.run.grid.gol == Advance(run.grid.gol).game
    ensures t.report.Some? && t.report.value.Extinct? <==>
      run.grid.running && AllDead(t.run.grid.gol.field)
    ensures t.report.Some? && t.report.value.Static? <==>
      run.grid.running && !AllDead(t.run.grid.gol.field) && t.run.grid.gol.fieldStatic
    ensures t.report.Some? && Terminal(t.report.value) ==>
      !t.continues && t.report.value.after == t.run.grid.gol.countAdvances
    ensures run.grid.running ==> (t.continues <==> !(t.report.Some? && Terminal(t.report.value)))
    ensures t.report.Some? && t.report.value.Cyclic? ==>
      && !run.repeating && t.run.repeating
      && t.report.value.period == t.run.grid.gol.cyclicPeriod >= 1
      && t.report.value.after == t.run.grid.gol.countAdvances - t.run.grid.gol.cyclicPeriod >= 1
    ensures run.grid.running && !AllDead(t.run.grid.gol.field) && !t.run.grid.gol.fieldStatic ==>
      (t.report.Some? <==> IsRepeating(t.run.grid.gol) && !run.repeating)
    ensures t.run.repeating <==> run.repeating || (t.report.Some? && t.report.value.Cyclic?)
    ensures t.report.Some? && t.report.value.Static? ==> t.run.grid.gol.field == run.grid.gol.field
  {
    if !run.grid.running {
      return TickResult(run, None, false);
    }
    var gol := Advance(run.grid.gol).game;
    var grid := run.grid.(gol := gol);
    if AllDead(gol.field) {
      t := TickResult(Run(grid.(running := false), run.repeating), Some(Extinct(gol.countAdvances)), false);
    } else if gol.fieldStatic {
      if !run.grid.gol.fieldStatic {
        StaticIffFixedPoint(run.grid.gol);
      }
      t := TickResult(Run(grid.(running := false), run.repeating), Some(Static(gol.countAdvances)), false);
    } else if IsRepeating(gol) && !run.repeating {
      t := TickResult(Run(grid, true), Some(Cyclic(gol.cyclicPeriod, gol.countAdvances - gol.cyclicPeriod)), true);
    } else {
      t := TickResult(Run(grid, run.repeating), None, true);
    }
  }

  /** The number of cycle reports among `ps`. */
  function CountCyclic(ps: seq<Pattern>): nat {
    if |ps| == 0 then 0 else CountCyclic(ps[..|ps| - 1]) + (if ps[|ps| - 1].Cyclic? then 1 else 0)
  }

  /** The last pattern of a non-empty list is terminal. */
  predicate EndsTerminal(ps: seq<Pattern>) {
    |ps| > 0 && Terminal(ps[|ps| - 1])
  }

  /**
   * One pass of the loop body while running, with the pattern it reports
   * appended to those shown so far. Only a cycle report sets the run-local
   * flag; the loop ends exactly after a terminal report.
   */
  method Iterate(run: Run, shown: seq<Pattern>) returns (next: Run, shown': seq<Pattern>)
    requires Consistent(run.grid) && run.grid.running
    ensures Consistent(next.grid) && next.grid.copy == run.grid.copy
    ensures |shown| <= |shown'| <= |shown| + 1 && shown'[..|shown|] == shown
    ensures next.repeating <==> run.repeating || (|shown'| > |shown| && shown'[|shown|].Cyclic?)
    ensures |shown'| > |shown| && shown'[|shown|].Cyclic? ==> !run.repeating
    ensures !next.grid.running <==> |shown'| > |shown| && Terminal(shown'[|shown|])
    ensures |shown'| > |shown| && Terminal(shown'[|shown|]) ==> shown'[|shown|].after == next.grid.gol.countAdvances
    ensures next.grid.gol == Advance(run.grid.gol).game
    ensures |shown'| > |shown| && shown'[|shown|].Extinct? <==> AllDead(next.grid.gol.field)
    ensures |shown'| > |shown| && shown'[|shown|].Static? <==>
      !AllDead(next.grid.gol.field) && next.grid.gol.fieldStatic
    ensures |shown'| > |shown| && shown'[|shown|].Cyclic? <==>
      !AllDead(next.grid.gol.field) && !next.grid.gol.fieldStatic && IsRepeating(next.grid.gol) && !run.repeating
    ensures |shown'| > |shown| && shown'[|shown|].Cyclic? ==>
      && shown'[|shown|].period == next.grid.gol.cyclicPeriod
      && shown'[|shown|].after == next.grid.gol.countAdvances - next.grid.gol.cyclicPeriod
  {
    var t := Tick(run);
    next := t.run;
    shown' := if t.report.Some? then shown + [t.report.value] else shown;
    assert shown'[..|shown|] == shown;
  }

  /** No pattern but the last is terminal. */
  predicate NoEarlyTerminal(ps: seq<Pattern>) {
    forall k :: 0 <= k < |ps| - 1 ==> !Terminal(ps[k])
  }

  /** What one iteration does to the list of shown patterns: at most one more, at the end. */
  lemma ExtendReports(before: seq<Pattern>, after: seq<Pattern>)
    requires |before| <= |after| <= |before| + 1 && after[..|before|] == before
    ensures CountCyclic(after) == CountCyclic(before) + (if |after| > |before| && after[|before|].Cyclic? then 1 else 0)
    ensures |after| == |before| ==> after == before
    ensures |after| > |before| ==> (EndsTerminal(after) <==> Terminal(after[|before|]))
    ensures NoEarlyTerminal(before) && !EndsTerminal(before) ==> NoEarlyTerminal(after)
  {
    if |after| > |before| {
      assert after[..|after| - 1] == before;
    } else {
      assert after == before;
    }
  }

  /**
   * The loop `while (running) { ... }` of the simulation thread, for at most
   * `fuel` iterations (the thread may also be stopped from outside between
   * any two). A cycle is reported at most once, exactly when the run-local
   * flag ends up set; only the last report can be terminal, and the loop
   * ends by itself exactly after a terminal report. The snapshot is kept.
   */
  method Simulate(grid: GolGrid, fuel: nat) returns (final: GolGrid, reports: seq<Pattern>)
    requires Consistent(grid)
    ensures Consistent(final) && final.copy == grid.copy
    ensures !grid.running ==> final == grid && reports == []
    ensures CountCyclic(reports) <= 1
    ensures NoEarlyTerminal(reports)
    ensures grid.running ==> (!final.running <==> EndsTerminal(reports))
    ensures EndsTerminal(reports) ==> reports[|reports| - 1].after == final.gol.countAdvances
  {
    var run := Run(grid, false);
    reports := [];
    var ticks := 0;
    while ticks < fuel && run.grid.running
      invariant Consistent(run.grid) && run.grid.copy == grid.copy
      invariant !grid.running ==> run.grid == grid && reports == []
      invariant CountCyclic(reports) == if run.repeating then 1 else 0
      invariant NoEarlyTerminal(reports)
      invariant grid.running ==> (!run.grid.running <==> EndsTerminal(reports))
      invariant EndsTerminal(reports) ==> reports[|reports| - 1].after == run.grid.gol.countAdvances
    {
      ghost var before := reports;
      run, reports := Iterate(run, reports);
      ExtendReports(before, reports);
      ticks := ticks + 1;
    }
    final := run.grid;
  }

  /** Starting, running for a while, stopping and resetting gives back the engine as it was at the start. */
  method StartRunReset(s: GolGrid, period: int, fuel: nat) returns (r: GolGrid)
    requires Consistent(s) && !s.running && period > 0
    ensures !r.running && r.gol == s.gol && r.copy == Some(s.gol)
  {
    var started := StartSimulation(s, period).value;
    var afterRun, _ := Simulate(started, fuel);
    r := Reset(StopSimulation(afterRun));
  }
}
