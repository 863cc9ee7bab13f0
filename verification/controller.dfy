/**
 * The controller actions that drive the core: starting and stopping with
 * the entered time period, parsing that period, advancing by hand, and
 * loading a saved configuration into a fresh engine. Alerts are returned
 * as their messages; an exception that escapes an action is returned too.
 */
module Controls {
  import opened Wrappers
  import opened Exceptions
  import opened States
  import opened Life
  import opened Conf
  import opened View

  /** The initial time period in milliseconds. */
  const HALF_SECOND: int := 500

  const INVALID_PERIOD_ALERT: string := "Enter a valid time period!"
  const FILE_INVALID_ALERT: string := "File invalid."

  /** The view it drives and the time period last entered. */
  datatype Controller = Controller(grid: GolGrid, timePeriod: int)

  /** The controller after an action, the alerts it showed, and an exception that escaped it (if any). */
  datatype Outcome = Outcome(controller: Controller, alerts: seq<string>, thrown: Option<Exception>)

  /**
   * `start()`: a running simulation is stopped. Otherwise a non-positive
   * period is reported, but the start is still attempted and its exception
   * escapes; a positive period starts the simulation.
   */
  function Start(c: Controller): (r: Outcome)
    ensures c.grid.running ==>
      && r.alerts == [] && r.thrown == None
      && !r.controller.grid.running && r.controller.timePeriod == c.timePeriod
      && r.controller.grid.gol == c.grid.gol && r.controller.grid.copy == c.grid.copy
    ensures !c.grid.running && c.timePeriod <= 0 ==>
      r == Outcome(c, [INVALID_PERIOD_ALERT], Some(IllegalArgumentException("Invalid period")))
    ensures !c.grid.running && c.timePeriod > 0 ==>
      && r.alerts == [] && r.thrown == None
      && r.controller.grid.running && r.controller.grid.copy == Some(c.grid.gol)
      && r.controller.grid.gol == c.grid.gol && r.controller.timePeriod == c.timePeriod
    ensures Consistent(c.grid) ==> Consistent(r.controller.grid)
  {
    if c.grid.running then Outcome(c.(grid := StopSimulation(c.grid)), [], None)
    else
      var alerts := if c.timePeriod <= 0 then [INVALID_PERIOD_ALERT] else [];
      match StartSimulation(c.grid, c.timePeriod)
      case Failure(e) => Outcome(c, alerts, Some(e))
      case Success(grid) => Outcome(c.(grid := grid), alerts, None)
  }

  /** Pressing the button twice stops the simulation it started and leaves the engine alone. */
  lemma StartTwiceStops(c: Controller)
    requires !c.grid.running && c.timePeriod > 0
    ensures var once := Start(c).controller;
      && once.grid.running
      && !Start(once).controller.grid.running
      && Start(once).controller.grid.gol == c.grid.gol
  {
  }

  /**
   * `timeChanged()`: `parsed` is the value read from the text field, or
   * `None` when it is not a number; the period becomes that value, or -1.
   */
  function TimeChanged(c: Controller, parsed: Option<int>): (r: Controller)
    ensures r.grid == c.grid
    ensures parsed.Some? ==> r.timePeriod == parsed.value
    ensures parsed.None? ==> r.timePeriod == -1
  {
    c.(timePeriod := if parsed.Some? then parsed.value else -1)
  }

  /** Text that is not a number makes the next start fail, after an alert. */
  lemma UnparsablePeriodBlocksStart(c: Controller)
    requires !c.grid.running
    ensures var r := Start(TimeChanged(c, None));
      && r.alerts == [INVALID_PERIOD_ALERT]
      && r.thrown == Some(IllegalArgumentException("Invalid period"))
      && !r.controller.grid.running
  {
  }

  /** `advanceOnce()`: one advance of the displayed engine, whether or not a simulation is running. */
  function AdvanceOnce(c: Controller): (r: Controller)
    requires Consistent(c.grid)
    ensures Consistent(r.grid)
    ensures r.timePeriod == c.timePeriod && r.grid.running == c.grid.running && r.grid.copy == c.grid.copy
    ensures r.grid.rows == c.grid.rows && r.grid.columns == c.grid.columns
    ensures r.grid.gol == Advance(c.grid.gol).game
    ensures c.grid.gol.fieldStatic ==> r == c
    ensures !c.grid.gol.fieldStatic ==>
      r.grid.gol.countAdvances == c.grid.gol.countAdvances + 1 && r.grid.gol.field == NextField(c.grid.gol.field)
  {
    c.(grid := c.grid.(gol := Advance(c.grid.gol).game))
  }

  // ---------------------------------------------------------------------
  // Loading a configuration

  /** `p` addresses a cell of an `x` by `y` configuration. */
  predicate InRange(c: Config, p: Point) {
    0 <= p.x < c.x && 0 <= p.y < c.y
  }

  /** `setCell(ALIVE, p.x, p.y)` for each point in turn. */
  function SetAllAlive(g: GameOfLife, points: seq<Point>): (r: GameOfLife)
    requires Valid(g)
    requires forall p :: p in points ==> 0 <= p.y < |g.field| && 0 <= p.x < |g.field[0]|
    ensures Valid(r) && r.keepTrack == g.keepTrack
    ensures IsField(r.field, |g.field|, |g.field[0]|)
    ensures forall i, j :: 0 <= i < |g.field| && 0 <= j < |g.field[0]| ==>
      (r.field[i][j] == Alive <==> g.field[i][j] == Alive || Point(j, i) in points)
    ensures FreshEpoch(r) <==> FreshEpoch(g) || points != []
    decreases |points|
  {
    if points == [] then g
    else
      var p := points[0];
      var next := SetCell(g, Alive, p.x, p.y).game;
      assert forall q :: q in points[1..] ==> q in points;
      SetAllAlive(next, points[1..])
  }

  /**
   * The engine `load()` builds: a fresh engine of `y` rows and `x` columns
   * with every listed cell set alive. A non-positive size is rejected by the
   * engine constructor; a point outside the field makes `setCell` index out
   * of its array.
   */
  function Import(c: Config): (r: Result<GameOfLife, Exception>)
    ensures r.Failure? <==> c.x <= 0 || c.y <= 0 || exists p :: p in c.alive && !InRange(c, p)
    ensures c.x <= 0 || c.y <= 0 ==> r == Failure(IllegalArgumentException("size invalid"))
    ensures c.x > 0 && c.y > 0 && r.Failure? ==> r.error == ArrayIndexOutOfBoundsException
    ensures r.Success? ==>
      && Valid(r.value) && FreshEpoch(r.value) && r.value.keepTrack == DEFAULT_KEEP_TRACK
      && IsField(r.value.field, c.y, c.x)
      && forall i, j :: 0 <= i < c.y && 0 <= j < c.x ==> (r.value.field[i][j] == Alive <==> Point(j, i) in c.alive)
  {
    match New(c.y, c.x)
    case Failure(e) => Failure(e)
    case Success(g) =>
      if exists p :: p in c.alive && !InRange(c, p) then Failure(ArrayIndexOutOfBoundsException)
      else Success(SetAllAlive(g, c.alive))
  }

  /**
   * `load()` once the file has been read into `cfg`: an invalid size shows
   * an alert and changes nothing; an out-of-range point escapes as an
   * exception and changes nothing; otherwise the new engine is installed.
   */
  function Load(c: Controller, cfg: Config): (r: Outcome)
    ensures (cfg.x <= 0 || cfg.y <= 0) ==> r == Outcome(c, [FILE_INVALID_ALERT], None)
    ensures Import(cfg).Failure? && cfg.x > 0 && cfg.y > 0 ==>
      r == Outcome(c, [], Some(ArrayIndexOutOfBoundsException))
    ensures Import(cfg).Success? ==>
      && r.alerts == [] && r.thrown == None && r.controller.timePeriod == c.timePeriod
      && r.controller.grid == ApplyField(c.grid, Import(cfg).value)
      && r.controller.grid.columns == cfg.x && r.controller.grid.rows == cfg.y
    ensures Consistent(c.grid) ==> Consistent(r.controller.grid)
  {
    match Import(cfg)
    case Failure(IllegalArgumentException(_)) => Outcome(c, [FILE_INVALID_ALERT], None)
    case Failure(e) => Outcome(c, [], Some(e))
    case Success(g) => Outcome(c.(grid := ApplyField(c.grid, g)), [], None)
  }

  /** Saving an engine and loading the result gives back its field, in a fresh detection epoch. */
  lemma {:induction false} ExportImportRoundTrip(g: GameOfLife)
    requires Valid(g)
    ensures Import(Export(g)).Success?
    ensures Import(Export(g)).value.field == g.field
    ensures FreshEpoch(Import(Export(g)).value)
  {
    var c := Export(g);
    AlivePointsExact(g.field);
    assert forall p :: p in c.alive ==> InRange(c, p);
    var f := Import(c).value.field;
    assert |f| == |g.field|;
    forall i | 0 <= i < |f|
      ensures f[i] == g.field[i]
    {
      assert |f[i]| == |g.field[i]|;
      forall j | 0 <= j < |f[i]|
        ensures f[i][j] == g.field[i][j]
      {
        assert f[i][j] == Alive <==> g.field[i][j] == Alive;
      }
    }
  }

  /**
   * Loading and saving again lists exactly the loaded points, each once,
   * in row-major order.
   */
  lemma {:induction false} ImportExportNormalises(c: Config)
    requires Import(c).Success?
    ensures var e := Export(Import(c).value);
      && e.x == c.x && e.y == c.y
      && (forall p :: p in e.alive <==> p in c.alive)
      && (forall a, b :: 0 <= a < b < |e.alive| ==> Before(e.alive[a], e.alive[b]))
  {
    var g := Import(c).value;
    AlivePointsExact(g.field);
    forall p | p in c.alive
      ensures p in AlivePoints(g.field)
    {
      assert InRange(c, p);
    }
  }

  /** Only which points are listed matters to loading, not their order or repetitions. */
  lemma {:induction false} ImportDependsOnlyOnPointSet(c: Config, d: Config)
    requires c.x == d.x && c.y == d.y
    requires forall p :: p in c.alive <==> p in d.alive
    ensures Import(c) == Import(d)
  {
    if Import(c).Success? {
      assert Import(d).Success?;
      var f, h := Import(c).value.field, Import(d).value.field;
      forall i | 0 <= i < |f|
        ensures f[i] == h[i]
      {
        forall j | 0 <= j < |f[i]|
          ensures f[i][j] == h[i][j]
        {
          assert f[i][j] == Alive <==> h[i][j] == Alive;
        }
      }
      assert f == h;
    }
  }
}
