/**
 * The Game of Life engine: a rows x columns field advanced by the B3/S23
 * rule with hard edges, plus the analysis that recognises static and cyclic
 * configurations through a bounded history of past fields.
 *
 * Observer notifications are returned as a sequence of `ObserverArgs` in
 * the order the engine would deliver them.
 */
module Life {
  import opened Wrappers
  import opened Exceptions
  import opened States

  /** Default number of past generations kept for pattern recognition. */
  const DEFAULT_KEEP_TRACK: int := 100

  /** Value of `cyclicPeriod` while no repetition has been recognised. */
  const UNSET: int := -1

  /** One observer notification: cell (x, y) now holds `state`. */
  datatype ObserverArgs = ObserverArgs(state: GolState, x: int, y: int)

  datatype GameOfLife = GameOfLife(
    field: Field,
    countAdvances: int,
    fieldStatic: bool,
    cyclicPeriod: int,
    history: seq<Field>,  // oldest first
    keepTrack: int)

  /** The engine after an operation, with the notifications it emitted. */
  datatype Update = Update(game: GameOfLife, notifications: seq<ObserverArgs>)

  function Max(a: int, b: int): int {
    if a < b then b else a
  }

  /** A non-empty field whose rows all have the same non-zero length. */
  predicate Rectangular(f: Field) {
    |f| > 0 && |f[0]| > 0 && IsField(f, |f|, |f[0]|)
  }

  function RowCount(g: GameOfLife): nat {
    |g.field|
  }

  function ColumnCount(g: GameOfLife): nat {
    if |g.field| == 0 then 0 else |g.field[0]|
  }

  /**
   * What every engine reachable through the public operations satisfies:
   * fixed dimensions across history, the newest history entry is the current
   * field, and the analysis counters are consistent with the advance count.
   */
  predicate Valid(g: GameOfLife) {
    && Rectangular(g.field)
    && (forall i :: 0 <= i < |g.history| ==> IsField(g.history[i], |g.field|, |g.field[0]|))
    && (|g.history| > 0 ==> g.history[|g.history| - 1] == g.field)
    && |g.history| <= g.countAdvances
    && (g.fieldStatic ==> 0 < g.countAdvances)
    && (g.cyclicPeriod == UNSET || 0 < g.cyclicPeriod < g.countAdvances)
  }

  /** A detection epoch that has just begun. */
  predicate FreshEpoch(g: GameOfLife) {
    && g.countAdvances == 0
    && !g.fieldStatic
    && g.cyclicPeriod == UNSET
    && g.history == []
  }

  /** The history holds at most `keepTrack` entries (at most one if `keepTrack` < 1). */
  predicate WithinCapacity(g: GameOfLife) {
    |g.history| <= Max(g.keepTrack, 1)
  }

  predicate IsRepeating(g: GameOfLife) {
    g.cyclicPeriod != UNSET
  }

  /** The constructor `GameOfLife(rows, columns)`. */
  function New(rows: int, columns: int): (r: Result<GameOfLife, Exception>)
    ensures r.Failure? <==> rows <= 0 || columns <= 0
    ensures r.Failure? ==> r.error == IllegalArgumentException("size invalid")
    ensures r.Success? ==>
      && Valid(r.value) && WithinCapacity(r.value) && FreshEpoch(r.value)
      && IsField(r.value.field, rows, columns) && AllDead(r.value.field)
      && r.value.keepTrack == DEFAULT_KEEP_TRACK
  {
    if rows <= 0 || columns <= 0 then
      Failure(IllegalArgumentException("size invalid"))
    else
      Success(GameOfLife(DeadField(rows, columns), 0, false, UNSET, [], DEFAULT_KEEP_TRACK))
  }

  function GetCell(g: GameOfLife, x: int, y: int): GolState
    requires 0 <= y < |g.field| && 0 <= x < |g.field[y]|
  {
    g.field[y][x]
  }

  /**
   * Writes one cell and begins a new detection epoch; the single
   * notification reports the written cell.
   */
  function SetCell(g: GameOfLife, state: GolState, x: int, y: int): (r: Update)
    requires Valid(g)
    requires 0 <= y < |g.field| && 0 <= x < |g.field[0]|
    ensures Valid(r.game) && FreshEpoch(r.game)
    ensures r.game.keepTrack == g.keepTrack
    ensures IsField(r.game.field, |g.field|, |g.field[0]|)
    ensures r.game.field[y][x] == state
    ensures forall i, j :: 0 <= i < |g.field| && 0 <= j < |g.field[0]| && (i != y || j != x) ==>
      r.game.field[i][j] == g.field[i][j]
    ensures r.notifications == [ObserverArgs(state, x, y)]
  {
    var f := g.field[y := g.field[y][x := state]];
    Update(g.(field := f, countAdvances := 0, fieldStatic := false, cyclicPeriod := UNSET, history := []),
           [ObserverArgs(state, x, y)])
  }

  /** Reading a cell gives back what was last written to it; other cells keep their state. */
  lemma GetCellAfterSetCell(g: GameOfLife, state: GolState, x: int, y: int, i: int, j: int)
    requires Valid(g)
    requires 0 <= y < |g.field| && 0 <= x < |g.field[0]|
    requires 0 <= i < |g.field| && 0 <= j < |g.field[0]|
    ensures GetCell(SetCell(g, state, x, y).game, j, i) == if i == y && j == x then state else GetCell(g, j, i)
  {
  }

  function SetKeepTrack(g: GameOfLife, keepTrack: int): (r: GameOfLife)
    requires Valid(g)
    ensures Valid(r) && r.keepTrack == keepTrack
    ensures r.field == g.field && r.history == g.history && r.countAdvances == g.countAdvances
    ensures r.fieldStatic == g.fieldStatic && r.cyclicPeriod == g.cyclicPeriod
    ensures WithinCapacity(r) <==> |g.history| <= Max(keepTrack, 1)
  {
    g.(keepTrack := keepTrack)
  }

  // ---------------------------------------------------------------------
  // The transition rule

  /** 1 if (col, row) lies inside the field and is alive, else 0. */
  function Occupied(f: Field, row: int, col: int): nat {
    if 0 <= row < |f| && 0 <= col < |f[row]| && f[row][col] == Alive then 1 else 0
  }

  /** Alive cells among the eight Moore neighbours of (x, y); outside cells count as dead. */
  function AliveNeighbours(f: Field, x: int, y: int): (n: nat)
    ensures n <= 8
  {
    Occupied(f, y - 1, x - 1) + Occupied(f, y - 1, x) + Occupied(f, y - 1, x + 1)
    + Occupied(f, y, x - 1) + Occupied(f, y, x + 1)
    + Occupied(f, y + 1, x - 1) + Occupied(f, y + 1, x) + Occupied(f, y + 1, x + 1)
  }

  /** The state of (x, y) in the next generation. */
  function NextState(f: Field, x: int, y: int): (s: GolState)
    requires 0 <= y < |f| && 0 <= x < |f[y]|
    ensures s == Alive <==>
      if f[y][x] == Alive then AliveNeighbours(f, x, y) == 2 || AliveNeighbours(f, x, y) == 3
      else AliveNeighbours(f, x, y) == 3
  {
    var n := AliveNeighbours(f, x, y);
    match f[y][x]
    case Dead => if n == 3 then Alive else Dead
    case Alive =>
      if n == 0 || n == 1 then Dead
      else if n == 2 || n == 3 then Alive
      else Dead
  }

  /** The whole next generation, every cell computed from the same old field. */
  function NextField(f: Field): (next: Field)
    requires Rectangular(f)
    ensures IsField(next, |f|, |f[0]|)
    ensures forall y, x :: 0 <= y < |f| && 0 <= x < |f[0]| ==> next[y][x] == NextState(f, x, y)
  {
    seq(|f|, y requires 0 <= y < |f| =>
      seq(|f[0]|, x requires 0 <= x < |f[0]| => NextState(f, x, y)))
  }

  /** Contribution of (col, row) to the neighbour count of (x, y): the centre itself never counts. */
  function Counted(f: Field, x: int, y: int, row: int, col: int): nat {
    if row == y && col == x then 0 else Occupied(f, row, col)
  }

  /** Contributions of columns x - 1 up to (excluding) `col` in `row`. */
  function RowTally(f: Field, x: int, y: int, row: int, col: int): nat
    requires x - 1 <= col
    decreases col - x
  {
    if col == x - 1 then 0 else RowTally(f, x, y, row, col - 1) + Counted(f, x, y, row, col - 1)
  }

  /** Contributions of rows y - 1 up to (excluding) `row`, three columns each. */
  function BlockTally(f: Field, x: int, y: int, row: int): nat
    requires y - 1 <= row
    decreases row - y
  {
    if row == y - 1 then 0 else BlockTally(f, x, y, row - 1) + RowTally(f, x, y, row - 1, x + 2)
  }

  lemma FullRowTally(f: Field, x: int, y: int, row: int)
    ensures RowTally(f, x, y, row, x + 2) ==
      Counted(f, x, y, row, x - 1) + Counted(f, x, y, row, x) + Counted(f, x, y, row, x + 1)
  {
    assert RowTally(f, x, y, row, x - 1) == 0;
    assert RowTally(f, x, y, row, x) == Counted(f, x, y, row, x - 1);
    assert RowTally(f, x, y, row, x + 1) == RowTally(f, x, y, row, x) + Counted(f, x, y, row, x);
  }

  /** The loop-shaped tally over the whole 3 x 3 block is the neighbour count. */
  lemma BlockTallyIsAliveNeighbours(f: Field, x: int, y: int)
    ensures BlockTally(f, x, y, y + 2) == AliveNeighbours(f, x, y)
  {
    FullRowTally(f, x, y, y - 1);
    FullRowTally(f, x, y, y);
    FullRowTally(f, x, y, y + 1);
    assert BlockTally(f, x, y, y - 1) == 0;
    assert BlockTally(f, x, y, y) == RowTally(f, x, y, y - 1, x + 2);
    assert BlockTally(f, x, y, y + 1) == BlockTally(f, x, y, y) + RowTally(f, x, y, y, x + 2);
  }

  /**
   * The neighbour count as `getNextState` computes it: a double loop over
   * the 3 x 3 block around (x, y), skipping the centre and every position
   * outside the field.
   */
  method CountAliveNeighbours(f: Field, x: int, y: int) returns (n: int)
    requires Rectangular(f)
    requires 0 <= y < |f| && 0 <= x < |f[0]|
    ensures n == AliveNeighbours(f, x, y)
  {
    n := 0;
    var row := y - 1;
    while row <= y + 1
      invariant y - 1 <= row <= y + 2
      invariant n == BlockTally(f, x, y, row)
    {
      var col := x - 1;
      while col <= x + 1
        invariant x - 1 <= col <= x + 2
        invariant n == BlockTally(f, x, y, row) + RowTally(f, x, y, row, col)
      {
        var skip := (row == y && col == x) || row < 0 || col < 0 || row >= |f| || col >= |f[0]|;
        if !skip && f[row][col] == Alive {
          n := n + 1;
        }
        col := col + 1;
      }
      row := row + 1;
    }
    BlockTallyIsAliveNeighbours(f, x, y);
  }

  /** `getNextState(x, y)`: the neighbour count followed by the switch on the current state. */
  method GetNextState(f: Field, x: int, y: int) returns (s: GolState)
    requires Rectangular(f)
    requires 0 <= y < |f| && 0 <= x < |f[0]|
    ensures s == NextState(f, x, y)
  {
    var aliveNeighbours := CountAliveNeighbours(f, x, y);
    match f[y][x]
    case Dead =>
      s := if aliveNeighbours == 3 then Alive else Dead;
    case Alive =>
      if aliveNeighbours == 0 || aliveNeighbours == 1 {
        s := Dead;
      } else if aliveNeighbours == 2 || aliveNeighbours == 3 {
        s := Alive;
      } else {
        s := Dead;
      }
  }

  /** The next state of a cell depends only on the 3 x 3 block around it. */
  lemma NextStateIsLocal(f: Field, f': Field, x: int, y: int)
    requires Rectangular(f) && IsField(f', |f|, |f[0]|)
    requires 0 <= y < |f| && 0 <= x < |f[0]|
    requires forall i, j :: y - 1 <= i <= y + 1 && x - 1 <= j <= x + 1 && 0 <= i < |f| && 0 <= j < |f[0]| ==>
      f'[i][j] == f[i][j]
    ensures NextState(f', x, y) == NextState(f, x, y)
  {
  }

  /** A cell with fewer than two alive neighbours is dead in the next generation. */
  lemma LonelyCellDies(f: Field, x: int, y: int)
    requires 0 <= y < |f| && 0 <= x < |f[y]|
    requires AliveNeighbours(f, x, y) < 2
    ensures NextState(f, x, y) == Dead
  {
  }

  predicate AllDead(f: Field) {
    forall y, x :: 0 <= y < |f| && 0 <= x < |f[y]| ==> f[y][x] == Dead
  }

  function CountAliveInRow(row: seq<GolState>): nat {
    if |row| == 0 then 0
    else CountAliveInRow(row[..|row| - 1]) + (if row[|row| - 1] == Alive then 1 else 0)
  }

  function CountAlive(f: Field): nat {
    if |f| == 0 then 0 else CountAlive(f[..|f| - 1]) + CountAliveInRow(f[|f| - 1])
  }

  lemma {:induction false} RowHasNoneAlive(row: seq<GolState>)
    ensures CountAliveInRow(row) == 0 <==> forall x :: 0 <= x < |row| ==> row[x] == Dead
  {
    if |row| > 0 {
      RowHasNoneAlive(row[..|row| - 1]);
      assert forall x :: 0 <= x < |row| - 1 ==> row[..|row| - 1][x] == row[x];
    }
  }

  /** `allDead()` holds exactly when `countAlive()` is zero. */
  lemma {:induction false} AllDeadIffNoneAlive(f: Field)
    ensures AllDead(f) <==> CountAlive(f) == 0
  {
    if |f| > 0 {
      var prefix := f[..|f| - 1];
      AllDeadIffNoneAlive(prefix);
      RowHasNoneAlive(f[|f| - 1]);
      assert forall y :: 0 <= y < |prefix| ==> prefix[y] == f[y];
    }
  }

  /** No cell is born in an all-dead field, so it is its own successor. */
  lemma AllDeadIsFixedPoint(f: Field)
    requires Rectangular(f) && AllDead(f)
    ensures NextField(f) == f
  {
    var next := NextField(f);
    forall y | 0 <= y < |f|
      ensures next[y] == f[y]
    {
      forall x | 0 <= x < |f[0]|
        ensures next[y][x] == f[y][x]
      {
        assert AliveNeighbours(f, x, y) == 0;
      }
    }
  }

  // ---------------------------------------------------------------------
  // History and pattern recognition

  /**
   * Scans the history oldest first; the entry at index k is `|history| - k`
   * generations back. Yields that distance for the first (oldest) entry
   * equal to `next`, or UNSET when none is.
   */
  function FindPeriod(history: seq<Field>, next: Field): (p: int)
    ensures p == UNSET <==> next !in history
    ensures p != UNSET ==>
      && 1 <= p <= |history|
      && history[|history| - p] == next
      && forall k :: 0 <= k < |history| - p ==> history[k] != next
  {
    if |history| == 0 then UNSET
    else if history[0] == next then |history|
    else FindPeriod(history[1..], next)
  }

  /**
   * Appends `next`, first evicting the oldest entry when the history holds
   * `keepTrack` or more (polling an empty history removes nothing).
   */
  function Record(history: seq<Field>, keepTrack: int, next: Field): (h: seq<Field>)
    ensures |history| >= keepTrack && |history| > 0 ==> |h| == |history|
    ensures !(|history| >= keepTrack && |history| > 0) ==> |h| == |history| + 1
    ensures forall i :: 0 <= i < |h| - 1 ==> h[i] == history[i + |history| + 1 - |h|]
    ensures forall e :: e in h ==> e in history || e == next
    ensures h[|h| - 1] == next
    ensures |history| <= Max(keepTrack, 1) ==> |h| <= Max(keepTrack, 1)
  {
    var kept := if |history| >= keepTrack && |history| > 0 then history[1..] else history;
    assert (kept + [next])[..|kept|] == kept;
    kept + [next]
  }

  // ---------------------------------------------------------------------
  // Advancing

  function RowNotifications(row: seq<GolState>, y: int): (ns: seq<ObserverArgs>)
    ensures |ns| == |row|
    ensures forall x :: 0 <= x < |row| ==> ns[x] == ObserverArgs(row[x], x, y)
  {
    seq(|row|, x requires 0 <= x < |row| => ObserverArgs(row[x], x, y))
  }

  /** One notification per cell, rows from top to bottom, each row left to right. */
  function Notifications(f: Field): seq<ObserverArgs>
  {
    if |f| == 0 then [] else Notifications(f[..|f| - 1]) + RowNotifications(f[|f| - 1], |f| - 1)
  }

  lemma MulMono(a: nat, b: nat, c: nat)
    requires a <= b
    ensures a * c <= b * c
  {
  }

  /**
   * `ns` reports every cell of the `columns`-wide field `f` once, in
   * row-major order: the report for cell (x, y) is the (y * columns + x)-th.
   */
  predicate RowMajor(ns: seq<ObserverArgs>, f: Field, columns: nat)
    requires IsField(f, |f|, columns)
  {
    && |ns| == |f| * columns
    && forall y, x :: 0 <= y < |f| && 0 <= x < columns ==>
         (RowMajorIndex(y, x, |f|, columns); ns[y * columns + x] == ObserverArgs(f[y][x], x, y))
  }

  lemma RowMajorIndex(y: nat, x: nat, rows: nat, columns: nat)
    requires y < rows && x < columns
    ensures y * columns + x < rows * columns
  {
    MulMono(y + 1, rows, columns);
  }

  lemma {:induction false} NotificationsRowMajor(f: Field, columns: nat)
    requires IsField(f, |f|, columns)
    ensures RowMajor(Notifications(f), f, columns)
  {
    if |f| > 0 {
      var n := |f| - 1;
      var prefix := f[..n];
      assert IsField(prefix, n, columns);
      NotificationsRowMajor(prefix, columns);
      var ns := Notifications(f);
      assert ns == Notifications(prefix) + RowNotifications(f[n], n);
      assert n * columns + columns == |f| * columns;
      forall y, x | 0 <= y < |f| && 0 <= x < columns
        ensures ns[y * columns + x] == ObserverArgs(f[y][x], x, y)
      {
        if y < n {
          RowMajorIndex(y, x, n, columns);
          assert prefix[y] == f[y];
        } else {
          assert y * columns + x - n * columns == x;
        }
      }
    }
  }

  /**
   * The engine after one generation of a non-static engine: the next field
   * is built from the old one, the static flag is computed from the OLD
   * field (`allDead()` runs before the field is replaced), a cyclic period
   * is searched only while none is set, and the next field is recorded in
   * the history and becomes current.
   */
  function Generation(g: GameOfLife): (r: GameOfLife)
    requires Valid(g) && !g.fieldStatic
    ensures Valid(r)
    ensures r.keepTrack == g.keepTrack
    ensures r.countAdvances == g.countAdvances + 1
    ensures r.field == NextField(g.field)
    ensures r.fieldStatic <==> r.field == g.field || AllDead(g.field)
    ensures IsRepeating(g) || r.fieldStatic ==> r.cyclicPeriod == g.cyclicPeriod
    ensures !IsRepeating(g) && IsRepeating(r) ==>
      && !r.fieldStatic
      && 1 <= r.cyclicPeriod <= |g.history|
      && g.history[|g.history| - r.cyclicPeriod] == r.field
      && forall k :: 0 <= k < |g.history| - r.cyclicPeriod ==> g.history[k] != r.field
    ensures !r.fieldStatic && !IsRepeating(g) ==> (IsRepeating(r) <==> r.field in g.history)
    ensures r.history == Record(g.history, g.keepTrack, r.field)
  {
    var next := NextField(g.field);
    var isStatic := next == g.field || AllDead(g.field);
    var period := if !isStatic && g.cyclicPeriod == UNSET then FindPeriod(g.history, next) else g.cyclicPeriod;
    var history := Record(g.history, g.keepTrack, next);
    assert forall i :: 0 <= i < |history| ==> IsField(history[i], |g.field|, |g.field[0]|);
    GameOfLife(next, g.countAdvances + 1, isStatic, period, history, g.keepTrack)
  }

  /**
   * `advance()`: a static engine is left untouched and emits nothing;
   * otherwise one generation is computed and every cell of the new field is
   * reported, row by row.
   */
  function Advance(g: GameOfLife): (r: Update)
    requires Valid(g)
    ensures Valid(r.game)
    ensures g.fieldStatic ==> r == Update(g, [])
    ensures !g.fieldStatic ==> r.game == Generation(g)
    ensures WithinCapacity(g) ==> WithinCapacity(r.game)
  {
    if g.fieldStatic then Update(g, [])
    else
      var next := Generation(g);
      Update(next, Notifications(next.field))
  }

  /** A non-static advance reports every cell of the new field once, row by row, each row left to right. */
  lemma AdvanceNotifiesRowMajor(g: GameOfLife)
    requires Valid(g) && !g.fieldStatic
    ensures RowMajor(Advance(g).notifications, Advance(g).game.field, |g.field[0]|)
  {
    NotificationsRowMajor(Advance(g).game.field, |g.field[0]|);
  }

  /**
   * The static flag set by an advance means exactly that the field did not
   * change: the `allDead()` test on the old field adds nothing.
   */
  lemma StaticIffFixedPoint(g: GameOfLife)
    requires Valid(g) && !g.fieldStatic
    ensures Advance(g).game.fieldStatic <==> NextField(g.field) == g.field
  {
    if AllDead(g.field) {
      AllDeadIsFixedPoint(g.field);
    }
  }

  /**
   * A field that dies out during an advance is not yet marked static; the
   * following advance marks it.
   */
  lemma ExtinctionMarkedStaticOneAdvanceLate(g: GameOfLife)
    requires Valid(g) && !g.fieldStatic && !AllDead(g.field)
    requires AllDead(NextField(g.field))
    ensures !Advance(g).game.fieldStatic
    ensures Advance(Advance(g).game).game.fieldStatic
  {
  }

  /** The engine after `n` calls of `advance()`; a static engine stays as it is. */
  function AdvanceTimes(g: GameOfLife, n: nat): (r: GameOfLife)
    requires Valid(g)
    ensures Valid(r) && r.keepTrack == g.keepTrack
    ensures g.countAdvances <= r.countAdvances <= g.countAdvances + n
    ensures g.fieldStatic ==> r == g
    ensures !r.fieldStatic ==> r.countAdvances == g.countAdvances + n
    decreases n
  {
    if n == 0 then g else Advance(AdvanceTimes(g, n - 1)).game
  }
}
