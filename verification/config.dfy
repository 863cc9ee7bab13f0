/**
 * The in-memory snapshot of a field used for saving and loading: the
 * dimensions and the coordinates of the alive cells. Serialisation is not
 * part of this module.
 */
module Conf {
  import opened States
  import opened Life

  datatype Point = Point(x: int, y: int)

  /** `x` is the number of columns, `y` the number of rows. */
  datatype Config = Config(x: int, y: int, alive: seq<Point>)

  /** `Config(x, y)`: the given dimensions and no alive points. */
  function NewConfig(x: int, y: int): (c: Config)
    ensures c.x == x && c.y == y && c.alive == []
  {
    Config(x, y, [])
  }

  /** `addPoint(x, y)`: appends a point, keeping the earlier ones in place. */
  function AddPoint(c: Config, x: int, y: int): (r: Config)
    ensures r.x == c.x && r.y == c.y
    ensures |r.alive| == |c.alive| + 1
    ensures r.alive[..|c.alive|] == c.alive
    ensures r.alive[|c.alive|] == Point(x, y)
  {
    c.(alive := c.alive + [Point(x, y)])
  }

  /** Row-major order of points: by row, then by column. */
  predicate Before(p: Point, q: Point) {
    p.y < q.y || (p.y == q.y && p.x < q.x)
  }

  /** The alive cells of `row` (row index `i`), left to right. */
  function RowPoints(row: seq<GolState>, i: int): seq<Point> {
    if |row| == 0 then []
    else RowPoints(row[..|row| - 1], i) + (if row[|row| - 1] == Alive then [Point(|row| - 1, i)] else [])
  }

  /** Every alive cell of `f` as `Point(column, row)`, scanning row by row. */
  function AlivePoints(f: Field): seq<Point> {
    if |f| == 0 then [] else AlivePoints(f[..|f| - 1]) + RowPoints(f[|f| - 1], |f| - 1)
  }

  lemma {:induction false} RowPointsExact(row: seq<GolState>, i: int)
    ensures forall p :: p in RowPoints(row, i) ==> p.y == i && 0 <= p.x < |row| && row[p.x] == Alive
    ensures forall j :: 0 <= j < |row| && row[j] == Alive ==> Point(j, i) in RowPoints(row, i)
    ensures forall a, b :: 0 <= a < b < |RowPoints(row, i)| ==> RowPoints(row, i)[a].x < RowPoints(row, i)[b].x
  {
    if |row| > 0 {
      var prefix := row[..|row| - 1];
      RowPointsExact(prefix, i);
      assert forall j :: 0 <= j < |prefix| ==> prefix[j] == row[j];
    }
  }

  /**
   * The exported points are exactly the alive cells, each inside the field,
   * listed in strict row-major order.
   */
  lemma {:induction false} AlivePointsExact(f: Field)
    ensures forall p :: p in AlivePoints(f) ==> 0 <= p.y < |f| && 0 <= p.x < |f[p.y]| && f[p.y][p.x] == Alive
    ensures forall i, j :: 0 <= i < |f| && 0 <= j < |f[i]| && f[i][j] == Alive ==> Point(j, i) in AlivePoints(f)
    ensures forall a, b :: 0 <= a < b < |AlivePoints(f)| ==> Before(AlivePoints(f)[a], AlivePoints(f)[b])
  {
    if |f| > 0 {
      var n := |f| - 1;
      var prefix, last := f[..n], f[n];
      AlivePointsExact(prefix);
      RowPointsExact(last, n);
      var front, back := AlivePoints(prefix), RowPoints(last, n);
      assert AlivePoints(f) == front + back;
      forall p: Point | p in front + back
        ensures 0 <= p.y < |f| && 0 <= p.x < |f[p.y]| && f[p.y][p.x] == Alive
      {
        if p in front {
          assert prefix[p.y] == f[p.y];
        }
      }
      forall i, j | 0 <= i < |f| && 0 <= j < |f[i]| && f[i][j] == Alive
        ensures Point(j, i) in front + back
      {
        if i < n {
          assert prefix[i] == f[i];
        }
      }
      ConcatInRowOrder(front, back, n);
    }
  }

  /** Points of earlier rows, in order, followed by points of row `n`, in column order, are in row-major order. */
  lemma ConcatInRowOrder(front: seq<Point>, back: seq<Point>, n: int)
    requires forall p :: p in front ==> p.y < n
    requires forall p :: p in back ==> p.y == n
    requires forall a, b :: 0 <= a < b < |front| ==> Before(front[a], front[b])
    requires forall a, b :: 0 <= a < b < |back| ==> back[a].x < back[b].x
    ensures forall a, b :: 0 <= a < b < |front + back| ==> Before((front + back)[a], (front + back)[b])
  {
    var all := front + back;
    forall a, b | 0 <= a < b < |all|
      ensures Before(all[a], all[b])
    {
      if b < |front| {
        assert all[a] == front[a] && all[b] == front[b];
      } else if a >= |front| {
        assert all[a] == back[a - |front|] && all[b] == back[b - |front|];
      } else {
        assert all[a] == front[a] && all[b] == back[b - |front|];
        assert all[a] in front && all[b] in back;
      }
    }
  }

  /** Row-major order is strict, so no point is listed twice. */
  lemma SortedPointsAreDistinct(ps: seq<Point>)
    requires forall a, b :: 0 <= a < b < |ps| ==> Before(ps[a], ps[b])
    ensures forall a, b :: 0 <= a < b < |ps| ==> ps[a] != ps[b]
  {
  }

  /**
   * The snapshot `Config(gameOfLife)` as a value: the engine's dimensions and
   * each alive cell once, in row-major order.
   */
  function Export(g: GameOfLife): (c: Config)
    ensures c.x == ColumnCount(g) && c.y == RowCount(g)
    ensures forall p :: p in c.alive ==> 0 <= p.y < |g.field| && 0 <= p.x < |g.field[p.y]| && g.field[p.y][p.x] == Alive
    ensures forall i, j :: 0 <= i < |g.field| && 0 <= j < |g.field[i]| && g.field[i][j] == Alive ==> Point(j, i) in c.alive
    ensures forall a, b :: 0 <= a < b < |c.alive| ==> Before(c.alive[a], c.alive[b])
  {
    AlivePointsExact(g.field);
    Config(ColumnCount(g), RowCount(g), AlivePoints(g.field))
  }

  /**
   * `Config(gameOfLife)` as the constructor computes it: the dimensions,
   * then one `addPoint(j, i)` per alive cell found by a row-by-row scan.
   */
  method FromGame(g: GameOfLife) returns (c: Config)
    requires Valid(g)
    ensures c == Export(g)
    ensures c.x == |g.field[0]| && c.y == |g.field|
  {
    var field := g.field;
    c := NewConfig(ColumnCount(g), RowCount(g));
    var i := 0;
    while i < |field|
      invariant 0 <= i <= |field|
      invariant c == Config(ColumnCount(g), RowCount(g), AlivePoints(field[..i]))
    {
      var row := field[i];
      var j := 0;
      while j < |row|
        invariant 0 <= j <= |row|
        invariant c == Config(ColumnCount(g), RowCount(g), AlivePoints(field[..i]) + RowPoints(row[..j], i))
      {
        ghost var before := RowPoints(row[..j], i);
        assert row[..j + 1][..j] == row[..j];
        assert RowPoints(row[..j + 1], i) == before + (if row[j] == Alive then [Point(j, i)] else []);
        if row[j] == Alive {
          c := AddPoint(c, j, i);
        }
        j := j + 1;
      }
      assert row[..j] == row;
      assert field[..i + 1][..i] == field[..i];
      assert AlivePoints(field[..i + 1]) == AlivePoints(field[..i]) + RowPoints(row, i);
      i := i + 1;
    }
    assert field[..i] == field;
  }
}
