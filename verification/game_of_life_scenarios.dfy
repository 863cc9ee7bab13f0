/**
 * Concrete runs of the engine: the blinker oscillates with period 2 and is
 * recognised as cyclic on its third advance, the block is a still life, and
 * an empty field is marked static at once.
 */
module LifeScenarios {
  import opened Wrappers
  import opened States
  import opened Life

  /** A 5 x 5 field whose alive cells are those for which `alive(x, y)` holds. */
  function Pattern5(alive: (int, int) -> bool): (f: Field)
    ensures Rectangular(f) && IsField(f, 5, 5)
    ensures forall y, x :: 0 <= y < 5 && 0 <= x < 5 ==> (f[y][x] == Alive <==> alive(x, y))
  {
    seq(5, y => seq(5, x => if alive(x, y) then Alive else Dead))
  }

  /** The blinker standing upright in column 2. */
  function Vertical(): Field {
    Pattern5((x, y) => x == 2 && 1 <= y <= 3)
  }

  /** The blinker lying in row 2. */
  function Horizontal(): Field {
    Pattern5((x, y) => y == 2 && 1 <= x <= 3)
  }

  /** Every alive cell of a pattern is one `alive` names; everything outside the field is dead. */
  lemma OccupiedPattern5(alive: (int, int) -> bool, row: int, col: int)
    ensures Occupied(Pattern5(alive), row, col) == if 0 <= row < 5 && 0 <= col < 5 && alive(col, row) then 1 else 0
  {
  }

  /** The next state of one cell of the upright blinker. */
  lemma VerticalCell(x: int, y: int)
    requires 0 <= y < 5 && 0 <= x < 5
    ensures NextState(Vertical(), x, y) == Horizontal()[y][x]
  {
    var f := Vertical();
    forall row, col
      ensures Occupied(f, row, col) == if 0 <= row < 5 && col == 2 && 1 <= row <= 3 then 1 else 0
    {
      OccupiedPattern5((x, y) => x == 2 && 1 <= y <= 3, row, col);
    }
  }

  /** The next state of one cell of the lying blinker. */
  lemma HorizontalCell(x: int, y: int)
    requires 0 <= y < 5 && 0 <= x < 5
    ensures NextState(Horizontal(), x, y) == Vertical()[y][x]
  {
    var f := Horizontal();
    forall row, col
      ensures Occupied(f, row, col) == if 0 <= col < 5 && row == 2 && 1 <= col <= 3 then 1 else 0
    {
      OccupiedPattern5((x, y) => y == 2 && 1 <= x <= 3, row, col);
    }
  }

  lemma VerticalBecomesHorizontal()
    ensures NextField(Vertical()) == Horizontal()
  {
    var n, h := NextField(Vertical()), Horizontal();
    forall y | 0 <= y < 5
      ensures n[y] == h[y]
    {
      forall x | 0 <= x < 5
        ensures n[y][x] == h[y][x]
      {
        VerticalCell(x, y);
      }
    }
  }

  lemma HorizontalBecomesVertical()
    ensures NextField(Horizontal()) == Vertical()
  {
    var n, v := NextField(Horizontal()), Vertical();
    forall y | 0 <= y < 5
      ensures n[y] == v[y]
    {
      forall x | 0 <= x < 5
        ensures n[y][x] == v[y][x]
      {
        HorizontalCell(x, y);
      }
    }
  }

  lemma BlinkerPhasesDiffer()
    ensures Vertical() != Horizontal()
    ensures !AllDead(Vertical()) && !AllDead(Horizontal())
  {
    assert Vertical()[1][2] == Alive && Horizontal()[1][2] == Dead;
    assert Horizontal()[2][1] == Alive;
  }

  /** Drawing the upright blinker cell by cell on a fresh 5 x 5 engine. */
  function DrawBlinker(): (g: GameOfLife)
    ensures Valid(g) && FreshEpoch(g) && g.field == Vertical()
  {
    var g0 := New(5, 5).value;
    var g1 := SetCell(g0, Alive, 2, 1).game;
    var g2 := SetCell(g1, Alive, 2, 2).game;
    var g3 := SetCell(g2, Alive, 2, 3).game;
    assert forall y :: 0 <= y < 5 ==> g3.field[y] == Vertical()[y];
    g3
  }

  /** One advance of either blinker phase gives the other phase. */
  lemma BlinkerStep(g: GameOfLife)
    requires Valid(g) && !g.fieldStatic && (g.field == Vertical() || g.field == Horizontal())
    ensures var r := Advance(g).game;
      && r.field == (if g.field == Vertical() then Horizontal() else Vertical())
      && !r.fieldStatic
  {
    var r := Advance(g).game;
    assert r.field == NextField(g.field);
    BlinkerPhasesDiffer();
    if g.field == Vertical() {
      VerticalBecomesHorizontal();
    } else {
      HorizontalBecomesVertical();
    }
    assert r.field != g.field && !AllDead(g.field);
  }

  /** The engine after the first advance of the drawn blinker: one generation recorded, no cycle yet. */
  lemma FirstAdvance()
    ensures Advance(DrawBlinker()).game == GameOfLife(Horizontal(), 1, false, UNSET, [Horizontal()], DEFAULT_KEEP_TRACK)
  {
    BlinkerStep(DrawBlinker());
  }

  /** The second advance brings back the drawn field, but only the later phase is in the history. */
  lemma SecondAdvance()
    ensures var g := GameOfLife(Horizontal(), 1, false, UNSET, [Horizontal()], DEFAULT_KEEP_TRACK);
      Advance(g).game == GameOfLife(Vertical(), 2, false, UNSET, [Horizontal(), Vertical()], DEFAULT_KEEP_TRACK)
  {
    var g := GameOfLife(Horizontal(), 1, false, UNSET, [Horizontal()], DEFAULT_KEEP_TRACK);
    BlinkerPhasesDiffer();
    assert Vertical() !in g.history;
    assert Record(g.history, g.keepTrack, Vertical()) == [Horizontal(), Vertical()];
    BlinkerStep(g);
  }

  /** The third advance finds its field two entries back: period 2. */
  lemma ThirdAdvance()
    ensures var g := GameOfLife(Vertical(), 2, false, UNSET, [Horizontal(), Vertical()], DEFAULT_KEEP_TRACK);
      Advance(g).game == GameOfLife(Horizontal(), 3, false, 2, [Horizontal(), Vertical(), Horizontal()], DEFAULT_KEEP_TRACK)
  {
    var g := GameOfLife(Vertical(), 2, false, UNSET, [Horizontal(), Vertical()], DEFAULT_KEEP_TRACK);
    BlinkerPhasesDiffer();
    BlinkerStep(g);
    assert g.history[0] == Horizontal();
  }

  /**
   * The blinker is not static; the second advance brings back the first
   * field, but it is the third advance that finds its own field in the
   * history and records period 2, the cycle having started after 1 advance.
   */
  lemma BlinkerIsCyclicFromThirdAdvance()
    ensures var a1 := Advance(DrawBlinker()).game;
      var a2 := Advance(a1).game;
      var a3 := Advance(a2).game;
      && a1.field == Horizontal() && !a1.fieldStatic && !IsRepeating(a1)
      && a2.field == Vertical() && !a2.fieldStatic && !IsRepeating(a2)
      && a3.field == Horizontal() && !a3.fieldStatic
      && a3.cyclicPeriod == 2 && a3.countAdvances == 3 && a3.countAdvances - a3.cyclicPeriod == 1
  {
    FirstAdvance();
    SecondAdvance();
    ThirdAdvance();
  }

  /** The 2 x 2 block at rows and columns 1 and 2. */
  function Block(): Field {
    Pattern5((x, y) => 1 <= x <= 2 && 1 <= y <= 2)
  }

  lemma BlockCell(x: int, y: int)
    requires 0 <= y < 5 && 0 <= x < 5
    ensures NextState(Block(), x, y) == Block()[y][x]
  {
    var f := Block();
    forall row, col
      ensures Occupied(f, row, col) == if 1 <= col <= 2 && 1 <= row <= 2 then 1 else 0
    {
      OccupiedPattern5((x, y) => 1 <= x <= 2 && 1 <= y <= 2, row, col);
    }
  }

  lemma BlockIsNotEmpty()
    ensures !AllDead(Block())
  {
    assert Block()[1][1] == Alive;
  }

  /** The block is a still life: a fixed point of the rule that is not empty. */
  lemma BlockIsStillLife()
    ensures NextField(Block()) == Block()
    ensures !AllDead(Block())
  {
    BlockIsNotEmpty();
    var n, b := NextField(Block()), Block();
    forall y | 0 <= y < 5
      ensures n[y] == b[y]
    {
      forall x | 0 <= x < 5
        ensures n[y][x] == b[y][x]
      {
        BlockCell(x, y);
      }
    }
  }

  /** An engine showing the block is marked static by its next advance, and stays put from then on. */
  lemma BlockBecomesStatic(g: GameOfLife)
    requires Valid(g) && !g.fieldStatic && g.field == Block()
    ensures Advance(g).game.fieldStatic && Advance(g).game.field == Block()
    ensures Advance(Advance(g).game) == Update(Advance(g).game, [])
  {
    BlockIsStillLife();
  }

  /** A freshly constructed engine of any size is marked static by its first advance, without notifications. */
  lemma EmptyFieldStaticAtOnce(rows: int, columns: int)
    requires rows > 0 && columns > 0
    ensures var a := Advance(New(rows, columns).value);
      && a.game.fieldStatic && a.game.countAdvances == 1 && AllDead(a.game.field)
  {
    AllDeadIsFixedPoint(New(rows, columns).value.field);
  }
}
