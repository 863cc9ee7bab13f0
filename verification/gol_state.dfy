/** The two cell states of a Game of Life field and the all-dead field. */
module States {

  /** State of one cell. */
  datatype GolState = Alive | Dead

  /** A field is addressed `field[y][x]`: a sequence of rows. */
  type Field = seq<seq<GolState>>

  /** `f` has exactly `rows` rows, each of length `columns`. */
  predicate IsField(f: Field, rows: int, columns: int) {
    && |f| == rows
    && forall y :: 0 <= y < |f| ==> |f[y]| == columns
  }

  /** The other state: toggling always changes the state. */
  function Toggle(s: GolState): (r: GolState)
    ensures r != s
  {
    if s == Alive then Dead else Alive
  }

  /** Toggling twice gives back the original state. */
  lemma ToggleInvolution(s: GolState)
    ensures Toggle(Toggle(s)) == s
  {
  }

  /** A fresh `rows` x `columns` field, every cell dead. */
  function DeadField(rows: nat, columns: nat): (f: Field)
    ensures IsField(f, rows, columns)
    ensures forall y, x :: 0 <= y < rows && 0 <= x < columns ==> f[y][x] == Dead
  {
    seq(rows, _ => seq(columns, _ => Dead))
  }
}
