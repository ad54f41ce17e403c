/**
 The generation buffers of the Game of Life board.

 A board of ROWS x COLS cells is stored the way the game builds it: COLS lines,
 each holding ROWS cells, and the cell at (x, y) is read as g[y][x]. So x ranges
 over [0, ROWS) and y over [0, COLS). Every cell holds 0 (dead) or 1 (alive).
 */
module Grid {

  type Grid = seq<seq<int>>

  /** A cell value: 0 is dead, 1 is alive. */
  predicate IsCell(v: int) {
    v == 0 || v == 1
  }

  /** `g` has COLS lines of ROWS cells each, and every cell is 0 or 1. */
  predicate WellFormed(g: Grid, rows: nat, cols: nat) {
    && |g| == cols
    && (forall y :: 0 <= y < |g| ==> |g[y]| == rows)
    && (forall y, x :: 0 <= y < |g| && 0 <= x < |g[y]| ==> IsCell(g[y][x]))
  }

  predicate AllDead(g: Grid) {
    forall y, x :: 0 <= y < |g| && 0 <= x < |g[y]| ==> g[y][x] == 0
  }

  predicate AnyAlive(g: Grid) {
    exists y, x :: 0 <= y < |g| && 0 <= x < |g[y]| && g[y][x] == 1
  }

  /** On a well-formed board "some cell is alive" and "every cell is dead" are opposites. */
  lemma AliveIffNotAllDead(g: Grid, rows: nat, cols: nat)
    requires WellFormed(g, rows, cols)
    ensures AnyAlive(g) <==> !AllDead(g)
  {
    if !AllDead(g) {
      var y, x :| 0 <= y < |g| && 0 <= x < |g[y]| && g[y][x] != 0;
      assert IsCell(g[y][x]);
    }
  }

  /** A fresh all-dead buffer of COLS lines of ROWS cells (generateField). */
  function GenerateField(rows: nat, cols: nat): (g: Grid)
    ensures WellFormed(g, rows, cols)
    ensures AllDead(g)
    ensures !AnyAlive(g)
  {
    seq(cols, _ => seq(rows, _ => 0))
  }

  /** The board with the single cell (x, y) switched between dead and alive. */
  function Flip(g: Grid, rows: nat, cols: nat, x: int, y: int): (r: Grid)
    requires WellFormed(g, rows, cols)
    requires 0 <= x < rows && 0 <= y < cols
    ensures WellFormed(r, rows, cols)
    ensures r[y][x] == 1 - g[y][x]
    ensures forall y', x' :: 0 <= y' < cols && 0 <= x' < rows && (y' != y || x' != x) ==> r[y'][x'] == g[y'][x']
  {
    g[y := g[y][x := if g[y][x] == 0 then 1 else 0]]
  }

  /** Flipping the same cell twice gives back the board. */
  lemma FlipTwice(g: Grid, rows: nat, cols: nat, x: int, y: int)
    requires WellFormed(g, rows, cols)
    requires 0 <= x < rows && 0 <= y < cols
    ensures Flip(Flip(g, rows, cols, x, y), rows, cols, x, y) == g
  {
    var r := Flip(Flip(g, rows, cols, x, y), rows, cols, x, y);
    forall y' | 0 <= y' < cols
      ensures r[y'] == g[y']
    {
      assert forall x' :: 0 <= x' < rows ==> r[y'][x'] == g[y'][x'];
    }
  }
}
