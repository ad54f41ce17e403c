/**
 Whole-run properties of the game on particular boards: an empty board
 perishes at the first tick, and a 2x2 block is a still life that ends the
 run in harmony.
 */
module Scenarios {
  import opened Grid
  import opened Neighbours
  import opened Step
  import opened Driver

  /** On an all-dead board every neighbour count is zero, so nothing is born. */
  lemma DeadBoardStaysDead(g: Grid, rows: nat, cols: nat)
    requires WellFormed(g, rows, cols) && 1 <= rows && 1 <= cols
    requires AllDead(g)
    ensures NextGeneration(g, rows, cols) == g
  {
    var n := NextGeneration(g, rows, cols);
    forall y | 0 <= y < cols
      ensures n[y] == g[y]
    {
      forall x | 0 <= x < rows
        ensures n[y][x] == g[y][x]
      {
        assert TorusCount(g, rows, cols, x, y) == 0;
      }
    }
  }

  /** A running game on an all-dead board perishes at its first tick and is reset. */
  lemma EmptyBoardPerishes(s: Game)
    requires Valid(s) && s.isRunning && AllDead(s.cur)
    ensures Tick(s).outcome == Extinct
    ensures Tick(s).game == Init(s.rows, s.cols, s.cellSize)
  {
    DeadBoardStaysDead(s.cur, s.rows, s.cols);
    AliveIffNotAllDead(s.cur, s.rows, s.cols);
  }

  /** The board is 4x4 and holds a 2x2 block of live cells at (1,1), (2,1), (1,2), (2,2). */
  predicate IsBlock(g: Grid) {
    && WellFormed(g, 4, 4)
    && forall y, x :: 0 <= y < 4 && 0 <= x < 4 ==> g[y][x] == if 1 <= x <= 2 && 1 <= y <= 2 then 1 else 0
  }

  /** A cell of the torus around the block, for positions at most one step off the board. */
  lemma BlockCell(g: Grid, x: int, y: int)
    requires IsBlock(g) && -1 <= x <= 4 && -1 <= y <= 4
    ensures TorusCell(g, 4, 4, x, y) == if 1 <= x <= 2 && 1 <= y <= 2 then 1 else 0
  {
    assert Mod(x, 4) == Wrap(x, 4) && Mod(y, 4) == Wrap(y, 4);
  }

  /**
   Three consecutive cells of a line around the block: none on the two empty
   lines (or past them, wrapped), and on the two block lines one at either
   edge and two inside.
   */
  lemma BlockLine(g: Grid, x: int, y: int)
    requires IsBlock(g) && 0 <= x < 4 && -1 <= y <= 4
    ensures TorusLine(g, 4, 4, x, y) == if y == 1 || y == 2 then (if x == 0 || x == 3 then 1 else 2) else 0
  {
    BlockCell(g, x - 1, y);
    BlockCell(g, x, y);
    BlockCell(g, x + 1, y);
  }

  /** The neighbour counts around the block: three for each block cell, at most two for the others. */
  lemma BlockCount(g: Grid, x: int, y: int)
    requires IsBlock(g) && 0 <= x < 4 && 0 <= y < 4
    ensures TorusCount(g, 4, 4, x, y) ==
      if y == 0 || y == 3 then (if x == 0 || x == 3 then 1 else 2)
      else if x == 0 || x == 3 then 2 else 3
  {
    BlockCell(g, x, y);
    BlockLine(g, x, y - 1);
    BlockLine(g, x, y);
    BlockLine(g, x, y + 1);
  }

  /** The block is a still life on the 4x4 torus: its next generation is itself. */
  lemma BlockIsStillLife(g: Grid)
    requires IsBlock(g)
    ensures NextGeneration(g, 4, 4) == g
  {
    var n := NextGeneration(g, 4, 4);
    forall y | 0 <= y < 4
      ensures n[y] == g[y]
    {
      forall x | 0 <= x < 4
        ensures n[y][x] == g[y][x]
      {
        BlockCount(g, x, y);
      }
    }
  }

  /**
   On a 4x4 board with 10-pixel cells, clicking into the four cells of the
   block on a fresh game draws it.
   */
  lemma ClicksDrawBlock()
    ensures IsBlock(Click(Click(Click(Click(Init(4, 4, 10), 15, 15), 25, 15), 15, 25), 25, 25).cur)
  {
    var s0 := Init(4, 4, 10);
    assert CellOf(15, 10) == 1 && CellOf(25, 10) == 2;
    var s1 := Click(s0, 15, 15);
    var s2 := Click(s1, 25, 15);
    var s3 := Click(s2, 15, 25);
    var s4 := Click(s3, 25, 25);
    forall y, x | 0 <= y < 4 && 0 <= x < 4
      ensures s4.cur[y][x] == if 1 <= x <= 2 && 1 <= y <= 2 then 1 else 0
    {
      assert s0.cur[y][x] == 0;
    }
  }

  /**
   Starting an idle game whose board holds the block ends the run at once in
   harmony: the board keeps the block, the game is idle and, since only a
   reset re-attaches the click listener, clicks stay disabled.
   */
  lemma StartOnBlockReachesHarmony(s: Game)
    requires Valid(s) && s.rows == 4 && s.cols == 4 && IsBlock(s.cur) && !s.isRunning
    ensures Start(s).outcome == Stabilized
    ensures Start(s).game.cur == s.cur
    ensures !Start(s).game.isRunning && !Start(s).game.clicksEnabled
  {
    BlockIsStillLife(s.cur);
    assert s.cur[1][1] == 1;
  }

  /** The two together: a block drawn by clicks on a fresh game and then started reaches harmony. */
  lemma BlockRunReachesHarmony()
    ensures var s := Click(Click(Click(Click(Init(4, 4, 10), 15, 15), 25, 15), 15, 25), 25, 25);
            && Start(s).outcome == Stabilized
            && IsBlock(Start(s).game.cur)
            && !Start(s).game.isRunning
            && !Start(s).game.clicksEnabled
  {
    ClicksDrawBlock();
    var s := Click(Click(Click(Click(Init(4, 4, 10), 15, 15), 25, 15), 15, 25), 25, 25);
    StartOnBlockReachesHarmony(s);
  }
}
