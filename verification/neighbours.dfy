/**
 Counting the live neighbours of a cell on the torus (getNeighboursCount).

 The game visits the eight offsets of NEIGHBOURS in order, wraps each
 coordinate by one step (x against ROWS, y against COLS) and stops adding as
 soon as the running count exceeds the overpopulation threshold. The reference
 count `TorusCount` instead sums the whole 3x3 block around the cell with
 Euclidean remainders and takes the cell itself away.
 */
module Neighbours {
  import opened Grid
  import opened Rules

  /** One relative position [dx, dy] of the NEIGHBOURS table. */
  datatype Offset = Offset(dx: int, dy: int)

  /** The eight neighbour offsets, in the order the count visits them. */
  const NEIGHBOURS: seq<Offset> := [
    Offset(-1, -1), Offset(0, -1), Offset(1, -1),
    Offset(-1, 0),                 Offset(1, 0),
    Offset(-1, 1),  Offset(0, 1),  Offset(1, 1)
  ]

  /** (x, y) is a cell of a well-formed, non-empty board. */
  predicate InBoard(g: Grid, rows: nat, cols: nat, x: int, y: int) {
    && WellFormed(g, rows, cols)
    && 1 <= rows && 1 <= cols
    && 0 <= x < rows && 0 <= y < cols
  }

  /** The Euclidean remainder of n by m, by repeated addition or subtraction of m. */
  function Mod(n: int, m: int): (r: int)
    requires 1 <= m
    ensures 0 <= r < m
    decreases if n < 0 then m - n else n
  {
    if n < 0 then Mod(n + m, m)
    else if n >= m then Mod(n - m, m)
    else n
  }

  /**
   The one-step wrap of a coordinate that is at most one outside [0, bound):
   it is the coordinate taken modulo the bound, so -1 goes to the last index
   and bound goes to 0.
   */
  function Wrap(n: int, bound: int): (r: int)
    requires 1 <= bound && -1 <= n <= bound
    ensures 0 <= r < bound
    ensures r == Mod(n, bound)
  {
    if n < 0 then
      assert Mod(n, bound) == Mod(bound - 1, bound);
      bound - 1
    else if n >= bound then
      assert Mod(n, bound) == Mod(0, bound);
      0
    else n
  }

  /** An offset moves each coordinate by at most one step, as every NEIGHBOURS entry does. */
  predicate IsUnit(o: Offset) {
    -1 <= o.dx <= 1 && -1 <= o.dy <= 1
  }

  predicate AllUnit(offsets: seq<Offset>) {
    forall k :: 0 <= k < |offsets| ==> IsUnit(offsets[k])
  }

  /** The value the count reads at offset `o` from (cx, cy), after wrapping each coordinate. */
  function Read(g: Grid, rows: nat, cols: nat, cx: int, cy: int, o: Offset): (v: int)
    requires InBoard(g, rows, cols, cx, cy) && IsUnit(o)
    ensures IsCell(v)
  {
    g[Wrap(cy + o.dy, cols)][Wrap(cx + o.dx, rows)]
  }

  /** The sum of the reads at every offset of `offsets`, without any early exit. */
  function SumOf(g: Grid, rows: nat, cols: nat, cx: int, cy: int, offsets: seq<Offset>): (s: int)
    requires InBoard(g, rows, cols, cx, cy) && AllUnit(offsets)
    ensures 0 <= s <= |offsets|
    decreases |offsets|
  {
    if |offsets| == 0 then 0
    else SumOf(g, rows, cols, cx, cy, offsets[..|offsets| - 1]) + Read(g, rows, cols, cx, cy, offsets[|offsets| - 1])
  }

  /** The cell at any integer position of the torus. */
  function TorusCell(g: Grid, rows: nat, cols: nat, x: int, y: int): (v: int)
    requires WellFormed(g, rows, cols) && 1 <= rows && 1 <= cols
    ensures IsCell(v)
  {
    g[Mod(y, cols)][Mod(x, rows)]
  }

  /** The live cells among x-1, x, x+1 on line y of the torus. */
  function TorusLine(g: Grid, rows: nat, cols: nat, x: int, y: int): (n: int)
    requires WellFormed(g, rows, cols) && 1 <= rows && 1 <= cols
    ensures 0 <= n <= 3
  {
    TorusCell(g, rows, cols, x - 1, y) + TorusCell(g, rows, cols, x, y) + TorusCell(g, rows, cols, x + 1, y)
  }

  /**
   The true toroidal neighbour count: the 3x3 block around (cx, cy) minus the
   cell itself. On a board narrower than three a position of the block can be
   reached twice, and then it is counted twice, as the game does.
   */
  function TorusCount(g: Grid, rows: nat, cols: nat, cx: int, cy: int): (n: int)
    requires WellFormed(g, rows, cols) && 1 <= rows && 1 <= cols
    ensures 0 <= n <= 8
  {
    TorusLine(g, rows, cols, cx, cy - 1) + TorusLine(g, rows, cols, cx, cy) + TorusLine(g, rows, cols, cx, cy + 1)
      - TorusCell(g, rows, cols, cx, cy)
  }

  /** A count capped at four, the first value above the overpopulation threshold. */
  function Capped(n: int): (c: int) {
    if n <= Overpopulation + 1 then n else Overpopulation + 1
  }

  /** Extending a prefix of the offsets by one adds the read at that offset. */
  lemma SumOfPrefixStep(g: Grid, rows: nat, cols: nat, cx: int, cy: int, offsets: seq<Offset>, k: nat)
    requires InBoard(g, rows, cols, cx, cy) && AllUnit(offsets)
    requires k < |offsets|
    ensures AllUnit(offsets[..k]) && AllUnit(offsets[..k + 1])
    ensures SumOf(g, rows, cols, cx, cy, offsets[..k + 1])
         == SumOf(g, rows, cols, cx, cy, offsets[..k]) + Read(g, rows, cols, cx, cy, offsets[k])
  {
    assert offsets[..k + 1][..k] == offsets[..k];
  }

  /** The reads over a prefix of the offsets never exceed the reads over all of them. */
  lemma {:induction false} PrefixSumBounded(g: Grid, rows: nat, cols: nat, cx: int, cy: int, offsets: seq<Offset>, i: nat)
    requires InBoard(g, rows, cols, cx, cy) && AllUnit(offsets)
    requires i <= |offsets|
    ensures AllUnit(offsets[..i])
    ensures SumOf(g, rows, cols, cx, cy, offsets[..i]) <= SumOf(g, rows, cols, cx, cy, offsets)
    decreases |offsets| - i
  {
    if i == |offsets| {
      assert offsets[..i] == offsets;
    } else {
      SumOfPrefixStep(g, rows, cols, cx, cy, offsets, i);
      PrefixSumBounded(g, rows, cols, cx, cy, offsets, i + 1);
    }
  }

  /** The eight unit offsets other than (0, 0), in the order NEIGHBOURS lists them. */
  predicate ListsNeighbourOffsets(o: seq<Offset>) {
    && |o| == 8
    && o[0] == Offset(-1, -1) && o[1] == Offset(0, -1) && o[2] == Offset(1, -1)
    && o[3] == Offset(-1, 0) && o[4] == Offset(1, 0)
    && o[5] == Offset(-1, 1) && o[6] == Offset(0, 1) && o[7] == Offset(1, 1)
  }

  /** Each of the eight reads lands on the torus cell at its offset position. */
  lemma ReadsAreTorusCells(g: Grid, rows: nat, cols: nat, cx: int, cy: int)
    requires InBoard(g, rows, cols, cx, cy)
    ensures Read(g, rows, cols, cx, cy, Offset(-1, -1)) == TorusCell(g, rows, cols, cx - 1, cy - 1)
    ensures Read(g, rows, cols, cx, cy, Offset(0, -1)) == TorusCell(g, rows, cols, cx, cy - 1)
    ensures Read(g, rows, cols, cx, cy, Offset(1, -1)) == TorusCell(g, rows, cols, cx + 1, cy - 1)
    ensures Read(g, rows, cols, cx, cy, Offset(-1, 0)) == TorusCell(g, rows, cols, cx - 1, cy)
    ensures Read(g, rows, cols, cx, cy, Offset(1, 0)) == TorusCell(g, rows, cols, cx + 1, cy)
    ensures Read(g, rows, cols, cx, cy, Offset(-1, 1)) == TorusCell(g, rows, cols, cx - 1, cy + 1)
    ensures Read(g, rows, cols, cx, cy, Offset(0, 1)) == TorusCell(g, rows, cols, cx, cy + 1)
    ensures Read(g, rows, cols, cx, cy, Offset(1, 1)) == TorusCell(g, rows, cols, cx + 1, cy + 1)
  {
  }

  /** The sum over eight unit offsets, written out read by read. */
  lemma {:induction false} SumOfEight(g: Grid, rows: nat, cols: nat, cx: int, cy: int, o: seq<Offset>)
    requires InBoard(g, rows, cols, cx, cy)
    requires |o| == 8 && AllUnit(o)
    ensures SumOf(g, rows, cols, cx, cy, o)
         == Read(g, rows, cols, cx, cy, o[0]) + Read(g, rows, cols, cx, cy, o[1])
          + Read(g, rows, cols, cx, cy, o[2]) + Read(g, rows, cols, cx, cy, o[3])
          + Read(g, rows, cols, cx, cy, o[4]) + Read(g, rows, cols, cx, cy, o[5])
          + Read(g, rows, cols, cx, cy, o[6]) + Read(g, rows, cols, cx, cy, o[7])
  {
    assert |o[..0]| == 0;
    SumOfPrefixStep(g, rows, cols, cx, cy, o, 0);
    SumOfPrefixStep(g, rows, cols, cx, cy, o, 1);
    SumOfPrefixStep(g, rows, cols, cx, cy, o, 2);
    SumOfPrefixStep(g, rows, cols, cx, cy, o, 3);
    SumOfPrefixStep(g, rows, cols, cx, cy, o, 4);
    SumOfPrefixStep(g, rows, cols, cx, cy, o, 5);
    SumOfPrefixStep(g, rows, cols, cx, cy, o, 6);
    SumOfPrefixStep(g, rows, cols, cx, cy, o, 7);
    assert o[..8] == o;
  }

  /** Summing the reads at the eight offsets of the 3x3 block gives the toroidal count. */
  lemma SumOfNeighbourOffsets(g: Grid, rows: nat, cols: nat, cx: int, cy: int, o: seq<Offset>)
    requires InBoard(g, rows, cols, cx, cy)
    requires ListsNeighbourOffsets(o)
    ensures AllUnit(o)
    ensures SumOf(g, rows, cols, cx, cy, o) == TorusCount(g, rows, cols, cx, cy)
  {
    assert AllUnit(o);
    SumOfEight(g, rows, cols, cx, cy, o);
    ReadsAreTorusCells(g, rows, cols, cx, cy);
  }

  /** Reading all eight offsets of NEIGHBOURS gives the toroidal count. */
  lemma SumIsTorusCount(g: Grid, rows: nat, cols: nat, cx: int, cy: int)
    requires InBoard(g, rows, cols, cx, cy)
    ensures AllUnit(NEIGHBOURS)
    ensures SumOf(g, rows, cols, cx, cy, NEIGHBOURS) == TorusCount(g, rows, cols, cx, cy)
  {
    SumOfNeighbourOffsets(g, rows, cols, cx, cy, NEIGHBOURS);
  }

  /**
   The loop of getNeighboursCount over a list of unit offsets: visits them in
   order, wrapping each coordinate by one step, and stops as soon as the count
   exceeds the overpopulation threshold. Every cell it reads is on the board.
   */
  method CountOffsets(g: Grid, rows: nat, cols: nat, cx: int, cy: int, offsets: seq<Offset>) returns (count: int)
    requires InBoard(g, rows, cols, cx, cy) && AllUnit(offsets)
    ensures count == Capped(SumOf(g, rows, cols, cx, cy, offsets))
  {
    count := 0;
    var i := 0;
    while i < |offsets|
      invariant 0 <= i <= |offsets|
      invariant AllUnit(offsets[..i])
      invariant count == SumOf(g, rows, cols, cx, cy, offsets[..i])
      invariant count <= Overpopulation + 1
    {
      if count > Overpopulation {
        break;
      }
      var neighbour := offsets[i];
      var nx := cx + neighbour.dx;
      var ny := cy + neighbour.dy;
      if nx < 0 {
        nx := rows - 1;
      } else if nx >= rows {
        nx := 0;
      }
      if ny < 0 {
        ny := cols - 1;
      } else if ny >= cols {
        ny := 0;
      }
      SumOfPrefixStep(g, rows, cols, cx, cy, offsets, i);
      count := count + g[ny][nx];
      i := i + 1;
    }
    PrefixSumBounded(g, rows, cols, cx, cy, offsets, i);
    if i == |offsets| {
      assert offsets[..i] == offsets;
    }
  }

  /**
   getNeighboursCount: the early-exit count over NEIGHBOURS. The result is the
   true toroidal count whenever that is at most four, and four otherwise.
   */
  method GetNeighboursCount(g: Grid, rows: nat, cols: nat, cx: int, cy: int) returns (count: int)
    requires InBoard(g, rows, cols, cx, cy)
    ensures 0 <= count <= 4
    ensures TorusCount(g, rows, cols, cx, cy) <= 4 ==> count == TorusCount(g, rows, cols, cx, cy)
    ensures TorusCount(g, rows, cols, cx, cy) > 4 ==> count == 4
  {
    SumIsTorusCount(g, rows, cols, cx, cy);
    count := CountOffsets(g, rows, cols, cx, cy, NEIGHBOURS);
  }

  /**
   Toroidal adjacency across the x edge: a live cell in the last column is
   counted by the cell in column 0 of the same line, and a live cell in
   column 0 by the cell in the last column. On a board one cell wide these are
   the same cell, which then counts itself.
   */
  lemma CountWrapsAcrossEdges(g: Grid, rows: nat, cols: nat, y: int)
    requires WellFormed(g, rows, cols) && 1 <= rows && 1 <= cols && 0 <= y < cols
    ensures g[y][rows - 1] == 1 ==> TorusCount(g, rows, cols, 0, y) >= 1
    ensures g[y][0] == 1 ==> TorusCount(g, rows, cols, rows - 1, y) >= 1
  {
    assert Wrap(-1, rows) == rows - 1 && Wrap(rows, rows) == 0 && Wrap(y, cols) == y;
    assert TorusCell(g, rows, cols, -1, y) == g[y][rows - 1];
    assert TorusCell(g, rows, cols, rows, y) == g[y][0];
  }
}
