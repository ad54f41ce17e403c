/**
 One generation (updateCellState and the two phases of drawField).

 Every cell of the next generation is computed from the unmodified current
 buffer into the scratch buffer, the cells whose value changed are collected
 as a diff together with a liveness flag, and only afterwards is the diff
 written into the current buffer.
 */
module Step {
  import opened Grid
  import opened Rules
  import opened Neighbours

  /**
   The next value of cell (x, y) by the rule, with the true toroidal neighbour
   count: the reference every computation of a generation is measured against.
   */
  function NextCell(g: Grid, rows: nat, cols: nat, x: int, y: int): (v: int)
    requires InBoard(g, rows, cols, x, y)
    ensures IsCell(v)
  {
    NextCellState(g[y][x], TorusCount(g, rows, cols, x, y))
  }

  /**
   updateCellState: applies the rule to the early-exit neighbour count. Since
   the rule cannot tell a count above four from four, the result is the
   reference next value of the cell.
   */
  method UpdateCellState(g: Grid, rows: nat, cols: nat, x: int, y: int) returns (v: int)
    requires InBoard(g, rows, cols, x, y)
    ensures v == NextCell(g, rows, cols, x, y)
  {
    var count := GetNeighboursCount(g, rows, cols, x, y);
    RuleIgnoresCountsAboveFour(g[y][x], TorusCount(g, rows, cols, x, y));
    v := NextCellState(g[y][x], count);
  }

  /** The next generation of a whole board, every cell computed from `g` alone. */
  function NextGeneration(g: Grid, rows: nat, cols: nat): (r: Grid)
    requires WellFormed(g, rows, cols) && 1 <= rows && 1 <= cols
    ensures WellFormed(r, rows, cols)
  {
    seq(cols, y requires 0 <= y < cols => seq(rows, x requires 0 <= x < rows => NextCell(g, rows, cols, x, y)))
  }

  /** One entry of the diff: cell (x, y) takes value `state`. */
  datatype Change = Change(x: int, y: int, state: int)

  /** (x, y) is visited before (x', y'): the scan runs over x, and over y within each x. */
  predicate Before(x: int, y: int, x': int, y': int) {
    x < x' || (x == x' && y < y')
  }

  /** The diff names each cell at most once, in scan order. */
  predicate InScanOrder(changes: seq<Change>) {
    forall i, j :: 0 <= i < j < |changes| ==> Before(changes[i].x, changes[i].y, changes[j].x, changes[j].y)
  }

  /**
   `changes` is exactly the difference between `cur` and `next`: each entry is
   a cell whose value changed, paired with its new value, and every changed
   cell has an entry.
   */
  predicate IsDiff(cur: Grid, next: Grid, rows: nat, cols: nat, changes: seq<Change>)
    requires WellFormed(cur, rows, cols) && WellFormed(next, rows, cols)
  {
    && (forall c :: c in changes ==>
          0 <= c.x < rows && 0 <= c.y < cols && c.state == next[c.y][c.x] && c.state != cur[c.y][c.x])
    && (forall y, x :: 0 <= y < cols && 0 <= x < rows && cur[y][x] != next[y][x] ==>
          Change(x, y, next[y][x]) in changes)
  }

  /** An empty diff means the generation did not change. */
  lemma EmptyDiffMeansStill(cur: Grid, next: Grid, rows: nat, cols: nat, changes: seq<Change>)
    requires WellFormed(cur, rows, cols) && WellFormed(next, rows, cols)
    requires IsDiff(cur, next, rows, cols, changes)
    ensures |changes| == 0 <==> next == cur
  {
    if |changes| == 0 {
      forall y | 0 <= y < cols
        ensures next[y] == cur[y]
      {
        assert forall x :: 0 <= x < rows ==> next[y][x] == cur[y][x];
      }
    } else {
      assert changes[0] in changes;
    }
  }

  /** Every cell scanned before (x, y) holds its next value in `next`. */
  predicate CellsScanned(cur: Grid, next: Grid, rows: nat, cols: nat, x: int, y: int)
    requires WellFormed(cur, rows, cols) && WellFormed(next, rows, cols) && 1 <= rows && 1 <= cols
  {
    forall y', x' :: 0 <= y' < cols && 0 <= x' < rows && Before(x', y', x, y) ==>
      next[y'][x'] == NextCell(cur, rows, cols, x', y')
  }

  /** Each entry of `changes` is a cell scanned before (x, y) whose value changed, with its new value. */
  predicate DiffSound(cur: Grid, next: Grid, rows: nat, cols: nat, changes: seq<Change>, x: int, y: int)
    requires WellFormed(cur, rows, cols) && WellFormed(next, rows, cols)
  {
    forall c :: c in changes ==>
      0 <= c.x < rows && 0 <= c.y < cols && Before(c.x, c.y, x, y)
      && c.state == next[c.y][c.x] && c.state != cur[c.y][c.x]
  }

  /** Every cell scanned before (x, y) whose value changed has its entry in `changes`. */
  predicate DiffComplete(cur: Grid, next: Grid, rows: nat, cols: nat, changes: seq<Change>, x: int, y: int)
    requires WellFormed(cur, rows, cols) && WellFormed(next, rows, cols)
  {
    forall y', x' :: 0 <= y' < cols && 0 <= x' < rows && Before(x', y', x, y) && cur[y'][x'] != next[y'][x'] ==>
      Change(x', y', next[y'][x']) in changes
  }

  /** `changes` is the diff of the cells scanned before (x, y), in scan order. */
  predicate DiffScanned(cur: Grid, next: Grid, rows: nat, cols: nat, changes: seq<Change>, x: int, y: int)
    requires WellFormed(cur, rows, cols) && WellFormed(next, rows, cols)
  {
    && DiffSound(cur, next, rows, cols, changes, x, y)
    && DiffComplete(cur, next, rows, cols, changes, x, y)
    && InScanOrder(changes)
  }

  /** `alive` records whether some cell scanned before (x, y) is alive in `next`. */
  predicate LifeScanned(next: Grid, rows: nat, cols: nat, alive: bool, x: int, y: int)
    requires WellFormed(next, rows, cols)
  {
    alive <==> exists y', x' :: 0 <= y' < cols && 0 <= x' < rows && Before(x', y', x, y) && next[y'][x'] == 1
  }

  /** Scanning cell (x, y) extends the computed part of the scratch buffer by that cell. */
  lemma ScanCellValue(cur: Grid, next: Grid, rows: nat, cols: nat, x: int, y: int, v: int)
    requires WellFormed(cur, rows, cols) && WellFormed(next, rows, cols) && 1 <= rows && 1 <= cols
    requires 0 <= x < rows && 0 <= y < cols
    requires CellsScanned(cur, next, rows, cols, x, y)
    requires v == NextCell(cur, rows, cols, x, y)
    ensures WellFormed(next[y := next[y][x := v]], rows, cols)
    ensures CellsScanned(cur, next[y := next[y][x := v]], rows, cols, x, y + 1)
  {
  }

  /** The diff after scanning cell (x, y): the cell is appended exactly when its value changes. */
  function Appended(cur: Grid, changes: seq<Change>, x: int, y: int, v: int): (r: seq<Change>)
    requires 0 <= y < |cur| && 0 <= x < |cur[y]|
  {
    if cur[y][x] != v then changes + [Change(x, y, v)] else changes
  }

  lemma ScanCellSound(cur: Grid, next: Grid, rows: nat, cols: nat, changes: seq<Change>, x: int, y: int, v: int)
    requires WellFormed(cur, rows, cols) && WellFormed(next, rows, cols)
    requires 0 <= x < rows && 0 <= y < cols && IsCell(v)
    requires DiffSound(cur, next, rows, cols, changes, x, y)
    ensures WellFormed(next[y := next[y][x := v]], rows, cols)
    ensures DiffSound(cur, next[y := next[y][x := v]], rows, cols, Appended(cur, changes, x, y, v), x, y + 1)
  {
    var next' := next[y := next[y][x := v]];
    forall c | c in Appended(cur, changes, x, y, v)
      ensures 0 <= c.x < rows && 0 <= c.y < cols && Before(c.x, c.y, x, y + 1)
      ensures c.state == next'[c.y][c.x] && c.state != cur[c.y][c.x]
    {
      if c !in changes {
        assert c == Change(x, y, v);
      }
    }
  }

  lemma ScanCellComplete(cur: Grid, next: Grid, rows: nat, cols: nat, changes: seq<Change>, x: int, y: int, v: int)
    requires WellFormed(cur, rows, cols) && WellFormed(next, rows, cols)
    requires 0 <= x < rows && 0 <= y < cols && IsCell(v)
    requires DiffComplete(cur, next, rows, cols, changes, x, y)
    ensures WellFormed(next[y := next[y][x := v]], rows, cols)
    ensures DiffComplete(cur, next[y := next[y][x := v]], rows, cols, Appended(cur, changes, x, y, v), x, y + 1)
  {
    var next' := next[y := next[y][x := v]];
    var changes' := Appended(cur, changes, x, y, v);
    forall y', x' | 0 <= y' < cols && 0 <= x' < rows && Before(x', y', x, y + 1) && cur[y'][x'] != next'[y'][x']
      ensures Change(x', y', next'[y'][x']) in changes'
    {
      if y' == y && x' == x {
        assert changes'[|changes'| - 1] == Change(x, y, v);
      } else {
        assert next'[y'][x'] == next[y'][x'];
        assert Change(x', y', next[y'][x']) in changes;
      }
    }
  }

  lemma ScanCellOrder(cur: Grid, next: Grid, rows: nat, cols: nat, changes: seq<Change>, x: int, y: int, v: int)
    requires WellFormed(cur, rows, cols) && WellFormed(next, rows, cols)
    requires 0 <= x < rows && 0 <= y < cols
    requires DiffSound(cur, next, rows, cols, changes, x, y)
    requires InScanOrder(changes)
    ensures InScanOrder(Appended(cur, changes, x, y, v))
  {
    var changes' := Appended(cur, changes, x, y, v);
    forall i, j | 0 <= i < j < |changes'|
      ensures Before(changes'[i].x, changes'[i].y, changes'[j].x, changes'[j].y)
    {
      assert changes'[i] == changes[i];
      assert changes[i] in changes;
      if j == |changes| {
        assert changes'[j] == Change(x, y, v);
      } else {
        assert changes'[j] == changes[j];
      }
    }
  }

  /** Scanning cell (x, y) appends it to the diff exactly when its value changes. */
  lemma ScanCellDiff(cur: Grid, next: Grid, rows: nat, cols: nat, changes: seq<Change>, x: int, y: int, v: int)
    requires WellFormed(cur, rows, cols) && WellFormed(next, rows, cols)
    requires 0 <= x < rows && 0 <= y < cols && IsCell(v)
    requires DiffScanned(cur, next, rows, cols, changes, x, y)
    ensures WellFormed(next[y := next[y][x := v]], rows, cols)
    ensures DiffScanned(cur, next[y := next[y][x := v]], rows, cols, Appended(cur, changes, x, y, v), x, y + 1)
  {
    ScanCellSound(cur, next, rows, cols, changes, x, y, v);
    ScanCellComplete(cur, next, rows, cols, changes, x, y, v);
    ScanCellOrder(cur, next, rows, cols, changes, x, y, v);
  }

  /** Scanning cell (x, y) sets the liveness flag when that cell is alive. */
  lemma ScanCellLife(next: Grid, rows: nat, cols: nat, alive: bool, x: int, y: int, v: int)
    requires WellFormed(next, rows, cols)
    requires 0 <= x < rows && 0 <= y < cols && IsCell(v)
    requires LifeScanned(next, rows, cols, alive, x, y)
    ensures WellFormed(next[y := next[y][x := v]], rows, cols)
    ensures LifeScanned(next[y := next[y][x := v]], rows, cols, alive || v == 1, x, y + 1)
  {
    var next' := next[y := next[y][x := v]];
    if alive {
      var y', x' :| 0 <= y' < cols && 0 <= x' < rows && Before(x', y', x, y) && next[y'][x'] == 1;
      assert next'[y'][x'] == 1;
    }
    if v == 1 {
      assert next'[y][x] == 1;
    }
  }

  /** Having scanned a whole column x is having scanned up to the top of column x + 1. */
  lemma ColumnCellsDone(cur: Grid, next: Grid, rows: nat, cols: nat, x: int)
    requires WellFormed(cur, rows, cols) && WellFormed(next, rows, cols) && 1 <= rows && 1 <= cols
    requires CellsScanned(cur, next, rows, cols, x, cols)
    ensures CellsScanned(cur, next, rows, cols, x + 1, 0)
  {
    forall y', x' | 0 <= y' < cols && 0 <= x' < rows && Before(x', y', x + 1, 0)
      ensures next[y'][x'] == NextCell(cur, rows, cols, x', y')
    {
      assert Before(x', y', x, cols);
    }
  }

  lemma ColumnDiffDone(cur: Grid, next: Grid, rows: nat, cols: nat, changes: seq<Change>, x: int)
    requires WellFormed(cur, rows, cols) && WellFormed(next, rows, cols)
    requires DiffScanned(cur, next, rows, cols, changes, x, cols)
    ensures DiffScanned(cur, next, rows, cols, changes, x + 1, 0)
  {
    forall y', x' | 0 <= y' < cols && 0 <= x' < rows && Before(x', y', x + 1, 0) && cur[y'][x'] != next[y'][x']
      ensures Change(x', y', next[y'][x']) in changes
    {
      assert Before(x', y', x, cols);
    }
  }

  lemma ColumnLifeDone(next: Grid, rows: nat, cols: nat, alive: bool, x: int)
    requires WellFormed(next, rows, cols)
    requires LifeScanned(next, rows, cols, alive, x, cols)
    ensures LifeScanned(next, rows, cols, alive, x + 1, 0)
  {
    if alive {
      var y', x' :| 0 <= y' < cols && 0 <= x' < rows && Before(x', y', x, cols) && next[y'][x'] == 1;
      assert Before(x', y', x + 1, 0);
    } else {
      forall y', x' | 0 <= y' < cols && 0 <= x' < rows && Before(x', y', x + 1, 0)
        ensures next[y'][x'] != 1
      {
        assert Before(x', y', x, cols);
      }
    }
  }

  /** Once every column is scanned, the scratch buffer is the next generation. */
  lemma ScanFinishedCells(cur: Grid, next: Grid, rows: nat, cols: nat)
    requires WellFormed(cur, rows, cols) && WellFormed(next, rows, cols) && 1 <= rows && 1 <= cols
    requires CellsScanned(cur, next, rows, cols, rows, 0)
    ensures next == NextGeneration(cur, rows, cols)
  {
    var ng := NextGeneration(cur, rows, cols);
    forall y | 0 <= y < cols
      ensures next[y] == ng[y]
    {
      forall x | 0 <= x < rows
        ensures next[y][x] == ng[y][x]
      {
        assert Before(x, y, rows, 0);
      }
    }
  }

  /** Once every column is scanned, the collected diff is the whole diff. */
  lemma ScanFinishedDiff(cur: Grid, next: Grid, rows: nat, cols: nat, changes: seq<Change>)
    requires WellFormed(cur, rows, cols) && WellFormed(next, rows, cols)
    requires DiffScanned(cur, next, rows, cols, changes, rows, 0)
    ensures IsDiff(cur, next, rows, cols, changes)
  {
    forall y, x | 0 <= y < cols && 0 <= x < rows && cur[y][x] != next[y][x]
      ensures Change(x, y, next[y][x]) in changes
    {
      assert Before(x, y, rows, 0);
    }
  }

  /** Once every column is scanned, the flag tells whether any cell is alive. */
  lemma ScanFinishedLife(next: Grid, rows: nat, cols: nat, alive: bool)
    requires WellFormed(next, rows, cols)
    requires LifeScanned(next, rows, cols, alive, rows, 0)
    ensures alive <==> AnyAlive(next)
  {
    if AnyAlive(next) {
      var y, x :| 0 <= y < |next| && 0 <= x < |next[y]| && next[y][x] == 1;
      assert Before(x, y, rows, 0);
    }
  }

  /** Once every column is scanned, the buffer, diff and flag describe the whole next generation. */
  lemma ScanFinished(cur: Grid, next: Grid, rows: nat, cols: nat, changes: seq<Change>, alive: bool)
    requires WellFormed(cur, rows, cols) && WellFormed(next, rows, cols) && 1 <= rows && 1 <= cols
    requires CellsScanned(cur, next, rows, cols, rows, 0)
    requires DiffScanned(cur, next, rows, cols, changes, rows, 0)
    requires LifeScanned(next, rows, cols, alive, rows, 0)
    ensures next == NextGeneration(cur, rows, cols)
    ensures IsDiff(cur, next, rows, cols, changes)
    ensures InScanOrder(changes)
    ensures alive <==> AnyAlive(next)
  {
    ScanFinishedCells(cur, next, rows, cols);
    ScanFinishedDiff(cur, next, rows, cols, changes);
    ScanFinishedLife(next, rows, cols, alive);
  }

  /**
   One pass of the inner loop of drawField: visits the cells of column x
   from y = 0 up, writing each next value into the scratch buffer, appending
   the cell to the diff when its value changes and setting the liveness flag
   when it is alive.
   */
  method ScanColumn(cur: Grid, next: Grid, rows: nat, cols: nat, changes: seq<Change>, alive: bool, x: int)
    returns (next': Grid, changes': seq<Change>, alive': bool)
    requires WellFormed(cur, rows, cols) && WellFormed(next, rows, cols) && 1 <= rows && 1 <= cols
    requires 0 <= x < rows
    requires CellsScanned(cur, next, rows, cols, x, 0)
    requires DiffScanned(cur, next, rows, cols, changes, x, 0)
    requires LifeScanned(next, rows, cols, alive, x, 0)
    ensures WellFormed(next', rows, cols)
    ensures CellsScanned(cur, next', rows, cols, x + 1, 0)
    ensures DiffScanned(cur, next', rows, cols, changes', x + 1, 0)
    ensures LifeScanned(next', rows, cols, alive', x + 1, 0)
  {
    next', changes', alive' := next, changes, alive;
    var y := 0;
    while y < cols
      invariant 0 <= y <= cols
      invariant WellFormed(next', rows, cols)
      invariant CellsScanned(cur, next', rows, cols, x, y)
      invariant DiffScanned(cur, next', rows, cols, changes', x, y)
      invariant LifeScanned(next', rows, cols, alive', x, y)
    {
      var v := UpdateCellState(cur, rows, cols, x, y);
      ScanCellValue(cur, next', rows, cols, x, y, v);
      ScanCellDiff(cur, next', rows, cols, changes', x, y, v);
      ScanCellLife(next', rows, cols, alive', x, y, v);
      next' := next'[y := next'[y][x := v]];
      if cur[y][x] != v {
        changes' := changes' + [Change(x, y, v)];
      }
      if v == 1 && !alive' {
        alive' := true;
      }
      y := y + 1;
    }
    ColumnCellsDone(cur, next', rows, cols, x);
    ColumnDiffDone(cur, next', rows, cols, changes', x);
    ColumnLifeDone(next', rows, cols, alive', x);
  }

  /**
   The computing phase of drawField: fills the scratch buffer with the next
   generation, reading only `cur`, and collects the diff and whether any cell
   of the new generation is alive (hasSignsOfLife). The old scratch contents
   play no part in the result.
   */
  method ComputeNext(cur: Grid, scratch: Grid, rows: nat, cols: nat)
    returns (next: Grid, changes: seq<Change>, hasSignsOfLife: bool)
    requires WellFormed(cur, rows, cols) && WellFormed(scratch, rows, cols)
    requires 1 <= rows && 1 <= cols
    ensures WellFormed(next, rows, cols)
    ensures next == NextGeneration(cur, rows, cols)
    ensures IsDiff(cur, next, rows, cols, changes)
    ensures InScanOrder(changes)
    ensures hasSignsOfLife <==> AnyAlive(next)
  {
    next := scratch;
    changes := [];
    hasSignsOfLife := false;
    var x := 0;
    while x < rows
      invariant 0 <= x <= rows
      invariant WellFormed(next, rows, cols)
      invariant CellsScanned(cur, next, rows, cols, x, 0)
      invariant DiffScanned(cur, next, rows, cols, changes, x, 0)
      invariant LifeScanned(next, rows, cols, hasSignsOfLife, x, 0)
    {
      next, changes, hasSignsOfLife := ScanColumn(cur, next, rows, cols, changes, hasSignsOfLife, x);
      x := x + 1;
    }
    ScanFinished(cur, next, rows, cols, changes, hasSignsOfLife);
  }

  /** The diff touches cell (x, y). */
  predicate Touches(changes: seq<Change>, x: int, y: int) {
    exists c :: c in changes && c.x == x && c.y == y
  }

  /** The value of cell (x, y) after writing `changes` in order over a cell holding `initial`. */
  function LastWrite(changes: seq<Change>, x: int, y: int, initial: int): (v: int)
  {
    if |changes| == 0 then initial
    else if changes[|changes| - 1].x == x && changes[|changes| - 1].y == y then changes[|changes| - 1].state
    else LastWrite(changes[..|changes| - 1], x, y, initial)
  }

  /**
   When every write to a cell carries the same value `v`, the cell ends up
   holding `v` if it is written at all and its initial value otherwise.
   */
  lemma {:induction false} LastWriteOfUniformWrites(changes: seq<Change>, x: int, y: int, initial: int, v: int)
    requires forall c :: c in changes && c.x == x && c.y == y ==> c.state == v
    ensures LastWrite(changes, x, y, initial) == if Touches(changes, x, y) then v else initial
  {
    if |changes| > 0 {
      var front := changes[..|changes| - 1];
      var last := changes[|changes| - 1];
      assert changes == front + [last];
      assert forall c :: c in front ==> c in changes;
      LastWriteOfUniformWrites(front, x, y, initial, v);
      if last.x == x && last.y == y {
        assert Touches(changes, x, y);
      } else {
        assert Touches(changes, x, y) <==> Touches(front, x, y) by {
          if Touches(changes, x, y) {
            var c :| c in changes && c.x == x && c.y == y;
            assert c in front;
          }
        }
      }
    }
  }

  /**
   The commit phase of drawField: each change is written into the board in
   order. Afterwards each cell holds the value of the last change naming it,
   or its old value when none does.
   */
  method Commit(cur: Grid, rows: nat, cols: nat, changes: seq<Change>) returns (r: Grid)
    requires |cur| == cols && forall y :: 0 <= y < cols ==> |cur[y]| == rows
    requires forall c :: c in changes ==> 0 <= c.x < rows && 0 <= c.y < cols
    ensures |r| == cols && forall y :: 0 <= y < cols ==> |r[y]| == rows
    ensures forall y, x :: 0 <= y < cols && 0 <= x < rows ==> r[y][x] == LastWrite(changes, x, y, cur[y][x])
  {
    r := cur;
    var i := 0;
    while i < |changes|
      invariant 0 <= i <= |changes|
      invariant |r| == cols && forall y :: 0 <= y < cols ==> |r[y]| == rows
      invariant forall y, x :: 0 <= y < cols && 0 <= x < rows ==> r[y][x] == LastWrite(changes[..i], x, y, cur[y][x])
    {
      var c := changes[i];
      assert c in changes;
      assert changes[..i + 1][..i] == changes[..i];
      r := r[c.y := r[c.y][c.x := c.state]];
      i := i + 1;
    }
    assert changes[..|changes|] == changes;
  }

  /** Writing an exact diff over the current generation yields the next generation. */
  lemma CommitOfDiff(cur: Grid, next: Grid, rows: nat, cols: nat, changes: seq<Change>)
    requires WellFormed(cur, rows, cols) && WellFormed(next, rows, cols)
    requires IsDiff(cur, next, rows, cols, changes)
    ensures forall y, x :: 0 <= y < cols && 0 <= x < rows ==> LastWrite(changes, x, y, cur[y][x]) == next[y][x]
  {
    forall y, x | 0 <= y < cols && 0 <= x < rows
      ensures LastWrite(changes, x, y, cur[y][x]) == next[y][x]
    {
      LastWriteOfUniformWrites(changes, x, y, cur[y][x], next[y][x]);
      if cur[y][x] != next[y][x] {
        assert Change(x, y, next[y][x]) in changes;
      }
    }
  }

  /**
   drawField without the drawing and the driver's decision: compute the next
   generation, its diff and liveness flag, then commit the diff. The committed
   board is the next generation.
   */
  method DrawField(cur: Grid, scratch: Grid, rows: nat, cols: nat)
    returns (committed: Grid, next: Grid, changes: seq<Change>, hasSignsOfLife: bool)
    requires WellFormed(cur, rows, cols) && WellFormed(scratch, rows, cols)
    requires 1 <= rows && 1 <= cols
    ensures next == NextGeneration(cur, rows, cols)
    ensures committed == next
    ensures IsDiff(cur, next, rows, cols, changes) && InScanOrder(changes)
    ensures |changes| == 0 <==> next == cur
    ensures hasSignsOfLife <==> AnyAlive(next)
  {
    next, changes, hasSignsOfLife := ComputeNext(cur, scratch, rows, cols);
    committed := Commit(cur, rows, cols, changes);
    CommitOfDiff(cur, next, rows, cols, changes);
    EmptyDiffMeansStill(cur, next, rows, cols, changes);
    forall y | 0 <= y < cols
      ensures committed[y] == next[y]
    {
      assert forall x :: 0 <= x < rows ==> committed[y][x] == next[y][x];
    }
  }
}
