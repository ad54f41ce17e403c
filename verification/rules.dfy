/**
 The fixed birth/death rule of the game (BREAKPOINTS and updateCellState's decision).
 */
module Rules {
  import opened Grid

  /** A live cell with more neighbours than this dies. */
  const Overpopulation: int := 3
  /** A live cell with fewer neighbours than this dies. */
  const Underpopulation: int := 2
  /** A dead cell with exactly this many neighbours is born. */
  const Newborn: int := 3

  /**
   The next value of a cell that is `alive` (0 or 1) and has `count` live
   neighbours. The result is the standard B3/S23 rule: alive next exactly
   when born with three neighbours or surviving with two or three.
   */
  function NextCellState(alive: int, count: int): (r: int)
    requires IsCell(alive)
    ensures IsCell(r)
    ensures r == 1 <==> count == 3 || (alive == 1 && count == 2)
  {
    if alive == 1 && (count > Overpopulation || count < Underpopulation) then 0
    else if alive == 0 && count == Newborn then 1
    else alive
  }

  /** The rule table, case by case: dies of crowding or loneliness, is born, or keeps its value. */
  lemma RuleTable(alive: int, count: int)
    requires IsCell(alive)
    ensures alive == 1 && count > 3 ==> NextCellState(alive, count) == 0
    ensures alive == 1 && count < 2 ==> NextCellState(alive, count) == 0
    ensures alive == 0 && count == 3 ==> NextCellState(alive, count) == 1
    ensures !(alive == 1 && (count > 3 || count < 2)) && !(alive == 0 && count == 3) ==>
              NextCellState(alive, count) == alive
  {
  }

  /** The rule cannot tell a count above four from four itself. */
  lemma RuleIgnoresCountsAboveFour(alive: int, count: int)
    requires IsCell(alive)
    ensures NextCellState(alive, if count <= 4 then count else 4) == NextCellState(alive, count)
  {
  }
}
