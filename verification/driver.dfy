/**
 The idle/running state machine of a `Game` (init, reset, start, render and
 the click handler setFirstGen).

 The timer chain that re-enters render every 1000/FPS milliseconds is one
 abstract `TimerFired` event; the click listener being attached is the flag
 `clicksEnabled`; the alert at the end of a run is the `Outcome` of a tick.
 */
module Driver {
  import opened Grid
  import opened Step

  /** The fields of a Game the core logic touches. */
  datatype Game = Game(
    rows: nat,
    cols: nat,
    cellSize: nat,
    cur: Grid,
    next: Grid,
    isRunning: bool,
    clicksEnabled: bool)

  /** What one render call did: nothing, a generation, or the end of the run. */
  datatype Outcome =
    | Skipped     // the game was not running
    | Continuing  // a new generation was committed
    | Stabilized  // nothing changed but some cell lives ("reached harmony")
    | Extinct     // nothing changed and no cell lives ("perished")

  datatype TickResult = TickResult(game: Game, outcome: Outcome)

  /** The construction dimensions are usable and both buffers fit them. */
  predicate Valid(s: Game) {
    && 1 <= s.rows && 1 <= s.cols && 1 <= s.cellSize
    && WellFormed(s.cur, s.rows, s.cols)
    && WellFormed(s.next, s.rows, s.cols)
  }

  /** `s'` has the same construction parameters as `s`. */
  predicate SameShape(s: Game, s': Game) {
    s'.rows == s.rows && s'.cols == s.cols && s'.cellSize == s.cellSize
  }

  /** While a run is in progress, the board does not accept clicks. */
  predicate Invariant(s: Game) {
    Valid(s) && (s.isRunning ==> !s.clicksEnabled)
  }

  /** The constructor together with init: two all-dead buffers, idle, clicks accepted. */
  function Init(rows: nat, cols: nat, cellSize: nat): (s: Game)
    requires 1 <= rows && 1 <= cols && 1 <= cellSize
    ensures Invariant(s)
    ensures s.rows == rows && s.cols == cols && s.cellSize == cellSize
    ensures AllDead(s.cur) && AllDead(s.next)
    ensures !s.isRunning && s.clicksEnabled
  {
    Game(rows, cols, cellSize, GenerateField(rows, cols), GenerateField(rows, cols), false, true)
  }

  /** reset: rebuild both buffers at the construction dimensions and go idle, accepting clicks. */
  function Reset(s: Game): (r: Game)
    requires Valid(s)
    ensures Invariant(r) && SameShape(s, r)
    ensures AllDead(r.cur) && AllDead(r.next)
    ensures !r.isRunning && r.clicksEnabled
  {
    Init(s.rows, s.cols, s.cellSize)
  }

  /** Whatever happened before, a reset leads to the same state. */
  lemma ResetForgetsHistory(s: Game, t: Game)
    requires Valid(s) && Valid(t) && SameShape(s, t)
    ensures Reset(s) == Reset(t)
  {
  }

  /**
   render (with drawField): when not running nothing happens. Otherwise the
   next generation is computed; if it differs from the current one it is
   committed and the run goes on. If it does not, the run stops: with some
   cell alive the board is left as it is (and clicks stay disabled), with no
   cell alive the game is reset.
   */
  function Tick(s: Game): (r: TickResult)
    requires Valid(s)
    ensures Valid(r.game) && SameShape(s, r.game)
    ensures !s.isRunning ==> r == TickResult(s, Skipped)
    ensures s.isRunning ==> r.game.cur == NextGeneration(s.cur, s.rows, s.cols)
    ensures s.isRunning ==> (r.outcome == Continuing <==> NextGeneration(s.cur, s.rows, s.cols) != s.cur)
    ensures r.game.isRunning <==> r.outcome == Continuing
    ensures r.outcome == Continuing ==> r.game.clicksEnabled == s.clicksEnabled
    ensures r.outcome == Stabilized ==> r.game.cur == s.cur && AnyAlive(s.cur) && r.game.clicksEnabled == s.clicksEnabled
    ensures r.outcome == Extinct ==> r.game == Reset(s) && AllDead(s.cur)
    ensures s.isRunning && NextGeneration(s.cur, s.rows, s.cols) == s.cur ==>
              r.outcome == (if AnyAlive(s.cur) then Stabilized else Extinct)
  {
    if !s.isRunning then TickResult(s, Skipped)
    else
      var n := NextGeneration(s.cur, s.rows, s.cols);
      if n != s.cur then
        TickResult(s.(cur := n, next := n), Continuing)
      else if AnyAlive(n) then
        TickResult(s.(isRunning := false, next := n), Stabilized)
      else
        AliveIffNotAllDead(n, s.rows, s.cols);
        AllDeadIsFresh(n, s.rows, s.cols);
        TickResult(Reset(s), Extinct)
  }

  /** An all-dead well-formed board is exactly the freshly generated one. */
  lemma AllDeadIsFresh(g: Grid, rows: nat, cols: nat)
    requires WellFormed(g, rows, cols) && AllDead(g)
    ensures g == GenerateField(rows, cols)
  {
    var f := GenerateField(rows, cols);
    forall y | 0 <= y < cols
      ensures g[y] == f[y]
    {
      assert forall x :: 0 <= x < rows ==> g[y][x] == f[y][x];
    }
  }

  /**
   The executable render: runs drawField's two phases on the buffers and
   decides the outcome from the diff and the liveness flag, as the game does.
   On an empty diff the commit loop has nothing to write.
   */
  method Render(s: Game) returns (r: Game, outcome: Outcome)
    requires Valid(s)
    ensures TickResult(r, outcome) == Tick(s)
  {
    if !s.isRunning {
      return s, Skipped;
    }
    var committed, next, changes, hasSignsOfLife := DrawField(s.cur, s.next, s.rows, s.cols);
    if |changes| == 0 {
      r := s.(isRunning := false, next := next);
      if hasSignsOfLife {
        outcome := Stabilized;
      } else {
        r := Reset(r);
        outcome := Extinct;
      }
    } else {
      r := s.(cur := committed, next := next);
      outcome := Continuing;
    }
  }

  /** start: ignored while running; otherwise disables clicks, starts the run and renders at once. */
  function Start(s: Game): (r: TickResult)
    requires Valid(s)
    ensures Valid(r.game) && SameShape(s, r.game)
    ensures s.isRunning ==> r.game == s && r.outcome == Skipped
    ensures !s.isRunning ==> r.outcome != Skipped && r.game.cur == NextGeneration(s.cur, s.rows, s.cols)
    ensures !s.isRunning ==> (r.game.isRunning <==> r.outcome == Continuing)
    ensures !s.isRunning && NextGeneration(s.cur, s.rows, s.cols) != s.cur ==>
              r.outcome == Continuing && r.game.isRunning
    ensures !s.isRunning && NextGeneration(s.cur, s.rows, s.cols) == s.cur ==>
              r.outcome == (if AnyAlive(s.cur) then Stabilized else Extinct)
    ensures !s.isRunning && r.outcome != Extinct ==> !r.game.clicksEnabled
    ensures r.outcome == Extinct ==> r.game == Reset(s) && r.game.clicksEnabled
  {
    if s.isRunning then TickResult(s, Skipped)
    else Tick(s.(isRunning := true, clicksEnabled := false))
  }

  /** The cell a click at a non-negative pixel offset falls in: floor(offset / cellSize). */
  function CellOf(offset: nat, cellSize: nat): (k: nat)
    requires 1 <= cellSize
    ensures k * cellSize <= offset < (k + 1) * cellSize
  {
    offset / cellSize
  }

  /** A click inside the canvas (which is rows * cellSize by cols * cellSize pixels) lands on a cell. */
  lemma ClickLandsOnBoard(offset: nat, cellSize: nat, bound: nat)
    requires 1 <= cellSize && offset < bound * cellSize
    ensures CellOf(offset, cellSize) < bound
  {
  }

  /**
   setFirstGen: a click at pixel offset (offsetX, offsetY) inside the canvas
   flips the cell it falls in, if the click listener is attached.
   */
  function Click(s: Game, offsetX: nat, offsetY: nat): (r: Game)
    requires Valid(s)
    requires offsetX < s.rows * s.cellSize && offsetY < s.cols * s.cellSize
    ensures Valid(r) && SameShape(s, r)
    ensures r.isRunning == s.isRunning && r.clicksEnabled == s.clicksEnabled && r.next == s.next
    ensures !s.clicksEnabled ==> r == s
    ensures s.clicksEnabled ==>
      var x, y := CellOf(offsetX, s.cellSize), CellOf(offsetY, s.cellSize);
      && 0 <= x < s.rows && 0 <= y < s.cols
      && r.cur[y][x] == 1 - s.cur[y][x]
      && forall y', x' :: 0 <= y' < s.cols && 0 <= x' < s.rows && (y' != y || x' != x) ==> r.cur[y'][x'] == s.cur[y'][x']
  {
    if !s.clicksEnabled then s
    else
      ClickLandsOnBoard(offsetX, s.cellSize, s.rows);
      ClickLandsOnBoard(offsetY, s.cellSize, s.cols);
      s.(cur := Flip(s.cur, s.rows, s.cols, CellOf(offsetX, s.cellSize), CellOf(offsetY, s.cellSize)))
  }

  /** Clicking the same spot twice gives back the game. */
  lemma ClickTwice(s: Game, offsetX: nat, offsetY: nat)
    requires Valid(s)
    requires offsetX < s.rows * s.cellSize && offsetY < s.cols * s.cellSize
    ensures Click(Click(s, offsetX, offsetY), offsetX, offsetY) == s
  {
    if s.clicksEnabled {
      ClickLandsOnBoard(offsetX, s.cellSize, s.rows);
      ClickLandsOnBoard(offsetY, s.cellSize, s.cols);
      FlipTwice(s.cur, s.rows, s.cols, CellOf(offsetX, s.cellSize), CellOf(offsetY, s.cellSize));
    }
  }

  /** The inputs the game reacts to: the two buttons, the timer and canvas clicks. */
  datatype Event =
    | StartPressed
    | ResetPressed
    | TimerFired
    | CanvasClicked(offsetX: nat, offsetY: nat)

  /** A click event lies inside a canvas of the given dimensions. */
  predicate OnCanvas(e: Event, rows: nat, cols: nat, cellSize: nat) {
    e.CanvasClicked? ==> e.offsetX < rows * cellSize && e.offsetY < cols * cellSize
  }

  /** The game after one event. */
  function Apply(s: Game, e: Event): (r: Game)
    requires Valid(s) && OnCanvas(e, s.rows, s.cols, s.cellSize)
    ensures Valid(r) && SameShape(s, r)
    ensures Invariant(s) ==> Invariant(r)
  {
    match e
    case StartPressed => Start(s).game
    case ResetPressed => Reset(s)
    case TimerFired => Tick(s).game
    case CanvasClicked(ox, oy) => Click(s, ox, oy)
  }

  /** The game after a sequence of events. */
  function Run(s: Game, events: seq<Event>): (r: Game)
    requires Valid(s)
    requires forall i :: 0 <= i < |events| ==> OnCanvas(events[i], s.rows, s.cols, s.cellSize)
    ensures Valid(r) && SameShape(s, r)
    decreases |events|
  {
    if |events| == 0 then s
    else Run(Apply(s, events[0]), events[1..])
  }

  /**
   From construction on, no sequence of events reaches a state that is
   running while accepting clicks, and the dimensions never change.
   */
  lemma {:induction false} RunKeepsInvariant(s: Game, events: seq<Event>)
    requires Invariant(s)
    requires forall i :: 0 <= i < |events| ==> OnCanvas(events[i], s.rows, s.cols, s.cellSize)
    ensures Invariant(Run(s, events))
    decreases |events|
  {
    if |events| > 0 {
      var s' := Apply(s, events[0]);
      RunKeepsInvariant(s', events[1..]);
    }
  }
}
