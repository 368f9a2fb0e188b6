/** The game context the page reads: whether the game is over, with what
    outcome, and the page's cell totals. It changes only through
    initializeGame and checkIfGameIsOver. */
module GameContext {

  /** The gameStatus strings "playing", "lost" and "won". */
  datatype Status = Playing | Lost | Won

  datatype ContextState = ContextState(gameOver: bool, gameStatus: Status, revealedCells: int, totalNonBombCells: int)

  /** The state the provider starts with. */
  function InitialState(): (s: ContextState)
    ensures !s.gameOver && s.gameStatus == Playing
    ensures s.revealedCells == 0 && s.totalNonBombCells == 0
  {
    ContextState(false, Playing, 0, 0)
  }

  /** initializeGame: a game in play, no cell revealed, rows * cols - mines
      cells to reveal. */
  function Initialized(rows: int, cols: int, mines: int): (s: ContextState)
    ensures !s.gameOver && s.gameStatus == Playing && s.revealedCells == 0
    ensures s.totalNonBombCells == rows * cols - mines
  {
    ContextState(false, Playing, 0, rows * cols - mines)
  }

  /** checkIfGameIsOver(isBomb, isWin): nothing once the game is over; else
      a bomb loses, a win wins, and with neither nothing changes. The bomb is
      looked at first. */
  function CheckOutcome(s: ContextState, isBomb: bool, isWin: bool): (t: ContextState)
    ensures t.revealedCells == s.revealedCells && t.totalNonBombCells == s.totalNonBombCells
    ensures s.gameOver ==> t == s
    ensures !s.gameOver && isBomb ==> t.gameOver && t.gameStatus == Lost
    ensures !s.gameOver && !isBomb && isWin ==> t.gameOver && t.gameStatus == Won
    ensures !isBomb && !isWin ==> t == s
  {
    if s.gameOver then s
    else if isBomb then s.(gameOver := true, gameStatus := Lost)
    else if isWin then s.(gameOver := true, gameStatus := Won)
    else s
  }

  /** gameOver is set exactly when the status is no longer "playing". */
  ghost predicate Consistent(s: ContextState)
  {
    s.gameOver <==> s.gameStatus != Playing
  }

  lemma InitialConsistent(rows: int, cols: int, mines: int)
    ensures Consistent(InitialState()) && Consistent(Initialized(rows, cols, mines))
  {
  }

  lemma CheckKeepsConsistent(s: ContextState, isBomb: bool, isWin: bool)
    requires Consistent(s)
    ensures Consistent(CheckOutcome(s, isBomb, isWin))
  {
  }

  /** One call of checkIfGameIsOver: (isBomb, isWin). */
  datatype Check = Check(isBomb: bool, isWin: bool)

  /** A run of calls of checkIfGameIsOver. */
  function RunChecks(s: ContextState, checks: seq<Check>): (t: ContextState)
    ensures t.revealedCells == s.revealedCells && t.totalNonBombCells == s.totalNonBombCells
    decreases |checks|
  {
    if checks == [] then s
    else RunChecks(CheckOutcome(s, checks[0].isBomb, checks[0].isWin), checks[1..])
  }

  /** Whether a call decides the game: a bomb or a win. */
  predicate Decisive(c: Check)
  {
    c.isBomb || c.isWin
  }

  /** The status a deciding call sets: the bomb first. */
  function Outcome(c: Check): Status
  {
    if c.isBomb then Lost else Won
  }

  datatype Option<T> = None | Some(value: T)

  /** The outcome of the first deciding call of a run, if any. */
  function FirstOutcome(checks: seq<Check>): (o: Option<Status>)
    ensures o == None <==> forall i :: 0 <= i < |checks| ==> !Decisive(checks[i])
    ensures o != None ==> o.value != Playing
  {
    if checks == [] then None
    else if Decisive(checks[0]) then Some(Outcome(checks[0]))
    else
      assert forall i :: 1 <= i < |checks| ==> checks[i] == checks[1..][i - 1];
      FirstOutcome(checks[1..])
  }

  /** Over a run of calls from a game in play, the first deciding call
      fixes the outcome and nothing after it changes it; with no deciding
      call the state is unchanged. */
  lemma {:induction false} FirstDecisiveWins(s: ContextState, checks: seq<Check>)
    requires !s.gameOver
    ensures RunChecks(s, checks) == match FirstOutcome(checks)
      case None => s
      case Some(o) => s.(gameOver := true, gameStatus := o)
    decreases |checks|
  {
    if checks != [] {
      var t := CheckOutcome(s, checks[0].isBomb, checks[0].isWin);
      if Decisive(checks[0]) {
        GameOverAbsorbs(t, checks[1..]);
      } else {
        FirstDecisiveWins(t, checks[1..]);
      }
    }
  }

  /** Once the game is over, no run of calls changes anything. */
  lemma {:induction false} GameOverAbsorbs(s: ContextState, checks: seq<Check>)
    requires s.gameOver
    ensures RunChecks(s, checks) == s
    decreases |checks|
  {
    if checks != [] {
      GameOverAbsorbs(s, checks[1..]);
    }
  }

  /** The provider's state, updated in place by its two callbacks. */
  class MineSweeperContext {
    var gameOver: bool
    var gameStatus: Status
    var revealedCells: int
    var totalNonBombCells: int

    function State(): ContextState
      reads this
    {
      ContextState(gameOver, gameStatus, revealedCells, totalNonBombCells)
    }

    constructor ()
      ensures State() == InitialState()
    {
      gameOver, gameStatus, revealedCells, totalNonBombCells := false, Playing, 0, 0;
    }

    method InitializeGame(rows: int, cols: int, mines: int)
      modifies this
      ensures State() == Initialized(rows, cols, mines)
    {
      gameOver, gameStatus, revealedCells, totalNonBombCells := false, Playing, 0, rows * cols - mines;
    }

    method CheckIfGameIsOver(isBomb: bool, isWin: bool)
      modifies this
      ensures State() == CheckOutcome(old(State()), isBomb, isWin)
    {
      if gameOver {
        return;
      }
      if isBomb {
        gameOver, gameStatus := true, Lost;
        return;
      }
      if isWin {
        gameOver, gameStatus := true, Won;
        return;
      }
    }
  }
}
