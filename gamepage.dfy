/** The game page as an object: the settings of its level, its gameState
    (the grid and the tallies) and the isFirstClick ref, the context it
    reads gameOver from, and the handlers that run the engine on its grid.
    Every handler is proved to perform the corresponding transition of
    PageRules and so to keep PageInv. */
module GamePage {
  import opened Grid
  import opened Board
  import opened Engine
  import opened PageRules
  import opened GameContext
  import CellView

  /** The random draws are enough for placeMines on a first click at p:
      each lies on the board, and they hold mines positions other than p. */
  ghost predicate DrawsFit(st: Settings, draws: seq<Pos>, p: Pos)
  {
    (forall k :: 0 <= k < |draws| ==> InBounds(st.rows, st.cols, draws[k].0, draws[k].1)) &&
    |Accepted(draws, |draws|, p)| >= st.mines
  }

  /** A new grid with mines laid around (row, col) from the draws. */
  method LaidBoard(st: Settings, row: int, col: int, draws: seq<Pos>) returns (g: array2<Cell>)
    requires InBounds(st.rows, st.cols, row, col) && DrawsFit(st, draws, (row, col))
    ensures fresh(g) && g.Length0 == st.rows && g.Length1 == st.cols
    ensures LaidGrid(st, Snap(g), (row, col), draws)
  {
    g := CreateInitialGrid(st.rows, st.cols);
    FreshGrid(g);
    ghost var m0 := Snap(g);
    assert Accepted(draws, |draws|, (row, col)) - BombsOf(m0) == Accepted(draws, |draws|, (row, col));
    PlaceMines(g, st.mines, row, col, draws);
    LaidBuilt(st, m0, Snap(g), (row, col), draws);
  }

  /** A new grid mined around (row, col) from the draws and counted. */
  method MinedBoard(st: Settings, row: int, col: int, draws: seq<Pos>) returns (g: array2<Cell>)
    requires InBounds(st.rows, st.cols, row, col) && DrawsFit(st, draws, (row, col))
    ensures fresh(g) && g.Length0 == st.rows && g.Length1 == st.cols
    ensures MinedGrid(st, Snap(g), (row, col), draws)
  {
    g := LaidBoard(st, row, col, draws);
    ghost var m1 := Snap(g);
    CalculateNeighboringMines(g);
    MinedBuilt(st, m1, Snap(g), (row, col), draws);
  }

  /** The grid of the first click on (row, col): a new grid, mined around
      the click, counted, the click revealed, and the recursive reveal run
      from the already revealed cell, which adds nothing. */
  method FirstClickBoard(st: Settings, row: int, col: int, draws: seq<Pos>) returns (newGrid: array2<Cell>, count: int)
    requires InBounds(st.rows, st.cols, row, col) && DrawsFit(st, draws, (row, col))
    ensures fresh(newGrid) && newGrid.Length0 == st.rows && newGrid.Length1 == st.cols
    ensures FirstClickGrid(st, Snap(newGrid), (row, col), draws) && count == 1
  {
    newGrid := MinedBoard(st, row, col, draws);
    ghost var m2 := Snap(newGrid);
    MirrorIsSnap(newGrid, m2);
    SetCell(newGrid, row, col, newGrid[row, col].(isRevealed := true), m2);
    ghost var m := m2[(row, col) := m2[(row, col)].(isRevealed := true)];
    MirrorIsSnap(newGrid, m);
    FirstRevealed(st, m2, (row, col), draws);
    count := 1;
    if newGrid[row, col].neighboringMines == 0 {
      count := RevealEmptyCells(newGrid, row, col, count);
    }
  }

  /** The context agrees with page state s: gameOver exactly when a bomb
      was hit or the game won, the status saying which, and the totals
      initializeGame gave it (its revealedCells is never updated). */
  ghost predicate SyncedWith(st: Settings, c: ContextState, s: PageState)
  {
    c.gameOver == (s.hitBomb || s.wonGame) &&
    c.gameStatus == (if s.hitBomb then Lost else if s.wonGame then Won else Playing) &&
    c.revealedCells == 0 && c.totalNonBombCells == TotalNonBombCells(st)
  }

  /** The game-over effect keeps the context in step with the page: from a
      synced pair, any change of page state the context's gameOver allows
      (none once the game is over) is answered by checkIfGameIsOver(hitBomb,
      wonGame) with a context synced again. */
  lemma EffectSyncs(st: Settings, c: ContextState, s: PageState, t: PageState)
    requires SyncedWith(st, c, s) && (c.gameOver ==> t == s)
    ensures SyncedWith(st, CheckOutcome(c, t.hitBomb, t.wonGame), t)
  {
  }

  /** A reveal from a synced, valid state keeps the invariant and, once
      the game-over effect has run, the context in sync. */
  lemma RevealSyncs(st: Settings, c: ContextState, s: PageState, t: PageState, p: Pos, draws: seq<Pos>)
    requires 1 <= TotalNonBombCells(st) && PageInv(st, s) && SyncedWith(st, c, s)
    requires RevealStep(st, s, t, p, c.gameOver, draws)
    ensures PageInv(st, t) && SyncedWith(st, CheckOutcome(c, t.hitBomb, t.wonGame), t)
  {
    RevealStepInv(st, s, t, p, c.gameOver, draws);
    EffectSyncs(st, c, s, t);
  }

  class Game {
    const level: Level
    const settings: Settings
    const context: MineSweeperContext
    var grid: array2<Cell>
    var revealedCount: int
    var flagCount: int
    var hitBomb: bool
    var wonGame: bool
    var isFirstClick: bool
    /** The grid's contents as a value. */
    ghost var snap: Snapshot
    /** Flags a first click threw away; flagCount still counts them. */
    ghost var droppedFlags: nat

    ghost function State(): PageState
      reads this
    {
      PageState(snap, revealedCount, flagCount, hitBomb, wonGame, isFirstClick, droppedFlags)
    }

    ghost predicate Valid()
      reads this, grid
    {
      1 <= TotalNonBombCells(settings) && Shaped() && PageInv(settings, State())
    }

    /** The context says what the page's hitBomb and wonGame say. */
    ghost predicate Synced()
      reads this, context
    {
      SyncedWith(settings, context.State(), State())
    }

    /** The page of a level mounts with a fresh grid and, finding no saved
        game, runs initializeNewGame. */
    constructor (level: Level, context: MineSweeperContext)
      modifies context
      ensures this.level == level && this.context == context && settings == DifficultySettings(level)
      ensures State() == NewGame(settings) && Valid() && Synced()
      ensures context.State() == Initialized(settings.rows, settings.cols, settings.mines)
    {
      var st := DifficultySettings(level);
      this.level, settings, this.context := level, st, context;
      var g := CreateInitialGrid(st.rows, st.cols);
      grid := g;
      revealedCount, flagCount := 0, 0;
      hitBomb, wonGame := false, false;
      isFirstClick := true;
      snap, droppedFlags := FreshSnap(st.rows, st.cols), 0;
      new;
      InitializeNewGame();
    }

    /** initializeNewGame, also what the reset button runs: the context is
        reinitialized and the page starts over with a fresh grid; hitBomb
        and wonGame are dropped from the state, so read as false. */
    method InitializeNewGame()
      requires 1 <= TotalNonBombCells(settings)
      modifies this, context
      ensures State() == NewGame(settings) && Valid() && Synced()
      ensures context.State() == Initialized(settings.rows, settings.cols, settings.mines)
    {
      isFirstClick := true;
      context.InitializeGame(settings.rows, settings.cols, settings.mines);
      var newGrid := CreateInitialGrid(settings.rows, settings.cols);
      grid := newGrid;
      revealedCount, flagCount := 0, 0;
      hitBomb, wonGame := false, false;
      snap, droppedFlags := FreshSnap(settings.rows, settings.cols), 0;
      NewGameInv(settings);
    }

    /** The grid has the settings' dimensions and snap holds its contents. */
    ghost predicate Shaped()
      reads this, grid
    {
      grid.Length0 == settings.rows && grid.Length1 == settings.cols && Mirrors(grid, snap)
    }

    /** handleFlag on a cell of the grid. */
    method HandleFlag(row: int, col: int)
      requires Shaped() && InGrid(grid, row, col)
      modifies this, grid
      ensures grid == old(grid) && Shaped()
      ensures State() == ToggleFlag(old(State()), (row, col), context.gameOver)
    {
      if !grid[row, col].isRevealed && !context.gameOver {
        var cell := grid[row, col].(isFlagged := !grid[row, col].isFlagged);
        SetCell(grid, row, col, cell, snap);
        flagCount := flagCount + (if cell.isFlagged then 1 else -1);
        snap := snap[(row, col) := cell];
      }
    }

    /** handleReveal on (row, col); draws are the random positions the
        first click's placeMines would draw. */
    method HandleReveal(row: int, col: int, draws: seq<Pos>)
      requires Shaped()
      requires isFirstClick && InGrid(grid, row, col) ==> DrawsFit(settings, draws, (row, col))
      modifies this, grid
      ensures Shaped()
      ensures RevealStep(settings, old(State()), State(), (row, col), context.gameOver, draws)
    {
      if !InGrid(grid, row, col) {
        return;
      }
      if grid[row, col].isRevealed || grid[row, col].isFlagged || context.gameOver {
        return;
      }
      if isFirstClick {
        FirstClick(row, col, draws);
        return;
      }
      LaterReveal(row, col);
    }

    /** The first click on (row, col): the board is built around it and the
        click counts one revealed cell; the flags on the old grid are gone. */
    method FirstClick(row: int, col: int, draws: seq<Pos>)
      requires Shaped() && InGrid(grid, row, col) && DrawsFit(settings, draws, (row, col))
      modifies this
      ensures Shaped() && FirstStep(settings, old(State()), State(), (row, col), draws)
    {
      ghost var s := State();
      var newGrid, newRevealedCount := FirstClickBoard(settings, row, col, draws);
      assert State() == s;
      ghost var m := Snap(newGrid);
      MirrorIsSnap(newGrid, m);
      Install(newGrid, newRevealedCount, m);
    }

    /** The state update that ends the first click: the new grid and its
        count of revealed cells, isFirstClick cleared, the old flags
        dropped. */
    method Install(newGrid: array2<Cell>, newRevealedCount: int, ghost m: Snapshot)
      requires newGrid.Length0 == settings.rows && newGrid.Length1 == settings.cols && Mirrors(newGrid, m)
      modifies this
      ensures Shaped()
      ensures State() == old(State()).(grid := m, revealedCount := newRevealedCount,
                                       wonGame := newRevealedCount == TotalNonBombCells(settings), isFirstClick := false,
                                       droppedFlags := old(droppedFlags) + |FlaggedOf(old(snap))|)
    {
      isFirstClick := false;
      revealedCount, wonGame := newRevealedCount, newRevealedCount == TotalNonBombCells(settings);
      droppedFlags := droppedFlags + |FlaggedOf(snap)|;
      snap := m;
      grid := newGrid;
    }

    /** The functional update handleReveal applies after the first click:
        a bomb shows every bomb, a cell with no adjacent mines runs the
        recursive reveal, any other cell is revealed alone. */
    method LaterReveal(row: int, col: int)
      requires Shaped() && InGrid(grid, row, col)
      requires !grid[row, col].isRevealed && !grid[row, col].isFlagged
      modifies this, grid
      ensures grid == old(grid) && Shaped()
      ensures LaterStep(settings, old(State()), State(), (row, col))
    {
      var cell := grid[row, col];
      if cell.isBomb {
        HitBomb(row, col);
      } else if cell.neighboringMines == 0 {
        RevealZero(row, col);
      } else {
        RevealNumbered(row, col);
      }
    }

    /** The branch of a later reveal on a cell with adjacent mines: that
        cell alone is revealed and counted. */
    method RevealNumbered(row: int, col: int)
      requires Shaped() && InGrid(grid, row, col)
      requires !grid[row, col].isRevealed && !grid[row, col].isFlagged && !grid[row, col].isBomb
      requires grid[row, col].neighboringMines != 0
      modifies this, grid
      ensures grid == old(grid) && Shaped()
      ensures LaterStep(settings, old(State()), State(), (row, col))
    {
      var cell := grid[row, col].(isRevealed := true);
      SetCell(grid, row, col, cell, snap);
      snap := snap[(row, col) := cell];
      revealedCount := revealedCount + 1;
      wonGame := revealedCount == TotalNonBombCells(settings);
    }

    /** The bomb branch of a later reveal: the clicked bomb is revealed, then
        every bomb, and hitBomb is set. */
    method HitBomb(row: int, col: int)
      requires Shaped() && InGrid(grid, row, col) && grid[row, col].isBomb
      modifies this, grid
      ensures grid == old(grid) && Shaped()
      ensures LaterStep(settings, old(State()), State(), (row, col))
    {
      ghost var m := snap;
      var cell := grid[row, col];
      SetCell(grid, row, col, cell.(isRevealed := true), snap);
      snap := snap[(row, col) := cell.(isRevealed := true)];
      MirrorIsSnap(grid, snap);
      RevealAllBombs(grid);
      RevealBombsAfterHit(m, (row, col));
      snap := RevealBombs(m);
      MirrorIsSnap(grid, snap);
      hitBomb := true;
    }

    /** The branch of a later reveal on a cell with no adjacent mines: the
        recursive reveal from it, and the cells it reveals counted. */
    method RevealZero(row: int, col: int)
      requires Shaped() && InGrid(grid, row, col)
      requires !grid[row, col].isBomb && grid[row, col].neighboringMines == 0
      modifies this, grid
      ensures grid == old(grid) && Shaped()
      ensures LaterStep(settings, old(State()), State(), (row, col))
    {
      var count, m := RevealFrom(grid, row, col, revealedCount, snap);
      snap, revealedCount, wonGame := m, count, count == TotalNonBombCells(settings);
    }

    /** The effect on hitBomb and wonGame: a hit bomb reports a loss, else a
        win reports a win. Whatever the state, it acts as
        checkIfGameIsOver(hitBomb, wonGame). */
    method GameOverEffect()
      modifies context
      ensures context.State() == CheckOutcome(old(context.State()), hitBomb, wonGame)
    {
      if hitBomb {
        context.CheckIfGameIsOver(true, false);
      } else if wonGame {
        context.CheckIfGameIsOver(false, true);
      }
    }

    /** The mines-remaining counter: mines less flagCount, not clamped, so
        below zero exactly when more flags than mines have been counted. */
    function MinesRemaining(): (r: int)
      requires Valid()
      reads this, grid
      ensures r == settings.mines - |FlaggedOf(snap)| - droppedFlags
      ensures r < 0 <==> |FlaggedOf(snap)| + droppedFlags > settings.mines
    {
      settings.mines - flagCount
    }

    /** A click on the cell at (row, col), routed as the cell's click
        handler routes it. The game-over effect runs after a flag or a
        reveal; an ignored click changes nothing for it to see. */
    method Click(row: int, col: int, shiftKey: bool, draws: seq<Pos>)
      requires Valid() && Synced() && InGrid(grid, row, col)
      requires isFirstClick ==> DrawsFit(settings, draws, (row, col))
      modifies this, grid, context
      ensures Valid() && Synced()
      ensures var a := CellView.OnClick(shiftKey, old(State()).grid[(row, col)].isFlagged, old(context.gameOver));
        (a == CellView.Flag ==> State() == ToggleFlag(old(State()), (row, col), old(context.gameOver))) &&
        (a == CellView.Reveal ==> RevealStep(settings, old(State()), State(), (row, col), old(context.gameOver), draws)) &&
        (a == CellView.Ignore ==> State() == old(State()))
    {
      match CellView.OnClick(shiftKey, grid[row, col].isFlagged, context.gameOver) {
        case Flag => FlagAndCheck(row, col);
        case Reveal => RevealAndCheck(row, col, draws);
        case Ignore =>
      }
    }

    /** A right-click on the cell at (row, col), routed as the cell's
        context-menu handler routes it. */
    method ContextMenu(row: int, col: int)
      requires Valid() && Synced() && InGrid(grid, row, col)
      modifies this, grid, context
      ensures Valid() && Synced()
      ensures var a := CellView.OnContextMenu(old(context.gameOver));
        (a == CellView.Flag ==> State() == ToggleFlag(old(State()), (row, col), false)) &&
        (a != CellView.Flag ==> State() == old(State()))
    {
      if CellView.OnContextMenu(context.gameOver) == CellView.Flag {
        FlagAndCheck(row, col);
      }
    }

    /** handleFlag, then the game-over effect. */
    method FlagAndCheck(row: int, col: int)
      requires Valid() && Synced() && InGrid(grid, row, col)
      modifies this, grid, context
      ensures Valid() && Synced()
      ensures State() == ToggleFlag(old(State()), (row, col), old(context.gameOver))
    {
      ghost var s, c := State(), context.State();
      HandleFlag(row, col);
      ghost var t := State();
      ToggleFlagInv(settings, s, (row, col), c.gameOver);
      EffectSyncs(settings, c, s, t);
      GameOverEffect();
      assert State() == t;
    }

    /** handleReveal, then the game-over effect. */
    method RevealAndCheck(row: int, col: int, draws: seq<Pos>)
      requires Valid() && Synced() && InGrid(grid, row, col)
      requires isFirstClick ==> DrawsFit(settings, draws, (row, col))
      modifies this, grid, context
      ensures Valid() && Synced()
      ensures RevealStep(settings, old(State()), State(), (row, col), old(context.gameOver), draws)
    {
      ghost var s, c := State(), context.State();
      HandleReveal(row, col, draws);
      ghost var t := State();
      RevealSyncs(settings, c, s, t, (row, col), draws);
      GameOverEffect();
      assert State() == t;
    }
  }
}
