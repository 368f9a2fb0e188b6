/** The game page's state and its transitions, as values: the difficulty
    settings, gameState (grid, revealedCount, flagCount, hitBomb, wonGame)
    together with the isFirstClick ref, what handleFlag and handleReveal do
    to it, and the invariant every transition keeps. The class in GamePage
    runs these transitions on the page's array grid. */
module PageRules {
  import opened Grid
  import opened Board

  /** The difficulty levels of the URL parameter. */
  datatype Level = Easy | Medium | Hard

  datatype Settings = Settings(rows: nat, cols: nat, mines: nat)

  /** DIFFICULTY_SETTINGS: every level has fewer mines than cells, and at
      least one mine. */
  function DifficultySettings(level: Level): (st: Settings)
    ensures 0 < st.mines < st.rows * st.cols
    ensures st.rows * st.cols - st.mines >= 54
  {
    match level
    case Easy => Settings(8, 8, 10)
    case Medium => Settings(16, 16, 40)
    case Hard => Settings(16, 30, 99)
  }

  /** rows * cols - mines: the number of cells a winner reveals. */
  function TotalNonBombCells(st: Settings): int
  {
    st.rows * st.cols - st.mines
  }

  /** gameState plus the isFirstClick ref. droppedFlags counts the flags
      that were on the grid a first click threw away: flagCount keeps
      counting them. */
  datatype PageState = PageState(grid: Snapshot, revealedCount: int, flagCount: int,
                                 hitBomb: bool, wonGame: bool, isFirstClick: bool, droppedFlags: nat)

  /** The grid createInitialGrid builds, as a value. */
  ghost function FreshSnap(rows: int, cols: int): (m: Snapshot)
    ensures m.Keys == Positions(rows, cols)
    ensures forall p :: p in m ==> m[p] == FreshCell(p.0, p.1)
  {
    map p | p in Positions(rows, cols) :: FreshCell(p.0, p.1)
  }

  ghost function RevealedBombsOf(m: Snapshot): set<Pos>
  {
    set p | p in m && m[p].isRevealed && m[p].isBomb
  }

  /** The cells that are not bombs. */
  ghost function SafeOf(m: Snapshot): set<Pos>
  {
    set p | p in m && !m[p].isBomb
  }

  /** The grid covers the rows x cols board and every cell knows its place. */
  ghost predicate GridShape(st: Settings, m: Snapshot)
  {
    m.Keys == Positions(st.rows, st.cols) && Placed(m)
  }

  /** revealedCount counts the revealed non-bombs, flagCount the flags (and
      the dropped ones), and wonGame says revealedCount has reached the
      number of non-bomb cells. */
  ghost predicate Tallies(st: Settings, s: PageState)
  {
    s.revealedCount == |RevealedSafeOf(s.grid)| &&
    s.flagCount == |FlaggedOf(s.grid)| + s.droppedFlags &&
    (s.wonGame <==> s.revealedCount == TotalNonBombCells(st))
  }

  /** hitBomb says every bomb is showing; otherwise none is. */
  ghost predicate BombsShown(s: PageState)
  {
    RevealedBombsOf(s.grid) == (if s.hitBomb then BombsOf(s.grid) else {})
  }

  /** Before the first click there are no bombs and nothing is revealed;
      after it there are exactly mines bombs and every count is right. */
  ghost predicate Phase(st: Settings, s: PageState)
  {
    if s.isFirstClick then
      BombsOf(s.grid) == {} && RevealedSafeOf(s.grid) == {} && s.droppedFlags == 0 && !s.hitBomb
    else
      |BombsOf(s.grid)| == st.mines && CountsConsistent(s.grid, st.rows, st.cols)
  }

  /** What the page state always satisfies. */
  ghost predicate PageInv(st: Settings, s: PageState)
  {
    GridShape(st, s.grid) && Tallies(st, s) && BombsShown(s) && Phase(st, s)
  }

  /** The state the page starts in, and the one initializeNewGame sets: a
      fresh grid, no counts, hitBomb and wonGame unset. */
  ghost function NewGame(st: Settings): (s: PageState)
  {
    PageState(FreshSnap(st.rows, st.cols), 0, 0, false, false, true, 0)
  }

  lemma NewGameInv(st: Settings)
    requires TotalNonBombCells(st) != 0
    ensures PageInv(st, NewGame(st))
  {
    var m := FreshSnap(st.rows, st.cols);
    assert BombsOf(m) == {};
    assert FlaggedOf(m) == {};
    assert RevealedSafeOf(m) == {};
    assert RevealedBombsOf(m) == {};
  }

  // ---------------------------------------------------------------------
  // handleFlag

  /** handleFlag on p: an unrevealed cell, while the game is not over, has
      its flag flipped and flagCount moves by one in the same direction;
      otherwise nothing happens. */
  function ToggleFlag(s: PageState, p: Pos, gameOver: bool): (t: PageState)
    requires p in s.grid
    ensures t.grid.Keys == s.grid.Keys
    ensures forall q :: q in s.grid && q != p ==> t.grid[q] == s.grid[q]
    ensures !s.grid[p].isRevealed && !gameOver ==>
      t.grid[p] == s.grid[p].(isFlagged := !s.grid[p].isFlagged) &&
      t.flagCount == s.flagCount + (if t.grid[p].isFlagged then 1 else -1) &&
      t == s.(grid := t.grid, flagCount := t.flagCount)
    ensures s.grid[p].isRevealed || gameOver ==> t == s
  {
    if !s.grid[p].isRevealed && !gameOver then
      var cell := s.grid[p].(isFlagged := !s.grid[p].isFlagged);
      s.(grid := s.grid[p := cell], flagCount := s.flagCount + (if cell.isFlagged then 1 else -1))
    else s
  }

  /** Flagging a cell twice puts the grid and flagCount back. */
  lemma ToggleFlagTwice(s: PageState, p: Pos, gameOver: bool)
    requires p in s.grid
    ensures ToggleFlag(ToggleFlag(s, p, gameOver), p, gameOver) == s
  {
    var t := ToggleFlag(s, p, gameOver);
    var u := ToggleFlag(t, p, gameOver);
    if !s.grid[p].isRevealed && !gameOver {
      assert u.grid == s.grid;
    }
  }

  /** m' differs from m at most in which cells are revealed or flagged. */
  ghost predicate SameBoard(m: Snapshot, m': Snapshot)
  {
    m'.Keys == m.Keys &&
    forall q :: q in m ==> m'[q] == m[q].(isRevealed := m'[q].isRevealed, isFlagged := m'[q].isFlagged)
  }

  /** Revealing and flagging keep the bombs, the shape of the grid and the
      counts. */
  lemma SameBoardKeeps(st: Settings, m: Snapshot, m': Snapshot)
    requires SameBoard(m, m')
    ensures BombsOf(m') == BombsOf(m)
    ensures GridShape(st, m) ==> GridShape(st, m')
    ensures CountsConsistent(m, st.rows, st.cols) ==> CountsConsistent(m', st.rows, st.cols)
  {
    assert BombsOf(m') == BombsOf(m);
  }

  /** Flipping the flag of p adds p to the flagged cells or takes it out. */
  lemma FlaggedFlip(m: Snapshot, p: Pos)
    requires p in m
    ensures var m' := m[p := m[p].(isFlagged := !m[p].isFlagged)];
      SameBoard(m, m') && RevealedSafeOf(m') == RevealedSafeOf(m) &&
      RevealedBombsOf(m') == RevealedBombsOf(m) &&
      |FlaggedOf(m')| == |FlaggedOf(m)| + (if m'[p].isFlagged then 1 else -1)
  {
    var m' := m[p := m[p].(isFlagged := !m[p].isFlagged)];
    assert RevealedSafeOf(m') == RevealedSafeOf(m);
    assert RevealedBombsOf(m') == RevealedBombsOf(m);
    if m'[p].isFlagged {
      assert FlaggedOf(m') == FlaggedOf(m) + {p};
    } else {
      assert FlaggedOf(m') == FlaggedOf(m) - {p};
    }
  }

  /** handleFlag keeps the invariant. */
  lemma ToggleFlagInv(st: Settings, s: PageState, p: Pos, gameOver: bool)
    requires PageInv(st, s) && p in s.grid
    ensures PageInv(st, ToggleFlag(s, p, gameOver))
  {
    if !s.grid[p].isRevealed && !gameOver {
      var t := ToggleFlag(s, p, gameOver);
      FlaggedFlip(s.grid, p);
      SameBoardKeeps(st, s.grid, t.grid);
      assert Tallies(st, t);
      assert BombsShown(t);
      assert Phase(st, t);
    }
  }

  // ---------------------------------------------------------------------
  // handleReveal

  /** The bombs of a first click on p: exactly mines of them, never p, the
      ones accepted from a prefix of the draws. */
  ghost predicate FirstClickBombs(st: Settings, m: Snapshot, p: Pos, draws: seq<Pos>)
  {
    p !in BombsOf(m) && |BombsOf(m)| == st.mines &&
    exists n :: 0 <= n <= |draws| && BombsOf(m) == Accepted(draws, n, p)
  }

  /** The cells of a first click on p: every count right, only p revealed,
      nothing flagged. */
  ghost predicate FirstClickCells(st: Settings, m: Snapshot, p: Pos)
  {
    CountsConsistent(m, st.rows, st.cols) &&
    forall q :: q in m ==> m[q].row == q.0 && m[q].col == q.1 && m[q].isRevealed == (q == p) && !m[q].isFlagged
  }

  /** The grid of a first click on p. */
  ghost predicate FirstClickGrid(st: Settings, m: Snapshot, p: Pos, draws: seq<Pos>)
  {
    m.Keys == Positions(st.rows, st.cols) && p in m &&
    FirstClickBombs(st, m, p, draws) && FirstClickCells(st, m, p)
  }

  /** Mining a fresh grid around p leaves every cell fresh but for its
      bomb bit, and p no bomb. */
  lemma MinedFresh(m0: Snapshot, m1: Snapshot, p: Pos, acc: set<Pos>)
    requires forall q :: q in m0 ==> m0[q] == FreshCell(q.0, q.1)
    requires OnlyMines(m0, m1, p, acc) && p in m0
    ensures forall q :: q in m1 ==> m1[q] == Cell(q.0, q.1, m1[q].isBomb, false, false, 0)
    ensures p !in BombsOf(m1) && BombsOf(m0) == {}
  {
    assert BombsOf(m0) == {};
  }

  /** A fresh grid, mined around p and counted: the grid a first click on
      p reveals in. */
  ghost predicate MinedGrid(st: Settings, m: Snapshot, p: Pos, draws: seq<Pos>)
  {
    m.Keys == Positions(st.rows, st.cols) && p in m &&
    FirstClickBombs(st, m, p, draws) && CountsConsistent(m, st.rows, st.cols) &&
    forall q :: q in m ==> m[q].row == q.0 && m[q].col == q.1 && !m[q].isRevealed && !m[q].isFlagged
  }

  /** Filling in the counts of that grid gets every count right and keeps
      the rest of every cell. */
  lemma CountedFresh(st: Settings, m1: Snapshot, m2: Snapshot)
    requires forall q :: q in m1 ==> m1[q] == Cell(q.0, q.1, m1[q].isBomb, false, false, 0)
    requires CountsFilled(m1, m2, st.rows, st.cols)
    ensures BombsOf(m2) == BombsOf(m1) && m2.Keys == m1.Keys && CountsConsistent(m2, st.rows, st.cols)
    ensures forall q :: q in m2 ==> m2[q].row == q.0 && m2[q].col == q.1 && !m2[q].isRevealed && !m2[q].isFlagged
  {
    assert BombsOf(m2) == BombsOf(m1);
  }

  /** Bombs laid on a grid without any are a prefix's accepted draws. */
  lemma PrefixOnEmpty(b0: set<Pos>, b1: set<Pos>, draws: seq<Pos>, p: Pos)
    requires b0 == {} && exists n :: 0 <= n <= |draws| && b1 == b0 + Accepted(draws, n, p)
    ensures exists n :: 0 <= n <= |draws| && b1 == Accepted(draws, n, p)
  {
    var n :| 0 <= n <= |draws| && b1 == b0 + Accepted(draws, n, p);
    assert b1 == Accepted(draws, n, p);
  }

  /** A fresh grid with the mines of a first click on p laid. */
  ghost predicate LaidGrid(st: Settings, m: Snapshot, p: Pos, draws: seq<Pos>)
  {
    m.Keys == Positions(st.rows, st.cols) && p in m && FirstClickBombs(st, m, p, draws) &&
    forall q :: q in m ==> m[q] == Cell(q.0, q.1, m[q].isBomb, false, false, 0)
  }

  /** Mining a fresh grid around p from the draws lays the mines of a
      first click on p. */
  lemma LaidBuilt(st: Settings, m0: Snapshot, m1: Snapshot, p: Pos, draws: seq<Pos>)
    requires m0.Keys == Positions(st.rows, st.cols) && p in m0
    requires forall q :: q in m0 ==> m0[q] == FreshCell(q.0, q.1)
    requires OnlyMines(m0, m1, p, Accepted(draws, |draws|, p))
    requires |BombsOf(m1)| == |BombsOf(m0)| + st.mines
    requires exists n :: 0 <= n <= |draws| && BombsOf(m1) == BombsOf(m0) + Accepted(draws, n, p)
    ensures LaidGrid(st, m1, p, draws)
  {
    MinedFresh(m0, m1, p, Accepted(draws, |draws|, p));
    PrefixOnEmpty(BombsOf(m0), BombsOf(m1), draws, p);
  }

  /** Filling in the counts of that grid gives the grid a first click
      reveals in. */
  lemma MinedBuilt(st: Settings, m1: Snapshot, m2: Snapshot, p: Pos, draws: seq<Pos>)
    requires LaidGrid(st, m1, p, draws) && CountsFilled(m1, m2, st.rows, st.cols)
    ensures MinedGrid(st, m2, p, draws)
  {
    CountedFresh(st, m1, m2);
  }

  /** Revealing p on that grid gives the grid of a first click on p. */
  lemma FirstRevealed(st: Settings, m: Snapshot, p: Pos, draws: seq<Pos>)
    requires MinedGrid(st, m, p, draws)
    ensures FirstClickGrid(st, m[p := m[p].(isRevealed := true)], p, draws)
  {
    var m3 := m[p := m[p].(isRevealed := true)];
    RevealedAlone(st, m, p);
    assert BombsOf(m3) == BombsOf(m);
  }

  /** Revealing p alone on a counted grid with nothing revealed or flagged
      keeps every count right and leaves p the only revealed cell. */
  lemma RevealedAlone(st: Settings, m: Snapshot, p: Pos)
    requires p in m && CountsConsistent(m, st.rows, st.cols)
    requires forall q :: q in m ==> m[q].row == q.0 && m[q].col == q.1 && !m[q].isRevealed && !m[q].isFlagged
    ensures FirstClickCells(st, m[p := m[p].(isRevealed := true)], p)
  {
    var m3 := m[p := m[p].(isRevealed := true)];
    assert SameBoard(m, m3);
    SameBoardKeeps(st, m, m3);
  }

  /** A click on a cell the guards let through. */
  ghost predicate Unblocked(s: PageState, p: Pos, gameOver: bool)
  {
    p in s.grid && !s.grid[p].isRevealed && !s.grid[p].isFlagged && !gameOver
  }

  /** handleReveal on p, given the context's gameOver and, for a first
      click, the random draws placeMines consumes. */
  ghost predicate RevealStep(st: Settings, s: PageState, t: PageState, p: Pos, gameOver: bool, draws: seq<Pos>)
  {
    if !Unblocked(s, p, gameOver) then t == s
    else if s.isFirstClick then FirstStep(st, s, t, p, draws)
    else LaterStep(st, s, t, p)
  }

  /** The first click on p: a first-click grid, one cell revealed, the old
      grid's flags gone from the grid but not from flagCount. */
  ghost predicate FirstStep(st: Settings, s: PageState, t: PageState, p: Pos, draws: seq<Pos>)
  {
    FirstClickGrid(st, t.grid, p, draws) &&
    t == s.(grid := t.grid, revealedCount := 1, wonGame := 1 == TotalNonBombCells(st),
            isFirstClick := false, droppedFlags := s.droppedFlags + |FlaggedOf(s.grid)|)
  }

  /** A later click on p: a bomb shows every bomb and sets hitBomb; a cell
      without adjacent mines is flood-filled from; any other cell is
      revealed alone. wonGame follows revealedCount. */
  ghost predicate LaterStep(st: Settings, s: PageState, t: PageState, p: Pos)
    requires p in s.grid
  {
    if s.grid[p].isBomb then
      t == s.(grid := RevealBombs(s.grid), hitBomb := true)
    else if s.grid[p].neighboringMines == 0 then
      Filled(s.grid, t.grid, p) &&
      t == s.(grid := t.grid, revealedCount := s.revealedCount + |NewlyOf(s.grid, t.grid)|,
              wonGame := s.revealedCount + |NewlyOf(s.grid, t.grid)| == TotalNonBombCells(st))
    else
      t == s.(grid := s.grid[p := s.grid[p].(isRevealed := true)], revealedCount := s.revealedCount + 1,
              wonGame := s.revealedCount + 1 == TotalNonBombCells(st))
  }

  /** A later reveal that reveals only eligible cells (the flood fill, or
      the one numbered cell) keeps the invariant, with revealedCount grown
      by the number of cells revealed. */
  lemma RevealsKeepInv(st: Settings, s: PageState, t: PageState)
    requires PageInv(st, s) && !s.isFirstClick && OnlyReveals(s.grid, t.grid)
    requires t == s.(grid := t.grid, revealedCount := s.revealedCount + |NewlyOf(s.grid, t.grid)|,
                     wonGame := s.revealedCount + |NewlyOf(s.grid, t.grid)| == TotalNonBombCells(st))
    ensures PageInv(st, t)
  {
    OnlyRevealsParts(s.grid, t.grid);
    SameBoardKeeps(st, s.grid, t.grid);
  }

  /** Revealing only eligible cells changes no bomb, flag or count, shows
      no further bomb, and adds exactly the newly revealed cells to the
      revealed non-bombs. */
  lemma OnlyRevealsParts(m0: Snapshot, m: Snapshot)
    requires OnlyReveals(m0, m)
    ensures SameBoard(m0, m)
    ensures FlaggedOf(m) == FlaggedOf(m0) && RevealedBombsOf(m) == RevealedBombsOf(m0)
    ensures |RevealedSafeOf(m)| == |RevealedSafeOf(m0)| + |NewlyOf(m0, m)|
  {
    OnlyRevealsKeeps(m0, m);
    FillCount(m0, m);
    assert RevealedBombsOf(m) == RevealedBombsOf(m0);
  }

  /** Revealing the eligible p alone is a reveal of one cell. */
  lemma RevealOne(m: Snapshot, p: Pos)
    requires Eligible(m, p)
    ensures OnlyReveals(m, m[p := m[p].(isRevealed := true)])
    ensures NewlyOf(m, m[p := m[p].(isRevealed := true)]) == {p}
  {
  }

  /** Showing every bomb changes no flag, reveals no other cell, and leaves
      every bomb revealed. */
  lemma RevealBombsShows(m: Snapshot)
    ensures SameBoard(m, RevealBombs(m))
    ensures FlaggedOf(RevealBombs(m)) == FlaggedOf(m)
    ensures RevealedSafeOf(RevealBombs(m)) == RevealedSafeOf(m)
    ensures RevealedBombsOf(RevealBombs(m)) == BombsOf(m)
  {
    var r := RevealBombs(m);
    assert FlaggedOf(r) == FlaggedOf(m);
    assert RevealedSafeOf(r) == RevealedSafeOf(m);
    assert RevealedBombsOf(r) == BombsOf(m);
  }

  /** The bomb branch keeps the invariant and sets hitBomb. */
  lemma BombKeepsInv(st: Settings, s: PageState, t: PageState)
    requires PageInv(st, s) && !s.isFirstClick && t == s.(grid := RevealBombs(s.grid), hitBomb := true)
    ensures PageInv(st, t)
  {
    RevealBombsShows(s.grid);
    SameBoardKeeps(st, s.grid, t.grid);
  }

  /** The first click keeps the invariant. */
  lemma FirstClickKeepsInv(st: Settings, s: PageState, t: PageState, p: Pos, draws: seq<Pos>)
    requires PageInv(st, s) && s.isFirstClick && FirstClickGrid(st, t.grid, p, draws) && 1 <= TotalNonBombCells(st)
    requires t == s.(grid := t.grid, revealedCount := 1, wonGame := 1 == TotalNonBombCells(st),
                     isFirstClick := false, droppedFlags := s.droppedFlags + |FlaggedOf(s.grid)|)
    ensures PageInv(st, t)
  {
    var m := t.grid;
    assert RevealedSafeOf(m) == {p};
    assert FlaggedOf(m) == {};
    assert RevealedBombsOf(m) == {};
  }

  /** Every transition of handleReveal keeps the invariant. */
  lemma RevealStepInv(st: Settings, s: PageState, t: PageState, p: Pos, gameOver: bool, draws: seq<Pos>)
    requires PageInv(st, s) && RevealStep(st, s, t, p, gameOver, draws) && 1 <= TotalNonBombCells(st)
    ensures PageInv(st, t)
  {
    if Unblocked(s, p, gameOver) {
      if s.isFirstClick {
        FirstClickKeepsInv(st, s, t, p, draws);
      } else {
        LaterStepInv(st, s, t, p);
      }
    }
  }

  /** Every later click on a hidden, unflagged cell keeps the invariant. */
  lemma LaterStepInv(st: Settings, s: PageState, t: PageState, p: Pos)
    requires PageInv(st, s) && !s.isFirstClick && p in s.grid && !s.grid[p].isRevealed && !s.grid[p].isFlagged
    requires LaterStep(st, s, t, p)
    ensures PageInv(st, t)
  {
    if s.grid[p].isBomb {
      BombKeepsInv(st, s, t);
    } else if s.grid[p].neighboringMines == 0 {
      RevealsKeepInv(st, s, t);
    } else {
      RevealOne(s.grid, p);
      RevealsKeepInv(st, s, t);
    }
  }

  /** wonGame means every non-bomb cell is revealed, and revealedCount never
      exceeds the number of non-bomb cells. */
  lemma WonMeansCleared(st: Settings, s: PageState)
    requires PageInv(st, s) && !s.isFirstClick
    ensures s.revealedCount <= TotalNonBombCells(st)
    ensures s.wonGame <==> RevealedSafeOf(s.grid) == SafeOf(s.grid)
  {
    var m := s.grid;
    SafeCount(st, m);
    assert RevealedSafeOf(m) <= SafeOf(m);
    SubsetCard(RevealedSafeOf(m), SafeOf(m));
    if |RevealedSafeOf(m)| == |SafeOf(m)| {
      SubsetSameCard(RevealedSafeOf(m), SafeOf(m));
    }
  }

  /** A rows x cols grid has rows * cols less its bombs non-bomb cells. */
  lemma SafeCount(st: Settings, m: Snapshot)
    requires m.Keys == Positions(st.rows, st.cols)
    ensures |SafeOf(m)| == st.rows * st.cols - |BombsOf(m)|
  {
    PositionsCard(st.rows, st.cols);
    assert SafeOf(m) == Positions(st.rows, st.cols) - BombsOf(m);
    UnionCard(BombsOf(m), Positions(st.rows, st.cols));
    assert BombsOf(m) + Positions(st.rows, st.cols) == Positions(st.rows, st.cols);
  }

  /** A later reveal never hides a cell, and revealedCount never drops. */
  lemma RevealNeverHides(st: Settings, s: PageState, t: PageState, p: Pos, gameOver: bool, draws: seq<Pos>)
    requires !s.isFirstClick && RevealStep(st, s, t, p, gameOver, draws)
    ensures forall q :: q in s.grid && s.grid[q].isRevealed ==> q in t.grid && t.grid[q].isRevealed
    ensures t.revealedCount >= s.revealedCount
  {
    if Unblocked(s, p, gameOver) && !s.grid[p].isBomb {
      if s.grid[p].neighboringMines == 0 {
        assert OnlyReveals(s.grid, t.grid);
      }
    }
  }
}
