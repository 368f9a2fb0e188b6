/** The board engine of the game page, over the page's two-dimensional grid
    of cells: building the grid, laying mines, filling in adjacency counts,
    the recursive reveal of empty cells, and showing every bomb. The grid's
    dimensions play the part of the page's rows and cols. */
module Engine {
  import opened Grid
  import opened Board

  predicate InGrid(g: array2<Cell>, r: int, c: int)
  {
    0 <= r < g.Length0 && 0 <= c < g.Length1
  }

  /** The grid's contents as a value. */
  ghost function Snap(g: array2<Cell>): (m: Snapshot)
    reads g
    ensures m.Keys == Positions(g.Length0, g.Length1)
    ensures forall p :: p in m ==> m[p] == g[p.0, p.1]
  {
    map p | p in Positions(g.Length0, g.Length1) :: g[p.0, p.1]
  }

  /** createInitialGrid: rows x cols fresh cells, each knowing its position. */
  method CreateInitialGrid(rows: nat, cols: nat) returns (g: array2<Cell>)
    ensures fresh(g) && g.Length0 == rows && g.Length1 == cols
    ensures forall i, j :: InGrid(g, i, j) ==> g[i, j] == FreshCell(i, j)
  {
    g := new Cell[rows, cols]((i, j) => FreshCell(i, j));
  }

  /** A grid just built has no bombs, flags or revealed cells, and every
      count is right. */
  lemma FreshGrid(g: array2<Cell>)
    requires forall i, j :: InGrid(g, i, j) ==> g[i, j] == FreshCell(i, j)
    ensures Placed(Snap(g))
    ensures BombsOf(Snap(g)) == {} && FlaggedOf(Snap(g)) == {} && RevealedSafeOf(Snap(g)) == {}
    ensures UnrevealedOf(Snap(g)) == Positions(g.Length0, g.Length1)
  {
    var m := Snap(g);
    assert BombsOf(m) == {};
    assert FlaggedOf(m) == {};
    assert RevealedSafeOf(m) == {};
    assert UnrevealedOf(m) == Positions(g.Length0, g.Length1);
  }

  /** placeMines, with the random draws given as the sequence draws of the
      positions the loop draws in turn. A draw equal to the excluded
      position or to a bomb is rejected; any other becomes a bomb, until
      mineCount have been placed. The stream must hold enough positions the
      loop accepts; that is only possible when mineCount < rows * cols. */
  method PlaceMines(g: array2<Cell>, mineCount: nat, excludeRow: int, excludeCol: int, draws: seq<Pos>)
    requires forall k :: 0 <= k < |draws| ==> InGrid(g, draws[k].0, draws[k].1)
    requires |Accepted(draws, |draws|, (excludeRow, excludeCol)) - BombsOf(Snap(g))| >= mineCount
    modifies g
    ensures OnlyMines(old(Snap(g)), Snap(g), (excludeRow, excludeCol), Accepted(draws, |draws|, (excludeRow, excludeCol)))
    ensures |BombsOf(Snap(g))| == |BombsOf(old(Snap(g)))| + mineCount
    ensures exists n :: 0 <= n <= |draws| && BombsOf(Snap(g)) == BombsOf(old(Snap(g))) + Accepted(draws, n, (excludeRow, excludeCol))
  {
    ghost var m0 := Snap(g);
    ghost var excluded := (excludeRow, excludeCol);
    if g.Length0 == 0 {
      AcceptedWithin(draws, |draws|, excluded, m0.Keys);
      PlacementStart(m0, draws, excluded);
      PlacementDone(m0, m0, draws, 0, excluded, 0);
      assert BombsOf(m0) == BombsOf(m0) + Accepted(draws, 0, excluded);
      return;
    }
    var placedMines := 0;
    var i := 0;
    ghost var m := m0;
    PlacementStart(m0, draws, excluded);
    while placedMines < mineCount
      invariant 0 <= i <= |draws| && placedMines <= mineCount
      invariant Mirrors(g, m) && PlacementInv(m0, m, draws, i, excluded, placedMines)
      decreases |draws| - i
    {
      if i == |draws| {
        PlacementExhausted(m0, m, draws, excluded, placedMines);
        assert false;
      }
      placedMines, m := PlaceAttempt(g, excludeRow, excludeCol, draws, i, placedMines, m0, m);
      i := i + 1;
    }
    MirrorIsSnap(g, m);
    PlacementDone(m0, m, draws, i, excluded, placedMines);
    assert BombsOf(Snap(g)) == BombsOf(m0) + Accepted(draws, i, excluded);
  }

  /** The ghost map m holds exactly what the grid holds. */
  ghost predicate Mirrors(g: array2<Cell>, m: Snapshot)
    reads g
  {
    m.Keys == Positions(g.Length0, g.Length1) &&
    forall r, c :: InGrid(g, r, c) ==> g[r, c] == m[(r, c)]
  }

  lemma MirrorIsSnap(g: array2<Cell>, m: Snapshot)
    ensures Mirrors(g, m) <==> Snap(g) == m
  {
  }

  /** One pass of the placement loop, on the draw draws[i]. */
  method PlaceAttempt(g: array2<Cell>, excludeRow: int, excludeCol: int, draws: seq<Pos>, i: nat, placed: int,
                      ghost m0: Snapshot, ghost m: Snapshot) returns (placed': int, ghost m': Snapshot)
    requires i < |draws| && InGrid(g, draws[i].0, draws[i].1)
    requires Mirrors(g, m) && PlacementInv(m0, m, draws, i, (excludeRow, excludeCol), placed)
    modifies g
    ensures Mirrors(g, m') && PlacementInv(m0, m', draws, i + 1, (excludeRow, excludeCol), placed')
    ensures placed <= placed' <= placed + 1
  {
    var randomRow, randomCol := draws[i].0, draws[i].1;
    PlacementStep(m0, m, draws, i, (excludeRow, excludeCol), placed);
    if (randomRow == excludeRow && randomCol == excludeCol) || g[randomRow, randomCol].isBomb {
      placed', m' := placed, m;
    } else {
      g[randomRow, randomCol] := g[randomRow, randomCol].(isBomb := true);
      placed', m' := placed + 1, m[draws[i] := m[draws[i]].(isBomb := true)];
    }
  }

  /** Storing one cell changes the grid at that position only; m follows
      the grid along. */
  method SetCell(g: array2<Cell>, r: int, c: int, cell: Cell, ghost m: Snapshot)
    requires InGrid(g, r, c) && Mirrors(g, m)
    modifies g
    ensures Mirrors(g, m[(r, c) := cell])
  {
    g[r, c] := cell;
  }

  /** calculateNeighboringMines: every bomb gets BombMark, every other cell
      the number of bombs among its in-bounds neighbours. */
  method CalculateNeighboringMines(g: array2<Cell>)
    modifies g
    ensures CountsFilled(old(Snap(g)), Snap(g), g.Length0, g.Length1)
  {
    ghost var m0 := Snap(g);
    ghost var bombs := BombsOf(m0);
    for row := 0 to g.Length0
      invariant forall i, j :: InGrid(g, i, j) ==>
        g[i, j] == if i < row then m0[(i, j)].(neighboringMines := CountFor(bombs, g.Length0, g.Length1, (i, j), m0[(i, j)].isBomb))
                   else m0[(i, j)]
    {
      CountRow(g, row, bombs);
    }
  }

  /** One pass of the outer loop of calculateNeighboringMines: the counts of
      row row are filled in; bombs are the grid's bomb positions. */
  method CountRow(g: array2<Cell>, row: int, ghost bombs: set<Pos>)
    requires 0 <= row < g.Length0
    requires forall i, j :: InGrid(g, i, j) ==> (g[i, j].isBomb <==> (i, j) in bombs)
    modifies g
    ensures forall i, j :: InGrid(g, i, j) ==>
      g[i, j] == if i == row then old(g[i, j]).(neighboringMines := CountFor(bombs, g.Length0, g.Length1, (i, j), old(g[i, j]).isBomb))
                 else old(g[i, j])
  {
    for col := 0 to g.Length1
      invariant forall i, j :: InGrid(g, i, j) ==>
        g[i, j] == if i == row && j < col then old(g[i, j]).(neighboringMines := CountFor(bombs, g.Length0, g.Length1, (i, j), old(g[i, j]).isBomb))
                   else old(g[i, j])
    {
      var mineCount := BombMark;
      if !g[row, col].isBomb {
        mineCount := CountAdjacent(g, row, col, bombs);
      }
      g[row, col] := g[row, col].(neighboringMines := mineCount);
    }
  }

  /** The loop over the eight offsets in calculateNeighboringMines: how many
      in-bounds neighbours of (row, col) are bombs, given that bombs are
      exactly the bomb positions of the grid. */
  method CountAdjacent(g: array2<Cell>, row: int, col: int, ghost bombs: set<Pos>) returns (mineCount: int)
    requires forall i, j :: InGrid(g, i, j) ==> (g[i, j].isBomb <==> (i, j) in bombs)
    ensures mineCount == AdjacentBombs(bombs, g.Length0, g.Length1, row, col)
  {
    mineCount := 0;
    for k := 0 to |Directions|
      invariant mineCount == BombsAmong(bombs, g.Length0, g.Length1, row, col, k)
    {
      var newRow, newCol := row + Directions[k].0, col + Directions[k].1;
      if 0 <= newRow < g.Length0 && 0 <= newCol < g.Length1 && g[newRow, newCol].isBomb {
        mineCount := mineCount + 1;
      }
    }
  }

  /** revealEmptyCells: reveal (row, col) unless it is outside the grid,
      revealed, a bomb or flagged; if it has no adjacent mines, go on from
      each in-bounds neighbour. Returns n plus the number of cells revealed.
      The recursion ends because each call past the guard reveals a cell. */
  method RevealEmptyCells(g: array2<Cell>, row: int, col: int, n: int) returns (count: int)
    modifies g
    ensures Filled(old(Snap(g)), Snap(g), (row, col))
    ensures count == n + |RevealedSafeOf(Snap(g))| - |RevealedSafeOf(old(Snap(g)))|
    decreases |UnrevealedOf(Snap(g))|, 1
  {
    ghost var m0 := Snap(g);
    ghost var seed := (row, col);
    if !InGrid(g, row, col) || g[row, col].isRevealed || g[row, col].isBomb || g[row, col].isFlagged {
      return n;
    }
    g[row, col] := g[row, col].(isRevealed := true);
    count := n + 1;
    FillStart(m0, Snap(g), seed);
    if g[row, col].neighboringMines == 0 {
      for k := 0 to |Directions|
        invariant FillLoopInv(m0, Snap(g), seed, k)
        invariant count == n + |RevealedSafeOf(Snap(g))| - |RevealedSafeOf(m0)|
      {
        count := RevealNeighbour(g, row, col, k, count, m0);
      }
      FillEnd(m0, Snap(g), seed);
    }
  }

  /** revealEmptyCells from (row, col) on a grid m0 mirrors: the grid then
      mirrors a fill of m0 from (row, col), and the count grows by the
      number of cells the fill revealed. */
  method RevealFrom(g: array2<Cell>, row: int, col: int, n: int, ghost m0: Snapshot) returns (count: int, ghost m: Snapshot)
    requires Mirrors(g, m0)
    modifies g
    ensures Mirrors(g, m) && Filled(m0, m, (row, col))
    ensures count == n + |NewlyOf(m0, m)|
  {
    MirrorIsSnap(g, m0);
    count := RevealEmptyCells(g, row, col, n);
    m := Snap(g);
    FillCount(m0, m);
    MirrorIsSnap(g, m);
  }

  /** One pass of the loop over the eight offsets in revealEmptyCells: the
      recursive call on the neighbour in direction k, if it is on the grid. */
  method RevealNeighbour(g: array2<Cell>, row: int, col: int, k: nat, n: int, ghost m0: Snapshot) returns (count: int)
    requires k < |Directions| && FillLoopInv(m0, Snap(g), (row, col), k)
    modifies g
    ensures FillLoopInv(m0, Snap(g), (row, col), k + 1)
    ensures count == n + |RevealedSafeOf(Snap(g))| - |RevealedSafeOf(old(Snap(g)))|
    decreases |UnrevealedOf(m0)|, 0
  {
    var newRow, newCol := row + Directions[k].0, col + Directions[k].1;
    if 0 <= newRow < g.Length0 && 0 <= newCol < g.Length1 {
      ghost var before := Snap(g);
      UnrevealedShrinks(m0, before, (row, col));
      assert (newRow, newCol) == Step(row, col, k);
      assert FillLoopInv(m0, before, (row, col), k) && (newRow, newCol) in before;
      count := RevealEmptyCells(g, newRow, newCol, n);
      ghost var after := Snap(g);
      assert Filled(before, after, (newRow, newCol));
      FillLoopStep(m0, before, after, (row, col), k, (newRow, newCol));
    } else {
      count := n;
      FillLoopSkip(m0, Snap(g), (row, col), k);
    }
  }

  /** The forEach of the bomb branch of handleReveal: every bomb becomes
      revealed, nothing else changes. */
  method RevealAllBombs(g: array2<Cell>)
    modifies g
    ensures forall i, j :: InGrid(g, i, j) ==> g[i, j] == old(g[i, j]).(isRevealed := old(g[i, j]).isRevealed || old(g[i, j]).isBomb)
    ensures Snap(g) == RevealBombs(old(Snap(g)))
  {
    for r := 0 to g.Length0
      invariant forall i, j :: InGrid(g, i, j) ==>
        g[i, j] == if i < r then old(g[i, j]).(isRevealed := old(g[i, j]).isRevealed || old(g[i, j]).isBomb) else old(g[i, j])
    {
      for c := 0 to g.Length1
        invariant forall i, j :: InGrid(g, i, j) ==>
          g[i, j] == if i < r || (i == r && j < c) then old(g[i, j]).(isRevealed := old(g[i, j]).isRevealed || old(g[i, j]).isBomb)
                     else old(g[i, j])
      {
        if g[r, c].isBomb {
          g[r, c] := g[r, c].(isRevealed := true);
        }
      }
    }
  }
}
