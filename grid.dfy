/** Geometry of a rows x cols Minesweeper board: its positions, the eight
    neighbour offsets used by the engine, and the number of bombs around a
    position. Everything here is a pure value; the engine's array-based
    procedures are specified in these terms. */
module Grid {

  /** A (row, column) position. */
  type Pos = (int, int)

  predicate InBounds(rows: int, cols: int, r: int, c: int)
  {
    0 <= r < rows && 0 <= c < cols
  }

  /** All positions of a rows x cols board. */
  ghost function Positions(rows: int, cols: int): (ps: set<Pos>)
    ensures forall p :: p in ps <==> InBounds(rows, cols, p.0, p.1)
  {
    set i, j | 0 <= i < rows && 0 <= j < cols :: (i, j)
  }

  /** The positions of row r. */
  ghost function RowPositions(r: int, cols: int): (ps: set<Pos>)
    ensures forall p :: p in ps <==> p.0 == r && 0 <= p.1 < cols
  {
    set j | 0 <= j < cols :: (r, j)
  }

  lemma {:induction false} RowCard(r: int, cols: nat)
    ensures |RowPositions(r, cols)| == cols
  {
    if cols == 0 {
      assert RowPositions(r, 0) == {};
    } else {
      RowCard(r, cols - 1);
      assert RowPositions(r, cols) == RowPositions(r, cols - 1) + {(r, cols - 1)};
    }
  }

  /** The board splits into its first rows - 1 rows and its last row. */
  lemma PositionsSplit(rows: nat, cols: nat)
    requires rows > 0
    ensures Positions(rows, cols) == Positions(rows - 1, cols) + RowPositions(rows - 1, cols)
    ensures Positions(rows - 1, cols) * RowPositions(rows - 1, cols) == {}
  {
    var all, above, last := Positions(rows, cols), Positions(rows - 1, cols), RowPositions(rows - 1, cols);
    forall p ensures p in all <==> p in above || p in last {
    }
    forall p | p in above ensures p !in last {
    }
  }

  /** A board of rows x cols has rows * cols positions. */
  lemma {:induction false} PositionsCard(rows: nat, cols: nat)
    ensures |Positions(rows, cols)| == rows * cols
  {
    if rows == 0 {
      assert Positions(0, cols) == {};
    } else {
      PositionsCard(rows - 1, cols);
      RowCard(rows - 1, cols);
      PositionsSplit(rows, cols);
      assert rows * cols == (rows - 1) * cols + cols;
    }
  }

  /** A subset is no larger than its superset. */
  lemma {:induction false} SubsetCard<T>(a: set<T>, b: set<T>)
    requires a <= b
    ensures |a| <= |b|
    decreases a
  {
    if a != {} {
      var x :| x in a;
      SubsetCard(a - {x}, b - {x});
    }
  }

  lemma UnionCard<T>(a: set<T>, b: set<T>)
    ensures |a + b| == |a| + |b - a|
  {
    assert a + b == a + (b - a);
    assert a * (b - a) == {};
  }

  /** A subset of the same size is the whole set. */
  lemma {:induction false} SubsetSameCard<T>(a: set<T>, b: set<T>)
    requires a <= b && |a| == |b|
    ensures a == b
  {
    if a != b {
      assert !(forall y :: y in b ==> y in a);
      var x :| x in b && x !in a;
      SubsetCard(a, b - {x});
    }
  }

  /** The eight neighbour offsets, in the order the page lists them. */
  const Directions: seq<Pos> := [(-1, -1), (-1, 0), (-1, 1), (0, -1), (0, 1), (1, -1), (1, 0), (1, 1)]

  /** (a, b) is one of the (up to) eight cells around (r, c). */
  predicate Adjacent(r: int, c: int, a: int, b: int)
  {
    (a, b) != (r, c) && -1 <= a - r <= 1 && -1 <= b - c <= 1
  }

  /** The index of an offset in Directions: every non-zero offset in
      {-1, 0, 1}^2 occurs there exactly once. */
  function DirectionIndex(dr: int, dc: int): (k: nat)
    requires (dr, dc) != (0, 0) && -1 <= dr <= 1 && -1 <= dc <= 1
    ensures k < |Directions| && Directions[k] == (dr, dc)
  {
    if dr == -1 then (if dc == -1 then 0 else if dc == 0 then 1 else 2)
    else if dr == 0 then (if dc == -1 then 3 else 4)
    else (if dc == -1 then 5 else if dc == 0 then 6 else 7)
  }

  /** Directions holds exactly the offsets of adjacent cells, with no repeats. */
  lemma DirectionsExact(k: nat)
    requires k < |Directions|
    ensures Adjacent(0, 0, Directions[k].0, Directions[k].1)
    ensures DirectionIndex(Directions[k].0, Directions[k].1) == k
  {
  }

  /** The target of the k-th offset from (r, c). */
  function Step(r: int, c: int, k: nat): Pos
    requires k < |Directions|
  {
    (r + Directions[k].0, c + Directions[k].1)
  }

  /** How many of the first k offsets lead from (r, c) to an in-bounds bomb;
      this is the inner loop of the page's adjacency computation. */
  function BombsAmong(bombs: set<Pos>, rows: int, cols: int, r: int, c: int, k: nat): (n: nat)
    requires k <= |Directions|
    ensures n <= k
  {
    if k == 0 then 0
    else
      var t := Step(r, c, k - 1);
      BombsAmong(bombs, rows, cols, r, c, k - 1) + (if InBounds(rows, cols, t.0, t.1) && t in bombs then 1 else 0)
  }

  /** Number of bombs in the eight cells around (r, c). */
  function AdjacentBombs(bombs: set<Pos>, rows: int, cols: int, r: int, c: int): (n: nat)
    ensures n <= 8
  {
    BombsAmong(bombs, rows, cols, r, c, |Directions|)
  }

  /** Reference definition: the set of in-bounds bombs adjacent to (r, c). */
  ghost function NeighbourBombs(bombs: set<Pos>, rows: int, cols: int, r: int, c: int): set<Pos>
  {
    set p | p in bombs && InBounds(rows, cols, p.0, p.1) && Adjacent(r, c, p.0, p.1)
  }

  /** The in-bounds bombs reached by the first k offsets. */
  ghost function BombTargets(bombs: set<Pos>, rows: int, cols: int, r: int, c: int, k: nat): set<Pos>
    requires k <= |Directions|
  {
    set i | 0 <= i < k && InBounds(rows, cols, Step(r, c, i).0, Step(r, c, i).1) && Step(r, c, i) in bombs :: Step(r, c, i)
  }

  /** Two different offsets lead to different targets. */
  lemma StepInjective(r: int, c: int, i: nat, j: nat)
    requires i < j < |Directions|
    ensures Step(r, c, i) != Step(r, c, j)
  {
    DirectionsExact(i);
    DirectionsExact(j);
  }

  lemma BombTargetsStep(bombs: set<Pos>, rows: int, cols: int, r: int, c: int, k: nat)
    requires 0 < k <= |Directions|
    ensures var t := Step(r, c, k - 1);
      BombTargets(bombs, rows, cols, r, c, k) ==
        BombTargets(bombs, rows, cols, r, c, k - 1) + (if InBounds(rows, cols, t.0, t.1) && t in bombs then {t} else {})
    ensures Step(r, c, k - 1) !in BombTargets(bombs, rows, cols, r, c, k - 1)
  {
    var t := Step(r, c, k - 1);
    if t in BombTargets(bombs, rows, cols, r, c, k - 1) {
      var i :| 0 <= i < k - 1 && Step(r, c, i) == t;
      StepInjective(r, c, i, k - 1);
    }
  }

  lemma {:induction false} BombsAmongCounts(bombs: set<Pos>, rows: int, cols: int, r: int, c: int, k: nat)
    requires k <= |Directions|
    ensures |BombTargets(bombs, rows, cols, r, c, k)| == BombsAmong(bombs, rows, cols, r, c, k)
  {
    if k == 0 {
      assert BombTargets(bombs, rows, cols, r, c, 0) == {};
    } else {
      BombsAmongCounts(bombs, rows, cols, r, c, k - 1);
      BombTargetsStep(bombs, rows, cols, r, c, k);
    }
  }

  /** The eight-offset count equals the number of distinct in-bounds bomb
      neighbours: no neighbour is counted twice or missed. */
  lemma AdjacentBombsIsNeighbourCount(bombs: set<Pos>, rows: int, cols: int, r: int, c: int)
    ensures AdjacentBombs(bombs, rows, cols, r, c) == |NeighbourBombs(bombs, rows, cols, r, c)|
  {
    BombsAmongCounts(bombs, rows, cols, r, c, |Directions|);
    var targets := BombTargets(bombs, rows, cols, r, c, |Directions|);
    forall p | p in NeighbourBombs(bombs, rows, cols, r, c)
      ensures p in targets
    {
      var k := DirectionIndex(p.0 - r, p.1 - c);
      assert Step(r, c, k) == p;
    }
    forall p | p in targets
      ensures p in NeighbourBombs(bombs, rows, cols, r, c)
    {
      var i :| 0 <= i < |Directions| && Step(r, c, i) == p;
      DirectionsExact(i);
    }
    assert targets == NeighbourBombs(bombs, rows, cols, r, c);
  }
}
