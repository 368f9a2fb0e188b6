/** The cell record of the game page and the pure specification of the
    engine's operations, stated over a snapshot of the grid: the map from
    each position to the cell stored there. The engine's array procedures
    promise these predicates of the snapshots taken before and after. */
module Board {
  import opened Grid

  /** One board cell as the page stores it; neighboringMines holds
      BombMark on a bomb. */
  datatype Cell = Cell(row: int, col: int, isBomb: bool, isRevealed: bool, isFlagged: bool, neighboringMines: int)

  /** The value the adjacency pass stores in a bomb cell. */
  const BombMark: int := -1

  /** The cell createInitialGrid puts at (r, c). */
  function FreshCell(r: int, c: int): (cell: Cell)
    ensures cell.row == r && cell.col == c
    ensures !cell.isBomb && !cell.isRevealed && !cell.isFlagged && cell.neighboringMines == 0
  {
    Cell(r, c, false, false, false, 0)
  }

  /** The grid's contents: the cell at every position. */
  type Snapshot = map<Pos, Cell>

  ghost function BombsOf(m: Snapshot): set<Pos>
  {
    set p | p in m && m[p].isBomb
  }

  ghost function FlaggedOf(m: Snapshot): set<Pos>
  {
    set p | p in m && m[p].isFlagged
  }

  /** The revealed cells that are not bombs: what revealedCount counts. */
  ghost function RevealedSafeOf(m: Snapshot): set<Pos>
  {
    set p | p in m && m[p].isRevealed && !m[p].isBomb
  }

  ghost function UnrevealedOf(m: Snapshot): set<Pos>
  {
    set p | p in m && !m[p].isRevealed
  }

  /** Every cell sits at the position its row and col fields name. */
  ghost predicate Placed(m: Snapshot)
  {
    forall p :: p in m ==> m[p].row == p.0 && m[p].col == p.1
  }

  // ---------------------------------------------------------------------
  // Mine placement and adjacency counts

  /** The distinct draws among the first n that the placement loop does not
      reject for being the excluded position. */
  ghost function Accepted(draws: seq<Pos>, n: nat, excluded: Pos): set<Pos>
    requires n <= |draws|
  {
    if n == 0 then {}
    else Accepted(draws, n - 1, excluded) + (if draws[n - 1] != excluded then {draws[n - 1]} else {})
  }

  lemma {:induction false} AcceptedNotExcluded(draws: seq<Pos>, n: nat, excluded: Pos, p: Pos)
    requires n <= |draws| && p in Accepted(draws, n, excluded)
    ensures p != excluded && exists k :: 0 <= k < n && draws[k] == p
  {
    if p !in Accepted(draws, n - 1, excluded) {
      assert draws[n - 1] == p;
    } else {
      AcceptedNotExcluded(draws, n - 1, excluded, p);
    }
  }

  /** The accepted draws are among the draws. */
  lemma {:induction false} AcceptedWithin(draws: seq<Pos>, n: nat, excluded: Pos, within: set<Pos>)
    requires n <= |draws| && forall k :: 0 <= k < |draws| ==> draws[k] in within
    ensures Accepted(draws, n, excluded) <= within
  {
    if n > 0 {
      AcceptedWithin(draws, n - 1, excluded, within);
    }
  }

  /** m is m0 with some cells turned into bombs: never the excluded one, and
      each of them one of the draws. */
  ghost predicate OnlyMines(m0: Snapshot, m: Snapshot, excluded: Pos, draws: set<Pos>)
  {
    m.Keys == m0.Keys &&
    forall p :: p in m0 ==>
      m[p] == m0[p].(isBomb := m[p].isBomb) &&
      (m[p].isBomb != m0[p].isBomb ==> m[p].isBomb && p != excluded && p in draws)
  }

  /** The invariant of the placement loop after i draws, placed of them
      accepted: every accepted draw so far is a bomb, and nothing else has
      changed. */
  ghost predicate PlacementInv(m0: Snapshot, m: Snapshot, draws: seq<Pos>, i: nat, excluded: Pos, placed: int)
    requires i <= |draws|
  {
    OnlyMines(m0, m, excluded, Accepted(draws, i, excluded)) &&
    BombsOf(m) == BombsOf(m0) + Accepted(draws, i, excluded) &&
    placed == |BombsOf(m)| - |BombsOf(m0)|
  }

  lemma PlacementStart(m0: Snapshot, draws: seq<Pos>, excluded: Pos)
    ensures PlacementInv(m0, m0, draws, 0, excluded, 0)
  {
  }

  /** A draw of the excluded position or of a bomb is skipped. */
  lemma PlacementReject(m0: Snapshot, m: Snapshot, draws: seq<Pos>, i: nat, excluded: Pos, placed: int)
    requires i < |draws| && PlacementInv(m0, m, draws, i, excluded, placed)
    requires draws[i] == excluded || (draws[i] in m && m[draws[i]].isBomb)
    ensures PlacementInv(m0, m, draws, i + 1, excluded, placed)
  {
    var acc, acc' := Accepted(draws, i, excluded), Accepted(draws, i + 1, excluded);
    if draws[i] == excluded {
      assert acc' == acc;
    } else {
      assert acc' == acc + {draws[i]};
      assert draws[i] in BombsOf(m);
      assert BombsOf(m0) + acc' == BombsOf(m0) + acc;
    }
  }

  /** Any other draw becomes a bomb and is counted. */
  lemma PlacementAccept(m0: Snapshot, m1: Snapshot, m2: Snapshot, draws: seq<Pos>, i: nat, excluded: Pos, placed: int)
    requires i < |draws| && PlacementInv(m0, m1, draws, i, excluded, placed)
    requires draws[i] in m1 && draws[i] != excluded && !m1[draws[i]].isBomb
    requires m2 == m1[draws[i] := m1[draws[i]].(isBomb := true)]
    ensures PlacementInv(m0, m2, draws, i + 1, excluded, placed + 1)
  {
    var p := draws[i];
    var acc, acc' := Accepted(draws, i, excluded), Accepted(draws, i + 1, excluded);
    assert acc' == acc + {p};
    BombsOfSet(m1, p);
    OnlyMinesGrow(m0, m1, excluded, acc, acc', p);
  }

  lemma OnlyMinesGrow(m0: Snapshot, m1: Snapshot, excluded: Pos, acc: set<Pos>, acc': set<Pos>, p: Pos)
    requires OnlyMines(m0, m1, excluded, acc) && acc' == acc + {p}
    requires p in m1 && p != excluded
    ensures OnlyMines(m0, m1[p := m1[p].(isBomb := true)], excluded, acc')
  {
  }

  /** Turning the non-bomb p into a bomb adds p to the bombs. */
  lemma BombsOfSet(m: Snapshot, p: Pos)
    requires p in m && !m[p].isBomb
    ensures BombsOf(m[p := m[p].(isBomb := true)]) == BombsOf(m) + {p}
    ensures p !in BombsOf(m)
  {
  }

  /** A stream holding mineCount accepted non-bombs is never used up first. */
  lemma PlacementExhausted(m0: Snapshot, m: Snapshot, draws: seq<Pos>, excluded: Pos, placed: int)
    requires PlacementInv(m0, m, draws, |draws|, excluded, placed)
    ensures placed == |Accepted(draws, |draws|, excluded) - BombsOf(m0)|
  {
    UnionCard(BombsOf(m0), Accepted(draws, |draws|, excluded));
  }

  /** One pass of the placement loop keeps its invariant, whichever way
      the draw goes. */
  lemma PlacementStep(m0: Snapshot, m: Snapshot, draws: seq<Pos>, i: nat, excluded: Pos, placed: int)
    requires i < |draws| && PlacementInv(m0, m, draws, i, excluded, placed) && draws[i] in m
    ensures draws[i] == excluded || m[draws[i]].isBomb ==> PlacementInv(m0, m, draws, i + 1, excluded, placed)
    ensures draws[i] != excluded && !m[draws[i]].isBomb ==>
      PlacementInv(m0, m[draws[i] := m[draws[i]].(isBomb := true)], draws, i + 1, excluded, placed + 1)
  {
    if draws[i] == excluded || m[draws[i]].isBomb {
      PlacementReject(m0, m, draws, i, excluded, placed);
    } else {
      PlacementAccept(m0, m, m[draws[i] := m[draws[i]].(isBomb := true)], draws, i, excluded, placed);
    }
  }

  lemma PlacementDone(m0: Snapshot, m: Snapshot, draws: seq<Pos>, i: nat, excluded: Pos, placed: int)
    requires i <= |draws| && PlacementInv(m0, m, draws, i, excluded, placed)
    ensures OnlyMines(m0, m, excluded, Accepted(draws, |draws|, excluded))
    ensures |BombsOf(m)| == |BombsOf(m0)| + placed
  {
    AcceptedGrows(draws, i, |draws|, excluded);
  }

  lemma {:induction false} AcceptedGrows(draws: seq<Pos>, n: nat, n': nat, excluded: Pos)
    requires n <= n' <= |draws|
    ensures Accepted(draws, n, excluded) <= Accepted(draws, n', excluded)
    decreases n' - n
  {
    if n < n' {
      AcceptedGrows(draws, n, n' - 1, excluded);
    }
  }

  /** The count the adjacency pass stores in a cell at p. */
  function CountFor(bombs: set<Pos>, rows: int, cols: int, p: Pos, isBomb: bool): int
  {
    if isBomb then BombMark else AdjacentBombs(bombs, rows, cols, p.0, p.1)
  }

  /** m is m0 with every cell's count filled in from m0's bombs. */
  ghost predicate CountsFilled(m0: Snapshot, m: Snapshot, rows: int, cols: int)
  {
    m.Keys == m0.Keys &&
    forall p {:trigger m[p]} :: p in m0 ==>
      m[p] == m0[p].(neighboringMines := CountFor(BombsOf(m0), rows, cols, p, m0[p].isBomb))
  }

  /** Every count agrees with the bombs. */
  ghost predicate CountsConsistent(m: Snapshot, rows: int, cols: int)
  {
    forall p {:trigger m[p].neighboringMines} :: p in m ==>
      m[p].neighboringMines == CountFor(BombsOf(m), rows, cols, p, m[p].isBomb)
  }

  /** After the adjacency pass every count is right: BombMark exactly on the
      bombs, otherwise a number of adjacent bombs between 0 and 8; nothing
      but the counts changed. */
  lemma CountsFilledConsistent(m0: Snapshot, m: Snapshot, rows: int, cols: int)
    requires CountsFilled(m0, m, rows, cols)
    ensures BombsOf(m) == BombsOf(m0)
    ensures CountsConsistent(m, rows, cols)
    ensures forall p :: p in m ==> (m[p].isBomb <==> m[p].neighboringMines == BombMark)
    ensures forall p :: p in m ==> -1 <= m[p].neighboringMines <= 8
  {
    assert BombsOf(m) == BombsOf(m0);
  }

  // ---------------------------------------------------------------------
  // The recursive reveal

  /** A cell the fill may reveal: present, hidden, not a bomb, not flagged. */
  predicate Eligible(m: Snapshot, p: Pos)
  {
    p in m && !m[p].isRevealed && !m[p].isBomb && !m[p].isFlagged
  }

  /** A cell the fill leaves alone. */
  predicate Covered(cell: Cell)
  {
    cell.isRevealed || cell.isFlagged || cell.isBomb
  }

  /** p was hidden in m0 and is revealed in m. */
  predicate Newly(m0: Snapshot, m: Snapshot, p: Pos)
  {
    p in m0 && p in m && m[p].isRevealed && !m0[p].isRevealed
  }

  ghost function NewlyOf(m0: Snapshot, m: Snapshot): set<Pos>
  {
    set p | p in m0 && Newly(m0, m, p)
  }

  /** m is m0 with some eligible cells revealed, and no other change. */
  ghost predicate OnlyReveals(m0: Snapshot, m: Snapshot)
  {
    m.Keys == m0.Keys &&
    forall p :: p in m0 ==>
      m[p] == m0[p].(isRevealed := m[p].isRevealed) &&
      (m[p].isRevealed != m0[p].isRevealed ==> Eligible(m0, p))
  }

  /** The grid after a bomb is hit: every bomb revealed, nothing else changed. */
  ghost function RevealBombs(m: Snapshot): (r: Snapshot)
    ensures r.Keys == m.Keys
    ensures forall q :: q in m ==> r[q] == m[q].(isRevealed := m[q].isRevealed || m[q].isBomb)
  {
    map q | q in m :: m[q].(isRevealed := m[q].isRevealed || m[q].isBomb)
  }

  /** Revealing a bomb first changes nothing about showing every bomb. */
  lemma RevealBombsAfterHit(m: Snapshot, p: Pos)
    requires p in m && m[p].isBomb
    ensures RevealBombs(m[p := m[p].(isRevealed := true)]) == RevealBombs(m)
  {
    var m1 := m[p := m[p].(isRevealed := true)];
    assert forall q :: q in m ==> RevealBombs(m1)[q] == RevealBombs(m)[q];
  }

  /** path leads from seed to p through newly revealed cells, stepping
      between adjacent cells and leaving only cells with no adjacent mines. */
  ghost predicate FillPath(m0: Snapshot, m: Snapshot, path: seq<Pos>, seed: Pos, p: Pos)
  {
    |path| > 0 && path[0] == seed && path[|path| - 1] == p &&
    (forall i :: 0 <= i < |path| ==> Newly(m0, m, path[i])) &&
    (forall i :: 0 <= i < |path| - 1 ==>
       m[path[i]].neighboringMines == 0 && Adjacent(path[i].0, path[i].1, path[i + 1].0, path[i + 1].1))
  }

  /** Every newly revealed cell was reached from seed. */
  ghost predicate Rooted(m0: Snapshot, m: Snapshot, seed: Pos)
  {
    forall p :: Newly(m0, m, p) ==> exists path :: FillPath(m0, m, path, seed, p)
  }

  /** No cell around p is one the fill could still reveal. */
  ghost predicate NeighboursCovered(m: Snapshot, p: Pos)
  {
    forall q :: q in m && Adjacent(p.0, p.1, q.0, q.1) ==> Covered(m[q])
  }

  /** Newly revealed cells with no adjacent mines, other than skip, have
      been expanded. */
  ghost predicate ClosedExcept(m0: Snapshot, m: Snapshot, skip: set<Pos>)
  {
    forall p :: Newly(m0, m, p) && p !in skip && m[p].neighboringMines == 0 ==> NeighboursCovered(m, p)
  }

  /** What one call of the recursive reveal from seed achieves. */
  ghost predicate Filled(m0: Snapshot, m: Snapshot, seed: Pos)
  {
    OnlyReveals(m0, m) && Rooted(m0, m, seed) && ClosedExcept(m0, m, {}) &&
    (Eligible(m0, seed) ==> m[seed].isRevealed) &&
    (!Eligible(m0, seed) ==> m == m0)
  }

  /** Reference definition of the flood region, over the grid before the
      fill: path leads from seed to p through cells the fill may reveal,
      leaving only cells with no adjacent mines. */
  ghost predicate ZeroPath(m0: Snapshot, path: seq<Pos>, seed: Pos, p: Pos)
  {
    |path| > 0 && path[0] == seed && path[|path| - 1] == p &&
    (forall i :: 0 <= i < |path| ==> Eligible(m0, path[i])) &&
    (forall i :: 0 <= i < |path| - 1 ==>
       m0[path[i]].neighboringMines == 0 && Adjacent(path[i].0, path[i].1, path[i + 1].0, path[i + 1].1))
  }

  ghost predicate Reachable(m0: Snapshot, seed: Pos, p: Pos)
  {
    exists path :: ZeroPath(m0, path, seed, p)
  }

  /** Revealing only eligible cells keeps bombs and flags and the revealed
      non-bomb cells, and hides nothing. */
  lemma OnlyRevealsKeeps(m0: Snapshot, m: Snapshot)
    requires OnlyReveals(m0, m)
    ensures BombsOf(m) == BombsOf(m0) && FlaggedOf(m) == FlaggedOf(m0)
    ensures RevealedSafeOf(m0) <= RevealedSafeOf(m)
    ensures UnrevealedOf(m) <= UnrevealedOf(m0)
  {
    assert BombsOf(m) == BombsOf(m0);
    assert FlaggedOf(m) == FlaggedOf(m0);
  }

  lemma OnlyRevealsTrans(m0: Snapshot, m1: Snapshot, m2: Snapshot)
    requires OnlyReveals(m0, m1) && OnlyReveals(m1, m2)
    ensures OnlyReveals(m0, m2)
  {
    forall p | p in m0
      ensures m2[p] == m0[p].(isRevealed := m2[p].isRevealed)
      ensures m2[p].isRevealed != m0[p].isRevealed ==> Eligible(m0, p)
    {
    }
  }

  /** A filled path stays one when more cells are revealed afterwards. */
  lemma FillPathLater(m0: Snapshot, m1: Snapshot, m2: Snapshot, path: seq<Pos>, seed: Pos, p: Pos)
    requires OnlyReveals(m0, m1) && OnlyReveals(m1, m2)
    requires FillPath(m0, m1, path, seed, p)
    ensures FillPath(m0, m2, path, seed, p)
  {
    forall i | 0 <= i < |path| ensures Newly(m0, m2, path[i]) {
      assert Newly(m0, m1, path[i]);
    }
    forall i | 0 <= i < |path| - 1 ensures m2[path[i]].neighboringMines == 0 {
      assert m1[path[i]].neighboringMines == 0;
    }
  }

  /** A path of a later fill from q, prefixed by seed. */
  lemma FillPathExtend(m0: Snapshot, m1: Snapshot, m2: Snapshot, path: seq<Pos>, seed: Pos, q: Pos, p: Pos)
    requires OnlyReveals(m0, m1) && OnlyReveals(m1, m2)
    requires Newly(m0, m1, seed) && m1[seed].neighboringMines == 0 && Adjacent(seed.0, seed.1, q.0, q.1)
    requires FillPath(m1, m2, path, q, p)
    ensures FillPath(m0, m2, [seed] + path, seed, p)
  {
    var full := [seed] + path;
    forall i | 0 <= i < |full| ensures Newly(m0, m2, full[i]) {
      if i > 0 {
        assert full[i] == path[i - 1];
        assert Newly(m1, m2, path[i - 1]);
      }
    }
    forall i | 0 <= i < |full| - 1
      ensures m2[full[i]].neighboringMines == 0 && Adjacent(full[i].0, full[i].1, full[i + 1].0, full[i + 1].1)
    {
      if i > 0 {
        assert full[i] == path[i - 1] && full[i + 1] == path[i];
      }
    }
  }

  /** The offsets of Step(seed, i) for i < k lead only to covered cells. */
  ghost predicate StepsCovered(m: Snapshot, seed: Pos, k: nat)
    requires k <= |Directions|
  {
    forall i :: 0 <= i < k && Step(seed.0, seed.1, i) in m ==> Covered(m[Step(seed.0, seed.1, i)])
  }

  /** The invariant of the loop over the eight offsets of a seed with no
      adjacent mines, after k of them. */
  ghost predicate FillLoopInv(m0: Snapshot, m: Snapshot, seed: Pos, k: nat)
    requires k <= |Directions|
  {
    OnlyReveals(m0, m) && Newly(m0, m, seed) && m[seed].neighboringMines == 0 &&
    Rooted(m0, m, seed) && ClosedExcept(m0, m, {seed}) && StepsCovered(m, seed, k)
  }

  /** m1 is m0 with the eligible seed revealed: the first step of the fill.
      The revealed non-bomb cells grow by exactly the seed. */
  lemma FillStart(m0: Snapshot, m1: Snapshot, seed: Pos)
    requires Eligible(m0, seed)
    requires m1.Keys == m0.Keys
    requires forall p :: p in m0 ==> m1[p] == if p == seed then m0[p].(isRevealed := true) else m0[p]
    ensures OnlyReveals(m0, m1) && Newly(m0, m1, seed) && Rooted(m0, m1, seed)
    ensures ClosedExcept(m0, m1, {seed})
    ensures m1[seed].neighboringMines == 0 ==> FillLoopInv(m0, m1, seed, 0)
    ensures m1[seed].neighboringMines != 0 ==> Filled(m0, m1, seed)
    ensures |RevealedSafeOf(m1)| == |RevealedSafeOf(m0)| + 1
  {
    forall p | Newly(m0, m1, p) ensures exists path :: FillPath(m0, m1, path, seed, p) {
      assert p == seed;
      assert FillPath(m0, m1, [seed], seed, p);
    }
    assert RevealedSafeOf(m1) == RevealedSafeOf(m0) + {seed};
  }

  /** One offset of the loop: the recursive call on a neighbour q of the
      seed keeps the loop invariant and covers q. */
  lemma FillLoopStep(m0: Snapshot, m1: Snapshot, m2: Snapshot, seed: Pos, k: nat, q: Pos)
    requires k < |Directions| && q == Step(seed.0, seed.1, k)
    requires FillLoopInv(m0, m1, seed, k)
    requires q in m1 && Filled(m1, m2, q)
    ensures FillLoopInv(m0, m2, seed, k + 1)
  {
    DirectionsExact(k);
    OnlyRevealsTrans(m0, m1, m2);
    forall p | Newly(m0, m2, p) ensures exists path :: FillPath(m0, m2, path, seed, p) {
      if Newly(m0, m1, p) {
        var path :| FillPath(m0, m1, path, seed, p);
        FillPathLater(m0, m1, m2, path, seed, p);
      } else {
        assert Newly(m1, m2, p);
        var path :| FillPath(m1, m2, path, q, p);
        FillPathExtend(m0, m1, m2, path, seed, q, p);
      }
    }
    forall p | Newly(m0, m2, p) && p !in {seed} && m2[p].neighboringMines == 0
      ensures NeighboursCovered(m2, p)
    {
      if Newly(m0, m1, p) {
        assert NeighboursCovered(m1, p);
      } else {
        assert Newly(m1, m2, p);
      }
    }
    forall i | 0 <= i < k + 1 && Step(seed.0, seed.1, i) in m2
      ensures Covered(m2[Step(seed.0, seed.1, i)])
    {
      if i < k {
        assert Covered(m1[Step(seed.0, seed.1, i)]);
      }
    }
  }

  /** An offset that leads off the board needs no call. */
  lemma FillLoopSkip(m0: Snapshot, m: Snapshot, seed: Pos, k: nat)
    requires k < |Directions|
    requires FillLoopInv(m0, m, seed, k) && Step(seed.0, seed.1, k) !in m
    ensures FillLoopInv(m0, m, seed, k + 1)
  {
  }

  /** After all eight offsets the seed is expanded too: the fill is done. */
  lemma FillEnd(m0: Snapshot, m: Snapshot, seed: Pos)
    requires FillLoopInv(m0, m, seed, |Directions|)
    ensures Filled(m0, m, seed)
  {
    forall q | q in m && Adjacent(seed.0, seed.1, q.0, q.1) ensures Covered(m[q]) {
      var k := DirectionIndex(q.0 - seed.0, q.1 - seed.1);
      assert Step(seed.0, seed.1, k) == q;
    }
    assert NeighboursCovered(m, seed);
  }

  /** Once the seed is revealed, fewer cells are hidden than before the fill
      began: the measure of the recursion. */
  lemma UnrevealedShrinks(m0: Snapshot, m: Snapshot, seed: Pos)
    requires OnlyReveals(m0, m) && Newly(m0, m, seed)
    ensures |UnrevealedOf(m)| < |UnrevealedOf(m0)|
  {
    OnlyRevealsKeeps(m0, m);
    assert UnrevealedOf(m) <= UnrevealedOf(m0) - {seed};
    SubsetCard(UnrevealedOf(m), UnrevealedOf(m0) - {seed});
  }

  lemma {:induction false} PathRevealed(m0: Snapshot, m: Snapshot, path: seq<Pos>, seed: Pos, p: Pos, i: nat)
    requires Filled(m0, m, seed) && ZeroPath(m0, path, seed, p) && i < |path|
    ensures Newly(m0, m, path[i])
  {
    if i > 0 {
      PathRevealed(m0, m, path, seed, p, i - 1);
      var a, b := path[i - 1], path[i];
      assert NeighboursCovered(m, a);
      assert Covered(m[b]);
    }
  }

  /** The flood-fill law: one call of the recursive reveal from seed reveals
      exactly the cells reachable from seed through cells it may reveal,
      where only cells with no adjacent mines are passed through. So it
      reveals the connected region of such cells and its numbered border,
      and nothing beyond. */
  lemma FillRevealsRegion(m0: Snapshot, m: Snapshot, seed: Pos, p: Pos)
    requires Filled(m0, m, seed)
    ensures Newly(m0, m, p) <==> Reachable(m0, seed, p)
  {
    if Newly(m0, m, p) {
      var path :| FillPath(m0, m, path, seed, p);
      forall i | 0 <= i < |path| ensures Eligible(m0, path[i]) {
        assert Newly(m0, m, path[i]);
      }
      forall i | 0 <= i < |path| - 1 ensures m0[path[i]].neighboringMines == 0 {
        assert Newly(m0, m, path[i]);
      }
      assert ZeroPath(m0, path, seed, p);
    }
    if Reachable(m0, seed, p) {
      var path :| ZeroPath(m0, path, seed, p);
      PathRevealed(m0, m, path, seed, p, |path| - 1);
    }
  }

  /** The fill counts what it reveals: every newly revealed cell is a
      non-bomb, so revealedCount grows by the number of cells revealed. */
  lemma FillCount(m0: Snapshot, m: Snapshot)
    requires OnlyReveals(m0, m)
    ensures RevealedSafeOf(m) == RevealedSafeOf(m0) + NewlyOf(m0, m)
    ensures RevealedSafeOf(m0) * NewlyOf(m0, m) == {}
  {
  }
}
