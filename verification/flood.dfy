/** `reveal` (src/main.rs lines 88-140): uncover a cell and, when it has no
    adjacent mines, recursively reveal its eight neighbours.  The recursion is
    modelled by three mutually recursive functions, `Reveal` (one cell),
    `Step` (one guarded recursive call) and `Cascade` (the eight calls in the
    source's order); they terminate because every cell they uncover lowers
    the number of hidden cells. */
module Flood {
  import opened Grids
  import opened Board
  import opened Minesweeper

  predicate IsZero(b: seq<seq<int>>, x: int, y: int) {
    0 <= y < |b| && 0 <= x < |b[y]| && b[y][x] == 0
  }

  function HiddenCells(g: Game): (int, int) -> bool {
    (x: int, y: int) => g.Has(x, y) && !IsRevealed(g, x, y)
  }

  /** Number of cells not yet revealed: the termination measure. */
  function Hidden(g: Game): nat {
    CountCells(HiddenCells(g), g.Width(), g.Height())
  }

  /** (x, y) is revealed in `c` but was not in `a`. */
  predicate Newly(a: Game, c: Game, x: int, y: int) {
    !IsRevealed(a, x, y) && IsRevealed(c, x, y)
  }

  predicate NewZero(a: Game, c: Game, x: int, y: int) {
    Newly(a, c, x, y) && IsZero(a.board, x, y)
  }

  /** A neighbour position the cascade is done with: one it need not (off
      the board), cannot (flagged) or no longer needs to (revealed) uncover.
      It is not the same as uncovered. */
  predicate Settled(c: Game, x: int, y: int) {
    !c.Has(x, y) || IsFlagged(c, x, y) || IsRevealed(c, x, y)
  }

  predicate NeighboursSettled(c: Game, x: int, y: int) {
    Settled(c, x - 1, y - 1) && Settled(c, x, y - 1) && Settled(c, x + 1, y - 1)
    && Settled(c, x - 1, y) && Settled(c, x + 1, y)
    && Settled(c, x - 1, y + 1) && Settled(c, x, y + 1) && Settled(c, x + 1, y + 1)
  }

  /** Some neighbour of (x, y) is a zero cell newly revealed between `a` and `c`. */
  predicate ZeroNeighbourOpened(a: Game, c: Game, x: int, y: int) {
    NewZero(a, c, x - 1, y - 1) || NewZero(a, c, x, y - 1) || NewZero(a, c, x + 1, y - 1)
    || NewZero(a, c, x - 1, y) || NewZero(a, c, x + 1, y)
    || NewZero(a, c, x - 1, y + 1) || NewZero(a, c, x, y + 1) || NewZero(a, c, x + 1, y + 1)
  }

  /** Only the reveal grid and `gameOver` may differ. */
  predicate Frame(a: Game, c: Game) {
    && c.board == a.board && c.flagged == a.flagged && c.win == a.win
    && c.numberOfMines == a.numberOfMines && c.cursor == a.cursor
    && IsGrid(c.revealed, a.Width(), a.Height())
  }

  /** Revealed cells stay revealed. */
  ghost predicate Monotone(a: Game, c: Game) {
    forall y, x :: IsRevealed(a, x, y) ==> IsRevealed(c, x, y)
  }

  /** A flagged cell is never uncovered. */
  ghost predicate FlagsRespected(a: Game, c: Game) {
    forall y, x :: Newly(a, c, x, y) ==> !IsFlagged(a, x, y)
  }

  /** The game is over exactly when it already was or a mine was uncovered. */
  ghost predicate LossRule(a: Game, c: Game) {
    && (a.gameOver ==> c.gameOver)
    && (forall y, x :: Newly(a, c, x, y) && IsMine(a.board, x, y) ==> c.gameOver)
    && (c.gameOver ==> a.gameOver || exists y, x :: Newly(a, c, x, y) && IsMine(a.board, x, y))
  }

  /** Every zero cell uncovered has all its unflagged neighbours uncovered. */
  ghost predicate ZerosOpened(a: Game, c: Game) {
    forall y, x :: NewZero(a, c, x, y) ==> NeighboursSettled(c, x, y)
  }

  /** What every part of `reveal` guarantees about the state it leaves. */
  ghost predicate Grows(a: Game, c: Game) {
    && Frame(a, c)
    && Hidden(c) <= Hidden(a)
    && Monotone(a, c)
    && FlagsRespected(a, c)
    && LossRule(a, c)
    && ZerosOpened(a, c)
  }

  /** The flood stops at numbered cells: every newly revealed cell other
      than the origin touches a newly revealed zero cell.  This is a local
      condition; that nothing out of the flood's reach is uncovered is
      `RevealFacts.RevealLeast`. */
  ghost predicate Spread(a: Game, c: Game, ox: int, oy: int) {
    forall y, x :: Newly(a, c, x, y) && (x != ox || y != oy) ==> ZeroNeighbourOpened(a, c, x, y)
  }

  /** The same for a cascade around (ox, oy): a newly revealed cell is a
      neighbour of (ox, oy) or touches a newly revealed zero cell. */
  ghost predicate SpreadAround(a: Game, c: Game, ox: int, oy: int) {
    forall y, x :: Newly(a, c, x, y) ==> Adjacent(x, y, ox, oy) || ZeroNeighbourOpened(a, c, x, y)
  }

  lemma SettledStays(a: Game, c: Game)
    requires Frame(a, c) && Monotone(a, c)
    ensures forall y, x :: Settled(a, x, y) ==> Settled(c, x, y)
  {
  }

  lemma GrowsRefl(g: Game, x: int, y: int)
    requires g.Shaped()
    ensures Grows(g, g) && SpreadAround(g, g, x, y)
  {
  }

  lemma LossTrans(a: Game, b: Game, c: Game)
    requires a.board == b.board && Monotone(a, b) && Monotone(b, c)
    requires LossRule(a, b) && LossRule(b, c)
    ensures LossRule(a, c)
  {
    forall y, x | Newly(a, c, x, y) && IsMine(a.board, x, y)
      ensures c.gameOver
    {
      if !IsRevealed(b, x, y) {
        assert Newly(b, c, x, y);
      }
    }
    if c.gameOver && !a.gameOver {
      if b.gameOver {
        var y, x :| Newly(a, b, x, y) && IsMine(a.board, x, y);
        assert Newly(a, c, x, y);
      } else {
        var y, x :| Newly(b, c, x, y) && IsMine(b.board, x, y);
        assert Newly(a, c, x, y);
      }
    }
  }

  lemma ZerosTrans(a: Game, b: Game, c: Game)
    requires Frame(a, b) && Frame(b, c) && Monotone(b, c)
    requires ZerosOpened(a, b) && ZerosOpened(b, c)
    ensures ZerosOpened(a, c)
  {
    SettledStays(b, c);
    forall y, x | NewZero(a, c, x, y)
      ensures NeighboursSettled(c, x, y)
    {
      if IsRevealed(b, x, y) {
        assert NewZero(a, b, x, y);
      } else {
        assert NewZero(b, c, x, y);
      }
    }
  }

  lemma GrowsTrans(a: Game, b: Game, c: Game)
    requires Grows(a, b) && Grows(b, c)
    ensures Grows(a, c)
  {
    LossTrans(a, b, c);
    ZerosTrans(a, b, c);
    assert FlagsRespected(a, c) by {
      forall y, x | Newly(a, c, x, y)
        ensures !IsFlagged(a, x, y)
      {
        if IsRevealed(b, x, y) {
          assert Newly(a, b, x, y);
        } else {
          assert Newly(b, c, x, y);
        }
      }
    }
  }

  lemma ZeroNeighbourWiden(a: Game, b: Game, c: Game, d: Game, x: int, y: int)
    requires a.board == c.board
    requires forall yy, xx :: Newly(a, b, xx, yy) ==> Newly(c, d, xx, yy)
    ensures ZeroNeighbourOpened(a, b, x, y) ==> ZeroNeighbourOpened(c, d, x, y)
  {
  }

  lemma AdjacentToNewZero(a: Game, c: Game, x: int, y: int, ox: int, oy: int)
    requires Adjacent(x, y, ox, oy) && NewZero(a, c, ox, oy)
    ensures ZeroNeighbourOpened(a, c, x, y)
  {
  }

  /** The k-th neighbour of (x, y) in the order the source visits them. */
  function NeighbourAt(x: int, y: int, k: int): (int, int) {
    if k == 0 then (x - 1, y - 1)
    else if k == 1 then (x, y - 1)
    else if k == 2 then (x + 1, y - 1)
    else if k == 3 then (x - 1, y)
    else if k == 4 then (x + 1, y)
    else if k == 5 then (x - 1, y + 1)
    else if k == 6 then (x, y + 1)
    else (x + 1, y + 1)
  }

  /** The first k neighbours of (x, y) are settled. */
  ghost predicate SettledUpTo(c: Game, x: int, y: int, k: int) {
    forall i :: 0 <= i < k ==> Settled(c, NeighbourAt(x, y, i).0, NeighbourAt(x, y, i).1)
  }

  lemma SettledUpToAll(c: Game, x: int, y: int)
    requires SettledUpTo(c, x, y, 8)
    ensures NeighboursSettled(c, x, y)
  {
    assert NeighbourAt(x, y, 0) == (x - 1, y - 1);
    assert NeighbourAt(x, y, 1) == (x, y - 1);
    assert NeighbourAt(x, y, 2) == (x + 1, y - 1);
    assert NeighbourAt(x, y, 3) == (x - 1, y);
    assert NeighbourAt(x, y, 4) == (x + 1, y);
    assert NeighbourAt(x, y, 5) == (x - 1, y + 1);
    assert NeighbourAt(x, y, 6) == (x, y + 1);
    assert NeighbourAt(x, y, 7) == (x + 1, y + 1);
  }

  /** The k-th guarded call of a cascade around (x, y) keeps the cascade's
      guarantees and opens the k-th neighbour.  `go` is the source's bounds
      test for that neighbour. */
  lemma Extend(g: Game, gk: Game, gk1: Game, k: int, go: bool, x: int, y: int)
    requires g.Shaped() && 0 <= k < 8
    requires Grows(g, gk) && SpreadAround(g, gk, x, y) && SettledUpTo(gk, x, y, k)
    requires Grows(gk, gk1)
    requires Spread(gk, gk1, NeighbourAt(x, y, k).0, NeighbourAt(x, y, k).1)
    requires go <==> g.Has(NeighbourAt(x, y, k).0, NeighbourAt(x, y, k).1)
    requires go && !IsFlagged(gk, NeighbourAt(x, y, k).0, NeighbourAt(x, y, k).1) ==>
               IsRevealed(gk1, NeighbourAt(x, y, k).0, NeighbourAt(x, y, k).1)
    ensures Grows(g, gk1) && SpreadAround(g, gk1, x, y) && SettledUpTo(gk1, x, y, k + 1)
    ensures gk1.Shaped()
  {
    var n := NeighbourAt(x, y, k);
    GrowsTrans(g, gk, gk1);
    SettledStays(gk, gk1);
    assert Settled(gk1, n.0, n.1);
    forall yy, xx | Newly(g, gk1, xx, yy)
      ensures Adjacent(xx, yy, x, y) || ZeroNeighbourOpened(g, gk1, xx, yy)
    {
      if IsRevealed(gk, xx, yy) {
        assert Newly(g, gk, xx, yy);
        ZeroNeighbourWiden(g, gk, g, gk1, xx, yy);
      } else {
        assert Newly(gk, gk1, xx, yy);
        ZeroNeighbourWiden(gk, gk1, g, gk1, xx, yy);
      }
    }
  }

  /** Uncovering one cell (lines 91-94): mark it revealed and end the game
      when it is a mine. */
  function Uncover(g: Game, x: int, y: int): (r: Game)
    requires g.Shaped() && g.Has(x, y) && !IsFlagged(g, x, y) && !IsRevealed(g, x, y)
    ensures Frame(g, r) && Monotone(g, r) && FlagsRespected(g, r) && LossRule(g, r)
    ensures Hidden(r) < Hidden(g)
    ensures IsRevealed(r, x, y)
    ensures forall cy, cx :: (cx != x || cy != y) ==> IsRevealed(r, cx, cy) == IsRevealed(g, cx, cy)
  {
    var r := g.(revealed := Update(g.revealed, x, y, true),
                gameOver := if g.board[y][x] == MINE then true else g.gameOver);
    CountOneMore(HiddenCells(r), HiddenCells(g), g.Width(), g.Height(), x, y);
    assert Newly(g, r, x, y);
    r
  }

  /** A cell with adjacent mines (or a mine) is uncovered alone. */
  lemma UncoverAlone(g: Game, u: Game, x: int, y: int)
    requires g.Shaped() && g.Has(x, y) && !IsFlagged(g, x, y) && !IsRevealed(g, x, y)
    requires !IsZero(g.board, x, y) && u == Uncover(g, x, y)
    ensures Grows(g, u) && Spread(g, u, x, y)
  {
  }

  /** A zero cell is uncovered and then its cascade runs. */
  lemma UncoverThenCascade(g: Game, u: Game, r: Game, x: int, y: int)
    requires g.Shaped() && g.Has(x, y) && !IsFlagged(g, x, y) && !IsRevealed(g, x, y)
    requires IsZero(g.board, x, y) && u == Uncover(g, x, y)
    requires Grows(u, r) && SpreadAround(u, r, x, y) && SettledUpTo(r, x, y, 8)
    ensures Grows(g, r) && Spread(g, r, x, y)
  {
    SettledUpToAll(r, x, y);
    LossTrans(g, u, r);
    assert NewZero(g, r, x, y);
    forall cy, cx | Newly(g, r, cx, cy) && (cx != x || cy != y)
      ensures ZeroNeighbourOpened(g, r, cx, cy)
    {
      assert Newly(u, r, cx, cy);
      if Adjacent(cx, cy, x, y) {
        AdjacentToNewZero(g, r, cx, cy, x, y);
      } else {
        ZeroNeighbourWiden(u, r, g, r, cx, cy);
      }
    }
    forall cy, cx | Newly(g, r, cx, cy)
      ensures !IsFlagged(g, cx, cy)
    {
      if cx != x || cy != y {
        assert Newly(u, r, cx, cy);
      }
    }
    forall cy, cx | NewZero(g, r, cx, cy)
      ensures NeighboursSettled(r, cx, cy)
    {
      if cx != x || cy != y {
        assert NewZero(u, r, cx, cy);
      }
    }
  }

  /** `reveal(x, y)`.  A flagged or already revealed cell is left alone;
      otherwise the cell is uncovered, a mine ends the game, and a cell with
      no adjacent mines reveals its unflagged neighbours recursively.  Only
      `revealed` and `gameOver` change (`Grows`); every other newly uncovered
      cell touches a newly uncovered zero (`Spread`); a cell with adjacent
      mines, and in particular a mine, is uncovered alone. */
  function Reveal(g: Game, x: int, y: int): (r: Game)
    requires g.Shaped() && g.Has(x, y)
    ensures Grows(g, r) && Spread(g, r, x, y)
    ensures IsFlagged(g, x, y) || IsRevealed(g, x, y) ==> r.revealed == g.revealed && r.gameOver == g.gameOver
    ensures !IsFlagged(g, x, y) ==> IsRevealed(r, x, y)
    ensures !IsZero(g.board, x, y) ==>
              forall cy, cx :: (cx != x || cy != y) ==> IsRevealed(r, cx, cy) == IsRevealed(g, cx, cy)
    decreases Hidden(g), 0, 0
  {
    if g.flagged[y][x] || g.revealed[y][x] then
      GrowsRefl(g, x, y);
      g
    else
      var uncovered := Uncover(g, x, y);
      if g.board[y][x] == 0 then
        var r := Cascade(uncovered, x, y, 0);
        UncoverThenCascade(g, uncovered, r, x, y);
        r
      else
        UncoverAlone(g, uncovered, x, y);
        uncovered
  }

  /** One guarded recursive call of the cascade. */
  function Step(g: Game, x: int, y: int, go: bool): (r: Game)
    requires g.Shaped() && (go ==> g.Has(x, y))
    ensures Grows(g, r) && Spread(g, r, x, y)
    ensures go && !IsFlagged(g, x, y) ==> IsRevealed(r, x, y)
    ensures !go ==> r.revealed == g.revealed && r.gameOver == g.gameOver
    decreases Hidden(g), 1, 0
  {
    if go then Reveal(g, x, y)
    else
      GrowsRefl(g, x, y);
      g
  }

  /** The source's bounds test guarding the recursive call on the k-th
      neighbour of (x, y) (lines 99, 104, 109, 114, 119, 124, 129, 134). */
  function Guard(x: int, y: int, w: int, h: int, k: int): bool {
    if k == 0 then x > 0 && y > 0
    else if k == 1 then y > 0
    else if k == 2 then x < w - 1 && y > 0
    else if k == 3 then x > 0
    else if k == 4 then x < w - 1
    else if k == 5 then x > 0 && y < h - 1
    else if k == 6 then y < h - 1
    else x < w - 1 && y < h - 1
  }

  /** Joining two stretches of a cascade around (x, y). */
  lemma CascadeJoin(a: Game, b: Game, c: Game, x: int, y: int)
    requires Grows(a, b) && SpreadAround(a, b, x, y)
    requires Grows(b, c) && SpreadAround(b, c, x, y)
    ensures Grows(a, c) && SpreadAround(a, c, x, y)
  {
    GrowsTrans(a, b, c);
    forall yy, xx | Newly(a, c, xx, yy)
      ensures Adjacent(xx, yy, x, y) || ZeroNeighbourOpened(a, c, xx, yy)
    {
      if IsRevealed(b, xx, yy) {
        assert Newly(a, b, xx, yy);
        ZeroNeighbourWiden(a, b, a, c, xx, yy);
      } else {
        assert Newly(b, c, xx, yy);
        ZeroNeighbourWiden(b, c, a, c, xx, yy);
      }
    }
  }

  /** The recursive calls of lines 98-136 on the neighbours k..7 of (x, y),
      in the source's order, each under the source's bounds test.
      Afterwards every neighbour of (x, y) is off the board, flagged or
      revealed. */
  function Cascade(g: Game, x: int, y: int, k: int): (r: Game)
    requires g.Shaped() && g.Has(x, y) && 0 <= k <= 8 && SettledUpTo(g, x, y, k)
    ensures Grows(g, r) && SpreadAround(g, r, x, y)
    ensures SettledUpTo(r, x, y, 8)
    decreases Hidden(g), 2, 8 - k
  {
    GrowsRefl(g, x, y);
    if k == 8 then g
    else
      var n := NeighbourAt(x, y, k);
      var go := Guard(x, y, g.Width(), g.Height(), k);
      var g1 := Step(g, n.0, n.1, go);
      Extend(g, g, g1, k, go, x, y);
      var r := Cascade(g1, x, y, k + 1);
      CascadeJoin(g, g1, r, x, y);
      r
  }
}
