/** Properties of `reveal` that relate several calls, or that hold in a
    valid game only. */
module RevealFacts {
  import opened Grids
  import opened Board
  import opened Minesweeper
  import opened Flood

  /** Revealing the same cell twice is the same as revealing it once. */
  lemma RevealTwice(g: Game, x: int, y: int)
    requires g.Shaped() && g.Has(x, y)
    ensures Reveal(Reveal(g, x, y), x, y) == Reveal(g, x, y)
  {
  }

  /** `reveal` keeps the game invariant. */
  lemma RevealKeepsValid(g: Game, x: int, y: int)
    requires Valid(g) && g.Has(x, y)
    ensures Valid(Reveal(g, x, y))
  {
    var r := Reveal(g, x, y);
    assert r.Shaped();
    forall cy, cx
      ensures !(IsFlagged(r, cx, cy) && IsRevealed(r, cx, cy))
    {
      if IsRevealed(r, cx, cy) && !IsRevealed(g, cx, cy) {
        assert Newly(g, r, cx, cy);
      }
    }
  }

  /** Uncovering a hidden, unflagged mine ends the game and uncovers nothing
      else. */
  lemma RevealMine(g: Game, x: int, y: int)
    requires g.Shaped() && g.Has(x, y)
    requires !IsFlagged(g, x, y) && !IsRevealed(g, x, y) && IsMine(g.board, x, y)
    ensures Reveal(g, x, y).gameOver
    ensures forall cy, cx :: IsRevealed(Reveal(g, x, y), cx, cy) <==> IsRevealed(g, cx, cy) || (cx == x && cy == y)
  {
    var r := Reveal(g, x, y);
    assert Newly(g, r, x, y);
  }

  /** Uncovering a hidden, unflagged zero cell uncovers every unflagged
      neighbour. */
  lemma RevealZero(g: Game, x: int, y: int)
    requires g.Shaped() && g.Has(x, y)
    requires !IsFlagged(g, x, y) && !IsRevealed(g, x, y) && IsZero(g.board, x, y)
    ensures NeighboursSettled(Reveal(g, x, y), x, y)
  {
    var r := Reveal(g, x, y);
    assert NewZero(g, r, x, y);
  }

  /** A mine next to (zx, zy) is counted in its adjacent mines. */
  lemma MineCounted(b: seq<seq<int>>, zx: int, zy: int, x: int, y: int)
    requires Adjacent(x, y, zx, zy)
    ensures MineAt(b, x, y) <= AdjacentMines(b, zx, zy)
  {
  }

  /** In a consistent board a zero cell has no mine among its neighbours. */
  lemma ZeroHasNoMineNeighbour(b: seq<seq<int>>, w: int, h: int, zx: int, zy: int, x: int, y: int)
    requires Consistent(b, w, h) && IsZero(b, zx, zy) && Adjacent(x, y, zx, zy)
    ensures !IsMine(b, x, y)
  {
    MineCounted(b, zx, zy, x, y);
  }

  /** The newly revealed zero cell that a cell touches. */
  lemma ZeroNeighbourWitness(g: Game, r: Game, x: int, y: int) returns (zx: int, zy: int)
    requires ZeroNeighbourOpened(g, r, x, y)
    ensures NewZero(g, r, zx, zy) && Adjacent(x, y, zx, zy)
  {
    if NewZero(g, r, x - 1, y - 1) { zx, zy := x - 1, y - 1; }
    else if NewZero(g, r, x, y - 1) { zx, zy := x, y - 1; }
    else if NewZero(g, r, x + 1, y - 1) { zx, zy := x + 1, y - 1; }
    else if NewZero(g, r, x - 1, y) { zx, zy := x - 1, y; }
    else if NewZero(g, r, x + 1, y) { zx, zy := x + 1, y; }
    else if NewZero(g, r, x - 1, y + 1) { zx, zy := x - 1, y + 1; }
    else if NewZero(g, r, x, y + 1) { zx, zy := x, y + 1; }
    else { zx, zy := x + 1, y + 1; }
  }

  /** A cell next to a newly revealed zero cell is no mine. */
  lemma NoMineNearNewZero(g: Game, r: Game, x: int, y: int)
    requires Consistent(g.board, g.Width(), g.Height()) && ZeroNeighbourOpened(g, r, x, y)
    ensures !IsMine(g.board, x, y)
  {
    var zx, zy := ZeroNeighbourWitness(g, r, x, y);
    ZeroHasNoMineNeighbour(g.board, g.Width(), g.Height(), zx, zy, x, y);
  }

  /** In a valid game the flood never uncovers a mine, so `reveal` ends the
      game exactly when it was over already or the chosen cell itself is a
      mine that was hidden and unflagged. */
  lemma RevealLoss(g: Game, x: int, y: int)
    requires Valid(g) && g.Has(x, y)
    ensures forall cy, cx :: Newly(g, Reveal(g, x, y), cx, cy) && (cx != x || cy != y) ==> !IsMine(g.board, cx, cy)
    ensures Reveal(g, x, y).gameOver <==>
              g.gameOver || (!IsFlagged(g, x, y) && !IsRevealed(g, x, y) && IsMine(g.board, x, y))
  {
    var r := Reveal(g, x, y);
    forall cy, cx | Newly(g, r, cx, cy) && (cx != x || cy != y)
      ensures !IsMine(g.board, cx, cy)
    {
      NoMineNearNewZero(g, r, cx, cy);
    }
    if r.gameOver && !g.gameOver {
      var cy, cx :| Newly(g, r, cx, cy) && IsMine(g.board, cx, cy);
      assert cx == x && cy == y;
    }
    if !IsFlagged(g, x, y) && !IsRevealed(g, x, y) {
      assert Newly(g, r, x, y);
    }
  }

  // ---------------------------------------------------------------------
  // A mine-free board floods completely
  // ---------------------------------------------------------------------

  /** Every revealed cell has its (unflagged, here: all) neighbours revealed. */
  ghost predicate Closed(r: Game) {
    && (forall y, x :: !IsFlagged(r, x, y))
    && (forall y, x :: IsRevealed(r, x, y) ==> NeighboursSettled(r, x, y))
  }

  lemma {:induction false} SweepRight(r: Game, x: int, y: int)
    requires r.Shaped() && Closed(r) && r.Has(x, y) && IsRevealed(r, x, y)
    ensures forall i :: x <= i < r.Width() ==> IsRevealed(r, i, y)
    decreases r.Width() - x
  {
    if x + 1 < r.Width() {
      assert Settled(r, x + 1, y);
      SweepRight(r, x + 1, y);
    }
  }

  lemma {:induction false} SweepLeft(r: Game, x: int, y: int)
    requires r.Shaped() && Closed(r) && r.Has(x, y) && IsRevealed(r, x, y)
    ensures forall i :: 0 <= i <= x ==> IsRevealed(r, i, y)
    decreases x
  {
    if x > 0 {
      assert Settled(r, x - 1, y);
      SweepLeft(r, x - 1, y);
    }
  }

  lemma {:induction false} SweepDown(r: Game, x: int, y: int)
    requires r.Shaped() && Closed(r) && r.Has(x, y) && IsRevealed(r, x, y)
    ensures forall j :: y <= j < r.Height() ==> IsRevealed(r, x, j)
    decreases r.Height() - y
  {
    if y + 1 < r.Height() {
      assert Settled(r, x, y + 1);
      SweepDown(r, x, y + 1);
    }
  }

  lemma {:induction false} SweepUp(r: Game, x: int, y: int)
    requires r.Shaped() && Closed(r) && r.Has(x, y) && IsRevealed(r, x, y)
    ensures forall j :: 0 <= j <= y ==> IsRevealed(r, x, j)
    decreases y
  {
    if y > 0 {
      assert Settled(r, x, y - 1);
      SweepUp(r, x, y - 1);
    }
  }

  /** A closed revealed region on a flag-free board that contains one cell
      contains every cell. */
  lemma ClosedIsEverything(r: Game, x0: int, y0: int)
    requires r.Shaped() && Closed(r) && r.Has(x0, y0) && IsRevealed(r, x0, y0)
    ensures forall y, x :: r.Has(x, y) ==> IsRevealed(r, x, y)
  {
    SweepRight(r, x0, y0);
    SweepLeft(r, x0, y0);
    forall y, x | r.Has(x, y)
      ensures IsRevealed(r, x, y)
    {
      assert IsRevealed(r, x, y0);
      SweepDown(r, x, y0);
      SweepUp(r, x, y0);
    }
  }

  /** After a flood from a board that had nothing revealed and only zero
      cells, the revealed region is closed. */
  lemma FloodIsClosed(g: Game, r: Game)
    requires g.Shaped() && Frame(g, r) && ZerosOpened(g, r)
    requires forall cy, cx :: g.Has(cx, cy) ==> g.board[cy][cx] == 0
    requires forall cy, cx :: !IsFlagged(g, cx, cy) && !IsRevealed(g, cx, cy)
    ensures Closed(r)
  {
    forall cy, cx | IsRevealed(r, cx, cy)
      ensures NeighboursSettled(r, cx, cy)
    {
      assert g.Has(cx, cy);
      assert NewZero(g, r, cx, cy);
    }
    forall cy, cx
      ensures !IsFlagged(r, cx, cy)
    {
      assert IsFlagged(r, cx, cy) == IsFlagged(g, cx, cy);
    }
  }

  /** On a board without mines, with nothing flagged or revealed, one
      `reveal` uncovers every cell. */
  lemma EmptyBoardFloods(g: Game, x: int, y: int)
    requires g.Shaped() && g.Has(x, y)
    requires forall cy, cx :: g.Has(cx, cy) ==> g.board[cy][cx] == 0
    requires forall cy, cx :: !IsFlagged(g, cx, cy) && !IsRevealed(g, cx, cy)
    ensures forall cy, cx :: g.Has(cx, cy) ==> IsRevealed(Reveal(g, x, y), cx, cy)
  {
    var r := Reveal(g, x, y);
    assert Grows(g, r);
    assert r.Shaped() && IsRevealed(r, x, y);
    FloodIsClosed(g, r);
    ClosedIsEverything(r, x, y);
  }

  // ---------------------------------------------------------------------
  // The flood uncovers nothing it cannot reach
  // ---------------------------------------------------------------------

  /** (x, y) is on the board, hidden and unflagged: a recursive call on it
      would uncover it. */
  predicate Coverable(g: Game, x: int, y: int) {
    g.Has(x, y) && !IsFlagged(g, x, y) && !IsRevealed(g, x, y)
  }

  /** Every coverable neighbour of (x, y) lies in `s`. */
  ghost predicate NeighboursIn(g: Game, x: int, y: int, s: set<(int, int)>) {
    forall ny, nx :: Adjacent(nx, ny, x, y) && Coverable(g, nx, ny) ==> (nx, ny) in s
  }

  /** `s` is closed under the cascade: with every coverable zero cell it
      holds that cell's coverable neighbours. */
  ghost predicate FloodClosed(g: Game, s: set<(int, int)>) {
    forall cy, cx :: (cx, cy) in s && Coverable(g, cx, cy) && IsZero(g.board, cx, cy) ==> NeighboursIn(g, cx, cy, s)
  }

  /** Uncovering cells and ending the game keep a closed set closed. */
  lemma ClosedStays(a: Game, c: Game, s: set<(int, int)>)
    requires Frame(a, c) && Monotone(a, c) && FloodClosed(a, s)
    ensures FloodClosed(c, s)
  {
  }

  lemma NeighboursStay(a: Game, c: Game, x: int, y: int, s: set<(int, int)>)
    requires Frame(a, c) && Monotone(a, c) && NeighboursIn(a, x, y, s)
    ensures NeighboursIn(c, x, y, s)
  {
  }

  /** The flood is the least closed set around its origin: whatever set
      holds (x, y) and is closed under the cascade holds every cell that
      `reveal(x, y)` uncovers.  A zero cell the flood cannot reach through
      zero cells stays covered. */
  lemma {:induction false} RevealLeast(g: Game, x: int, y: int, s: set<(int, int)>)
    requires g.Shaped() && g.Has(x, y) && (x, y) in s && FloodClosed(g, s)
    ensures forall cy, cx :: Newly(g, Reveal(g, x, y), cx, cy) ==> (cx, cy) in s
    decreases Hidden(g), 0, 0
  {
    if !g.flagged[y][x] && !g.revealed[y][x] {
      var u := Uncover(g, x, y);
      if g.board[y][x] == 0 {
        assert Coverable(g, x, y);
        ClosedStays(g, u, s);
        NeighboursStay(g, u, x, y, s);
        CascadeLeast(u, x, y, 0, s);
      }
    }
  }

  lemma {:induction false} StepLeast(g: Game, x: int, y: int, go: bool, s: set<(int, int)>)
    requires g.Shaped() && (go ==> g.Has(x, y)) && FloodClosed(g, s)
    requires go && Coverable(g, x, y) ==> (x, y) in s
    ensures forall cy, cx :: Newly(g, Step(g, x, y, go), cx, cy) ==> (cx, cy) in s
    decreases Hidden(g), 1, 0
  {
    if go && Coverable(g, x, y) {
      RevealLeast(g, x, y, s);
    }
  }

  lemma {:induction false} CascadeLeast(g: Game, x: int, y: int, k: int, s: set<(int, int)>)
    requires g.Shaped() && g.Has(x, y) && 0 <= k <= 8 && SettledUpTo(g, x, y, k)
    requires FloodClosed(g, s) && NeighboursIn(g, x, y, s)
    ensures forall cy, cx :: Newly(g, Cascade(g, x, y, k), cx, cy) ==> (cx, cy) in s
    decreases Hidden(g), 2, 8 - k
  {
    if k < 8 {
      var n := NeighbourAt(x, y, k);
      var go := Guard(x, y, g.Width(), g.Height(), k);
      assert go <==> g.Has(n.0, n.1);
      assert Adjacent(n.0, n.1, x, y);
      StepLeast(g, n.0, n.1, go, s);
      var g1 := Step(g, n.0, n.1, go);
      Extend(g, g, g1, k, go, x, y);
      ClosedStays(g, g1, s);
      NeighboursStay(g, g1, x, y, s);
      CascadeLeast(g1, x, y, k + 1, s);
      var r := Cascade(g1, x, y, k + 1);
      assert r == Cascade(g, x, y, k);
      forall cy, cx | Newly(g, r, cx, cy)
        ensures (cx, cy) in s
      {
        if !IsRevealed(g1, cx, cy) {
          assert Newly(g1, r, cx, cy);
        }
      }
    }
  }
}
