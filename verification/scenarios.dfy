/** A worked 3 by 3 game: mines in two opposite corners.

      x:  0 1 2
    y=0   * 1 0
    y=1   1 2 1
    y=2   0 1 *
*/
module Scenarios {
  import opened Grids
  import opened Board
  import opened Minesweeper
  import opened Flood
  import opened RevealFacts

  const ExampleBoard: seq<seq<int>> := [[MINE, 1, 0], [1, 2, 1], [0, 1, MINE]]

  const Covered: seq<seq<bool>> := [[false, false, false], [false, false, false], [false, false, false]]

  const ExampleGame: Game := Game(ExampleBoard, Covered, Covered, false, 2, false, (0, 0))

  /** The example is a game `new` can produce: its numbers are the adjacent
      mine counts, and it holds two mines. */
  lemma ExampleIsValid()
    ensures Valid(ExampleGame) && Fresh(ExampleGame, 3, 3, 2)
  {
    var b := ExampleBoard;
    assert CountRow(MineCells(b), 3, 0) == 1;
    assert CountRow(MineCells(b), 3, 1) == 0;
    assert CountRow(MineCells(b), 3, 2) == 1;
    assert MineCount(b, 3, 3) == 2;
  }

  /** Any consistent board with these two mines has these numbers. */
  lemma ExampleNumbers(b: seq<seq<int>>)
    requires Consistent(b, 3, 3)
    requires forall y, x :: InGrid(x, y, 3, 3) ==> (IsMine(b, x, y) <==> (x == 0 && y == 0) || (x == 2 && y == 2))
    ensures b == ExampleBoard
  {
    ExampleIsValid();
    ConsistentIsUnique(b, ExampleBoard, 3, 3);
  }

  /** Revealing the zero at (2, 0) uncovers it and exactly its three
      neighbours, all numbered, so the flood stops there; the game goes on. */
  lemma ExampleFlood()
    ensures var r := Reveal(ExampleGame, 2, 0);
            && !r.gameOver
            && forall y, x :: IsRevealed(r, x, y) <==> (x, y) in {(2, 0), (1, 0), (1, 1), (2, 1)}
  {
    var g := ExampleGame;
    ExampleIsValid();
    var r := Reveal(g, 2, 0);
    RevealLoss(g, 2, 0);
    RevealZero(g, 2, 0);
    FloodWithin(g, r);
    FloodCovers(g, r);
  }

  /** The flood from (2, 0) stays within that cell and its neighbours. */
  lemma FloodWithin(g: Game, r: Game)
    requires g == ExampleGame && Frame(g, r) && Spread(g, r, 2, 0)
    ensures forall y, x :: IsRevealed(r, x, y) ==> (x, y) in {(2, 0), (1, 0), (1, 1), (2, 1)}
  {
    NotReached(g, r);
    forall y, x | IsRevealed(r, x, y)
      ensures (x, y) in {(2, 0), (1, 0), (1, 1), (2, 1)}
    {
      assert Newly(g, r, x, y);
      if x != 2 || y != 0 {
        var zx, zy := ZeroNeighbourWitness(g, r, x, y);
        assert IsZero(g.board, zx, zy);
        assert zx == 2 && zy == 0;
      }
    }
  }

  /** The flood from (2, 0) reaches each of its on-board neighbours. */
  lemma FloodCovers(g: Game, r: Game)
    requires g == ExampleGame && Frame(g, r)
    requires IsRevealed(r, 2, 0) && NeighboursSettled(r, 2, 0)
    ensures IsRevealed(r, 2, 0) && IsRevealed(r, 1, 0) && IsRevealed(r, 1, 1) && IsRevealed(r, 2, 1)
  {
    assert Settled(r, 1, 0) && Settled(r, 1, 1) && Settled(r, 2, 1);
  }

  /** The other zero, at (0, 2), is surrounded by numbered cells, so no flood
      from elsewhere reaches it. */
  lemma NotReached(g: Game, r: Game)
    requires g == ExampleGame && Spread(g, r, 2, 0)
    ensures !IsRevealed(r, 0, 2)
  {
    assert !ZeroNeighbourOpened(g, r, 0, 2);
  }

  /** Revealing a mine loses at once. */
  lemma ExampleMine()
    ensures var r := Reveal(ExampleGame, 0, 0);
            r.gameOver && !r.win
  {
    ExampleIsValid();
    RevealMine(ExampleGame, 0, 0);
  }

  /** A one-row game `0 1 * 1 0 0` with a second patch of zeros beyond the
      mine. */
  const RowGame: Game := Game([[0, 1, MINE, 1, 0, 0]], [[false, false, false, false, false, false]],
                              [[false, false, false, false, false, false]], false, 1, false, (0, 0))

  /** Revealing (0, 0) uncovers it and its numbered neighbour and stops: the
      zeros at (4, 0) and (5, 0) are not reachable and stay covered. */
  lemma RowFlood()
    ensures forall y, x :: IsRevealed(Reveal(RowGame, 0, 0), x, y) <==> (x, y) in {(0, 0), (1, 0)}
  {
    var g := RowGame;
    var r := Reveal(g, 0, 0);
    var s := {(0, 0), (1, 0)};
    assert FloodClosed(g, s) by {
      forall cy, cx | (cx, cy) in s && Coverable(g, cx, cy) && IsZero(g.board, cx, cy)
        ensures NeighboursIn(g, cx, cy, s)
      {
        assert (cx, cy) == (0, 0);
      }
    }
    RevealLeast(g, 0, 0, s);
    RevealZero(g, 0, 0);
    assert Settled(r, 1, 0);
    forall y, x | IsRevealed(r, x, y)
      ensures (x, y) in s
    {
      assert Newly(g, r, x, y);
    }
  }

  /** Placement keeps the first distinct draws: on a 2 by 1 grid with draws
      (0, 0) then (1, 0), a board meeting `PlaceMines`' guarantees for one
      mine has its mine at (0, 0), not at (1, 0). */
  lemma FirstDrawWins(b: seq<seq<int>>, k: int)
    requires 0 <= k <= 2 && Layout(b, 2, 1, [(0, 0), (1, 0)][..k]) && MineCount(b, 2, 1) == 1
    ensures IsMine(b, 0, 0) && !IsMine(b, 1, 0)
  {
    var drawn := [(0, 0), (1, 0)][..k];
    assert MineCount(b, 2, 1) == CountRow(MineCells(b), 2, 0);
    if k == 1 {
      assert IsMine(b, drawn[0].0, drawn[0].1);
      assert (1, 0) !in drawn;
    } else if k == 2 {
      assert IsMine(b, drawn[0].0, drawn[0].1) && IsMine(b, drawn[1].0, drawn[1].1);
    }
  }
}
