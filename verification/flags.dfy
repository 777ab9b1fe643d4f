/** `toggle_flag` (src/main.rs lines 143-162): flip the flag of a hidden
    cell, then count the flagged mines and declare a win when the count
    equals `number_of_mines`. */
module Flags {
  import opened Grids
  import opened Board
  import opened Minesweeper

  function FlaggedMineCells(b: seq<seq<int>>, f: seq<seq<bool>>): (int, int) -> bool {
    (x: int, y: int) => IsMine(b, x, y) && 0 <= y < |f| && 0 <= x < |f[y]| && f[y][x]
  }

  /** Number of cells that are both a mine and flagged. */
  function FlaggedMines(g: Game): nat {
    CountCells(FlaggedMineCells(g.board, g.flagged), g.Width(), g.Height())
  }

  /** The scan of lines 149-156 computes `FlaggedMines`. */
  method CountFlaggedMines(g: Game) returns (count: nat)
    requires g.Shaped()
    ensures count == FlaggedMines(g)
  {
    count := 0;
    var y := 0;
    while y < |g.board|
      invariant 0 <= y <= g.Height()
      invariant count == CountCells(FlaggedMineCells(g.board, g.flagged), g.Width(), y)
    {
      var x := 0;
      while x < |g.board[0]|
        invariant 0 <= x <= g.Width()
        invariant count == CountCells(FlaggedMineCells(g.board, g.flagged), g.Width(), y) + CountRow(FlaggedMineCells(g.board, g.flagged), x, y)
      {
        if g.board[y][x] == MINE && g.flagged[y][x] {
          count := count + 1;
        }
        x := x + 1;
      }
      y := y + 1;
    }
  }

  /** No more mines are flagged than there are mines, and the two counts
      agree exactly when every mine is flagged. */
  lemma FlaggedMinesBound(g: Game)
    requires g.Shaped()
    ensures FlaggedMines(g) <= MineCount(g.board, g.Width(), g.Height())
    ensures FlaggedMines(g) == MineCount(g.board, g.Width(), g.Height()) <==>
              forall y, x :: IsMine(g.board, x, y) ==> IsFlagged(g, x, y)
  {
    var w, h := g.Width(), g.Height();
    var p, q := FlaggedMineCells(g.board, g.flagged), MineCells(g.board);
    CountMono(p, q, w, h);
    if FlaggedMines(g) == MineCount(g.board, w, h) {
      forall y, x | IsMine(g.board, x, y)
        ensures IsFlagged(g, x, y)
      {
        assert InGrid(x, y, w, h) && q(x, y);
      }
    }
    if forall y, x :: IsMine(g.board, x, y) ==> IsFlagged(g, x, y) {
      CountSame(p, q, w, h);
    }
  }

  /** `toggle_flag(x, y)`: on a hidden cell, exactly that cell's flag flips;
      on a revealed cell the flags stay as they are.  Either way the win
      check runs: if the flagged mines number `numberOfMines`, the game is
      won and over; otherwise `win` and `gameOver` keep their values. */
  function ToggleFlag(g: Game, x: int, y: int): (r: Game)
    requires g.Shaped() && g.Has(x, y)
    ensures r.board == g.board && r.revealed == g.revealed
    ensures r.numberOfMines == g.numberOfMines && r.cursor == g.cursor
    ensures IsGrid(r.flagged, g.Width(), g.Height())
    ensures IsRevealed(g, x, y) ==> r.flagged == g.flagged
    ensures !IsRevealed(g, x, y) ==> IsFlagged(r, x, y) == !IsFlagged(g, x, y)
    ensures forall cy, cx :: (cx != x || cy != y) ==> IsFlagged(r, cx, cy) == IsFlagged(g, cx, cy)
    ensures r.win == (g.win || FlaggedMines(r) == g.numberOfMines)
    ensures r.gameOver == (g.gameOver || FlaggedMines(r) == g.numberOfMines)
  {
    var flagged := if !g.revealed[y][x] then Update(g.flagged, x, y, !g.flagged[y][x]) else g.flagged;
    var toggled := g.(flagged := flagged);
    if FlaggedMines(toggled) == g.numberOfMines then toggled.(win := true, gameOver := true)
    else toggled
  }

  /** Two toggles of the same cell restore the flag grid. */
  lemma ToggleTwice(g: Game, x: int, y: int)
    requires g.Shaped() && g.Has(x, y)
    ensures ToggleFlag(ToggleFlag(g, x, y), x, y).flagged == g.flagged
  {
    var r1 := ToggleFlag(g, x, y);
    assert r1.Shaped();
    var r2 := ToggleFlag(r1, x, y);
    forall j | 0 <= j < g.Height()
      ensures r2.flagged[j] == g.flagged[j]
    {
      forall i | 0 <= i < g.Width()
        ensures r2.flagged[j][i] == g.flagged[j][i]
      {
        assert IsFlagged(r2, i, j) == IsFlagged(g, i, j);
      }
    }
  }

  /** In a valid game a toggle wins exactly when, afterwards, every mine is
      flagged (flags on safe cells do not matter), and a won game stays won. */
  lemma ToggleWin(g: Game, x: int, y: int)
    requires Valid(g) && g.Has(x, y)
    ensures var r := ToggleFlag(g, x, y);
            r.win <==> g.win || forall cy, cx :: IsMine(r.board, cx, cy) ==> IsFlagged(r, cx, cy)
    ensures ToggleFlag(g, x, y).win ==> ToggleFlag(g, x, y).gameOver
  {
    var r := ToggleFlag(g, x, y);
    assert r.Shaped();
    FlaggedMinesBound(r);
  }

  /** A game that shows an uncovered mine cannot be won by a toggle: that
      mine can never carry a flag, so not every mine is flagged. */
  lemma LostNeverWon(g: Game, x: int, y: int, mx: int, my: int)
    requires Valid(g) && g.Has(x, y) && !g.win
    requires IsMine(g.board, mx, my) && IsRevealed(g, mx, my)
    ensures !ToggleFlag(g, x, y).win
  {
    ToggleWin(g, x, y);
    var r := ToggleFlag(g, x, y);
    assert !IsFlagged(r, mx, my);
  }

  /** Toggling a flag keeps the game invariant. */
  lemma ToggleKeepsValid(g: Game, x: int, y: int)
    requires Valid(g) && g.Has(x, y)
    ensures Valid(ToggleFlag(g, x, y))
  {
  }
}
