/** The game state (`struct Minesweeper`, src/main.rs lines 4-12), its
    well-formedness invariant, construction (`new`, lines 16-85) and the
    cursor (`move_cursor`, lines 164-166). */
module Minesweeper {
  import opened Grids
  import opened Board

  datatype Option<T> = None | Some(value: T)

  /** The three parallel `height` by `width` grids and the scalar fields. */
  datatype Game = Game(
    board: seq<seq<int>>,
    flagged: seq<seq<bool>>,
    revealed: seq<seq<bool>>,
    gameOver: bool,
    numberOfMines: Byte,
    win: bool,
    cursor: (Byte, Byte))
  {
    function Height(): int {
      |board|
    }

    function Width(): int {
      if |board| == 0 then 0 else |board[0]|
    }

    /** (x, y) lies on the board. */
    predicate Has(x: int, y: int) {
      InGrid(x, y, Width(), Height())
    }

    /** All three grids have the board's dimensions, which fit in a `u8`. */
    ghost predicate Shaped() {
      1 <= Width() <= 255 && 1 <= Height() <= 255
      && IsGrid(board, Width(), Height())
      && IsGrid(flagged, Width(), Height())
      && IsGrid(revealed, Width(), Height())
    }
  }

  predicate IsFlagged(g: Game, x: int, y: int) {
    0 <= y < |g.flagged| && 0 <= x < |g.flagged[y]| && g.flagged[y][x]
  }

  predicate IsRevealed(g: Game, x: int, y: int) {
    0 <= y < |g.revealed| && 0 <= x < |g.revealed[y]| && g.revealed[y][x]
  }

  /** The invariant every reachable game keeps: the board is consistent and
      holds `numberOfMines` mines, no cell is both flagged and revealed, and
      a win has ended the game. */
  ghost predicate Valid(g: Game) {
    && g.Shaped()
    && Consistent(g.board, g.Width(), g.Height())
    && MineCount(g.board, g.Width(), g.Height()) == g.numberOfMines
    && (forall y, x :: !(IsFlagged(g, x, y) && IsRevealed(g, x, y)))
    && (g.win ==> g.gameOver)
  }

  /** A game as `new` leaves it: nothing flagged or revealed, not over, not
      won, cursor at the origin. */
  ghost predicate Fresh(g: Game, width: int, height: int, numberOfMines: int) {
    && g.Width() == width && g.Height() == height
    && g.numberOfMines == numberOfMines
    && !g.gameOver && !g.win && g.cursor == (0, 0)
    && (forall y, x :: !IsFlagged(g, x, y) && !IsRevealed(g, x, y))
  }

  /** `new`: place the mines from the coordinate supply `picks`, then count
      adjacent mines.  None means the supply ran out before all mines were
      placed (the source keeps drawing); that is certain when more mines are
      asked for than the board has cells, and impossible when they fit and
      the supply covers every cell. */
  method New(width: Byte, height: Byte, numberOfMines: Byte, picks: seq<(int, int)>) returns (r: Option<Game>)
    requires 1 <= width && 1 <= height
    requires forall i :: 0 <= i < |picks| ==> InGrid(picks[i].0, picks[i].1, width, height)
    ensures r.Some? ==> Valid(r.value) && Fresh(r.value, width, height, numberOfMines)
    ensures r.Some? ==> forall y, x :: IsMine(r.value.board, x, y) ==> (x, y) in picks
    ensures r.Some? ==> exists k :: 0 <= k <= |picks| &&
                          forall y, x :: InGrid(x, y, width, height) ==>
                            (IsMine(r.value.board, x, y) <==> (x, y) in picks[..k])
    ensures numberOfMines > width * height ==> r.None?
    ensures numberOfMines <= width * height && (forall y, x :: InGrid(x, y, width, height) ==> (x, y) in picks) ==> r.Some?
  {
    var mines, placed := PlaceMines(width, height, numberOfMines, picks);
    if !placed {
      return None;
    }
    var board := CountAdjacent(mines, width, height);
    var g := Game(board, Fill(width, height, false), Fill(width, height, false), false, numberOfMines, false, (0, 0));
    r := Some(g);
  }

  /** `move_cursor`: the cursor moves to (x, y); nothing else changes. */
  function MoveCursor(g: Game, x: Byte, y: Byte): (r: Game)
    ensures r.cursor == (x, y)
    ensures r.board == g.board && r.flagged == g.flagged && r.revealed == g.revealed
    ensures r.gameOver == g.gameOver && r.win == g.win && r.numberOfMines == g.numberOfMines
  {
    g.(cursor := (x, y))
  }

  /** Moving the cursor keeps the game invariant, and only the last move
      counts. */
  lemma MoveCursorFacts(g: Game, x1: Byte, y1: Byte, x2: Byte, y2: Byte)
    ensures Valid(g) ==> Valid(MoveCursor(g, x1, y1))
    ensures MoveCursor(MoveCursor(g, x1, y1), x2, y2) == MoveCursor(g, x2, y2)
  {
    var r := MoveCursor(g, x1, y1);
    assert forall y, x :: IsFlagged(r, x, y) == IsFlagged(g, x, y) && IsRevealed(r, x, y) == IsRevealed(g, x, y);
  }
}
