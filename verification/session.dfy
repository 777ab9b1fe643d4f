/** A game driven by a sequence of commands, as an external driver issues
    them (reveal, toggle-flag, move-cursor), and the invariants that hold
    across any such sequence. */
module Session {
  import opened Grids
  import opened Board
  import opened Minesweeper
  import opened Flood
  import opened Flags
  import opened RevealFacts

  datatype Command = RevealAt(x: int, y: int) | FlagAt(x: int, y: int) | CursorTo(cx: Byte, cy: Byte)

  /** The driver passes only on-board coordinates to `reveal` and
      `toggle_flag` (the source would panic otherwise). */
  predicate Fits(g: Game, c: Command) {
    match c
    case RevealAt(x, y) => g.Has(x, y)
    case FlagAt(x, y) => g.Has(x, y)
    case CursorTo(_, _) => true
  }

  function Apply(g: Game, c: Command): (r: Game)
    requires g.Shaped() && Fits(g, c)
    ensures r.Shaped() && r.Width() == g.Width() && r.Height() == g.Height()
    ensures r.board == g.board && r.numberOfMines == g.numberOfMines
    ensures g.win ==> r.win
    ensures g.gameOver ==> r.gameOver
    ensures forall y, x :: IsRevealed(g, x, y) ==> IsRevealed(r, x, y)
  {
    match c
    case RevealAt(x, y) => Reveal(g, x, y)
    case FlagAt(x, y) => ToggleFlag(g, x, y)
    case CursorTo(x, y) => MoveCursor(g, x, y)
  }

  /** Applying the commands in order.  The board and the mine count never
      change, revealed cells stay revealed, and neither a loss nor a win is
      ever undone. */
  function Run(g: Game, cs: seq<Command>): (r: Game)
    requires g.Shaped() && forall i :: 0 <= i < |cs| ==> Fits(g, cs[i])
    ensures r.Shaped() && r.Width() == g.Width() && r.Height() == g.Height()
    ensures r.board == g.board && r.numberOfMines == g.numberOfMines
    ensures g.win ==> r.win
    ensures g.gameOver ==> r.gameOver
    ensures forall y, x :: IsRevealed(g, x, y) ==> IsRevealed(r, x, y)
    decreases |cs|
  {
    if |cs| == 0 then g
    else
      var g1 := Apply(g, cs[0]);
      FitsTail(g, g1, cs);
      Run(g1, cs[1..])
  }

  /** Commands that fit a game fit every game of the same dimensions. */
  lemma FitsTail(g: Game, g1: Game, cs: seq<Command>)
    requires |cs| > 0 && forall i :: 0 <= i < |cs| ==> Fits(g, cs[i])
    requires g1.Width() == g.Width() && g1.Height() == g.Height()
    ensures forall i :: 0 <= i < |cs[1..]| ==> Fits(g1, cs[1..][i])
  {
    forall i | 0 <= i < |cs[1..]|
      ensures Fits(g1, cs[1..][i])
    {
      assert Fits(g, cs[i + 1]);
    }
  }

  lemma ApplyKeepsValid(g: Game, c: Command)
    requires Valid(g) && Fits(g, c)
    ensures Valid(Apply(g, c))
  {
    match c
    case RevealAt(x, y) => RevealKeepsValid(g, x, y);
    case FlagAt(x, y) => ToggleKeepsValid(g, x, y);
    case CursorTo(x, y) => MoveCursorFacts(g, x, y, x, y);
  }

  /** Every game reachable from a valid one is valid: in particular its
      board stays consistent with `numberOfMines` mines, no cell is ever both
      flagged and revealed, and `win` implies `gameOver`. */
  lemma {:induction false} RunKeepsValid(g: Game, cs: seq<Command>)
    requires Valid(g) && forall i :: 0 <= i < |cs| ==> Fits(g, cs[i])
    ensures Valid(Run(g, cs))
    decreases |cs|
  {
    if |cs| > 0 {
      ApplyKeepsValid(g, cs[0]);
      var g1 := Apply(g, cs[0]);
      FitsTail(g, g1, cs);
      RunKeepsValid(g1, cs[1..]);
    }
  }

  // ---------------------------------------------------------------------
  // A lost game stays lost
  // ---------------------------------------------------------------------

  /** A game that is over without a win shows an uncovered mine.  A fresh
      game meets it because it is not over. */
  ghost predicate LossShown(g: Game) {
    g.gameOver && !g.win ==> exists my, mx :: IsMine(g.board, mx, my) && IsRevealed(g, mx, my)
  }

  /** A fresh game is not over, so it meets the invariant. */
  lemma FreshShowsLoss(g: Game, width: int, height: int, numberOfMines: int)
    requires Fresh(g, width, height, numberOfMines)
    ensures LossShown(g)
  {
  }

  lemma ApplyShowsLoss(g: Game, c: Command)
    requires Valid(g) && LossShown(g) && Fits(g, c)
    ensures LossShown(Apply(g, c))
  {
  }

  /** Every game reachable by commands from a fresh one shows its loss. */
  lemma {:induction false} RunShowsLoss(g: Game, cs: seq<Command>)
    requires Valid(g) && LossShown(g) && forall i :: 0 <= i < |cs| ==> Fits(g, cs[i])
    ensures LossShown(Run(g, cs))
    decreases |cs|
  {
    if |cs| > 0 {
      ApplyShowsLoss(g, cs[0]);
      ApplyKeepsValid(g, cs[0]);
      var g1 := Apply(g, cs[0]);
      FitsTail(g, g1, cs);
      RunShowsLoss(g1, cs[1..]);
    }
  }

  /** Once lost, never won: no sequence of commands turns a game that is
      over without a win into a won one. */
  lemma {:induction false} LostStaysLost(g: Game, cs: seq<Command>)
    requires Valid(g) && LossShown(g) && g.gameOver && !g.win
    requires forall i :: 0 <= i < |cs| ==> Fits(g, cs[i])
    ensures !Run(g, cs).win
    decreases |cs|
  {
    if |cs| > 0 {
      var g1 := Apply(g, cs[0]);
      if cs[0].FlagAt? {
        var my, mx :| IsMine(g.board, mx, my) && IsRevealed(g, mx, my);
        LostNeverWon(g, cs[0].x, cs[0].y, mx, my);
      }
      assert !g1.win;
      ApplyShowsLoss(g, cs[0]);
      ApplyKeepsValid(g, cs[0]);
      FitsTail(g, g1, cs);
      LostStaysLost(g1, cs[1..]);
    }
  }
}
