/** The mine board of the game and the two phases of its generation: mine
    placement (src/main.rs lines 21-31) and the adjacency counting pass
    (lines 33-74).  A cell holds `MINE` (9) or the number of mines among its
    up to eight neighbours. */
module Board {
  import opened Grids

  /** The in-band sentinel the source uses for a mine cell. */
  const MINE := 9

  predicate IsMine(b: seq<seq<int>>, x: int, y: int) {
    0 <= y < |b| && 0 <= x < |b[y]| && b[y][x] == MINE
  }

  function MineAt(b: seq<seq<int>>, x: int, y: int): nat {
    if IsMine(b, x, y) then 1 else 0
  }

  /** Number of mines among the in-bounds eight neighbours of (x, y),
      counted from the cell's own point of view. */
  function AdjacentMines(b: seq<seq<int>>, x: int, y: int): (c: nat)
    ensures c <= 8
  {
    MineAt(b, x - 1, y - 1) + MineAt(b, x, y - 1) + MineAt(b, x + 1, y - 1)
    + MineAt(b, x - 1, y) + MineAt(b, x + 1, y)
    + MineAt(b, x - 1, y + 1) + MineAt(b, x, y + 1) + MineAt(b, x + 1, y + 1)
  }

  /** The board invariant: every cell that is not a mine holds its number
      of adjacent mines. */
  ghost predicate Consistent(b: seq<seq<int>>, w: int, h: int) {
    IsGrid(b, w, h)
    && forall y, x :: InGrid(x, y, w, h) && b[y][x] != MINE ==> b[y][x] == AdjacentMines(b, x, y)
  }

  function MineCells(b: seq<seq<int>>): (int, int) -> bool {
    (x: int, y: int) => IsMine(b, x, y)
  }

  /** Number of mine cells on the board. */
  function MineCount(b: seq<seq<int>>, w: nat, h: nat): nat {
    CountCells(MineCells(b), w, h)
  }

  /** Boards with the same mines have the same adjacency counts. */
  lemma SameMinesSameCounts(b: seq<seq<int>>, b': seq<seq<int>>, w: nat, h: nat)
    requires IsGrid(b, w, h) && IsGrid(b', w, h)
    requires forall y, x :: InGrid(x, y, w, h) ==> (IsMine(b, x, y) <==> IsMine(b', x, y))
    ensures forall y, x :: AdjacentMines(b, x, y) == AdjacentMines(b', x, y)
    ensures MineCount(b, w, h) == MineCount(b', w, h)
  {
    CountSame(MineCells(b), MineCells(b'), w, h);
  }

  /** The mine layout determines the whole board: two consistent boards with
      the same mines are equal. */
  lemma ConsistentIsUnique(b: seq<seq<int>>, b': seq<seq<int>>, w: nat, h: nat)
    requires Consistent(b, w, h) && Consistent(b', w, h)
    requires forall y, x :: InGrid(x, y, w, h) ==> (IsMine(b, x, y) <==> IsMine(b', x, y))
    ensures b == b'
  {
    SameMinesSameCounts(b, b', w, h);
    forall y | 0 <= y < h
      ensures b[y] == b'[y]
    {
      forall x | 0 <= x < w
        ensures b[y][x] == b'[y][x]
      {
        assert IsMine(b, x, y) <==> IsMine(b', x, y);
      }
    }
  }

  // ---------------------------------------------------------------------
  // Placement (lines 21-31)
  // ---------------------------------------------------------------------

  /** The board after the draws `drawn`: every cell is empty or a mine, the
      mines are exactly the drawn cells. */
  ghost predicate Layout(b: seq<seq<int>>, w: int, h: int, drawn: seq<(int, int)>) {
    && IsGrid(b, w, h)
    && (forall y, x :: InGrid(x, y, w, h) ==> b[y][x] == 0 || b[y][x] == MINE)
    && (forall y, x :: InGrid(x, y, w, h) && b[y][x] == MINE ==> (x, y) in drawn)
    && (forall j :: 0 <= j < |drawn| ==> IsMine(b, drawn[j].0, drawn[j].1))
  }

  /** One draw: an empty cell becomes a mine and the mine count grows by
      one; a cell that is a mine already is left as it is. */
  lemma PlaceStep(b: seq<seq<int>>, w: nat, h: nat, drawn: seq<(int, int)>, x: int, y: int)
    requires Layout(b, w, h, drawn) && InGrid(x, y, w, h)
    ensures b[y][x] == MINE ==> Layout(b, w, h, drawn + [(x, y)])
    ensures b[y][x] != MINE ==> Layout(Update(b, x, y, MINE), w, h, drawn + [(x, y)])
    ensures b[y][x] != MINE ==> MineCount(Update(b, x, y, MINE), w, h) == MineCount(b, w, h) + 1
  {
    if b[y][x] != MINE {
      var b' := Update(b, x, y, MINE);
      CountOneMore(MineCells(b), MineCells(b'), w, h, x, y);
    }
  }

  /** The placement loop.  The random generator is replaced by the finite
      supply `picks` of coordinates it would draw, in order.  A coordinate
      that already holds a mine is skipped, as in the source, so the mines
      are exactly the cells of a prefix of the draws.  `placed` is
      false when the supply runs out before `n` mines are down: the source
      would go on drawing, forever when n > w * h. */
  method PlaceMines(w: Byte, h: Byte, n: Byte, picks: seq<(int, int)>) returns (b: seq<seq<int>>, placed: bool)
    requires 1 <= w && 1 <= h
    requires forall i :: 0 <= i < |picks| ==> InGrid(picks[i].0, picks[i].1, w, h)
    ensures IsGrid(b, w, h)
    ensures forall y, x :: InGrid(x, y, w, h) ==> b[y][x] == 0 || b[y][x] == MINE
    ensures forall y, x :: InGrid(x, y, w, h) && b[y][x] == MINE ==> (x, y) in picks
    ensures placed ==> MineCount(b, w, h) == n
    ensures !placed ==> MineCount(b, w, h) < n
    ensures !placed ==> forall i :: 0 <= i < |picks| ==> IsMine(b, picks[i].0, picks[i].1)
    ensures n > w * h ==> !placed
    ensures n <= w * h && (forall y, x :: InGrid(x, y, w, h) ==> (x, y) in picks) ==> placed
    ensures exists k :: 0 <= k <= |picks| && Layout(b, w, h, picks[..k])
  {
    b := Fill(w, h, 0);
    CountNone(MineCells(b), w, h);
    var mines := 0;
    var i := 0;
    while mines < n && i < |picks|
      invariant 0 <= i <= |picks|
      invariant Layout(b, w, h, picks[..i])
      invariant mines == MineCount(b, w, h) <= n
    {
      var x, y := picks[i].0, picks[i].1;
      PlaceStep(b, w, h, picks[..i], x, y);
      if b[y][x] != MINE {
        b := Update(b, x, y, MINE);
        mines := mines + 1;
      }
      assert picks[..i + 1] == picks[..i] + [(x, y)];
      i := i + 1;
    }
    assert picks[..i] <= picks;
    placed := mines == n;
    if !placed {
      assert picks[..i] == picks;
      if forall y, x :: InGrid(x, y, w, h) ==> (x, y) in picks {
        CoveringPicksFill(b, w, h, picks);
      }
    }
  }

  /** When every drawn cell is a mine and the draws cover the grid, every
      cell is a mine. */
  lemma CoveringPicksFill(b: seq<seq<int>>, w: nat, h: nat, picks: seq<(int, int)>)
    requires forall i :: 0 <= i < |picks| ==> IsMine(b, picks[i].0, picks[i].1)
    requires forall y, x :: InGrid(x, y, w, h) ==> (x, y) in picks
    ensures MineCount(b, w, h) == w * h
  {
    forall y, x | InGrid(x, y, w, h)
      ensures MineCells(b)(x, y)
    {
      var j :| 0 <= j < |picks| && picks[j] == (x, y);
    }
    CountAll(MineCells(b), w, h);
  }

  // ---------------------------------------------------------------------
  // Adjacency counting (lines 33-74)
  // ---------------------------------------------------------------------

  /** One increment of the counting pass: a cell that is not a mine gains one. */
  function Bump(b: seq<seq<int>>, x: int, y: int, go: bool): (r: seq<seq<int>>)
    requires go ==> 0 <= y < |b| && 0 <= x < |b[y]|
    ensures |r| == |b| && forall j :: 0 <= j < |b| ==> |r[j]| == |b[j]|
    ensures forall j, i :: 0 <= j < |b| && 0 <= i < |b[j]| ==>
              r[j][i] == if go && i == x && j == y && b[j][i] != MINE then b[j][i] + 1 else b[j][i]
  {
    if go && b[y][x] != MINE then Update(b, x, y, b[y][x] + 1) else b
  }

  /** The guarded increments of one row `ry` of the neighbourhood of the
      mine at (x, y): left, middle (skipped on the mine's own row) and right,
      each only when in bounds. */
  function SpreadRow(b: seq<seq<int>>, x: int, y: int, ry: int, w: int, h: int): (r: seq<seq<int>>)
    requires IsGrid(b, w, h) && InGrid(x, y, w, h) && y - 1 <= ry <= y + 1
    ensures IsGrid(r, w, h)
    ensures forall cy, cx :: InGrid(cx, cy, w, h) ==>
              r[cy][cx] == if b[cy][cx] != MINE && cy == ry && Adjacent(cx, cy, x, y) then b[cy][cx] + 1
                           else b[cy][cx]
  {
    var inside := 0 <= ry < h;
    var b1 := Bump(b, x - 1, ry, inside && x > 0);
    var b2 := Bump(b1, x, ry, inside && ry != y);
    Bump(b2, x + 1, ry, inside && x < w - 1)
  }

  /** The eight guarded increments around the mine at (x, y), in the source's
      order (the row above, the mine's own row, the row below).  Each
      neighbour that is in bounds and not a mine gains exactly one; mines and
      every other cell keep their value. */
  function SpreadFrom(b: seq<seq<int>>, x: int, y: int, w: int, h: int): (r: seq<seq<int>>)
    requires IsGrid(b, w, h) && InGrid(x, y, w, h)
    ensures IsGrid(r, w, h)
    ensures forall cy, cx :: InGrid(cx, cy, w, h) ==>
              r[cy][cx] == if b[cy][cx] == MINE then MINE
                           else if Adjacent(cx, cy, x, y) then b[cy][cx] + 1
                           else b[cy][cx]
  {
    SpreadRow(SpreadRow(SpreadRow(b, x, y, y - 1, w, h), x, y, y, w, h), x, y, y + 1, w, h)
  }

  /** The scan visits cells row by row; (mx, my) is visited before the scan
      reaches (px, py). */
  predicate Before(mx: int, my: int, px: int, py: int) {
    my < py || (my == py && mx < px)
  }

  function MineBefore(b: seq<seq<int>>, mx: int, my: int, px: int, py: int): nat {
    if IsMine(b, mx, my) && Before(mx, my, px, py) then 1 else 0
  }

  /** Number of neighbours of (x, y) that are mines the scan has already
      visited when it stands at (px, py). */
  function ScannedMines(b: seq<seq<int>>, x: int, y: int, px: int, py: int): nat {
    MineBefore(b, x - 1, y - 1, px, py) + MineBefore(b, x, y - 1, px, py) + MineBefore(b, x + 1, y - 1, px, py)
    + MineBefore(b, x - 1, y, px, py) + MineBefore(b, x + 1, y, px, py)
    + MineBefore(b, x - 1, y + 1, px, py) + MineBefore(b, x, y + 1, px, py) + MineBefore(b, x + 1, y + 1, px, py)
  }

  lemma ScannedBound(b: seq<seq<int>>, x: int, y: int, px: int, py: int)
    ensures ScannedMines(b, x, y, px, py) <= AdjacentMines(b, x, y)
  {
  }

  /** Visiting (px, py) adds it to the scanned mines of its neighbours. */
  lemma ScannedStep(b: seq<seq<int>>, x: int, y: int, px: int, py: int)
    ensures ScannedMines(b, x, y, px + 1, py)
            == ScannedMines(b, x, y, px, py) + if IsMine(b, px, py) && Adjacent(x, y, px, py) then 1 else 0
  {
  }

  lemma ScannedRowEnd(b: seq<seq<int>>, w: int, h: int, x: int, y: int, py: int)
    requires IsGrid(b, w, h)
    ensures ScannedMines(b, x, y, w, py) == ScannedMines(b, x, y, 0, py + 1)
  {
  }

  lemma ScannedAll(b: seq<seq<int>>, w: int, h: int, x: int, y: int)
    requires IsGrid(b, w, h)
    ensures ScannedMines(b, x, y, 0, h) == AdjacentMines(b, x, y)
  {
  }

  /** Loop invariant of the counting pass standing at (px, py): mines are
      untouched and every other cell holds its already scanned mines. */
  ghost predicate Scanned(mines: seq<seq<int>>, b: seq<seq<int>>, w: int, h: int, px: int, py: int) {
    IsGrid(b, w, h)
    && forall cy, cx :: InGrid(cx, cy, w, h) ==>
         if IsMine(mines, cx, cy) then b[cy][cx] == MINE
         else b[cy][cx] == ScannedMines(mines, cx, cy, px, py)
  }

  /** Before the scan starts no mine has been visited, so the placed board
      (cells 0 or MINE) satisfies the invariant. */
  lemma ScanStart(mines: seq<seq<int>>, w: int, h: int)
    requires IsGrid(mines, w, h)
    requires forall y, x :: InGrid(x, y, w, h) ==> mines[y][x] == 0 || mines[y][x] == MINE
    ensures Scanned(mines, mines, w, h, 0, 0)
  {
    forall cy, cx | InGrid(cx, cy, w, h) && !IsMine(mines, cx, cy)
      ensures mines[cy][cx] == ScannedMines(mines, cx, cy, 0, 0)
    {
      assert ScannedMines(mines, cx, cy, 0, 0) == 0;
    }
  }

  /** The scan's visit of (x, y): a mine spreads to its neighbours, any
      other cell is passed over. */
  function Visit(b: seq<seq<int>>, x: int, y: int, w: int, h: int): (r: seq<seq<int>>)
    requires IsGrid(b, w, h) && InGrid(x, y, w, h)
    ensures IsGrid(r, w, h)
  {
    if b[y][x] == MINE then SpreadFrom(b, x, y, w, h) else b
  }

  /** Visiting (x, y) keeps the invariant: a mine spreads to its
      neighbours, any other cell is passed over. */
  lemma ScanCell(mines: seq<seq<int>>, b: seq<seq<int>>, w: int, h: int, x: int, y: int)
    requires IsGrid(mines, w, h) && InGrid(x, y, w, h) && Scanned(mines, b, w, h, x, y)
    ensures IsGrid(b, w, h)
    ensures Scanned(mines, Visit(b, x, y, w, h), w, h, x + 1, y)
  {
    ScannedBound(mines, x, y, x, y);
    var next := Visit(b, x, y, w, h);
    forall cy, cx | InGrid(cx, cy, w, h)
      ensures if IsMine(mines, cx, cy) then next[cy][cx] == MINE
              else next[cy][cx] == ScannedMines(mines, cx, cy, x + 1, y)
    {
      ScannedStep(mines, cx, cy, x, y);
      ScannedBound(mines, cx, cy, x, y);
    }
  }

  lemma ScanRowEnd(mines: seq<seq<int>>, b: seq<seq<int>>, w: int, h: int, y: int)
    requires IsGrid(mines, w, h) && Scanned(mines, b, w, h, w, y)
    ensures Scanned(mines, b, w, h, 0, y + 1)
  {
    forall cy, cx | InGrid(cx, cy, w, h)
      ensures ScannedMines(mines, cx, cy, w, y) == ScannedMines(mines, cx, cy, 0, y + 1)
    {
      ScannedRowEnd(mines, w, h, cx, cy, y);
    }
  }

  lemma ScanDone(mines: seq<seq<int>>, b: seq<seq<int>>, w: nat, h: nat)
    requires IsGrid(mines, w, h) && Scanned(mines, b, w, h, 0, h)
    ensures IsGrid(b, w, h)
    ensures forall y, x :: InGrid(x, y, w, h) ==> (IsMine(b, x, y) <==> IsMine(mines, x, y))
    ensures Consistent(b, w, h)
    ensures MineCount(b, w, h) == MineCount(mines, w, h)
  {
    forall cy, cx | InGrid(cx, cy, w, h)
      ensures ScannedMines(mines, cx, cy, 0, h) == AdjacentMines(mines, cx, cy)
    {
      ScannedAll(mines, w, h, cx, cy);
    }
    SameMinesSameCounts(b, mines, w, h);
  }

  /** The counting pass.  Starting from the placed mines (every cell 0 or
      MINE), it leaves the mines where they are and gives every other cell
      its number of adjacent mines.  No count reaches 9, so the `u8`
      increments neither overflow nor forge a mine. */
  method CountAdjacent(mines: seq<seq<int>>, w: Byte, h: Byte) returns (b: seq<seq<int>>)
    requires 1 <= w && 1 <= h && IsGrid(mines, w, h)
    requires forall y, x :: InGrid(x, y, w, h) ==> mines[y][x] == 0 || mines[y][x] == MINE
    ensures IsGrid(b, w, h)
    ensures forall y, x :: InGrid(x, y, w, h) ==> (IsMine(b, x, y) <==> IsMine(mines, x, y))
    ensures Consistent(b, w, h)
    ensures MineCount(b, w, h) == MineCount(mines, w, h)
  {
    b := mines;
    ScanStart(mines, w, h);
    var y := 0;
    while y < h
      invariant 0 <= y <= h
      invariant Scanned(mines, b, w, h, 0, y)
    {
      var x := 0;
      while x < w
        invariant 0 <= x <= w
        invariant Scanned(mines, b, w, h, x, y)
      {
        ScanCell(mines, b, w, h, x, y);
        b := Visit(b, x, y, w, h);
        x := x + 1;
      }
      ScanRowEnd(mines, b, w, h, y);
      y := y + 1;
    }
    ScanDone(mines, b, w, h);
  }
}
