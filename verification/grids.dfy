/** Rectangular grids stored row-major as `seq<seq<T>>` (row `y`, column `x`),
    as the engine stores its board, flag and reveal grids, together with a
    counting function over grid cells and the facts about it that the rest of
    the model uses. */
module Grids {

  /** The source stores sizes, counts and coordinates as `u8`. */
  type Byte = x: int | 0 <= x < 256

  /** `g` has `h` rows of `w` cells each. */
  predicate IsGrid<T>(g: seq<seq<T>>, w: int, h: int) {
    |g| == h && forall y :: 0 <= y < h ==> |g[y]| == w
  }

  predicate InGrid(x: int, y: int, w: int, h: int) {
    0 <= x < w && 0 <= y < h
  }

  /** The two cells are distinct and touch by a side or a corner. */
  predicate Adjacent(x1: int, y1: int, x2: int, y2: int) {
    (x1 != x2 || y1 != y2) && -1 <= x1 - x2 <= 1 && -1 <= y1 - y2 <= 1
  }

  /** A `w` by `h` grid holding `v` everywhere (`vec![vec![v; w]; h]`). */
  function Fill<T>(w: nat, h: nat, v: T): (g: seq<seq<T>>)
    ensures IsGrid(g, w, h)
    ensures forall y, x :: InGrid(x, y, w, h) ==> g[y][x] == v
  {
    seq(h, _ => seq(w, _ => v))
  }

  /** The grid with cell (x, y) replaced by `v`. */
  function Update<T>(g: seq<seq<T>>, x: int, y: int, v: T): (r: seq<seq<T>>)
    requires 0 <= y < |g| && 0 <= x < |g[y]|
    ensures |r| == |g|
    ensures forall j :: 0 <= j < |g| ==> |r[j]| == |g[j]|
    ensures r[y][x] == v
    ensures forall j, i :: 0 <= j < |g| && 0 <= i < |g[j]| && (i != x || j != y) ==> r[j][i] == g[j][i]
  {
    g[y := g[y][x := v]]
  }

  /** Number of columns x in [0, w) of row y at which `p` holds. */
  function CountRow(p: (int, int) -> bool, w: nat, y: int): (c: nat)
    ensures c <= w
  {
    if w == 0 then 0 else CountRow(p, w - 1, y) + (if p(w - 1, y) then 1 else 0)
  }

  /** Number of cells of the `w` by `h` grid at which `p` holds, rows first. */
  function CountCells(p: (int, int) -> bool, w: nat, h: nat): (c: nat)
    ensures c <= w * h
  {
    if h == 0 then 0
    else
      assert w * h == w * (h - 1) + w;
      CountCells(p, w, h - 1) + CountRow(p, w, h - 1)
  }

  lemma {:induction false} CountRowMono(p: (int, int) -> bool, q: (int, int) -> bool, w: nat, y: int)
    requires forall x :: 0 <= x < w && p(x, y) ==> q(x, y)
    ensures CountRow(p, w, y) <= CountRow(q, w, y)
    ensures CountRow(p, w, y) == CountRow(q, w, y) ==> forall x :: 0 <= x < w && q(x, y) ==> p(x, y)
  {
    if w > 0 {
      CountRowMono(p, q, w - 1, y);
    }
  }

  /** Counting is monotone, and two counts related by inclusion are equal
      only when the two predicates agree on the whole grid. */
  lemma {:induction false} CountMono(p: (int, int) -> bool, q: (int, int) -> bool, w: nat, h: nat)
    requires forall y, x :: InGrid(x, y, w, h) && p(x, y) ==> q(x, y)
    ensures CountCells(p, w, h) <= CountCells(q, w, h)
    ensures CountCells(p, w, h) == CountCells(q, w, h) ==>
              forall y, x :: InGrid(x, y, w, h) && q(x, y) ==> p(x, y)
  {
    if h > 0 {
      CountMono(p, q, w, h - 1);
      CountRowMono(p, q, w, h - 1);
    }
  }

  /** Predicates that agree on the grid have the same count. */
  lemma CountSame(p: (int, int) -> bool, q: (int, int) -> bool, w: nat, h: nat)
    requires forall y, x :: InGrid(x, y, w, h) ==> (p(x, y) <==> q(x, y))
    ensures CountCells(p, w, h) == CountCells(q, w, h)
  {
    CountMono(p, q, w, h);
    CountMono(q, p, w, h);
  }

  lemma {:induction false} CountRowOneMore(p: (int, int) -> bool, q: (int, int) -> bool, w: nat, y: int, x0: int)
    requires 0 <= x0 < w && !p(x0, y) && q(x0, y)
    requires forall x :: 0 <= x < w && x != x0 ==> (p(x, y) <==> q(x, y))
    ensures CountRow(q, w, y) == CountRow(p, w, y) + 1
  {
    if w - 1 == x0 {
      CountRowMono(p, q, w - 1, y);
      CountRowMono(q, p, w - 1, y);
    } else {
      CountRowOneMore(p, q, w - 1, y, x0);
    }
  }

  /** Making `p` true at exactly one more cell raises the count by one. */
  lemma {:induction false} CountOneMore(p: (int, int) -> bool, q: (int, int) -> bool, w: nat, h: nat, x0: int, y0: int)
    requires InGrid(x0, y0, w, h) && !p(x0, y0) && q(x0, y0)
    requires forall y, x :: InGrid(x, y, w, h) && (x != x0 || y != y0) ==> (p(x, y) <==> q(x, y))
    ensures CountCells(q, w, h) == CountCells(p, w, h) + 1
  {
    if h - 1 == y0 {
      CountSame(p, q, w, h - 1);
      CountRowOneMore(p, q, w, y0, x0);
    } else {
      CountOneMore(p, q, w, h - 1, x0, y0);
      CountRowMono(p, q, w, h - 1);
      CountRowMono(q, p, w, h - 1);
    }
  }

  lemma {:induction false} CountRowNone(p: (int, int) -> bool, w: nat, y: int)
    requires forall x :: 0 <= x < w ==> !p(x, y)
    ensures CountRow(p, w, y) == 0
  {
    if w > 0 {
      CountRowNone(p, w - 1, y);
    }
  }

  /** A predicate false on the whole grid counts zero cells. */
  lemma {:induction false} CountNone(p: (int, int) -> bool, w: nat, h: nat)
    requires forall y, x :: InGrid(x, y, w, h) ==> !p(x, y)
    ensures CountCells(p, w, h) == 0
  {
    if h > 0 {
      CountNone(p, w, h - 1);
      CountRowNone(p, w, h - 1);
    }
  }

  lemma {:induction false} CountRowAll(p: (int, int) -> bool, w: nat, y: int)
    requires forall x :: 0 <= x < w ==> p(x, y)
    ensures CountRow(p, w, y) == w
  {
    if w > 0 {
      CountRowAll(p, w - 1, y);
    }
  }

  /** A predicate true on the whole grid counts every cell. */
  lemma {:induction false} CountAll(p: (int, int) -> bool, w: nat, h: nat)
    requires forall y, x :: InGrid(x, y, w, h) ==> p(x, y)
    ensures CountCells(p, w, h) == w * h
  {
    if h > 0 {
      CountAll(p, w, h - 1);
      CountRowAll(p, w, h - 1);
      assert w * h == w * (h - 1) + w;
    }
  }
}
