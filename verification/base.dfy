/** The optional value used for `Option<usize>` downslope targets and search results. */
module Options {
  datatype Option<+T> = None | Some(value: T)
}

/**
  The `f32` helpers the terrain pipeline relies on, over NaN-free values
  modelled as `real`: `min`, `max`, `abs` and `clamp`.
 */
module RealMath {

  function Min(a: real, b: real): (r: real)
    ensures r <= a && r <= b
    ensures r == a || r == b
  {
    if a <= b then a else b
  }

  function Max(a: real, b: real): (r: real)
    ensures r >= a && r >= b
    ensures r == a || r == b
  {
    if a >= b then a else b
  }

  function Abs(a: real): (r: real)
    ensures r >= 0.0
    ensures r == a || r == -a
  {
    if a < 0.0 then -a else a
  }

  /** `f32::clamp`, which panics unless `lo <= hi`. */
  function Clamp(v: real, lo: real, hi: real): (r: real)
    requires lo <= hi
    ensures lo <= r <= hi
    ensures lo <= v <= hi ==> r == v
  {
    if v < lo then lo else if v > hi then hi else v
  }

  /** `i32::clamp`, which panics unless `lo <= hi`. */
  function ClampInt(v: int, lo: int, hi: int): (r: int)
    requires lo <= hi
    ensures lo <= r <= hi
    ensures lo <= v <= hi ==> r == v
  {
    if v < lo then lo else if v > hi then hi else v
  }
}

/**
  Row-major grids of `width * height` cells, cell `(x, y)` stored at
  `y * width + x`, and the fixed eight-neighbour scan order.
 */
module Grid {
  import opened Options

  /** The neighbour offsets `(dx, dy)` in the order every neighbour scan visits them. */
  const Directions: seq<(int, int)> :=
    [(-1, -1), (0, -1), (1, -1), (-1, 0), (1, 0), (-1, 1), (0, 1), (1, 1)]

  predicate InBounds(w: nat, h: nat, x: int, y: int) {
    0 <= x < w && 0 <= y < h
  }

  function Index(w: nat, x: nat, y: nat): nat {
    y * w + x
  }

  lemma IndexBound(w: nat, h: nat, x: nat, y: nat)
    requires x < w && y < h
    ensures Index(w, x, y) < w * h
  {
    assert y * w + x < y * w + w == (y + 1) * w;
    assert (y + 1) * w <= h * w by {
      assert y + 1 <= h;
    }
  }

  /** Distinct cells of one grid have distinct indices. */
  lemma IndexInjective(w: nat, x1: nat, y1: nat, x2: nat, y2: nat)
    requires x1 < w && x2 < w
    requires Index(w, x1, y1) == Index(w, x2, y2)
    ensures x1 == x2 && y1 == y2
  {
    RowMajorOrder(w, x1, y1, x2, y2);
    RowMajorOrder(w, x2, y2, x1, y1);
  }

  /** Every index of the grid is the index of the cell `(i % w, i / w)`. */
  lemma CellOf(w: nat, h: nat, i: nat)
    requires i < w * h
    ensures w > 0
    ensures i % w < w && i / w < h
    ensures Index(w, i % w, i / w) == i
  {
    assert w != 0;
    assert (i / w) * w <= i < h * w;
  }

  /** The index `y * w + x` of an in-row cell has column `x` and row `y`. */
  lemma Coords(w: nat, x: nat, y: nat)
    requires x < w
    ensures Index(w, x, y) % w == x && Index(w, x, y) / w == y
  {
    var i := Index(w, x, y);
    var q, m := i / w, i % w;
    assert q * w + m == y * w + x;
    assert (q - y) * w == x - m;
    SmallMultiple(q - y, w);
  }

  /** Index `i` lies in row `y` or below exactly when it is at least `y * w`. */
  lemma RowOf(w: nat, i: nat, y: nat)
    requires w > 0
    ensures Index(w, 0, y) <= i <==> y <= i / w
  {
    var q, m := i / w, i % w;
    assert i == q * w + m;
    if y <= q {
      assert y * w <= q * w;
    } else {
      assert (q + 1) * w <= y * w;
    }
  }

  /** The only multiple of `w` strictly between `-w` and `w` is zero. */
  lemma SmallMultiple(k: int, w: int)
    requires w > 0 && -w < k * w < w
    ensures k == 0
  {
    MulSign(k - 1, w);
    MulSign(-k - 1, w);
    assert (k - 1) * w == k * w - w;
    assert (-k - 1) * w == -(k * w) - w;
  }

  lemma MulSign(a: int, w: int)
    requires w > 0
    ensures a >= 0 <==> a * w >= 0
  {
  }

  /** Every offset moves at most one cell along each axis. */
  lemma DirectionStep(d: nat)
    requires d < |Directions|
    ensures -1 <= Directions[d].0 <= 1 && -1 <= Directions[d].1 <= 1
  {
  }

  /**
    Scanning rows top to bottom and each row left to right visits indices in
    increasing order, so a row-major double loop is an index-order scan.
   */
  lemma RowMajorOrder(w: nat, x1: nat, y1: nat, x2: nat, y2: nat)
    requires x1 < w && x2 < w
    ensures Index(w, x1, y1) < Index(w, x2, y2) <==> (y1 < y2 || (y1 == y2 && x1 < x2))
  {
    if y1 < y2 {
      assert y1 * w + x1 < (y1 + 1) * w <= y2 * w + x2;
    } else if y2 < y1 {
      assert y2 * w + x2 < (y2 + 1) * w <= y1 * w + x1;
    }
  }

  /** The in-bounds neighbour of `(x, y)` in direction `d`, if there is one. */
  function NeighbourAt(w: nat, h: nat, x: nat, y: nat, d: nat): (r: Option<nat>)
    requires d < |Directions|
    ensures r.Some? ==> r.value < w * h
    ensures r.Some? <==> InBounds(w, h, x + Directions[d].0, y + Directions[d].1)
  {
    var nx := x + Directions[d].0;
    var ny := y + Directions[d].1;
    if InBounds(w, h, nx, ny) then
      IndexBound(w, h, nx, ny);
      Some(Index(w, nx, ny))
    else
      None
  }

  /** The cells `0, 1, ..., n - 1` in index order. */
  function Cells(n: nat): (s: seq<nat>)
    ensures |s| == n
    ensures forall k :: 0 <= k < n ==> s[k] == k
  {
    seq(n, k => k)
  }

  /** Each cell occurs exactly once in `Cells(n)`. */
  lemma {:induction false} CellsCount(n: nat, x: nat)
    ensures multiset(Cells(n))[x] == if x < n then 1 else 0
  {
    if n > 0 {
      assert Cells(n) == Cells(n - 1) + [n - 1];
      CellsCount(n - 1, x);
    }
  }
}
