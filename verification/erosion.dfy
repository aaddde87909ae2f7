/**
  `apply_thermal_erosion`: each pass relaxes every interior cell towards the
  neighbours that lie more than `Slope` below it, reading the heights of the
  previous pass and writing into a copy, so the result of a pass does not
  depend on the order in which cells are visited. Border cells never change.
 */
module Erosion {
  import opened Options
  import opened Grid

  /** The height difference above which material slides to a neighbour. */
  const Slope: real := 0.03

  // ---------------------------------------------------------------------------
  // The stencil of one cell
  // ---------------------------------------------------------------------------

  /** The neighbour `center` sheds material to. */
  predicate Drop(center: real, n: real) {
    center - n > Slope
  }

  /** How many of the neighbours `ns` the centre sheds material to. */
  function Drops(center: real, ns: seq<real>): (d: nat)
    ensures d <= |ns|
    ensures d > 0 <==> exists k :: 0 <= k < |ns| && Drop(center, ns[k])
    decreases |ns|
  {
    if |ns| == 0 then 0
    else
      var last := ns[|ns| - 1];
      var d := Drops(center, ns[..|ns| - 1]) + (if Drop(center, last) then 1 else 0);
      assert forall k :: 0 <= k < |ns| - 1 ==> ns[..|ns| - 1][k] == ns[k];
      d
  }

  /** `n` copies of `c` added up, the product `n * c` built by repeated addition. */
  function Times(n: nat, c: real): real {
    if n == 0 then 0.0 else Times(n - 1, c) + c
  }

  lemma {:induction false} TimesIsProduct(n: nat, c: real)
    ensures Times(n, c) == n as real * c
  {
    if n > 0 {
      TimesIsProduct(n - 1, c);
      assert n as real * c == (n - 1) as real * c + c;
    }
  }

  /**
    The amount the scan of lines 216-224 adds to `total`: for every
    neighbour the centre sheds to, the midpoint between the two heights.
    Every such midpoint is at least `Slope / 2` below the centre.
   */
  function Gain(center: real, ns: seq<real>): (g: real)
    ensures g <= Times(Drops(center, ns), center - Slope / 2.0)
    ensures Drops(center, ns) == 0 ==> g == 0.0
    decreases |ns|
  {
    if |ns| == 0 then 0.0
    else
      var last := ns[|ns| - 1];
      Gain(center, ns[..|ns| - 1]) + (if Drop(center, last) then last + (center - last) * 0.5 else 0.0)
  }

  /** Every midpoint lies above any floor that the centre and the neighbours share. */
  lemma {:induction false} GainFloor(center: real, ns: seq<real>, lo: real)
    requires lo <= center
    requires forall k :: 0 <= k < |ns| ==> lo <= ns[k]
    ensures Gain(center, ns) >= Times(Drops(center, ns), lo)
    decreases |ns|
  {
    if |ns| > 0 {
      GainFloor(center, ns[..|ns| - 1], lo);
    }
  }

  lemma QuotientCompare(a: real, b: real, c: real)
    requires b > 0.0
    ensures a / b <= c <==> a <= b * c
    ensures a / b < c <==> a < b * c
    ensures a / b >= c <==> a >= b * c
  {
    assert a / b * b == a;
  }

  // `(c + g) / (1 + k)` is the mean of `c` and `k` values adding up to `g`,
  // so it lies between their common bounds.

  lemma MeanUpper(c: real, g: real, k: real, b: real)
    requires k >= 0.0 && g <= k * b && c <= b
    ensures (c + g) / (1.0 + k) <= b
  {
    assert (1.0 + k) * b == b + k * b;
    QuotientCompare(c + g, 1.0 + k, b);
  }

  lemma MeanLower(c: real, g: real, k: real, b: real)
    requires k >= 0.0 && g >= k * b && c >= b
    ensures (c + g) / (1.0 + k) >= b
  {
    assert (1.0 + k) * b == b + k * b;
    QuotientCompare(c + g, 1.0 + k, b);
  }

  lemma MeanStrict(c: real, g: real, k: real, b: real)
    requires k >= 0.0 && g <= k * b && b < c
    ensures k > 0.0 ==> (c + g) / (1.0 + k) < c
  {
    assert k * c - k * b == k * (c - b);
    assert (1.0 + k) * c == c + k * c;
    QuotientCompare(c + g, 1.0 + k, c);
  }

  /**
    The new height of an interior cell, `total / count` of line 226. It
    never rises, and it falls exactly when some neighbour lies more than
    `Slope` below the centre.
   */
  function Relax(center: real, ns: seq<real>): (r: real)
    ensures r <= center
    ensures r < center <==> exists k :: 0 <= k < |ns| && Drop(center, ns[k])
  {
    RelaxBelow(center, Gain(center, ns), Drops(center, ns));
    (center + Gain(center, ns)) / (1.0 + Drops(center, ns) as real)
  }

  /** The mean of the centre and `d` midpoints no higher than `center - Slope / 2`. */
  lemma RelaxBelow(center: real, g: real, d: nat)
    requires g <= Times(d, center - Slope / 2.0)
    requires d == 0 ==> g == 0.0
    ensures (center + g) / (1.0 + d as real) <= center
    ensures (center + g) / (1.0 + d as real) < center <==> d > 0
  {
    TimesMonotone(d, center - Slope / 2.0, center);
    TimesIsProduct(d, center);
    TimesIsProduct(d, center - Slope / 2.0);
    MeanUpper(center, g, d as real, center);
    MeanStrict(center, g, d as real, center - Slope / 2.0);
  }


  lemma {:induction false} TimesStrict(n: nat, a: real, b: real)
    ensures n > 0 && a < b ==> Times(n, a) < Times(n, b)
  {
    if n > 0 {
      TimesStrict(n - 1, a, b);
    }
  }

  lemma {:induction false} TimesMonotone(n: nat, a: real, b: real)
    requires a <= b
    ensures Times(n, a) <= Times(n, b)
  {
    if n > 0 {
      TimesMonotone(n - 1, a, b);
    }
  }

  /** A floor below the centre and all its neighbours is a floor for the relaxed height. */
  lemma RelaxFloor(center: real, ns: seq<real>, lo: real)
    requires lo <= center
    requires forall k :: 0 <= k < |ns| ==> lo <= ns[k]
    ensures lo <= Relax(center, ns)
  {
    var g, d := Gain(center, ns), Drops(center, ns);
    GainFloor(center, ns, lo);
    TimesIsProduct(d, lo);
    MeanLower(center, g, d as real, lo);
    assert Relax(center, ns) == (center + g) / (1.0 + d as real);
  }

  // ---------------------------------------------------------------------------
  // One pass over the grid
  // ---------------------------------------------------------------------------

  /** The cells the loops of lines 210-211 visit: neither in the outer rows nor columns. */
  predicate Interior(w: nat, h: nat, x: int, y: int) {
    1 <= x < w - 1 && 1 <= y < h - 1
  }

  predicate InteriorIndex(w: nat, h: nat, i: nat) {
    w > 0 && Interior(w, h, i % w, i / w)
  }

  /**
    The index step from a cell to its neighbour in direction `d` on a grid
    `w` cells wide, written per direction so that it stays linear in `w`.
   */
  function Offset(w: nat, d: nat): int
    requires d < |Directions|
  {
    if d == 0 then -(w as int) - 1
    else if d == 1 then -(w as int)
    else if d == 2 then -(w as int) + 1
    else if d == 3 then -1
    else if d == 4 then 1
    else if d == 5 then w - 1
    else if d == 6 then w
    else w + 1
  }

  /** The offset of direction `d` moves `(x, y)` to `(x + dx, y + dy)`. */
  lemma OffsetStep(w: nat, x: int, y: int, d: nat)
    requires d < |Directions|
    ensures y * w + x + Offset(w, d) == (y + Directions[d].1) * w + (x + Directions[d].0)
  {
    assert (y - 1) * w == y * w - w;
    assert (y + 1) * w == y * w + w;
  }

  /** Every neighbour of an interior cell lies on the grid. */
  lemma InteriorNeighbour(w: nat, h: nat, i: nat, d: nat)
    requires InteriorIndex(w, h, i) && d < |Directions|
    ensures 0 <= i + Offset(w, d) < w * h
    ensures NeighbourAt(w, h, i % w, i / w, d) == Some(i + Offset(w, d))
  {
    var x, y := i % w, i / w;
    assert i == y * w + x;
    DirectionStep(d);
    OffsetStep(w, x, y, d);
    IndexBound(w, h, x + Directions[d].0, y + Directions[d].1);
  }

  /** The eight neighbour heights of interior cell `i`, in scan order. */
  function NeighbourValues(hm: seq<real>, w: nat, h: nat, i: nat): (ns: seq<real>)
    requires |hm| == w * h && InteriorIndex(w, h, i)
    ensures |ns| == |Directions|
    ensures forall d {:trigger NeighbourAt(w, h, i % w, i / w, d)} :: 0 <= d < |Directions| ==>
      NeighbourAt(w, h, i % w, i / w, d).Some? && ns[d] == hm[NeighbourAt(w, h, i % w, i / w, d).value]
  {
    forall d | 0 <= d < |Directions|
      ensures NeighbourAt(w, h, i % w, i / w, d) == Some(i + Offset(w, d))
    {
      InteriorNeighbour(w, h, i, d);
    }
    seq(|Directions|, d requires 0 <= d < |Directions| => NeighbourValue(hm, w, h, i, d))
  }

  function NeighbourValue(hm: seq<real>, w: nat, h: nat, i: nat, d: nat): (v: real)
    requires |hm| == w * h && InteriorIndex(w, h, i) && d < |Directions|
    ensures 0 <= i + Offset(w, d) < |hm| && v == hm[i + Offset(w, d)]
  {
    InteriorNeighbour(w, h, i, d);
    hm[i + Offset(w, d)]
  }

  /** An interior cell with a neighbour more than `Slope` below it. */
  predicate Unstable(hm: seq<real>, w: nat, h: nat, i: nat)
    requires |hm| == w * h && i < |hm|
  {
    && InteriorIndex(w, h, i)
    && var ns := NeighbourValues(hm, w, h, i);
    && exists d :: 0 <= d < |ns| && Drop(hm[i], ns[d])
  }

  /** The height of cell `i` after one pass. */
  function PassAt(hm: seq<real>, w: nat, h: nat, i: nat): (r: real)
    requires |hm| == w * h && i < |hm|
    ensures r <= hm[i]
    ensures !InteriorIndex(w, h, i) ==> r == hm[i]
  {
    if InteriorIndex(w, h, i) then Relax(hm[i], NeighbourValues(hm, w, h, i)) else hm[i]
  }

  /** The first `n` cells of one pass, in the row-major order the loops write them. */
  function PassPrefix(hm: seq<real>, w: nat, h: nat, n: nat): (r: seq<real>)
    requires |hm| == w * h && n <= |hm|
    ensures |r| == n
    decreases n
  {
    if n == 0 then [] else PassPrefix(hm, w, h, n - 1) + [PassAt(hm, w, h, n - 1)]
  }

  lemma {:induction false} PassPrefixAt(hm: seq<real>, w: nat, h: nat, n: nat, i: nat)
    requires |hm| == w * h && i < n <= |hm|
    ensures PassPrefix(hm, w, h, n)[i] == PassAt(hm, w, h, i)
    decreases n
  {
    if i < n - 1 {
      PassPrefixAt(hm, w, h, n - 1, i);
    }
  }

  /** One iteration of lines 209-229 as a function of the previous heights. */
  function ErosionPass(hm: seq<real>, w: nat, h: nat): (r: seq<real>)
    requires |hm| == w * h
    ensures |r| == |hm|
  {
    PassPrefix(hm, w, h, |hm|)
  }

  /**
    Cell `i` after a pass: it never rises, and a border cell keeps its height.
   */
  lemma PassCell(hm: seq<real>, w: nat, h: nat, i: nat)
    requires |hm| == w * h && i < |hm|
    ensures ErosionPass(hm, w, h)[i] == PassAt(hm, w, h, i)
    ensures ErosionPass(hm, w, h)[i] <= hm[i]
    ensures !InteriorIndex(w, h, i) ==> ErosionPass(hm, w, h)[i] == hm[i]
  {
    PassPrefixAt(hm, w, h, |hm|, i);
  }

  /** A cell falls in a pass exactly when it is unstable before it. */
  lemma PassLowers(hm: seq<real>, w: nat, h: nat, i: nat)
    requires |hm| == w * h && i < |hm|
    ensures ErosionPass(hm, w, h)[i] < hm[i] <==> Unstable(hm, w, h, i)
  {
    PassCell(hm, w, h, i);
  }

  /** No height in `hm` lies below `lo`. */
  ghost predicate Floor(hm: seq<real>, lo: real) {
    forall i :: 0 <= i < |hm| ==> lo <= hm[i]
  }

  /** A pass never takes a cell below the lowest height of the grid before it. */
  lemma PassFloor(hm: seq<real>, w: nat, h: nat, lo: real)
    requires |hm| == w * h && Floor(hm, lo)
    ensures Floor(ErosionPass(hm, w, h), lo)
  {
    forall i | 0 <= i < |hm|
      ensures lo <= ErosionPass(hm, w, h)[i]
    {
      PassCell(hm, w, h, i);
      if InteriorIndex(w, h, i) {
        RelaxFloor(hm[i], NeighbourValues(hm, w, h, i), lo);
      }
    }
  }

  /** A grid without unstable cells is a fixed point of the pass. */
  lemma PassSettled(hm: seq<real>, w: nat, h: nat)
    requires |hm| == w * h
    requires forall i :: 0 <= i < |hm| ==> !Unstable(hm, w, h, i)
    ensures ErosionPass(hm, w, h) == hm
  {
    forall i | 0 <= i < |hm|
      ensures ErosionPass(hm, w, h)[i] == hm[i]
    {
      PassLowers(hm, w, h, i);
      PassCell(hm, w, h, i);
    }
  }

  // ---------------------------------------------------------------------------
  // Repeated passes
  // ---------------------------------------------------------------------------

  /** The heights after `n` passes. */
  function Erode(hm: seq<real>, w: nat, h: nat, n: nat): (r: seq<real>)
    requires |hm| == w * h
    ensures |r| == |hm|
    decreases n
  {
    if n == 0 then hm else ErosionPass(Erode(hm, w, h, n - 1), w, h)
  }

  lemma ErodeStep(hm: seq<real>, w: nat, h: nat, n: nat)
    requires |hm| == w * h
    ensures |Erode(hm, w, h, n)| == w * h
    ensures Erode(hm, w, h, n + 1) == ErosionPass(Erode(hm, w, h, n), w, h)
  {
  }

  /** However many passes run, no cell rises and border cells keep their height. */
  lemma {:induction false} ErodeLowers(hm: seq<real>, w: nat, h: nat, n: nat, i: nat)
    requires |hm| == w * h && i < |hm|
    ensures Erode(hm, w, h, n)[i] <= hm[i]
    ensures !InteriorIndex(w, h, i) ==> Erode(hm, w, h, n)[i] == hm[i]
    decreases n
  {
    if n > 0 {
      ErodeLowers(hm, w, h, n - 1, i);
      PassCell(Erode(hm, w, h, n - 1), w, h, i);
    }
  }

  /** Erosion keeps every height at or above the original lowest height. */
  lemma {:induction false} ErodeFloor(hm: seq<real>, w: nat, h: nat, n: nat, lo: real)
    requires |hm| == w * h && Floor(hm, lo)
    ensures Floor(Erode(hm, w, h, n), lo)
    decreases n
  {
    if n > 0 {
      ErodeFloor(hm, w, h, n - 1, lo);
      PassFloor(Erode(hm, w, h, n - 1), w, h, lo);
    }
  }

  /** Once no cell is unstable, further passes change nothing. */
  lemma {:induction false} ErodeSettled(hm: seq<real>, w: nat, h: nat, n: nat)
    requires |hm| == w * h
    requires forall i :: 0 <= i < |hm| ==> !Unstable(hm, w, h, i)
    ensures Erode(hm, w, h, n) == hm
    decreases n
  {
    if n > 0 {
      ErodeSettled(hm, w, h, n - 1);
      PassSettled(hm, w, h);
    }
  }

  // ---------------------------------------------------------------------------
  // The loops
  // ---------------------------------------------------------------------------

  /** The cells before `upto` hold their new height, the rest the old one. */
  ghost predicate PassedUpTo(old_: seq<real>, scratch: seq<real>, next: seq<real>, upto: nat) {
    && |scratch| == |old_| == |next|
    && forall i {:trigger scratch[i]} :: 0 <= i < |old_| ==> scratch[i] == if i < upto then next[i] else old_[i]
  }

  /** Writing the new height of the next cell extends the visited prefix by one. */
  lemma PassedOne(hm: seq<real>, scratch: seq<real>, w: nat, h: nat, upto: nat, v: real)
    requires |hm| == w * h && upto < |hm|
    requires PassedUpTo(hm, scratch, ErosionPass(hm, w, h), upto)
    requires v == PassAt(hm, w, h, upto)
    ensures PassedUpTo(hm, scratch[upto := v], ErosionPass(hm, w, h), upto + 1)
  {
    var next := ErosionPass(hm, w, h);
    PassCell(hm, w, h, upto);
    var after := scratch[upto := v];
    forall i | 0 <= i < |hm|
      ensures after[i] == if i < upto + 1 then next[i] else hm[i]
    {
      if i != upto {
        assert after[i] == scratch[i];
      }
    }
  }

  /** Extending the visited prefix over border cells keeps `PassedUpTo`. */
  lemma BorderSpan(hm: seq<real>, scratch: seq<real>, w: nat, h: nat, lo: nat, hi: nat)
    requires |hm| == w * h && lo <= hi
    requires PassedUpTo(hm, scratch, ErosionPass(hm, w, h), lo)
    requires forall i :: lo <= i < hi && i < |hm| ==> !InteriorIndex(w, h, i)
    ensures PassedUpTo(hm, scratch, ErosionPass(hm, w, h), hi)
  {
    var next := ErosionPass(hm, w, h);
    forall i | lo <= i < hi && i < |hm|
      ensures next[i] == hm[i]
    {
      PassCell(hm, w, h, i);
    }
  }

  /** Cells `0 ..= w` lie in the top row or the left column. */
  lemma FirstRowBorder(hm: seq<real>, w: nat, h: nat)
    requires |hm| == w * h
    ensures PassedUpTo(hm, hm, ErosionPass(hm, w, h), Index(w, 1, 1))
  {
    var first := Index(w, 1, 1);
    assert first == w + 1;
    forall i | 0 <= i < first && i < |hm|
      ensures !InteriorIndex(w, h, i)
    {
      if i < w {
        Coords(w, i, 0);
        assert Index(w, i, 0) == i;
      } else {
        Coords(w, 0, 1);
        assert Index(w, 0, 1) == i;
      }
    }
    BorderSpan(hm, hm, w, h, 0, first);
  }

  /** A cell from the end of row `y` to the start of row `y + 1` lies on the border. */
  lemma RowEndBorder(w: nat, h: nat, x: nat, y: nat, i: nat)
    requires w > 0 && x + 1 >= w && (x == 1 || x == w - 1)
    requires Index(w, x, y) <= i < Index(w, 1, y + 1)
    ensures !InteriorIndex(w, h, i)
  {
    assert Index(w, 0, y + 1) == y * w + w;
    if i < Index(w, 0, y + 1) {
      Coords(w, i - y * w, y);
    } else {
      Coords(w, 0, y + 1);
    }
  }

  /** Between the last interior cell of row `y` and the first of row `y + 1` lie only border cells. */
  lemma NextRowBorder(hm: seq<real>, scratch: seq<real>, w: nat, h: nat, x: nat, y: nat)
    requires |hm| == w * h && w > 0
    requires x + 1 >= w && (x == 1 || x == w - 1)
    requires PassedUpTo(hm, scratch, ErosionPass(hm, w, h), Index(w, x, y))
    ensures PassedUpTo(hm, scratch, ErosionPass(hm, w, h), Index(w, 1, y + 1))
  {
    forall i | Index(w, x, y) <= i < Index(w, 1, y + 1) && i < |hm|
      ensures !InteriorIndex(w, h, i)
    {
      RowEndBorder(w, h, x, y, i);
    }
    BorderSpan(hm, scratch, w, h, Index(w, x, y), Index(w, 1, y + 1));
  }

  /** A cell after the first of the last row `y` lies on the border. */
  lemma LastRowCell(w: nat, h: nat, y: nat, i: nat)
    requires h >= 1 && (y == 1 || y == h - 1) && y + 1 >= h
    requires Index(w, 1, y) <= i < w * h
    ensures !InteriorIndex(w, h, i)
  {
    assert y * w < i < h * w;
    assert h * w <= (y + 1) * w == y * w + w;
    Coords(w, i - y * w, y);
  }

  /** After the last row, only cells of the bottom row remain untouched. */
  lemma LastRowBorder(hm: seq<real>, scratch: seq<real>, w: nat, h: nat, y: nat)
    requires |hm| == w * h && h >= 1
    requires y == 1 || y == h - 1
    requires y + 1 >= h
    requires PassedUpTo(hm, scratch, ErosionPass(hm, w, h), Index(w, 1, y))
    ensures scratch == ErosionPass(hm, w, h)
  {
    forall i | Index(w, 1, y) <= i < |hm|
      ensures !InteriorIndex(w, h, i)
    {
      LastRowCell(w, h, y, i);
    }
    if Index(w, 1, y) <= |hm| {
      BorderSpan(hm, scratch, w, h, Index(w, 1, y), |hm|);
    }
    assert forall i :: 0 <= i < |hm| ==> scratch[i] == ErosionPass(hm, w, h)[i];
  }

  /**
    The scan of lines 216-224 over the neighbours of an interior cell:
    `total` and `count` grow by the gain and the count of each drop.
   */
  method RelaxCell(hm: seq<real>, w: nat, h: nat, x: nat, y: nat) returns (v: real)
    requires |hm| == w * h && Interior(w, h, x, y)
    ensures Index(w, x, y) < |hm|
    ensures v == PassAt(hm, w, h, Index(w, x, y))
  {
    InteriorCell(hm, w, h, x, y);
    var index := Index(w, x, y);
    var center := hm[index];
    var total := center;
    var count := 1.0;
    ghost var ns := NeighbourValues(hm, w, h, index);
    var d := 0;
    while d < |Directions|
      invariant d <= |Directions|
      invariant total == center + Gain(center, ns[..d])
      invariant count == 1.0 + Drops(center, ns[..d]) as real
    {
      NeighbourIndex(hm, w, h, x, y, d, ns);
      var nx: nat := x + Directions[d].0;
      var ny: nat := y + Directions[d].1;
      var neighbour := hm[Index(w, nx, ny)];
      GainStep(center, ns, d, neighbour, total, count);
      if center - neighbour > Slope {
        total := total + (neighbour + (center - neighbour) * 0.5);
        count := count + 1.0;
      }
      d := d + 1;
    }
    RelaxDone(hm, w, h, Index(w, x, y), ns, total, count);
    v := total / count;
  }

  /** After all eight neighbours, `total / count` is the relaxed height of the cell. */
  lemma RelaxDone(hm: seq<real>, w: nat, h: nat, i: nat, ns: seq<real>, total: real, count: real)
    requires |hm| == w * h && i < |hm| && InteriorIndex(w, h, i)
    requires ns == NeighbourValues(hm, w, h, i)
    requires total == hm[i] + Gain(hm[i], ns[..|Directions|])
    requires count == 1.0 + Drops(hm[i], ns[..|Directions|]) as real
    ensures total / count == PassAt(hm, w, h, i)
  {
    assert ns[..|Directions|] == ns;
  }

  /** The loop coordinates `(x, y)` of an interior cell name an interior index. */
  lemma InteriorCell(hm: seq<real>, w: nat, h: nat, x: nat, y: nat)
    requires |hm| == w * h && Interior(w, h, x, y)
    ensures Index(w, x, y) < |hm| && InteriorIndex(w, h, Index(w, x, y))
  {
    IndexBound(w, h, x, y);
    Coords(w, x, y);
  }

  /** Neighbour `d` of the interior cell `(x, y)` is on the grid and holds the `d`-th neighbour height. */
  lemma NeighbourIndex(hm: seq<real>, w: nat, h: nat, x: nat, y: nat, d: nat, ns: seq<real>)
    requires |hm| == w * h && Interior(w, h, x, y) && d < |Directions|
    requires Index(w, x, y) < |hm| && InteriorIndex(w, h, Index(w, x, y))
    requires ns == NeighbourValues(hm, w, h, Index(w, x, y))
    ensures x + Directions[d].0 >= 0 && y + Directions[d].1 >= 0
    ensures Index(w, x + Directions[d].0, y + Directions[d].1) < |hm|
    ensures hm[Index(w, x + Directions[d].0, y + Directions[d].1)] == ns[d]
  {
    IndexBound(w, h, x, y);
    Coords(w, x, y);
    DirectionStep(d);
    OffsetStep(w, x, y, d);
    InteriorNeighbour(w, h, Index(w, x, y), d);
  }

  /** One more neighbour adds its midpoint and its count exactly when it is a drop. */
  lemma GainStep(center: real, ns: seq<real>, d: nat, n: real, total: real, count: real)
    requires d < |ns| && n == ns[d]
    requires total == center + Gain(center, ns[..d])
    requires count == 1.0 + Drops(center, ns[..d]) as real
    ensures
      && (if center - n > Slope then total + (n + (center - n) * 0.5) else total) == center + Gain(center, ns[..d + 1])
      && (if center - n > Slope then count + 1.0 else count) == 1.0 + Drops(center, ns[..d + 1]) as real
  {
    assert ns[..d + 1][..d] == ns[..d];
  }

  /** One pass of lines 210-228: every interior cell in row-major order, into a copy. */
  method Pass(hm: seq<real>, w: nat, h: nat) returns (scratch: seq<real>)
    requires |hm| == w * h
    requires h >= 1 && (h >= 3 ==> w >= 1)
    ensures scratch == ErosionPass(hm, w, h)
  {
    ghost var next := ErosionPass(hm, w, h);
    scratch := hm;
    FirstRowBorder(hm, w, h);
    var y := 1;
    while y + 1 < h
      invariant y == 1 || y <= h - 1
      invariant PassedUpTo(hm, scratch, next, Index(w, 1, y))
    {
      var x := 1;
      while x + 1 < w
        invariant x == 1 || x <= w - 1
        invariant PassedUpTo(hm, scratch, next, Index(w, x, y))
      {
        var v := RelaxCell(hm, w, h, x, y);
        PassedOne(hm, scratch, w, h, Index(w, x, y), v);
        scratch := scratch[y * w + x := v];
        x := x + 1;
      }
      NextRowBorder(hm, scratch, w, h, x, y);
      y := y + 1;
    }
    LastRowBorder(hm, scratch, w, h, y);
  }

  /**
    `apply_thermal_erosion`: `iterations` passes. The row loop computes
    `height - 1` and, for grids of three or more rows, the column loop
    computes `width - 1`; both panic on underflow, so a pass needs at least
    one row and, from three rows on, at least one column.
   */
  method ApplyThermalErosion(hm: seq<real>, w: nat, h: nat, iterations: nat) returns (r: seq<real>)
    requires |hm| == w * h
    requires iterations > 0 ==> h >= 1 && (h >= 3 ==> w >= 1)
    ensures r == Erode(hm, w, h, iterations)
  {
    r := hm;
    var it := 0;
    while it < iterations
      invariant it <= iterations
      invariant r == Erode(hm, w, h, it)
    {
      ErodeStep(hm, w, h, it);
      r := Pass(r, w, h);
      it := it + 1;
    }
  }
}
