/**
  `build_flow_map`: D8 downslope selection, flow accumulation in descending
  height order, and the water rule derived from the accumulated flow.

  Flow values are cell counts. The source keeps them in `f32`, which holds
  such counts exactly up to 2^24 cells.
 */
module Flow {
  import opened Options
  import opened Grid
  import opened RealMath
  import Sorting

  // ---------------------------------------------------------------------------
  // Downslope selection
  // ---------------------------------------------------------------------------

  /** The scan state after some directions: the lowest height seen, starting
      from the centre's own height, and the direction that first reached it. */
  datatype Lowest = Lowest(height: real, dir: Option<nat>)

  /** The lowest-neighbour scan of lines 248-263 over the first `k` directions. */
  function Scan(hm: seq<real>, w: nat, h: nat, x: nat, y: nat, k: nat): (r: Lowest)
    requires |hm| == w * h && x < w && y < h && k <= |Directions|
    ensures r.dir.Some? ==> r.dir.value < k
    decreases k
  {
    if k == 0 then
      IndexBound(w, h, x, y);
      Lowest(hm[Index(w, x, y)], None)
    else
      var prev := Scan(hm, w, h, x, y, k - 1);
      var n := NeighbourAt(w, h, x, y, k - 1);
      if n.Some? && hm[n.value] < prev.height then Lowest(hm[n.value], Some(k - 1))
      else prev
  }

  /** The neighbour in direction `d` exists and is strictly lower than `(x, y)`. */
  ghost predicate LowerNeighbour(hm: seq<real>, w: nat, h: nat, x: nat, y: nat, d: nat)
    requires |hm| == w * h && x < w && y < h && d < |Directions|
  {
    IndexBound(w, h, x, y);
    var n := NeighbourAt(w, h, x, y, d);
    n.Some? && hm[n.value] < hm[Index(w, x, y)]
  }

  /**
    Reference definition of the D8 choice: direction `d` leads to an in-bounds
    neighbour strictly below the centre, no in-bounds neighbour is lower, and
    every in-bounds neighbour scanned before `d` is strictly higher than it.
   */
  ghost predicate SteepestDirection(hm: seq<real>, w: nat, h: nat, x: nat, y: nat, d: nat)
    requires |hm| == w * h && x < w && y < h
  {
    && d < |Directions|
    && LowerNeighbour(hm, w, h, x, y, d)
    && var low := hm[NeighbourAt(w, h, x, y, d).value];
    && (forall e :: 0 <= e < |Directions| && NeighbourAt(w, h, x, y, e).Some? ==>
          low <= hm[NeighbourAt(w, h, x, y, e).value])
    && (forall e :: 0 <= e < d && NeighbourAt(w, h, x, y, e).Some? ==>
          low < hm[NeighbourAt(w, h, x, y, e).value])
  }

  /** What the scan knows after `k` directions. */
  lemma {:induction false} ScanInvariant(hm: seq<real>, w: nat, h: nat, x: nat, y: nat, k: nat)
    requires |hm| == w * h && x < w && y < h && k <= |Directions|
    ensures Index(w, x, y) < |hm|
    ensures var r := Scan(hm, w, h, x, y, k);
      && r.height <= hm[Index(w, x, y)]
      && (forall e :: 0 <= e < k && NeighbourAt(w, h, x, y, e).Some? ==>
            r.height <= hm[NeighbourAt(w, h, x, y, e).value])
      && (r.dir.None? ==> r.height == hm[Index(w, x, y)])
      && (r.dir.Some? ==>
            && NeighbourAt(w, h, x, y, r.dir.value).Some?
            && hm[NeighbourAt(w, h, x, y, r.dir.value).value] == r.height
            && r.height < hm[Index(w, x, y)]
            && forall e :: 0 <= e < r.dir.value && NeighbourAt(w, h, x, y, e).Some? ==>
                 r.height < hm[NeighbourAt(w, h, x, y, e).value])
    decreases k
  {
    IndexBound(w, h, x, y);
    if k > 0 {
      ScanInvariant(hm, w, h, x, y, k - 1);
    }
  }

  /** At most one direction satisfies the reference definition. */
  lemma SteepestUnique(hm: seq<real>, w: nat, h: nat, x: nat, y: nat, d: nat, e: nat)
    requires |hm| == w * h && x < w && y < h
    requires SteepestDirection(hm, w, h, x, y, d) && SteepestDirection(hm, w, h, x, y, e)
    ensures d == e
  {
    assert NeighbourAt(w, h, x, y, d).Some? && NeighbourAt(w, h, x, y, e).Some?;
  }

  lemma ScanFindsSteepest(hm: seq<real>, w: nat, h: nat, x: nat, y: nat)
    requires |hm| == w * h && x < w && y < h
    ensures Scan(hm, w, h, x, y, 8).dir.Some? ==>
      SteepestDirection(hm, w, h, x, y, Scan(hm, w, h, x, y, 8).dir.value)
    ensures Scan(hm, w, h, x, y, 8).dir.None? ==>
      forall d :: 0 <= d < |Directions| ==> !LowerNeighbour(hm, w, h, x, y, d)
  {
    ScanInvariant(hm, w, h, x, y, 8);
    var r := Scan(hm, w, h, x, y, 8);
    if r.dir.None? {
      forall d | 0 <= d < |Directions|
        ensures !LowerNeighbour(hm, w, h, x, y, d)
      {
        if NeighbourAt(w, h, x, y, d).Some? {
          assert r.height <= hm[NeighbourAt(w, h, x, y, d).value];
        }
      }
    } else {
      assert LowerNeighbour(hm, w, h, x, y, r.dir.value);
    }
  }

  /**
    The scan over all eight directions picks exactly the reference D8
    direction, and finds none exactly when no neighbour is strictly lower.
   */
  lemma ScanIsSteepest(hm: seq<real>, w: nat, h: nat, x: nat, y: nat)
    requires |hm| == w * h && x < w && y < h
    ensures forall d: nat :: Scan(hm, w, h, x, y, 8).dir == Some(d) <==> SteepestDirection(hm, w, h, x, y, d)
    ensures Scan(hm, w, h, x, y, 8).dir.None? <==>
      forall d :: 0 <= d < |Directions| ==> !LowerNeighbour(hm, w, h, x, y, d)
  {
    ScanFindsSteepest(hm, w, h, x, y);
    var r := Scan(hm, w, h, x, y, 8);
    forall d: nat | SteepestDirection(hm, w, h, x, y, d)
      ensures r.dir == Some(d)
    {
      assert LowerNeighbour(hm, w, h, x, y, d);
      SteepestUnique(hm, w, h, x, y, d, r.dir.value);
    }
  }

  /** `downslope[index]` for the cell `(x, y)`: the neighbour the scan settles on. */
  function Downslope(hm: seq<real>, w: nat, h: nat, x: nat, y: nat): (r: Option<nat>)
    requires |hm| == w * h && x < w && y < h
    ensures Index(w, x, y) < |hm|
    ensures r.Some? ==> r.value < |hm| && hm[r.value] < hm[Index(w, x, y)]
  {
    ScanInvariant(hm, w, h, x, y, 8);
    var d := Scan(hm, w, h, x, y, 8).dir;
    if d.Some? then NeighbourAt(w, h, x, y, d.value) else None
  }

  /**
    The downslope target, when present, is the neighbour in the reference
    D8 direction; it is absent exactly when no neighbour is strictly lower.
   */
  lemma DownslopeIsSteepest(hm: seq<real>, w: nat, h: nat, x: nat, y: nat)
    requires |hm| == w * h && x < w && y < h
    ensures Downslope(hm, w, h, x, y).None? <==>
      forall d :: 0 <= d < |Directions| ==> !LowerNeighbour(hm, w, h, x, y, d)
    ensures Downslope(hm, w, h, x, y).Some? ==>
      exists d :: SteepestDirection(hm, w, h, x, y, d) &&
        Downslope(hm, w, h, x, y) == NeighbourAt(w, h, x, y, d)
  {
    ScanIsSteepest(hm, w, h, x, y);
    ScanInvariant(hm, w, h, x, y, 8);
    var d := Scan(hm, w, h, x, y, 8).dir;
    if d.Some? {
      assert SteepestDirection(hm, w, h, x, y, d.value);
    }
  }

  /** A map with a single cell has no neighbour, so its cell drains nowhere. */
  lemma SingleCellIsSink(hm: seq<real>)
    requires |hm| == 1
    ensures Downslope(hm, 1, 1, 0, 0).None?
  {
    DownslopeIsSteepest(hm, 1, 1, 0, 0);
    forall d | 0 <= d < |Directions|
      ensures NeighbourAt(1, 1, 0, 0, d).None?
    {
      assert Directions[d] != (0, 0);
    }
  }

  /** Every target lies inside the grid and strictly below its source cell. */
  ghost predicate Drains(hm: seq<real>, down: seq<Option<nat>>) {
    && |down| == |hm|
    && forall i :: 0 <= i < |down| && down[i].Some? ==>
         down[i].value < |hm| && hm[down[i].value] < hm[i]
  }

  /** The `downslope` vector of lines 242-267, cell by cell in index order. */
  function DownslopeMap(hm: seq<real>, w: nat, h: nat): (down: seq<Option<nat>>)
    requires |hm| == w * h
    ensures Drains(hm, down)
  {
    seq(|hm|, i requires 0 <= i < |hm| => DownslopeOf(hm, w, h, i))
  }

  /** The downslope target of cell `i`, located at column `i % w` of row `i / w`. */
  function DownslopeOf(hm: seq<real>, w: nat, h: nat, i: nat): (r: Option<nat>)
    requires |hm| == w * h && i < |hm|
    ensures r.Some? ==> r.value < |hm| && hm[r.value] < hm[i]
  {
    CellOf(w, h, i);
    Downslope(hm, w, h, i % w, i / w)
  }

  // ---------------------------------------------------------------------------
  // Reference catchment
  // ---------------------------------------------------------------------------

  /** The cells strictly higher than cell `i`; it shrinks along every drain edge. */
  function Higher(hm: seq<real>, i: nat): set<nat>
    requires i < |hm|
  {
    set j: nat | j < |hm| && hm[j] > hm[i]
  }

  lemma HigherShrinks(hm: seq<real>, i: nat, j: nat)
    requires i < |hm| && j < |hm| && hm[j] > hm[i]
    ensures |Higher(hm, j)| < |Higher(hm, i)|
  {
    var hi, hj := Higher(hm, i), Higher(hm, j);
    assert hj <= hi;
    assert j in hi - hj;
    assert hi == hj + (hi - hj);
  }

  /**
    The catchment of cell `i`: one for the cell itself plus the catchments
    of every cell whose downslope target is `i`.
   */
  function Catchment(hm: seq<real>, down: seq<Option<nat>>, i: nat): nat
    requires Drains(hm, down) && i < |hm|
    decreases |Higher(hm, i)|, 1, 0
  {
    1 + Inflow(hm, down, i, |hm|)
  }

  /** The catchments of the cells `j < k` that drain into `i`. */
  function Inflow(hm: seq<real>, down: seq<Option<nat>>, i: nat, k: nat): nat
    requires Drains(hm, down) && i < |hm| && k <= |hm|
    decreases |Higher(hm, i)|, 0, k
  {
    if k == 0 then 0
    else
      var j := k - 1;
      var rest := Inflow(hm, down, i, j);
      if down[j] == Some(i) then
        HigherShrinks(hm, i, j);
        rest + Catchment(hm, down, j)
      else rest
  }

  // ---------------------------------------------------------------------------
  // Sums over orderings of the cells
  // ---------------------------------------------------------------------------

  /** Sum of `cat[j]` over the elements `j` of `s` whose target is `c`. */
  function InflowOver(s: seq<nat>, down: seq<Option<nat>>, cat: seq<nat>, c: nat): nat
    decreases |s|
  {
    if |s| == 0 then 0
    else
      var j := s[|s| - 1];
      InflowOver(s[..|s| - 1], down, cat, c) +
        (if j < |down| && j < |cat| && down[j] == Some(c) then cat[j] else 0)
  }

  lemma {:induction false} InflowOverAppend(a: seq<nat>, b: seq<nat>, down: seq<Option<nat>>, cat: seq<nat>, c: nat)
    ensures InflowOver(a + b, down, cat, c) == InflowOver(a, down, cat, c) + InflowOver(b, down, cat, c)
    decreases |b|
  {
    if |b| > 0 {
      assert (a + b)[..|a + b| - 1] == a + b[..|b| - 1];
      InflowOverAppend(a, b[..|b| - 1], down, cat, c);
    } else {
      assert a + b == a;
    }
  }

  /** The sum does not depend on the order in which the cells are visited. */
  lemma {:induction false} InflowOverPermutation(a: seq<nat>, b: seq<nat>, down: seq<Option<nat>>, cat: seq<nat>, c: nat)
    requires multiset(a) == multiset(b)
    ensures InflowOver(a, down, cat, c) == InflowOver(b, down, cat, c)
    decreases |a|
  {
    if |a| > 0 {
      var x := a[|a| - 1];
      assert x in multiset(b);
      var k :| 0 <= k < |b| && b[k] == x;
      RemoveMatching(a, b, k);
      InflowOverPermutation(a[..|a| - 1], b[..k] + b[k + 1..], down, cat, c);
      InflowOverRemove(b, k, down, cat, c);
    }
  }

  /** Dropping the last element of `a` and a copy of it from `b` keeps the multisets equal. */
  lemma RemoveMatching(a: seq<nat>, b: seq<nat>, k: nat)
    requires multiset(a) == multiset(b) && |a| > 0 && k < |b| && b[k] == a[|a| - 1]
    ensures multiset(a[..|a| - 1]) == multiset(b[..k] + b[k + 1..])
  {
    var x := b[k];
    var a', b' := a[..|a| - 1], b[..k] + b[k + 1..];
    assert b == b[..k] + [x] + b[k + 1..];
    assert a == a' + [x];
    assert multiset(b) == multiset(b') + multiset{x};
    assert multiset(a) == multiset(a') + multiset{x};
    forall y
      ensures multiset(a')[y] == multiset(b')[y]
    {
      assert multiset(a)[y] == multiset(a')[y] + multiset{x}[y];
      assert multiset(b)[y] == multiset(b')[y] + multiset{x}[y];
    }
  }

  /** The sum over `b` is the sum without `b[k]` plus the share of `b[k]`. */
  lemma InflowOverRemove(b: seq<nat>, k: nat, down: seq<Option<nat>>, cat: seq<nat>, c: nat)
    requires k < |b|
    ensures InflowOver(b, down, cat, c) == InflowOver(b[..k] + b[k + 1..], down, cat, c) + InflowOver([b[k]], down, cat, c)
  {
    assert b == (b[..k] + [b[k]]) + b[k + 1..];
    InflowOverAppend(b[..k] + [b[k]], b[k + 1..], down, cat, c);
    InflowOverAppend(b[..k], [b[k]], down, cat, c);
    InflowOverAppend(b[..k], b[k + 1..], down, cat, c);
  }

  /** A visit list none of whose cells drains into `c` contributes nothing. */
  lemma {:induction false} InflowOverNone(s: seq<nat>, down: seq<Option<nat>>, cat: seq<nat>, c: nat)
    requires forall k :: 0 <= k < |s| && s[k] < |down| ==> down[s[k]] != Some(c)
    ensures InflowOver(s, down, cat, c) == 0
    decreases |s|
  {
    if |s| > 0 {
      InflowOverNone(s[..|s| - 1], down, cat, c);
    }
  }

  lemma {:induction false} InflowIsSum(hm: seq<real>, down: seq<Option<nat>>, cat: seq<nat>, i: nat, k: nat)
    requires Drains(hm, down) && i < |hm| && k <= |hm| && |cat| == |hm|
    requires forall j :: 0 <= j < |hm| ==> cat[j] == Catchment(hm, down, j)
    ensures Inflow(hm, down, i, k) == InflowOver(Cells(k), down, cat, i)
    decreases k
  {
    if k > 0 {
      assert Cells(k)[..k - 1] == Cells(k - 1);
      InflowIsSum(hm, down, cat, i, k - 1);
    }
  }

  /** Sum of `f[j]` over the elements `j` of `s`. */
  function Mass(s: seq<nat>, f: seq<nat>): nat
    decreases |s|
  {
    if |s| == 0 then 0 else (if s[0] < |f| then f[s[0]] else 0) + Mass(s[1..], f)
  }

  lemma {:induction false} MassOfOnes(s: seq<nat>, f: seq<nat>)
    requires forall k :: 0 <= k < |s| ==> s[k] < |f| && f[s[k]] == 1
    ensures Mass(s, f) == |s|
    decreases |s|
  {
    if |s| > 0 {
      MassOfOnes(s[1..], f);
    }
  }

  lemma {:induction false} MassBump(s: seq<nat>, f: seq<nat>, t: nat, d: nat)
    requires t < |f|
    ensures Mass(s, f[t := f[t] + d]) == Mass(s, f) + d * multiset(s)[t]
    decreases |s|
  {
    if |s| > 0 {
      MassBump(s[1..], f, t, d);
      assert s == [s[0]] + s[1..];
      assert multiset(s)[t] == multiset(s[1..])[t] + (if s[0] == t then 1 else 0);
      assert d * multiset(s)[t] == d * multiset(s[1..])[t] + (if s[0] == t then d else 0);
    }
  }

  lemma {:induction false} MassCovers(s: seq<nat>, f: seq<nat>, t: nat)
    requires t in s && t < |f|
    ensures f[t] <= Mass(s, f)
    decreases |s|
  {
    if s[0] != t {
      MassCovers(s[1..], f, t);
    }
  }

  // ---------------------------------------------------------------------------
  // Accumulation
  // ---------------------------------------------------------------------------

  function HeightKey(hm: seq<real>): nat -> real {
    (j: nat) => if j < |hm| then hm[j] else 0.0
  }

  /** `order` lists every cell once, highest first (lines 269-270). */
  ghost predicate IsHeightOrder(hm: seq<real>, order: seq<nat>) {
    && multiset(order) == multiset(Cells(|hm|))
    && Sorting.SortedDesc(order, HeightKey(hm))
  }

  lemma HeightOrderFacts(hm: seq<real>, order: seq<nat>)
    requires IsHeightOrder(hm, order)
    ensures |order| == |hm|
    ensures forall k :: 0 <= k < |order| ==> order[k] < |hm|
    ensures forall x :: 0 <= x < |hm| ==> multiset(order)[x] == 1
    ensures forall a, b :: 0 <= a < b < |order| ==> hm[order[a]] >= hm[order[b]]
  {
    assert |order| == |multiset(order)| == |multiset(Cells(|hm|))| == |hm|;
    forall k | 0 <= k < |order|
      ensures order[k] < |hm|
    {
      assert order[k] in multiset(Cells(|hm|));
    }
    forall x | 0 <= x < |hm|
      ensures multiset(order)[x] == 1
    {
      CellsCount(|hm|, x);
    }
  }

  /** Cell `c`'s catchment, as a sum over any height order instead of index order. */
  lemma CatchmentOverOrder(hm: seq<real>, down: seq<Option<nat>>, order: seq<nat>, cat: seq<nat>, c: nat)
    requires Drains(hm, down) && IsHeightOrder(hm, order) && c < |hm| && |cat| == |hm|
    requires forall j :: 0 <= j < |hm| ==> cat[j] == Catchment(hm, down, j)
    ensures Catchment(hm, down, c) == 1 + InflowOver(order, down, cat, c)
  {
    InflowIsSum(hm, down, cat, c, |hm|);
    InflowOverPermutation(order, Cells(|hm|), down, cat, c);
  }

  lemma {:induction false} InflowOverSnoc(s: seq<nat>, j: nat, down: seq<Option<nat>>, cat: seq<nat>, c: nat)
    ensures InflowOver(s + [j], down, cat, c) ==
      InflowOver(s, down, cat, c) + (if j < |down| && j < |cat| && down[j] == Some(c) then cat[j] else 0)
  {
    assert (s + [j])[..|s|] == s;
  }

  lemma InflowStep(order: seq<nat>, p: nat, down: seq<Option<nat>>, cat: seq<nat>, n: nat)
    requires p < |order| && order[p] < |down| && order[p] < |cat|
    ensures forall c :: 0 <= c < n ==>
      InflowOver(order[..p + 1], down, cat, c) ==
        InflowOver(order[..p], down, cat, c) + (if down[order[p]] == Some(c) then cat[order[p]] else 0)
  {
    assert order[..p + 1] == order[..p] + [order[p]];
    forall c | 0 <= c < n
      ensures InflowOver(order[..p + 1], down, cat, c) ==
        InflowOver(order[..p], down, cat, c) + (if down[order[p]] == Some(c) then cat[order[p]] else 0)
    {
      InflowOverSnoc(order[..p], order[p], down, cat, c);
    }
  }

  /**
    When the cell at position `p` of a height order is reached, every cell
    draining into it sits earlier in the order, so the inflow already
    gathered from `order[..p]` is its whole catchment.
   */
  lemma FinalWhenReached(hm: seq<real>, down: seq<Option<nat>>, order: seq<nat>, cat: seq<nat>, p: nat)
    requires Drains(hm, down) && IsHeightOrder(hm, order) && p < |order| && |cat| == |hm|
    requires forall j :: 0 <= j < |hm| ==> cat[j] == Catchment(hm, down, j)
    ensures order[p] < |hm|
    ensures 1 + InflowOver(order[..p], down, cat, order[p]) == cat[order[p]]
  {
    HeightOrderFacts(hm, order);
    var cell := order[p];
    forall k | 0 <= k < |order[p..]| && order[p..][k] < |down|
      ensures down[order[p..][k]] != Some(cell)
    {
      assert order[p..][k] == order[p + k];
    }
    InflowOverNone(order[p..], down, cat, cell);
    InflowOverAppend(order[..p], order[p..], down, cat, cell);
    assert order[..p] + order[p..] == order;
    CatchmentOverOrder(hm, down, order, cat, cell);
  }

  /** A target strictly below `order[p]` occurs exactly once after position `p`. */
  lemma TargetAhead(hm: seq<real>, order: seq<nat>, p: nat, t: nat)
    requires IsHeightOrder(hm, order) && p < |order| && t < |hm|
    requires order[p] < |hm| && hm[t] < hm[order[p]]
    ensures multiset(order[p + 1..])[t] == 1
  {
    HeightOrderFacts(hm, order);
    forall k | 0 <= k < p + 1
      ensures hm[order[k]] >= hm[order[p]]
    {
    }
    assert forall k :: 0 <= k < p + 1 ==> order[..p + 1][k] == order[k];
    assert t !in order[..p + 1];
    assert multiset(order[..p + 1])[t] == 0;
    assert multiset(order)[t] == 1;
    assert order == order[..p + 1] + order[p + 1..];
    assert multiset(order) == multiset(order[..p + 1]) + multiset(order[p + 1..]);
  }

  /**
    The loop invariant of the accumulation after `p` cells of `order`: each
    cell holds one plus the catchments pushed into it so far, the flow still
    to be pushed downstream totals at most the number of cells, and so does
    every single flow.
   */
  ghost predicate Accumulated(hm: seq<real>, down: seq<Option<nat>>, order: seq<nat>, cat: seq<nat>, p: nat, flow: seq<nat>) {
    && p <= |order|
    && |flow| == |hm|
    && (forall c :: 0 <= c < |hm| ==> flow[c] == 1 + InflowOver(order[..p], down, cat, c))
    && Mass(order[p..], flow) <= |hm|
    && (forall c :: 0 <= c < |hm| ==> flow[c] <= |hm|)
  }

  /** Adds a cell's flow to its downslope target, if it has one (lines 274-276). */
  function Push(flow: seq<nat>, target: Option<nat>, cell: nat): (after: seq<nat>)
    requires cell < |flow| && (target.Some? ==> target.value < |flow|)
    ensures |after| == |flow|
  {
    if target.Some? then flow[target.value := flow[target.value] + flow[cell]] else flow
  }

  /** One iteration of the accumulation loop keeps the invariant. */
  lemma AccumulateStep(hm: seq<real>, down: seq<Option<nat>>, order: seq<nat>, cat: seq<nat>, p: nat, flow: seq<nat>)
    requires Drains(hm, down) && IsHeightOrder(hm, order) && |cat| == |hm|
    requires forall j :: 0 <= j < |hm| ==> cat[j] == Catchment(hm, down, j)
    requires p < |order| && Accumulated(hm, down, order, cat, p, flow)
    ensures order[p] < |hm|
    ensures down[order[p]].Some? ==> down[order[p]].value < |flow|
    ensures Accumulated(hm, down, order, cat, p + 1, Push(flow, down[order[p]], order[p]))
  {
    HeightOrderFacts(hm, order);
    StepInflow(hm, down, order, cat, p, flow);
    StepMass(hm, down, order, cat, p, flow);
  }

  /** After pushing `order[p]`, each cell holds one plus the inflow from `order[..p + 1]`. */
  lemma StepInflow(hm: seq<real>, down: seq<Option<nat>>, order: seq<nat>, cat: seq<nat>, p: nat, flow: seq<nat>)
    requires Drains(hm, down) && IsHeightOrder(hm, order) && |cat| == |hm|
    requires forall j :: 0 <= j < |hm| ==> cat[j] == Catchment(hm, down, j)
    requires p < |order| && Accumulated(hm, down, order, cat, p, flow)
    requires order[p] < |hm|
    ensures var after := Push(flow, down[order[p]], order[p]);
      forall c :: 0 <= c < |hm| ==> after[c] == 1 + InflowOver(order[..p + 1], down, cat, c)
  {
    var cell := order[p];
    FinalWhenReached(hm, down, order, cat, p);
    InflowStep(order, p, down, cat, |hm|);
    var after := Push(flow, down[cell], cell);
    forall c | 0 <= c < |hm|
      ensures after[c] == 1 + InflowOver(order[..p + 1], down, cat, c)
    {
      assert after[c] == flow[c] + (if down[cell] == Some(c) then flow[cell] else 0);
    }
  }

  /** Pushing `order[p]` downstream keeps the pending total and every flow within the cell count. */
  lemma StepMass(hm: seq<real>, down: seq<Option<nat>>, order: seq<nat>, cat: seq<nat>, p: nat, flow: seq<nat>)
    requires Drains(hm, down) && IsHeightOrder(hm, order)
    requires p < |order| && Accumulated(hm, down, order, cat, p, flow)
    requires order[p] < |hm|
    ensures var after := Push(flow, down[order[p]], order[p]);
      && Mass(order[p + 1..], after) <= |hm|
      && forall c :: 0 <= c < |hm| ==> after[c] <= |hm|
  {
    var cell := order[p];
    assert order[p..] == [cell] + order[p + 1..];
    assert Mass(order[p..], flow) == flow[cell] + Mass(order[p + 1..], flow);
    if down[cell].Some? {
      var t := down[cell].value;
      var after := Push(flow, down[cell], cell);
      TargetAhead(hm, order, p, t);
      MassBump(order[p + 1..], flow, t, flow[cell]);
      MassCovers(order[p + 1..], after, t);
      assert forall c :: 0 <= c < |hm| && c != t ==> after[c] == flow[c];
    }
  }

  /**
    The accumulation loop of lines 272-277. Processing cells highest first,
    a cell's flow is final before it is pushed downstream, so every cell ends
    with its catchment, whatever order the sort gives to equal heights.
   */
  method Accumulate(hm: seq<real>, down: seq<Option<nat>>, order: seq<nat>) returns (flow: seq<nat>)
    requires Drains(hm, down)
    requires IsHeightOrder(hm, order)
    ensures |flow| == |hm|
    ensures forall i :: 0 <= i < |hm| ==> flow[i] == Catchment(hm, down, i)
    ensures forall i :: 0 <= i < |hm| ==> 1 <= flow[i] <= |hm|
  {
    var n := |hm|;
    ghost var cat := Catchments(hm, down);
    flow := seq(n, _ => 1);
    AccumulatedInitially(hm, down, order, cat, flow);
    var p := 0;
    while p < |order|
      invariant Accumulated(hm, down, order, cat, p, flow)
    {
      AccumulateStep(hm, down, order, cat, p, flow);
      flow := Push(flow, down[order[p]], order[p]);
      p := p + 1;
    }
    AccumulatedFinally(hm, down, order, cat, flow);
  }

  /** The catchment of every cell, in index order. */
  ghost function Catchments(hm: seq<real>, down: seq<Option<nat>>): (cat: seq<nat>)
    requires Drains(hm, down)
    ensures |cat| == |hm|
    ensures forall j :: 0 <= j < |hm| ==> cat[j] == Catchment(hm, down, j)
  {
    seq(|hm|, j requires 0 <= j < |hm| => Catchment(hm, down, j))
  }

  lemma AccumulatedInitially(hm: seq<real>, down: seq<Option<nat>>, order: seq<nat>, cat: seq<nat>, flow: seq<nat>)
    requires IsHeightOrder(hm, order)
    requires |flow| == |hm| && forall c :: 0 <= c < |flow| ==> flow[c] == 1
    ensures Accumulated(hm, down, order, cat, 0, flow)
  {
    HeightOrderFacts(hm, order);
    MassOfOnes(order, flow);
    assert order[0..] == order;
  }

  lemma AccumulatedFinally(hm: seq<real>, down: seq<Option<nat>>, order: seq<nat>, cat: seq<nat>, flow: seq<nat>)
    requires Drains(hm, down) && IsHeightOrder(hm, order)
    requires |cat| == |hm| && forall j :: 0 <= j < |hm| ==> cat[j] == Catchment(hm, down, j)
    requires Accumulated(hm, down, order, cat, |order|, flow)
    ensures |flow| == |hm|
    ensures forall i :: 0 <= i < |hm| ==> flow[i] == Catchment(hm, down, i)
    ensures forall i :: 0 <= i < |hm| ==> 1 <= flow[i] <= |hm|
  {
    assert order[..|order|] == order;
    forall i | 0 <= i < |hm|
      ensures flow[i] == Catchment(hm, down, i)
    {
      CatchmentOverOrder(hm, down, order, cat, i);
    }
  }

  // ---------------------------------------------------------------------------
  // Water
  // ---------------------------------------------------------------------------

  /** `flow.iter().fold(0.0, max)`. */
  function MaxFlow(flow: seq<nat>): (m: nat)
    ensures forall i :: 0 <= i < |flow| ==> flow[i] <= m
    ensures m == 0 || m in flow
    decreases |flow|
  {
    if |flow| == 0 then 0
    else
      var m := MaxFlow(flow[..|flow| - 1]);
      if flow[|flow| - 1] > m then flow[|flow| - 1] else m
  }

  /**
    `powf(_, 0.4)` is a parameter; on the ratios the water rule feeds it,
    which lie in `[0, 1)`, it stays in `[0, 1)` as the real power does.
   */
  ghost predicate RunoffCurve(powf: (real, real) -> real) {
    forall r :: 0.0 <= r < 1.0 ==> 0.0 <= powf(r, 0.4) < 1.0
  }

  const RiverThreshold: real := 0.3

  /** The water value of one cell (lines 283-290). */
  function WaterAt(height: real, flow: nat, maxFlow: nat, seaLevel: real, powf: (real, real) -> real): real {
    if height <= seaLevel then 1.0
    else
      var runoff := powf(flow as real / (maxFlow as real + 1.0), 0.4);
      if runoff > RiverThreshold then runoff else 0.0
  }

  lemma RatioBelowOne(a: real, d: real)
    requires 0.0 <= a < d
    ensures 0.0 <= a / d < 1.0
  {
    assert a / d * d == a;
  }

  lemma WaterAtRange(height: real, flow: nat, maxFlow: nat, seaLevel: real, powf: (real, real) -> real)
    requires RunoffCurve(powf) && flow <= maxFlow
    ensures var v := WaterAt(height, flow, maxFlow, seaLevel, powf);
      && 0.0 <= v <= 1.0
      && (v == 1.0 <==> height <= seaLevel)
      && (height > seaLevel ==> v == 0.0 || v > RiverThreshold)
  {
    var ratio := flow as real / (maxFlow as real + 1.0);
    RatioBelowOne(flow as real, maxFlow as real + 1.0);
    assert 0.0 <= powf(ratio, 0.4) < 1.0;
  }

  lemma WaterRange(hm: seq<real>, flow: seq<nat>, maxFlow: nat, seaLevel: real, powf: (real, real) -> real, water: seq<real>)
    requires |flow| == |hm| == |water| && RunoffCurve(powf)
    requires forall i :: 0 <= i < |flow| ==> flow[i] <= maxFlow
    requires forall i :: 0 <= i < |hm| ==> water[i] == WaterAt(hm[i], flow[i], maxFlow, seaLevel, powf)
    ensures forall i :: 0 <= i < |hm| ==> 0.0 <= water[i] <= 1.0
    ensures forall i :: 0 <= i < |hm| ==> (water[i] == 1.0 <==> hm[i] <= seaLevel)
    ensures forall i :: 0 <= i < |hm| && hm[i] > seaLevel ==> water[i] == 0.0 || water[i] > RiverThreshold
  {
    forall i | 0 <= i < |hm|
      ensures 0.0 <= water[i] <= 1.0
      ensures water[i] == 1.0 <==> hm[i] <= seaLevel
      ensures hm[i] > seaLevel ==> water[i] == 0.0 || water[i] > RiverThreshold
    {
      WaterAtRange(hm[i], flow[i], maxFlow, seaLevel, powf);
    }
  }

  /**
    The water vector of lines 279-291. Water is in `[0, 1]`, is exactly 1
    precisely on cells at or below sea level, and above sea level is the
    runoff of the cell's share of the largest flow when that runoff exceeds
    the river threshold, and 0 otherwise.
   */
  function Water(hm: seq<real>, flow: seq<nat>, seaLevel: real, powf: (real, real) -> real): (water: seq<real>)
    requires |flow| == |hm|
    requires RunoffCurve(powf)
    ensures |water| == |hm|
    ensures forall i :: 0 <= i < |hm| ==> 0.0 <= water[i] <= 1.0
    ensures forall i :: 0 <= i < |hm| ==> (water[i] == 1.0 <==> hm[i] <= seaLevel)
    ensures forall i :: 0 <= i < |hm| && hm[i] > seaLevel ==> water[i] == 0.0 || water[i] > RiverThreshold
    ensures forall i :: 0 <= i < |hm| && hm[i] > seaLevel ==>
      var runoff := powf(flow[i] as real / (MaxFlow(flow) as real + 1.0), 0.4);
      && (runoff > RiverThreshold ==> water[i] == runoff)
      && (runoff <= RiverThreshold ==> water[i] == 0.0)
  {
    var maxFlow := MaxFlow(flow);
    var water := seq(|hm|, i requires 0 <= i < |hm| => WaterAt(hm[i], flow[i], maxFlow, seaLevel, powf));
    assert forall i :: 0 <= i < |hm| ==> water[i] == WaterAt(hm[i], flow[i], maxFlow, seaLevel, powf);
    WaterRange(hm, flow, maxFlow, seaLevel, powf, water);
    water
  }

  /**
    `build_flow_map`: downslope targets, a descending height order, the
    accumulated flow (each cell's catchment, at least 1 and at most the
    number of cells) and the water vector.
   */
  method BuildFlowMap(hm: seq<real>, w: nat, h: nat, seaLevel: real, powf: (real, real) -> real)
    returns (flow: seq<nat>, water: seq<real>)
    requires |hm| == w * h
    requires RunoffCurve(powf)
    ensures |flow| == |hm| && |water| == |hm|
    ensures flow == Catchments(hm, DownslopeMap(hm, w, h))
    ensures forall i :: 0 <= i < |hm| ==> 1 <= flow[i] <= |hm|
    ensures forall i :: 0 <= i < |hm| ==> 0.0 <= water[i] <= 1.0
    ensures forall i :: 0 <= i < |hm| ==> (water[i] == 1.0 <==> hm[i] <= seaLevel)
    ensures water == Water(hm, flow, seaLevel, powf)
  {
    var down := DownslopeMap(hm, w, h);
    var order := Sorting.SortDesc(Cells(|hm|), HeightKey(hm));
    flow := Accumulate(hm, down, order);
    water := Water(hm, flow, seaLevel, powf);
  }
}
