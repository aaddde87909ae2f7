/**
  The first half of `place_settlements`: `local_flatness` and the scan of
  lines 388-408 that collects, in row-major order, every cell at least two
  cells from the border that is dry land, flat enough and scores above the
  threshold.
 */
module Candidates {
  import opened RealMath
  import opened Grid

  // ---------------------------------------------------------------------------
  // Local flatness (lines 491-504)
  // ---------------------------------------------------------------------------

  /**
    The cell direction `d` reaches from `(x, y)`, each coordinate clamped into
    the grid as the `i32::clamp` calls of lines 496-497 do.
   */
  function ClampedNeighbour(w: nat, h: nat, x: nat, y: nat, d: nat): (i: nat)
    requires w >= 1 && h >= 1 && d < |Directions|
    ensures i < w * h
  {
    var nx := ClampInt(x + Directions[d].0, 0, w - 1);
    var ny := ClampInt(y + Directions[d].1, 0, h - 1);
    IndexBound(w, h, nx, ny);
    Index(w, nx, ny)
  }

  /** `variance` after the first `k` directions: the sum of absolute differences. */
  function Variance(hm: seq<real>, w: nat, h: nat, x: nat, y: nat, k: nat): (v: real)
    requires |hm| == w * h && x < w && y < h && k <= |Directions|
    ensures v >= 0.0
    decreases k
  {
    if k == 0 then 0.0
    else
      IndexBound(w, h, x, y);
      Variance(hm, w, h, x, y, k - 1) + Abs(hm[Index(w, x, y)] - hm[ClampedNeighbour(w, h, x, y, k - 1)])
  }

  /** `local_flatness`: the mean absolute height difference to the eight clamped neighbours. */
  function LocalFlatness(hm: seq<real>, w: nat, h: nat, x: nat, y: nat): (f: real)
    requires |hm| == w * h && x < w && y < h
    ensures f >= 0.0
  {
    Variance(hm, w, h, x, y, |Directions|) / 8.0
  }

  /** The variance is zero exactly when every scanned neighbour has the centre's height. */
  lemma {:induction false} VarianceZero(hm: seq<real>, w: nat, h: nat, x: nat, y: nat, k: nat)
    requires |hm| == w * h && x < w && y < h && k <= |Directions|
    ensures Index(w, x, y) < |hm|
    ensures Variance(hm, w, h, x, y, k) == 0.0 <==>
      forall d :: 0 <= d < k ==> hm[ClampedNeighbour(w, h, x, y, d)] == hm[Index(w, x, y)]
    decreases k
  {
    IndexBound(w, h, x, y);
    if k > 0 {
      VarianceZero(hm, w, h, x, y, k - 1);
    }
  }

  /** A cell is perfectly flat exactly when its eight clamped neighbours share its height. */
  lemma FlatIffLevel(hm: seq<real>, w: nat, h: nat, x: nat, y: nat)
    requires |hm| == w * h && x < w && y < h
    ensures Index(w, x, y) < |hm|
    ensures LocalFlatness(hm, w, h, x, y) == 0.0 <==>
      forall d :: 0 <= d < |Directions| ==> hm[ClampedNeighbour(w, h, x, y, d)] == hm[Index(w, x, y)]
  {
    VarianceZero(hm, w, h, x, y, |Directions|);
  }

  /** Away from the border the clamps do nothing: the scanned cells are the true neighbours. */
  lemma ClampInactive(w: nat, h: nat, x: nat, y: nat, d: nat)
    requires 1 <= x && x + 1 < w && 1 <= y && y + 1 < h && d < |Directions|
    ensures ClampedNeighbour(w, h, x, y, d) == Index(w, x + Directions[d].0, y + Directions[d].1)
  {
    DirectionStep(d);
  }

  // ---------------------------------------------------------------------------
  // The candidate filter
  // ---------------------------------------------------------------------------

  /** The grids `place_settlements` reads, with the shape they must share. */
  datatype Terrain = Terrain(hm: seq<real>, water: seq<real>, moisture: seq<real>, w: nat, h: nat, seaLevel: real)

  /**
    All three grids have `w * h` cells. The row range at line 388 computes
    `height - 2`, which underflows below 2 rows. The column range at line
    389 computes `width - 2` only when a row is visited, that is from 5 rows
    on, so only then must the grid have at least 2 columns.
   */
  predicate Valid(t: Terrain) {
    |t.hm| == t.w * t.h && |t.water| == t.w * t.h && |t.moisture| == t.w * t.h
    && t.h >= 2 && (t.h >= 5 ==> t.w >= 2)
  }

  const MaxWater: real := 0.2
  const MaxFlatness: real := 0.08
  const MinScore: real := 0.35

  /** The cells the loops of lines 388-389 visit: at least two cells from every border. */
  predicate InZone(t: Terrain, x: nat, y: nat) {
    2 <= x && x + 2 < t.w && 2 <= y && y + 2 < t.h
  }

  /** `moisture * 0.6 + (1 - flatness) * 0.3 + elevation * 0.1` (line 403). */
  function Score(t: Terrain, x: nat, y: nat): real
    requires Valid(t) && x < t.w && y < t.h
  {
    IndexBound(t.w, t.h, x, y);
    var i := Index(t.w, x, y);
    t.moisture[i] * 0.6 + (1.0 - LocalFlatness(t.hm, t.w, t.h, x, y)) * 0.3 + t.hm[i] * 0.1
  }

  /** The four tests of lines 392-407: dry land above the margin, flat, and scoring high enough. */
  predicate Qualifies(t: Terrain, x: nat, y: nat)
    requires Valid(t) && x < t.w && y < t.h
  {
    IndexBound(t.w, t.h, x, y);
    var i := Index(t.w, x, y);
    && t.hm[i] > t.seaLevel + 0.02
    && t.water[i] <= MaxWater
    && LocalFlatness(t.hm, t.w, t.h, x, y) <= MaxFlatness
    && Score(t, x, y) > MinScore
  }

  /** Cell `i`, at column `i % w` of row `i / w`, is pushed as a candidate. */
  predicate Eligible(t: Terrain, i: nat)
    requires Valid(t) && i < |t.hm|
  {
    CellOf(t.w, t.h, i);
    InZone(t, i % t.w, i / t.w) && Qualifies(t, i % t.w, i / t.w)
  }

  /** A candidate: a cell index and its score. */
  datatype Candidate = Candidate(index: nat, score: real)

  /** The candidate of an eligible cell. */
  function CandidateAt(t: Terrain, i: nat): Candidate
    requires Valid(t) && i < |t.hm|
  {
    CellOf(t.w, t.h, i);
    Candidate(i, Score(t, i % t.w, i / t.w))
  }

  /** The candidates among the cells below index `n`, in index order. */
  function CandidatesBelow(t: Terrain, n: nat): (cs: seq<Candidate>)
    requires Valid(t)
    ensures forall k :: 0 <= k < |cs| ==> cs[k].index < n && cs[k].index < |t.hm|
    decreases n
  {
    if n == 0 then []
    else
      var prev := CandidatesBelow(t, n - 1);
      if n - 1 < |t.hm| && Eligible(t, n - 1) then prev + [CandidateAt(t, n - 1)] else prev
  }

  /** The candidate vector of the whole map. */
  function AllCandidates(t: Terrain): seq<Candidate>
    requires Valid(t)
  {
    CandidatesBelow(t, |t.hm|)
  }

  /** Every candidate is an eligible cell carrying its own score. */
  lemma {:induction false} CandidatesSound(t: Terrain, n: nat)
    requires Valid(t)
    ensures forall k :: 0 <= k < |CandidatesBelow(t, n)| ==>
      var c := CandidatesBelow(t, n)[k];
      c.index < |t.hm| && Eligible(t, c.index) && c == CandidateAt(t, c.index)
    decreases n
  {
    if n > 0 {
      CandidatesSound(t, n - 1);
    }
  }

  /** Every eligible cell below `n` is a candidate. */
  lemma {:induction false} CandidatesComplete(t: Terrain, n: nat, i: nat)
    requires Valid(t) && i < n && i < |t.hm| && Eligible(t, i)
    ensures exists k :: 0 <= k < |CandidatesBelow(t, n)| && CandidatesBelow(t, n)[k].index == i
    decreases n
  {
    var cs := CandidatesBelow(t, n);
    if i == n - 1 {
      assert cs[|cs| - 1].index == i;
    } else {
      CandidatesComplete(t, n - 1, i);
      var k :| 0 <= k < |CandidatesBelow(t, n - 1)| && CandidatesBelow(t, n - 1)[k].index == i;
      assert cs[k] == CandidatesBelow(t, n - 1)[k];
    }
  }

  /** Candidates appear in strictly increasing index order, the row-major scan order. */
  lemma {:induction false} CandidatesIncreasing(t: Terrain, n: nat)
    requires Valid(t)
    ensures forall a, b :: 0 <= a < b < |CandidatesBelow(t, n)| ==>
      CandidatesBelow(t, n)[a].index < CandidatesBelow(t, n)[b].index
    decreases n
  {
    if n > 0 {
      CandidatesIncreasing(t, n - 1);
    }
  }

  /** A range of indices with no eligible cell adds no candidate. */
  lemma {:induction false} CandidatesSkip(t: Terrain, lo: nat, hi: nat)
    requires Valid(t) && lo <= hi
    requires forall i :: lo <= i < hi && i < |t.hm| ==> !Eligible(t, i)
    ensures CandidatesBelow(t, hi) == CandidatesBelow(t, lo)
    decreases hi
  {
    if lo < hi {
      CandidatesSkip(t, lo, hi - 1);
    }
  }

  // ---------------------------------------------------------------------------
  // The scan loops
  // ---------------------------------------------------------------------------

  /** A cell outside the zone is never a candidate. */
  lemma OutsideZone(t: Terrain, x: nat, y: nat)
    requires Valid(t) && x < t.w && !InZone(t, x, y)
    ensures Index(t.w, x, y) < |t.hm| ==> !Eligible(t, Index(t.w, x, y))
  {
    Coords(t.w, x, y);
  }

  /** The cells before `(2, 2)` lie in the first two rows or columns. */
  lemma BeforeZone(t: Terrain)
    requires Valid(t)
    ensures CandidatesBelow(t, Index(t.w, 2, 2)) == []
  {
    forall i | 0 <= i < Index(t.w, 2, 2) && i < |t.hm|
      ensures !Eligible(t, i)
    {
      BeforeZoneCell(t, i);
    }
    CandidatesSkip(t, 0, Index(t.w, 2, 2));
  }

  /** A cell before `(2, 2)` is in row 0 or 1, or in column 0 or 1 of row 2. */
  lemma BeforeZoneCell(t: Terrain, i: nat)
    requires Valid(t) && i < Index(t.w, 2, 2) && i < |t.hm|
    ensures !Eligible(t, i)
  {
    if i < Index(t.w, 0, 2) {
      CellOf(t.w, t.h, i);
      RowOf(t.w, i, 2);
      OutsideZone(t, i % t.w, i / t.w);
    } else if t.w >= 2 {
      OutsideZone(t, i - 2 * t.w, 2);
    } else {
      CellOf(t.w, t.h, i);
      OutsideZone(t, i % t.w, i / t.w);
    }
  }

  /** From column `x >= w - 2` of row `y` to column 2 of row `y + 1`, no cell is in the zone. */
  lemma RowEnd(t: Terrain, x: nat, y: nat)
    requires Valid(t) && x + 2 >= t.w && (x == 2 || x + 2 == t.w)
    ensures CandidatesBelow(t, Index(t.w, 2, y + 1)) == CandidatesBelow(t, Index(t.w, x, y))
  {
    assert Index(t.w, 2, y + 1) == Index(t.w, x, y) + (t.w - x) + 2;
    forall i | Index(t.w, x, y) <= i < Index(t.w, 2, y + 1) && i < |t.hm|
      ensures !Eligible(t, i)
    {
      if i < Index(t.w, 0, y + 1) {
        OutsideZone(t, i - y * t.w, y);
      } else if t.w >= 2 {
        OutsideZone(t, i - (y + 1) * t.w, y + 1);
      } else {
        CellOf(t.w, t.h, i);
        OutsideZone(t, i % t.w, i / t.w);
      }
    }
    CandidatesSkip(t, Index(t.w, x, y), Index(t.w, 2, y + 1));
  }

  /** From column 2 of a row `y >= h - 2` onwards, no cell is in the zone. */
  lemma LastRows(t: Terrain, y: nat)
    requires Valid(t) && y + 2 >= t.h
    ensures CandidatesBelow(t, Index(t.w, 2, y)) == AllCandidates(t)
  {
    if Index(t.w, 2, y) <= |t.hm| {
      forall i | Index(t.w, 2, y) <= i < |t.hm|
        ensures !Eligible(t, i)
      {
        CellOf(t.w, t.h, i);
        RowOf(t.w, i, y);
        OutsideZone(t, i % t.w, i / t.w);
      }
      CandidatesSkip(t, Index(t.w, 2, y), |t.hm|);
    } else {
      CandidatesSkip(t, |t.hm|, Index(t.w, 2, y));
    }
  }

  /**
    A grid of fewer than 5 rows has no row in the zone, so the scan of lines
    388-408 collects nothing, whatever the width.
   */
  lemma ShortGridHasNoCandidates(t: Terrain)
    requires Valid(t) && t.h < 5
    ensures AllCandidates(t) == []
  {
    BeforeZone(t);
    LastRows(t, 2);
  }

  /** Visiting zone cell `(x, y)` appends its candidate exactly when it qualifies. */
  lemma CandidateStep(t: Terrain, x: nat, y: nat)
    requires Valid(t) && InZone(t, x, y)
    ensures Index(t.w, x, y) < |t.hm|
    ensures CandidatesBelow(t, Index(t.w, x, y) + 1) ==
      CandidatesBelow(t, Index(t.w, x, y)) +
        (if Qualifies(t, x, y) then [Candidate(Index(t.w, x, y), Score(t, x, y))] else [])
  {
    IndexBound(t.w, t.h, x, y);
    Coords(t.w, x, y);
    assert Eligible(t, Index(t.w, x, y)) <==> Qualifies(t, x, y);
  }

  /** `Qualifies` and `Score` spelled out on the cell's index, in the order the loop tests them. */
  lemma QualifiesAt(t: Terrain, x: nat, y: nat)
    requires Valid(t) && x < t.w && y < t.h
    ensures Index(t.w, x, y) < |t.hm|
    ensures var i := Index(t.w, x, y);
      var f := LocalFlatness(t.hm, t.w, t.h, x, y);
      && Score(t, x, y) == t.moisture[i] * 0.6 + (1.0 - f) * 0.3 + t.hm[i] * 0.1
      && (Qualifies(t, x, y) <==>
          t.hm[i] > t.seaLevel + 0.02 && t.water[i] <= MaxWater && f <= MaxFlatness && Score(t, x, y) > MinScore)
  {
    IndexBound(t.w, t.h, x, y);
  }

  /**
    The body of the column loop (lines 390-406) at zone cell `(x, y)`: it
    appends the cell's candidate exactly when the cell qualifies, so the
    candidates so far become those of every cell up to and including it.
   */
  method VisitCell(t: Terrain, x: nat, y: nat, candidates: seq<Candidate>) returns (candidates': seq<Candidate>)
    requires Valid(t) && InZone(t, x, y)
    requires candidates == CandidatesBelow(t, Index(t.w, x, y))
    ensures candidates' == CandidatesBelow(t, Index(t.w, x, y) + 1)
  {
    var index := Index(t.w, x, y);
    CandidateStep(t, x, y);
    QualifiesAt(t, x, y);
    candidates' := candidates;
    var elevation := t.hm[index];
    if elevation <= t.seaLevel + 0.02 {
    } else if t.water[index] > MaxWater {
    } else {
      var flatness := LocalFlatness(t.hm, t.w, t.h, x, y);
      if flatness <= MaxFlatness {
        var score := t.moisture[index] * 0.6 + (1.0 - flatness) * 0.3 + elevation * 0.1;
        if score > MinScore {
          candidates' := candidates + [Candidate(index, score)];
        }
      }
    }
  }

  /** The candidate loop of lines 388-408, rows top to bottom and columns left to right. */
  method CollectCandidates(t: Terrain) returns (candidates: seq<Candidate>)
    requires Valid(t)
    ensures candidates == AllCandidates(t)
  {
    var w, h := t.w, t.h;
    candidates := [];
    BeforeZone(t);
    var y := 2;
    while y < h - 2
      invariant 2 <= y && (y == 2 || y <= h - 2)
      invariant candidates == CandidatesBelow(t, Index(w, 2, y))
    {
      var x := 2;
      while x < w - 2
        invariant 2 <= x && (x == 2 || x <= w - 2)
        invariant candidates == CandidatesBelow(t, Index(w, x, y))
      {
        candidates := VisitCell(t, x, y, candidates);
        x := x + 1;
      }
      RowEnd(t, x, y);
      y := y + 1;
    }
    LastRows(t, y);
  }
}
