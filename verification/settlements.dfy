/**
  The second half of `place_settlements`: the candidates are ranked by
  descending score (a stable sort, so equal scores stay in row-major order),
  the first 200 are considered in turn, and each is placed unless a settlement
  already placed lies within 120 world units of it, until 16 are placed.
 */
module Settlements {
  import opened RealMath
  import opened Grid
  import opened Candidates
  import Sorting
  import Rng

  /** `REGION_SIZE`: the side of the world square the grid is mapped onto. */
  const RegionSize: real := 2048.0
  const MinSpacing: real := 120.0
  const MaxConsidered: nat := 200
  const MaxSettlements: nat := 16
  const JitterSpan: real := 25.0
  const MinSize: real := 1.2
  const MaxSize: real := 6.5

  /** A placed settlement: its id, its jittered world position and its size. */
  datatype Settlement = Settlement(id: nat, x: real, y: real, size: real)

  // ---------------------------------------------------------------------------
  // Ranking
  // ---------------------------------------------------------------------------

  const ByScore: Candidate -> real := (c: Candidate) => c.score
  const ByIndex: Candidate -> int := (c: Candidate) => c.index

  /** The candidates after the sort of line 410. */
  function Ranked(t: Terrain): seq<Candidate>
    requires Valid(t)
  {
    Sorting.SortDesc(AllCandidates(t), ByScore)
  }

  /** `candidates.into_iter().take(200)`. */
  function Considered(t: Terrain): (cs: seq<Candidate>)
    requires Valid(t)
    ensures |cs| <= MaxConsidered
  {
    var r := Ranked(t);
    if |r| <= MaxConsidered then r else r[..MaxConsidered]
  }

  /**
    The ranking is by descending score, and candidates with equal scores
    keep the row-major order of the scan.
   */
  lemma RankedOrder(t: Terrain)
    requires Valid(t)
    ensures Sorting.RankedDesc(Ranked(t), ByScore, ByIndex)
  {
    CandidatesIncreasing(t, |t.hm|);
    Sorting.SortStable(AllCandidates(t), ByScore, ByIndex);
  }

  /** Every considered candidate is an eligible cell carrying its own score. */
  lemma ConsideredEligible(t: Terrain, p: nat)
    requires Valid(t) && p < |Considered(t)|
    ensures Considered(t)[p].index < |t.hm|
    ensures Eligible(t, Considered(t)[p].index)
    ensures Considered(t)[p] == CandidateAt(t, Considered(t)[p].index)
  {
    var r := Ranked(t);
    assert Considered(t)[p] == r[p];
    assert r[p] in multiset(AllCandidates(t));
    var k :| 0 <= k < |AllCandidates(t)| && AllCandidates(t)[k] == r[p];
    CandidatesSound(t, |t.hm|);
  }

  /** No cell outside the first 200 of the ranking is ever considered. */
  lemma ConsideredIsPrefix(t: Terrain)
    requires Valid(t)
    ensures Considered(t) == Ranked(t)[..|Considered(t)|]
    ensures |Considered(t)| == if |Ranked(t)| < MaxConsidered then |Ranked(t)| else MaxConsidered
  {
  }

  // ---------------------------------------------------------------------------
  // Placement
  // ---------------------------------------------------------------------------

  /**
    `(x / width) * REGION_SIZE` for the column of cell `i` (line 418). The
    source only reaches this for cells of the scan zone, which is empty on a
    grid without columns; such a grid gets 0.
   */
  function WorldX(t: Terrain, i: nat): real
    requires Valid(t)
  {
    if t.w == 0 then 0.0 else (i % t.w) as real / t.w as real * RegionSize
  }

  /** `(y / height) * REGION_SIZE` for the row of cell `i` (line 419); 0 as for `WorldX`. */
  function WorldY(t: Terrain, i: nat): real
    requires Valid(t)
  {
    if t.w == 0 then 0.0 else (i / t.w) as real / t.h as real * RegionSize
  }

  /** `s` lies less than `MinSpacing` from `(wx, wy)`; `sqrt` is the square root. */
  predicate TooClose(s: Settlement, wx: real, wy: real, sqrt: real -> real) {
    var dx := s.x - wx;
    var dy := s.y - wy;
    sqrt(dx * dx + dy * dy) < MinSpacing
  }

  /** `cell` is the cell of one of the candidates `cs`. */
  predicate Among(cs: seq<Candidate>, cell: nat) {
    exists q :: 0 <= q < |cs| && cs[q].index == cell
  }

  /** The `any` test of lines 421-425. */
  predicate Crowded(placed: seq<Settlement>, wx: real, wy: real, sqrt: real -> real) {
    exists k | 0 <= k < |placed| :: TooClose(placed[k], wx, wy, sqrt)
  }

  /**
    `(rng.next_f32() - 0.5) * 25.0` for the draw that left the generator in
    `state`; `unit` is `next_f32`'s conversion of that `u32` into `[0, 1]`.
   */
  function Jitter(unit: bv32 -> real, state: bv32): real {
    (unit(state) - 0.5) * JitterSpan
  }

  /** The generator state after `n` draws from the seed of line 412. */
  function StateAfter(seed: bv32, n: nat): bv32 {
    Rng.Advance(Rng.New(seed * 747), n)
  }

  /**
    Settlement `k` was placed on cell `cell`: id `k`, the cell's world
    position moved by the `2k + 1`-th and `2k + 2`-th draws, and the size
    `score * 6` clamped into `[1.2, 6.5]`.
   */
  ghost predicate PlacedOn(t: Terrain, seed: bv32, unit: bv32 -> real, s: Settlement, k: nat, cell: nat)
    requires Valid(t)
  {
    && cell < |t.hm|
    && s.id == k
    && s.x == WorldX(t, cell) + Jitter(unit, StateAfter(seed, 2 * k + 1))
    && s.y == WorldY(t, cell) + Jitter(unit, StateAfter(seed, 2 * k + 2))
    && s.size == Clamp(CandidateAt(t, cell).score * 6.0, MinSize, MaxSize)
  }

  /** A settlement placed later lies at least `MinSpacing` from every one placed before it. */
  ghost predicate Spaced(t: Terrain, settlements: seq<Settlement>, cells: seq<nat>, sqrt: real -> real)
    requires Valid(t) && |cells| == |settlements|
  {
    forall j, k :: 0 <= j < k < |cells| ==>
      !TooClose(settlements[j], WorldX(t, cells[k]), WorldY(t, cells[k]), sqrt)
  }

  lemma CrowdedGrows(placed: seq<Settlement>, s: Settlement, wx: real, wy: real, sqrt: real -> real)
    requires Crowded(placed, wx, wy, sqrt)
    ensures Crowded(placed + [s], wx, wy, sqrt)
  {
    var k :| 0 <= k < |placed| && TooClose(placed[k], wx, wy, sqrt);
    assert (placed + [s])[k] == placed[k];
  }

  /**
    What the placement loop knows after considering `considered[..p]`:
    settlement `k` was placed on the eligible cell of `considered[picks[k]]`,
    the settlements are spaced, and every considered cell not placed on was
    crowded out.
   */
  ghost predicate Progress(t: Terrain, seed: bv32, unit: bv32 -> real, sqrt: real -> real,
                           considered: seq<Candidate>, p: nat, settlements: seq<Settlement>, cells: seq<nat>,
                           picks: seq<nat>)
    requires Valid(t)
  {
    && p <= |considered|
    && |settlements| == |cells| == |picks|
    && (forall k :: 0 <= k < |cells| ==> cells[k] < |t.hm| && Eligible(t, cells[k]))
    && (forall k :: 0 <= k < |cells| ==> PlacedOn(t, seed, unit, settlements[k], k, cells[k]))
    && (forall k :: 0 <= k < |picks| ==> picks[k] < p && considered[picks[k]].index == cells[k])
    && (forall a, b :: 0 <= a < b < |picks| ==> picks[a] < picks[b])
    && Spaced(t, settlements, cells, sqrt)
    && (forall q :: 0 <= q < p ==>
          q in picks || Crowded(settlements, WorldX(t, considered[q].index), WorldY(t, considered[q].index), sqrt))
    && SkippedCrowded(t, sqrt, considered, settlements, picks)
  }

  /**
    Greedy order: every candidate considered before the one settlement `k`
    was placed on, and not placed on itself, lay within `MinSpacing` of one
    of the first `k` settlements.
   */
  ghost predicate SkippedCrowded(t: Terrain, sqrt: real -> real, considered: seq<Candidate>,
                                 settlements: seq<Settlement>, picks: seq<nat>)
    requires Valid(t) && |picks| <= |settlements|
  {
    forall k, q :: 0 <= k < |picks| && 0 <= q < picks[k] && q < |considered| && q !in picks ==>
      Crowded(settlements[..k], WorldX(t, considered[q].index), WorldY(t, considered[q].index), sqrt)
  }

  /** A crowded candidate is skipped. */
  lemma SkipStep(t: Terrain, seed: bv32, unit: bv32 -> real, sqrt: real -> real,
                 considered: seq<Candidate>, p: nat, settlements: seq<Settlement>, cells: seq<nat>, picks: seq<nat>)
    requires Valid(t) && p < |considered|
    requires Progress(t, seed, unit, sqrt, considered, p, settlements, cells, picks)
    requires Crowded(settlements, WorldX(t, considered[p].index), WorldY(t, considered[p].index), sqrt)
    ensures Progress(t, seed, unit, sqrt, considered, p + 1, settlements, cells, picks)
  {
    forall q | 0 <= q < p + 1
      ensures q in picks || Crowded(settlements, WorldX(t, considered[q].index), WorldY(t, considered[q].index), sqrt)
    {
    }
  }

  /** An uncrowded eligible candidate is placed as the next settlement. */
  lemma PlaceStep(t: Terrain, seed: bv32, unit: bv32 -> real, sqrt: real -> real,
                  considered: seq<Candidate>, p: nat, settlements: seq<Settlement>, cells: seq<nat>, picks: seq<nat>,
                  s: Settlement)
    requires Valid(t) && p < |considered|
    requires Progress(t, seed, unit, sqrt, considered, p, settlements, cells, picks)
    requires considered[p].index < |t.hm| && Eligible(t, considered[p].index)
    requires !Crowded(settlements, WorldX(t, considered[p].index), WorldY(t, considered[p].index), sqrt)
    requires PlacedOn(t, seed, unit, s, |cells|, considered[p].index)
    ensures Progress(t, seed, unit, sqrt, considered, p + 1, settlements + [s], cells + [considered[p].index],
                     picks + [p])
  {
    var i := considered[p].index;
    PlaceRecordsPick(considered, p, cells, picks);
    PlaceKeepsSpaced(t, sqrt, settlements, cells, s, i);
    PlaceCovers(t, sqrt, considered, p, settlements, picks, s);
    PlaceKeepsGreedy(t, sqrt, considered, p, settlements, picks, s);
  }

  /** Recording turn `p` for the new settlement keeps the turns increasing and matched to the cells. */
  lemma PlaceRecordsPick(considered: seq<Candidate>, p: nat, cells: seq<nat>, picks: seq<nat>)
    requires p < |considered| && |picks| == |cells|
    requires forall k :: 0 <= k < |picks| ==> picks[k] < p && considered[picks[k]].index == cells[k]
    requires forall a, b :: 0 <= a < b < |picks| ==> picks[a] < picks[b]
    ensures forall k :: 0 <= k < |picks| + 1 ==>
      (picks + [p])[k] < p + 1 && considered[(picks + [p])[k]].index == (cells + [considered[p].index])[k]
    ensures forall a, b :: 0 <= a < b < |picks| + 1 ==> (picks + [p])[a] < (picks + [p])[b]
  {
    var cells', picks' := cells + [considered[p].index], picks + [p];
    forall k | 0 <= k < |picks'|
      ensures picks'[k] < p + 1 && considered[picks'[k]].index == cells'[k]
    {
      if k < |picks| {
        assert picks'[k] == picks[k] && cells'[k] == cells[k];
      }
    }
    forall a, b | 0 <= a < b < |picks'|
      ensures picks'[a] < picks'[b]
    {
      assert picks'[a] == picks[a];
    }
  }

  /** A settlement placed on a cell no earlier settlement crowds keeps the settlements spaced. */
  lemma PlaceKeepsSpaced(t: Terrain, sqrt: real -> real, settlements: seq<Settlement>, cells: seq<nat>,
                         s: Settlement, i: nat)
    requires Valid(t) && |cells| == |settlements|
    requires Spaced(t, settlements, cells, sqrt)
    requires !Crowded(settlements, WorldX(t, i), WorldY(t, i), sqrt)
    ensures Spaced(t, settlements + [s], cells + [i], sqrt)
  {
    var settlements', cells' := settlements + [s], cells + [i];
    forall j, k | 0 <= j < k < |cells'|
      ensures !TooClose(settlements'[j], WorldX(t, cells'[k]), WorldY(t, cells'[k]), sqrt)
    {
      assert settlements'[j] == settlements[j];
      if k < |cells| {
        assert cells'[k] == cells[k];
      }
    }
  }

  /** After placing candidate `p`, every candidate up to `p` is picked or crowded out. */
  lemma PlaceCovers(t: Terrain, sqrt: real -> real, considered: seq<Candidate>, p: nat,
                    settlements: seq<Settlement>, picks: seq<nat>, s: Settlement)
    requires Valid(t) && p < |considered|
    requires forall q :: 0 <= q < p ==>
      q in picks || Crowded(settlements, WorldX(t, considered[q].index), WorldY(t, considered[q].index), sqrt)
    ensures forall q :: 0 <= q < p + 1 ==>
      q in picks + [p] ||
      Crowded(settlements + [s], WorldX(t, considered[q].index), WorldY(t, considered[q].index), sqrt)
  {
    forall q | 0 <= q < p + 1
      ensures q in picks + [p] ||
        Crowded(settlements + [s], WorldX(t, considered[q].index), WorldY(t, considered[q].index), sqrt)
    {
      if q < p && q !in picks {
        CrowdedGrows(settlements, s, WorldX(t, considered[q].index), WorldY(t, considered[q].index), sqrt);
      }
    }
  }

  /** Placing candidate `p` keeps the greedy order: all earlier unpicked candidates were crowded out. */
  lemma PlaceKeepsGreedy(t: Terrain, sqrt: real -> real, considered: seq<Candidate>, p: nat,
                         settlements: seq<Settlement>, picks: seq<nat>, s: Settlement)
    requires Valid(t) && |picks| == |settlements| && p <= |considered|
    requires SkippedCrowded(t, sqrt, considered, settlements, picks)
    requires forall k :: 0 <= k < |picks| ==> picks[k] < p
    requires forall q :: 0 <= q < p ==>
      q in picks || Crowded(settlements, WorldX(t, considered[q].index), WorldY(t, considered[q].index), sqrt)
    ensures SkippedCrowded(t, sqrt, considered, settlements + [s], picks + [p])
  {
    var settlements', picks' := settlements + [s], picks + [p];
    forall k, q | 0 <= k < |picks'| && 0 <= q < picks'[k] && q < |considered| && q !in picks'
      ensures Crowded(settlements'[..k], WorldX(t, considered[q].index), WorldY(t, considered[q].index), sqrt)
    {
      assert settlements'[..k] == settlements[..k];
      if k < |picks| {
        assert picks'[k] == picks[k];
      } else {
        assert settlements[..k] == settlements;
      }
    }
  }

  /** The two draws of settlement `n` advance the generator from `2n` to `2n + 2` draws. */
  lemma TwoDraws(seed: bv32, n: nat)
    ensures Rng.Next(StateAfter(seed, 2 * n)) == StateAfter(seed, 2 * n + 1)
    ensures Rng.Next(StateAfter(seed, 2 * n + 1)) == StateAfter(seed, 2 * n + 2)
    ensures StateAfter(seed, 2 * n + 2) == StateAfter(seed, 2 * (n + 1))
  {
    Rng.AdvanceStep(Rng.New(seed * 747), 2 * n);
    Rng.AdvanceStep(Rng.New(seed * 747), 2 * n + 1);
  }

  /**
    Lines 429-437: settlement number `n` on the cell of candidate `c`, drawing
    its two jitters from the generator.
   */
  method NewSettlement(t: Terrain, seed: bv32, unit: bv32 -> real, c: Candidate, n: nat, state: bv32)
    returns (s: Settlement, state': bv32)
    requires Valid(t) && c.index < |t.hm| && c == CandidateAt(t, c.index)
    requires state == StateAfter(seed, 2 * n)
    ensures PlacedOn(t, seed, unit, s, n, c.index)
    ensures state' == StateAfter(seed, 2 * (n + 1))
  {
    TwoDraws(seed, n);
    var wx := WorldX(t, c.index);
    var wy := WorldY(t, c.index);
    state' := Rng.Next(state);
    var jitterX := (unit(state') - 0.5) * JitterSpan;
    state' := Rng.Next(state');
    var jitterY := (unit(state') - 0.5) * JitterSpan;
    var size := Clamp(c.score * 6.0, MinSize, MaxSize);
    s := Settlement(n, wx + jitterX, wy + jitterY, size);
  }

  /**
    What the loop leaves behind: at most `MaxSettlements` settlements, each
    placed on a considered cell; and unless the limit was reached, every
    considered cell was placed on or crowded out.
   */
  lemma Finished(t: Terrain, seed: bv32, unit: bv32 -> real, sqrt: real -> real,
                 considered: seq<Candidate>, p: nat, settlements: seq<Settlement>, cells: seq<nat>, picks: seq<nat>)
    requires Valid(t)
    requires Progress(t, seed, unit, sqrt, considered, p, settlements, cells, picks)
    requires |settlements| <= MaxSettlements
    requires p == |considered| || |settlements| == MaxSettlements
    ensures |settlements| == |cells| <= MaxSettlements
    ensures forall k :: 0 <= k < |cells| ==> settlements[k].id == k
    ensures forall k :: 0 <= k < |cells| ==> MinSize <= settlements[k].size <= MaxSize
    ensures forall k :: 0 <= k < |cells| ==> Among(considered, cells[k])
    ensures |settlements| < MaxSettlements ==>
      forall q :: 0 <= q < |considered| ==>
        var i := considered[q].index;
        i in cells || Crowded(settlements, WorldX(t, i), WorldY(t, i), sqrt)
  {
    forall k | 0 <= k < |cells|
      ensures settlements[k].id == k && MinSize <= settlements[k].size <= MaxSize
      ensures Among(considered, cells[k])
    {
      assert PlacedOn(t, seed, unit, settlements[k], k, cells[k]);
      assert considered[picks[k]].index == cells[k];
    }
    if |settlements| < MaxSettlements {
      forall q | 0 <= q < |considered|
        ensures considered[q].index in cells ||
          Crowded(settlements, WorldX(t, considered[q].index), WorldY(t, considered[q].index), sqrt)
      {
        if q in picks {
          var k :| 0 <= k < |picks| && picks[k] == q;
          assert cells[k] == considered[q].index;
        }
      }
    }
  }

  /**
    One turn of the loop of lines 415-442: candidate `considered[p]` becomes
    the next settlement unless one already placed is within `MinSpacing`.
    `picks` records, for each settlement, the turn that placed it.
   */
  method Visit(t: Terrain, seed: bv32, sqrt: real -> real, unit: bv32 -> real, considered: seq<Candidate>, p: nat,
               settlements: seq<Settlement>, cells: seq<nat>, ghost picks: seq<nat>, state: bv32)
    returns (settlements': seq<Settlement>, cells': seq<nat>, ghost picks': seq<nat>, state': bv32)
    requires Valid(t) && considered == Considered(t) && p < |considered|
    requires state == StateAfter(seed, 2 * |cells|)
    requires Progress(t, seed, unit, sqrt, considered, p, settlements, cells, picks)
    ensures state' == StateAfter(seed, 2 * |cells'|)
    ensures Progress(t, seed, unit, sqrt, considered, p + 1, settlements', cells', picks')
    ensures var wx, wy := WorldX(t, considered[p].index), WorldY(t, considered[p].index);
      if Crowded(settlements, wx, wy, sqrt) then settlements' == settlements && cells' == cells
      else |settlements'| == |settlements| + 1 && cells' == cells + [considered[p].index]
  {
    var c := considered[p];
    ConsideredEligible(t, p);
    var wx := WorldX(t, c.index);
    var wy := WorldY(t, c.index);
    if !Crowded(settlements, wx, wy, sqrt) {
      var s;
      s, state' := NewSettlement(t, seed, unit, c, |settlements|, state);
      PlaceStep(t, seed, unit, sqrt, considered, p, settlements, cells, picks, s);
      settlements', cells', picks' := settlements + [s], cells + [c.index], picks + [p];
    } else {
      SkipStep(t, seed, unit, sqrt, considered, p, settlements, cells, picks);
      settlements', cells', picks', state' := settlements, cells, picks, state;
    }
  }

  /**
    The outcome of `place_settlements` on `t`. Settlement `k` has id `k`, a
    size in `[1.2, 6.5]`, and was placed on `cells[k]`, a considered cell,
    with that cell's jitter and size. The unjittered position of each
    settlement's cell lies at least `MinSpacing` from every earlier
    settlement. Unless `MaxSettlements` were placed, every considered cell
    was placed on or crowded out.
   */
  ghost predicate Placement(t: Terrain, seed: bv32, sqrt: real -> real, unit: bv32 -> real,
                            settlements: seq<Settlement>, cells: seq<nat>)
    requires Valid(t)
  {
    && |settlements| == |cells| <= MaxSettlements
    && (forall k :: 0 <= k < |cells| ==> settlements[k].id == k)
    && (forall k :: 0 <= k < |cells| ==> MinSize <= settlements[k].size <= MaxSize)
    && (forall k :: 0 <= k < |cells| ==> cells[k] < |t.hm| && Eligible(t, cells[k]))
    && (forall k :: 0 <= k < |cells| ==> PlacedOn(t, seed, unit, settlements[k], k, cells[k]))
    && (forall k :: 0 <= k < |cells| ==> Among(Considered(t), cells[k]))
    && Spaced(t, settlements, cells, sqrt)
    && (|settlements| < MaxSettlements ==>
          forall p :: 0 <= p < |Considered(t)| ==>
            var i := Considered(t)[p].index;
            i in cells || Crowded(settlements, WorldX(t, i), WorldY(t, i), sqrt))
  }

  /**
    The order `place_settlements` placed in: `cells[k]` is the cell of the
    considered candidate of rank `picks[k]`, the ranks increase, and every
    candidate ranked before a pick and not picked was crowded out by the
    settlements placed before that pick, so the placement is the greedy one.
   */
  ghost predicate Greedy(t: Terrain, sqrt: real -> real, settlements: seq<Settlement>, cells: seq<nat>,
                         picks: seq<nat>)
    requires Valid(t)
  {
    && |picks| == |cells| && |picks| <= |settlements|
    && (forall k :: 0 <= k < |picks| ==> picks[k] < |Considered(t)| && Considered(t)[picks[k]].index == cells[k])
    && (forall a, b :: 0 <= a < b < |picks| ==> picks[a] < picks[b])
    && SkippedCrowded(t, sqrt, Considered(t), settlements, picks)
  }

  /**
    On a grid of fewer than 5 rows, whatever its width, no candidate is
    considered, so the placement loop of lines 415-442 places nothing.
   */
  lemma ShortGridConsidersNothing(t: Terrain)
    requires Valid(t) && t.h < 5
    ensures Considered(t) == []
  {
    ShortGridHasNoCandidates(t);
  }

  /**
    `place_settlements` from the ranking on: the considered candidates in
    turn, each placed unless crowded, until `MaxSettlements` are placed.
    `cells` lists the cell each settlement was placed on and `picks` the
    rank of its candidate; see `Placement` and `Greedy`. `sqrt` and `unit`
    stand for `f32::sqrt` and `next_f32`'s conversion; see `Jitter`.
   */
  method PlaceSettlements(t: Terrain, seed: bv32, sqrt: real -> real, unit: bv32 -> real)
    returns (settlements: seq<Settlement>, cells: seq<nat>, ghost picks: seq<nat>)
    requires Valid(t)
    ensures Placement(t, seed, sqrt, unit, settlements, cells)
    ensures Greedy(t, sqrt, settlements, cells, picks)
    ensures t.h < 5 ==> settlements == []
  {
    var considered := Consider(t);
    if t.h < 5 {
      ShortGridConsidersNothing(t);
    }
    var state := Rng.New(seed * 747);
    settlements, cells := [], [];
    picks := [];
    var p := 0;
    while p < |considered| && |settlements| < MaxSettlements
      invariant |settlements| <= MaxSettlements
      invariant state == StateAfter(seed, 2 * |cells|)
      invariant Progress(t, seed, unit, sqrt, considered, p, settlements, cells, picks)
      invariant considered == [] ==> settlements == []
    {
      settlements, cells, picks, state := Visit(t, seed, sqrt, unit, considered, p, settlements, cells, picks, state);
      p := p + 1;
    }
    Finished(t, seed, unit, sqrt, considered, p, settlements, cells, picks);
  }

  /** Lines 410-415: the candidates of the scan, ranked, and the first 200 of them. */
  method Consider(t: Terrain) returns (considered: seq<Candidate>)
    requires Valid(t)
    ensures considered == Considered(t)
  {
    var candidates := CollectCandidates(t);
    var ranked := Sorting.SortDesc(candidates, ByScore);
    considered := if |ranked| <= MaxConsidered then ranked else ranked[..MaxConsidered];
  }
}
