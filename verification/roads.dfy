/**
  `build_roads`: Prim's algorithm over the placed settlements. Settlement 0
  starts connected; each round adds the shortest road from a connected
  settlement to an unconnected one (the first such pair in row-major order
  on ties), until every settlement is connected.
 */
module Roads {
  import opened Options
  import Settlements

  /** A road `(a, b)`: from the connected settlement `a` to the newly connected `b`. */
  datatype Road = Road(a: nat, b: nat)

  /** The best pair of a scan so far, with its distance. */
  datatype Best = Best(a: nat, b: nat, d: real)

  /** `(dx * dx + dy * dy).sqrt()` between settlements `i` and `j`. */
  function Distance(s: seq<Settlements.Settlement>, i: nat, j: nat, sqrt: real -> real): real
    requires i < |s| && j < |s|
  {
    var dx := s[i].x - s[j].x;
    var dy := s[i].y - s[j].y;
    sqrt(dx * dx + dy * dy)
  }

  /** `i` is connected and `j` is not: the pair is a candidate road. */
  predicate Crossing(connected: seq<bool>, i: int, j: int) {
    0 <= i < |connected| && 0 <= j < |connected| && connected[i] && !connected[j]
  }

  /** Pair `(i, j)` comes before pair `(a, b)` in the nested scan of lines 459-477. */
  predicate Before(i: int, j: int, a: int, b: int) {
    i < a || (i == a && j < b)
  }

  // ---------------------------------------------------------------------------
  // One round: the first shortest crossing pair
  // ---------------------------------------------------------------------------

  /**
    Among the crossing pairs scanned before `(i, j)`, `best` is the shortest,
    and every pair scanned before it is strictly longer; `None` when no
    crossing pair has been scanned.
   */
  ghost predicate FirstShortest(s: seq<Settlements.Settlement>, connected: seq<bool>, sqrt: real -> real,
                                best: Option<Best>, i: int, j: int)
    requires |connected| == |s|
  {
    match best
    case None => forall r, c :: Crossing(connected, r, c) ==> !Before(r, c, i, j)
    case Some(e) =>
      && Crossing(connected, e.a, e.b) && Before(e.a, e.b, i, j)
      && e.d == Distance(s, e.a, e.b, sqrt)
      && forall r, c :: Crossing(connected, r, c) && Before(r, c, i, j) ==>
           e.d <= Distance(s, r, c, sqrt) && (Before(r, c, e.a, e.b) ==> e.d < Distance(s, r, c, sqrt))
  }

  /** A pair that is not crossing, or not shorter than the best, leaves the best alone. */
  lemma KeepStep(s: seq<Settlements.Settlement>, connected: seq<bool>, sqrt: real -> real,
                 best: Option<Best>, i: nat, j: nat)
    requires |connected| == |s| && i < |s| && j < |s|
    requires FirstShortest(s, connected, sqrt, best, i, j)
    requires Crossing(connected, i, j) ==> best.Some? && best.value.d <= Distance(s, i, j, sqrt)
    ensures FirstShortest(s, connected, sqrt, best, i, j + 1)
  {
  }

  /** A crossing pair strictly shorter than the best, or the first one met, becomes the best. */
  lemma TakeStep(s: seq<Settlements.Settlement>, connected: seq<bool>, sqrt: real -> real,
                 best: Option<Best>, i: nat, j: nat)
    requires |connected| == |s| && i < |s| && j < |s|
    requires FirstShortest(s, connected, sqrt, best, i, j)
    requires Crossing(connected, i, j)
    requires best.Some? ==> Distance(s, i, j, sqrt) < best.value.d
    ensures FirstShortest(s, connected, sqrt, Some(Best(i, j, Distance(s, i, j, sqrt))), i, j + 1)
  {
  }

  /** A finished row of the scan is a finished prefix of the next row. */
  lemma NextRow(s: seq<Settlements.Settlement>, connected: seq<bool>, sqrt: real -> real,
                best: Option<Best>, i: nat)
    requires |connected| == |s| && i < |s|
    requires FirstShortest(s, connected, sqrt, best, i, |s|)
    ensures FirstShortest(s, connected, sqrt, best, i + 1, 0)
  {
  }

  /** The row of an unconnected settlement holds no crossing pair. */
  lemma SkipRow(s: seq<Settlements.Settlement>, connected: seq<bool>, sqrt: real -> real,
                best: Option<Best>, i: nat)
    requires |connected| == |s| && i < |s| && !connected[i]
    requires FirstShortest(s, connected, sqrt, best, i, 0)
    ensures FirstShortest(s, connected, sqrt, best, i + 1, 0)
  {
  }

  /**
    One round of lines 457-478: the first shortest road from a connected
    settlement to an unconnected one, or `None` when there is no such pair.
   */
  method ShortestCrossing(s: seq<Settlements.Settlement>, connected: seq<bool>, sqrt: real -> real)
    returns (best: Option<Best>)
    requires |connected| == |s|
    ensures best.None? <==> forall r, c :: !Crossing(connected, r, c)
    ensures best.Some? ==>
      Crossing(connected, best.value.a, best.value.b) && best.value.d == Distance(s, best.value.a, best.value.b, sqrt)
    ensures best.Some? ==> forall r, c :: Crossing(connected, r, c) ==>
      best.value.d <= Distance(s, r, c, sqrt)
    ensures best.Some? ==> forall r, c :: Crossing(connected, r, c) && Before(r, c, best.value.a, best.value.b) ==>
      best.value.d < Distance(s, r, c, sqrt)
  {
    best := None;
    var i := 0;
    while i < |s|
      invariant i <= |s|
      invariant FirstShortest(s, connected, sqrt, best, i, 0)
    {
      if !connected[i] {
        SkipRow(s, connected, sqrt, best, i);
        i := i + 1;
        continue;
      }
      var j := 0;
      while j < |s|
        invariant j <= |s|
        invariant FirstShortest(s, connected, sqrt, best, i, j)
      {
        if connected[j] {
          KeepStep(s, connected, sqrt, best, i, j);
          j := j + 1;
          continue;
        }
        var distance := Distance(s, i, j, sqrt);
        if best.Some? {
          if distance < best.value.d {
            TakeStep(s, connected, sqrt, best, i, j);
            best := Some(Best(i, j, distance));
          } else {
            KeepStep(s, connected, sqrt, best, i, j);
          }
        } else {
          TakeStep(s, connected, sqrt, best, i, j);
          best := Some(Best(i, j, distance));
        }
        j := j + 1;
      }
      NextRow(s, connected, sqrt, best, i);
      i := i + 1;
    }
    ScanDone(s, connected, sqrt, best);
  }

  /** A scan of every row finds the first shortest crossing pair, if there is one. */
  lemma ScanDone(s: seq<Settlements.Settlement>, connected: seq<bool>, sqrt: real -> real, best: Option<Best>)
    requires |connected| == |s|
    requires FirstShortest(s, connected, sqrt, best, |s|, 0)
    ensures best.None? <==> forall r, c :: !Crossing(connected, r, c)
    ensures best.Some? ==>
      Crossing(connected, best.value.a, best.value.b) && best.value.d == Distance(s, best.value.a, best.value.b, sqrt)
    ensures best.Some? ==> forall r, c :: Crossing(connected, r, c) ==>
      best.value.d <= Distance(s, r, c, sqrt)
    ensures best.Some? ==> forall r, c :: Crossing(connected, r, c) && Before(r, c, best.value.a, best.value.b) ==>
      best.value.d < Distance(s, r, c, sqrt)
  {
  }

  // ---------------------------------------------------------------------------
  // Counting connected settlements
  // ---------------------------------------------------------------------------

  /** The number of `true` entries. */
  function CountTrue(s: seq<bool>): (n: nat)
    ensures n <= |s|
  {
    if s == [] then 0 else (if s[0] then 1 else 0) + CountTrue(s[1..])
  }

  lemma {:induction false} CountNone(n: nat)
    ensures CountTrue(seq(n, _ => false)) == 0
  {
    if n > 0 {
      assert seq(n, _ => false)[1..] == seq(n - 1, _ => false);
      CountNone(n - 1);
    }
  }

  /** Setting an entry that was `false` counts one more. */
  lemma {:induction false} CountSet(s: seq<bool>, v: nat)
    requires v < |s| && !s[v]
    ensures CountTrue(s[v := true]) == CountTrue(s) + 1
  {
    if v > 0 {
      assert s[v := true][1..] == s[1..][v - 1 := true];
      CountSet(s[1..], v - 1);
    }
  }

  /** Fewer `true` entries than entries: some entry is `false`. */
  lemma {:induction false} SomeFalse(s: seq<bool>) returns (v: nat)
    requires CountTrue(s) < |s|
    ensures v < |s| && !s[v]
  {
    if s[0] {
      v := SomeFalse(s[1..]);
      v := v + 1;
    } else {
      v := 0;
    }
  }

  /** As many `true` entries as entries: every entry is `true`. */
  lemma {:induction false} AllTrue(s: seq<bool>, v: nat)
    requires CountTrue(s) == |s| && v < |s|
    ensures s[v]
  {
    if v > 0 {
      AllTrue(s[1..], v - 1);
    }
  }

  // ---------------------------------------------------------------------------
  // The tree
  // ---------------------------------------------------------------------------

  /** Settlement `v` is connected once `roads` are built: it is settlement 0 or the end of a road. */
  predicate Reached(roads: seq<Road>, v: nat) {
    v == 0 || exists m :: 0 <= m < |roads| && roads[m].b == v
  }

  lemma ReachedAppend(roads: seq<Road>, r: Road, v: nat)
    ensures Reached(roads + [r], v) <==> Reached(roads, v) || v == r.b
  {
    if Reached(roads, v) && v != 0 {
      var m :| 0 <= m < |roads| && roads[m].b == v;
      assert (roads + [r])[m] == roads[m];
    }
    if v == r.b {
      assert (roads + [r])[|roads|].b == v;
    }
  }

  /**
    Road `e` is the first shortest road out of the tree `roads` over the
    settlements `s`: no road from a reached settlement to an unreached one is
    shorter, and every one scanned before it is longer.
   */
  ghost predicate FirstShortestOut(s: seq<Settlements.Settlement>, sqrt: real -> real, roads: seq<Road>, e: Road)
    requires e.a < |s| && e.b < |s|
  {
    forall i: nat, j: nat :: i < |s| && j < |s| && Reached(roads, i) && !Reached(roads, j) ==>
      && Distance(s, e.a, e.b, sqrt) <= Distance(s, i, j, sqrt)
      && (Before(i, j, e.a, e.b) ==> Distance(s, e.a, e.b, sqrt) < Distance(s, i, j, sqrt))
  }

  /** `connected` is the reach of `roads` over `n` settlements. */
  ghost predicate Tracks(connected: seq<bool>, roads: seq<Road>) {
    forall v: nat :: v < |connected| ==> (connected[v] <==> Reached(roads, v))
  }

  /**
    Each road of `roads` joins a settlement reached by the roads before it
    to one they did not reach, by the first shortest such pair.
   */
  ghost predicate Grown(s: seq<Settlements.Settlement>, sqrt: real -> real, roads: seq<Road>) {
    && (forall k :: 0 <= k < |roads| ==> roads[k].a < |s| && roads[k].b < |s|)
    && (forall k :: 0 <= k < |roads| ==> Reached(roads[..k], roads[k].a) && !Reached(roads[..k], roads[k].b))
    && (forall k :: 0 <= k < |roads| ==> FirstShortestOut(s, sqrt, roads[..k], roads[k]))
  }

  lemma GrownAppend(s: seq<Settlements.Settlement>, sqrt: real -> real, roads: seq<Road>, r: Road)
    requires Grown(s, sqrt, roads)
    requires r.a < |s| && r.b < |s| && Reached(roads, r.a) && !Reached(roads, r.b)
    requires FirstShortestOut(s, sqrt, roads, r)
    ensures Grown(s, sqrt, roads + [r])
  {
    var roads' := roads + [r];
    assert roads'[..|roads|] == roads;
    forall k | 0 <= k < |roads|
      ensures roads'[..k] == roads[..k] && roads'[k] == roads[k]
    {
    }
  }

  /**
    `build_roads`. Fewer than two settlements get no road; otherwise the
    roads form a spanning tree grown from settlement 0, each road joining a
    settlement already reached to a new one by the first shortest such pair.
    `sqrt` stands for `f32::sqrt`.
   */
  method BuildRoads(s: seq<Settlements.Settlement>, sqrt: real -> real) returns (roads: seq<Road>)
    ensures |s| < 2 ==> roads == []
    ensures |s| >= 2 ==> |roads| == |s| - 1
    ensures forall k :: 0 <= k < |roads| ==> roads[k].a < |s| && roads[k].b < |s|
    ensures forall k :: 0 <= k < |roads| ==> Reached(roads[..k], roads[k].a) && !Reached(roads[..k], roads[k].b)
    ensures forall k :: 0 <= k < |roads| ==> FirstShortestOut(s, sqrt, roads[..k], roads[k])
    ensures |s| >= 2 ==> forall v: nat :: v < |s| ==> Reached(roads, v)
  {
    var count := |s|;
    if count < 2 {
      return [];
    }
    var connected := seq(count, _ => false);
    CountNone(count);
    CountSet(connected, 0);
    connected := connected[0 := true];
    roads := [];
    while |roads| < count - 1
      invariant |connected| == count && |roads| <= count - 1
      invariant CountTrue(connected) == |roads| + 1
      invariant Tracks(connected, roads)
      invariant Grown(s, sqrt, roads)
    {
      ghost var open := SomeFalse(connected);
      assert Crossing(connected, 0, open);
      var best := ShortestCrossing(s, connected, sqrt);
      var e := best.value;
      Grow(s, sqrt, connected, roads, e);
      GrownAppend(s, sqrt, roads, Road(e.a, e.b));
      CountSet(connected, e.b);
      connected := connected[e.b := true];
      roads := roads + [Road(e.a, e.b)];
    }
    forall v: nat | v < |s|
      ensures Reached(roads, v)
    {
      AllTrue(connected, v);
    }
  }

  /**
    Adding the round's road keeps the connected flags in step with the
    roads, and the new road is the first shortest one out of the old tree.
   */
  lemma Grow(s: seq<Settlements.Settlement>, sqrt: real -> real, connected: seq<bool>, roads: seq<Road>, e: Best)
    requires |connected| == |s|
    requires Tracks(connected, roads)
    requires Crossing(connected, e.a, e.b)
    requires forall r, c :: Crossing(connected, r, c) ==> e.d <= Distance(s, r, c, sqrt)
    requires forall r, c :: Crossing(connected, r, c) && Before(r, c, e.a, e.b) ==> e.d < Distance(s, r, c, sqrt)
    requires e.d == Distance(s, e.a, e.b, sqrt)
    ensures Reached(roads, e.a) && !Reached(roads, e.b)
    ensures FirstShortestOut(s, sqrt, roads, Road(e.a, e.b))
    ensures Tracks(connected[e.b := true], roads + [Road(e.a, e.b)])
  {
    forall i: nat, j: nat | i < |s| && j < |s| && Reached(roads, i) && !Reached(roads, j)
      ensures Crossing(connected, i, j)
    {
    }
    forall v: nat | v < |connected|
      ensures connected[e.b := true][v] <==> Reached(roads + [Road(e.a, e.b)], v)
    {
      ReachedAppend(roads, Road(e.a, e.b), v);
    }
  }
}
