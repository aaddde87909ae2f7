/**
  `enhance_moisture`: every cell's moisture gains a bonus from standing water
  and from river flow, is damped by the moisture scale, and is clamped back
  into `[0, 1]`.
 */
module Moisture {
  import opened RealMath
  import Flow

  /** `(water * 0.7).min(0.7)`: never more than 0.7, and never negative on water in `[0, 1]`. */
  function WaterBonus(water: real): (b: real)
    ensures b <= 0.7
    ensures 0.0 <= water ==> 0.0 <= b
    ensures water <= 1.0 ==> b == water * 0.7
  {
    Min(water * 0.7, 0.7)
  }

  /**
    `((flow / (max_flow + 1)) * 1.8).min(0.8)`: a share of the largest flow,
    in `[0, 0.8]`.
   */
  function FlowBonus(flow: nat, maxFlow: nat): (b: real)
    ensures 0.0 <= b <= 0.8
  {
    Min(flow as real / (maxFlow as real + 1.0) * 1.8, 0.8)
  }

  /** The divisor `1 + moisture_scale * 0.5` of line 301. */
  function Damping(scale: real): real {
    1.0 + scale * 0.5
  }

  /** The new moisture of one cell (lines 299-302). */
  function Enhance(value: real, water: real, flow: nat, maxFlow: nat, scale: real): (r: real)
    requires Damping(scale) != 0.0
    ensures 0.0 <= r <= 1.0
  {
    Clamp((value + WaterBonus(water) + FlowBonus(flow, maxFlow)) / Damping(scale), 0.0, 1.0)
  }

  lemma DivideMonotone(a: real, b: real, d: real)
    requires d > 0.0 && a <= b
    ensures a / d <= b / d
  {
    assert b / d - a / d == (b - a) / d;
  }

  lemma ClampMonotone(a: real, b: real, lo: real, hi: real)
    requires lo <= hi && a <= b
    ensures Clamp(a, lo, hi) <= Clamp(b, lo, hi)
  {
  }

  /**
    With a positive divisor, wetter input, more standing water and more flow
    never give a drier cell.
   */
  lemma EnhanceMonotone(v1: real, v2: real, w1: real, w2: real, f1: nat, f2: nat, maxFlow: nat, scale: real)
    requires Damping(scale) > 0.0
    requires v1 <= v2 && w1 <= w2 && f1 <= f2
    ensures Enhance(v1, w1, f1, maxFlow, scale) <= Enhance(v2, w2, f2, maxFlow, scale)
  {
    DivideMonotone(f1 as real, f2 as real, maxFlow as real + 1.0);
    var a := v1 + WaterBonus(w1) + FlowBonus(f1, maxFlow);
    var b := v2 + WaterBonus(w2) + FlowBonus(f2, maxFlow);
    DivideMonotone(a, b, Damping(scale));
    ClampMonotone(a / Damping(scale), b / Damping(scale), 0.0, 1.0);
  }

  /**
    A dry cell with no flow keeps its moisture when the scale is zero: the
    step only adds the two bonuses and damps by the scale.
   */
  lemma EnhanceNeutral(value: real, maxFlow: nat)
    requires 0.0 <= value <= 1.0
    ensures Enhance(value, 0.0, 0, maxFlow, 0.0) == value
  {
    assert FlowBonus(0, maxFlow) == 0.0;
  }

  /** Every standing-water cell of a positive divisor ends at least as wet as `0.7 / divisor`. */
  lemma EnhanceLake(value: real, flow: nat, maxFlow: nat, scale: real)
    requires Damping(scale) > 0.0 && 0.0 <= value
    ensures Enhance(value, 1.0, flow, maxFlow, scale) >= Min(0.7 / Damping(scale), 1.0)
  {
    var a := value + WaterBonus(1.0) + FlowBonus(flow, maxFlow);
    DivideMonotone(0.7, a, Damping(scale));
  }

  /**
    `enhance_moisture` over the whole map, cell by cell in index order; the
    largest flow is the fold of line 297.
   */
  method EnhanceMoisture(moisture: seq<real>, water: seq<real>, flow: seq<nat>, scale: real) returns (r: seq<real>)
    requires |water| == |moisture| && |flow| == |moisture|
    requires Damping(scale) != 0.0
    ensures |r| == |moisture|
    ensures forall i :: 0 <= i < |r| ==> 0.0 <= r[i] <= 1.0
    ensures forall i :: 0 <= i < |r| ==>
      r[i] == Enhance(moisture[i], water[i], flow[i], Flow.MaxFlow(flow), scale)
  {
    var maxFlow := Flow.MaxFlow(flow);
    r := moisture;
    var i := 0;
    while i < |r|
      invariant i <= |r| == |moisture|
      invariant forall k :: 0 <= k < i ==> r[k] == Enhance(moisture[k], water[k], flow[k], maxFlow, scale)
      invariant forall k :: i <= k < |r| ==> r[k] == moisture[k]
    {
      var waterBonus := Min(water[i] * 0.7, 0.7);
      var flowBonus := Min(flow[i] as real / (maxFlow as real + 1.0) * 1.8, 0.8);
      var value := (r[i] + waterBonus + flowBonus) / (1.0 + scale * 0.5);
      r := r[i := Clamp(value, 0.0, 1.0)];
      i := i + 1;
    }
  }
}
