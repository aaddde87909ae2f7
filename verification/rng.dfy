/**
  `SimpleRng`, the xorshift32 generator that jitters settlement positions.
  Its state is a `u32`, modelled as `bv32` so shifts discard high bits and
  multiplication wraps exactly as `wrapping_mul` and `<<` do on `u32`.
 */
module Rng {

  /** `SimpleRng::new`: the seed with its lowest bit forced on. */
  function New(seed: bv32): (state: bv32)
    ensures state & 1 == 1
    ensures state & !1 == seed & !1
  {
    seed | 1
  }

  /** The three xorshift steps of `next_u32`; the result is also the new state. */
  function Next(state: bv32): (r: bv32)
    ensures state != 0 ==> r != 0
  {
    UndoStepsRoundTrip(state);
    Step3(Step2(Step1(state)))
  }

  /** Every state has exactly one successor: `Prev` undoes `Next`. */
  lemma PrevOfNext(state: bv32)
    ensures Prev(Next(state)) == state
  {
    UndoStepsRoundTrip(state);
  }

  function Step1(x: bv32): bv32 { x ^ (x << 13) }
  function Step2(x: bv32): bv32 { x ^ (x >> 17) }
  function Step3(x: bv32): bv32 { x ^ (x << 5) }

  function Unstep1(y: bv32): bv32 { y ^ (y << 13) ^ (y << 26) }
  function Unstep2(y: bv32): bv32 { y ^ (y >> 17) }
  function Unstep3(y: bv32): bv32 {
    y ^ (y << 5) ^ (y << 10) ^ (y << 15) ^ (y << 20) ^ (y << 25) ^ (y << 30)
  }

  /** The inverse of one generator step: xorshift32 is a bijection on `u32`. */
  function Prev(r: bv32): bv32 {
    Unstep1(Unstep2(Unstep3(r)))
  }

  lemma UndoStepsRoundTrip(x: bv32)
    ensures Prev(Step3(Step2(Step1(x)))) == x
  {
    Undo1(x);
    Undo2(Step1(x));
    Undo3(Step2(Step1(x)));
  }

  // Each step and its inverse cancel; stated over a variable bound to the
  // shifted value, which keeps the bit-vector query small for the solver.
  lemma Cancel1(x: bv32, y: bv32) requires y == x ^ (x << 13) ensures Unstep1(y) == x && Step1(x) == y {}
  lemma Cancel2(x: bv32, y: bv32) requires y == x ^ (x >> 17) ensures Unstep2(y) == x && Step2(x) == y {}
  lemma Cancel3(x: bv32, y: bv32) requires y == x ^ (x << 5) ensures Unstep3(y) == x && Step3(x) == y {}
  lemma Recover1(y: bv32, x: bv32) requires x == y ^ (y << 13) ^ (y << 26) ensures Step1(x) == y {}
  lemma Recover2(y: bv32, x: bv32) requires x == y ^ (y >> 17) ensures Step2(x) == y {}
  lemma Recover3(y: bv32, x: bv32)
    requires x == y ^ (y << 5) ^ (y << 10) ^ (y << 15) ^ (y << 20) ^ (y << 25) ^ (y << 30)
    ensures Step3(x) == y {}

  lemma Undo1(x: bv32) ensures Unstep1(Step1(x)) == x { Cancel1(x, Step1(x)); }
  lemma Undo2(x: bv32) ensures Unstep2(Step2(x)) == x { Cancel2(x, Step2(x)); }
  lemma Undo3(x: bv32) ensures Unstep3(Step3(x)) == x { Cancel3(x, Step3(x)); }
  lemma Redo1(y: bv32) ensures Step1(Unstep1(y)) == y { Recover1(y, Unstep1(y)); }
  lemma Redo2(y: bv32) ensures Step2(Unstep2(y)) == y { Recover2(y, Unstep2(y)); }
  lemma Redo3(y: bv32) ensures Step3(Unstep3(y)) == y { Recover3(y, Unstep3(y)); }

  /** Every state has exactly one predecessor: `Next` undoes `Prev`. */
  lemma NextOfPrev(r: bv32)
    ensures Next(Prev(r)) == r
  {
    Redo1(Unstep2(Unstep3(r)));
    Redo2(Unstep3(r));
    Redo3(r);
  }

  /** The state after `k` draws from `state`. */
  function Advance(state: bv32, k: nat): (r: bv32)
    ensures state != 0 ==> r != 0
    decreases k
  {
    if k == 0 then state else Advance(Next(state), k - 1)
  }

  /** One more draw after `k` draws is the state after `k + 1` draws. */
  lemma {:induction false} AdvanceStep(state: bv32, k: nat)
    ensures Next(Advance(state, k)) == Advance(state, k + 1)
    decreases k
  {
    if k > 0 {
      AdvanceStep(Next(state), k - 1);
    }
  }

  /** A generator built by `New` never reaches the all-zero fixed point. */
  lemma {:induction false} SeededStreamNonzero(seed: bv32, k: nat)
    ensures Advance(New(seed), k) != 0
  {
    assert New(seed) & 1 == 1;
  }
}
