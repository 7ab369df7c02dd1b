/** The automatic transmit power control loop of internal/radio: atpc.go, linkbudget.go and the
    measurement in manager.go, over exact reals. */
module Atpc {
  /** The range the model accepts for a received level. */
  const RSSI_MIN: real := -99.0
  const RSSI_MAX: real := -20.0

  function Min(a: real, b: real): real { if a < b then a else b }

  function Max(a: real, b: real): real { if a < b then b else a }

  function Clamp(value: real, min: real, max: real): real {
    Min(Max(value, min), max)
  }

  /** `gain` is the fixed part of the link budget: antenna gains less all losses. `fade` is the
      injected fade. */
  datatype Loop = Loop(target: real, min: real, max: real, step: real, gain: real, fade: real)

  /** The configurations the model's validation admits, with the step that is always positive. */
  predicate Good(loop: Loop) {
    RSSI_MIN <= loop.target <= RSSI_MAX && loop.min < loop.max && loop.step > 0.0
  }

  /** `receivedLevel` and `applyFade`. */
  function Level(loop: Loop, power: real): real {
    Clamp(power + loop.gain - loop.fade, RSSI_MIN, RSSI_MAX)
  }

  /** `atpcStep`. */
  function Step(loop: Loop, current: real, measured: real): real {
    var delta := Clamp(loop.target - measured, 0.0 - loop.step, loop.step);
    Clamp(current + delta, loop.min, loop.max)
  }

  /** One evaluation of the link: measure at the present power, then adjust it. */
  function Tick(loop: Loop, power: real): real {
    Step(loop, power, Level(loop, power))
  }

  function Ticks(loop: Loop, power: real, n: nat): real {
    if n == 0 then power else Tick(loop, Ticks(loop, power, n - 1))
  }

  /** The power that would bring the level to the target, as far as the range allows. */
  function Optimum(loop: Loop): real {
    Clamp(loop.target - loop.gain + loop.fade, loop.min, loop.max)
  }

  function Distance(loop: Loop, power: real): real {
    if power < Optimum(loop) then Optimum(loop) - power else power - Optimum(loop)
  }

  predicate InRange(loop: Loop, power: real) { loop.min <= power <= loop.max }

  predicate Between(a: real, b: real, c: real) { a <= b <= c || c <= b <= a }

  // ------------------------------------------------------------------------- safety

  lemma StepInRange(loop: Loop, power: real, measured: real)
    requires Good(loop)
    ensures InRange(loop, Step(loop, power, measured))
  {
  }

  /** A tick moves toward the optimum and never past it, saturated or not. */
  lemma TickApproaches(loop: Loop, power: real)
    requires Good(loop) && InRange(loop, power)
    ensures Between(power, Tick(loop, power), Optimum(loop))
  {
  }

  lemma {:induction false} TicksApproach(loop: Loop, power: real, n: nat)
    requires Good(loop) && InRange(loop, power)
    ensures InRange(loop, Ticks(loop, power, n))
    ensures Between(power, Ticks(loop, power, n), Optimum(loop))
    ensures Between(Ticks(loop, power, n), Ticks(loop, power, n + 1), Optimum(loop))
    decreases n
  {
    if n > 0 {
      TicksApproach(loop, power, n - 1);
      StepInRange(loop, Ticks(loop, power, n - 1), Level(loop, Ticks(loop, power, n - 1)));
    }
    TickApproaches(loop, Ticks(loop, power, n));
  }

  // -------------------------------------------------------------------- convergence

  /** The level is measured as it is. */
  predicate Unsaturated(loop: Loop, power: real) {
    RSSI_MIN <= power + loop.gain - loop.fade <= RSSI_MAX
  }

  lemma TickUnsaturated(loop: Loop, power: real)
    requires Good(loop) && InRange(loop, power) && Unsaturated(loop, power)
    ensures Unsaturated(loop, Tick(loop, power))
    ensures Distance(loop, Tick(loop, power)) == Max(0.0, Distance(loop, power) - loop.step)
  {
    var e := loop.target - Level(loop, power);
    assert e == loop.target - (power + loop.gain - loop.fade);
  }

  /** `n` steps together. */
  function Steps(step: real, n: nat): real {
    if n == 0 then 0.0 else Steps(step, n - 1) + step
  }

  lemma {:induction false} StepsIsProduct(step: real, n: nat)
    ensures Steps(step, n) == n as real * step
    decreases n
  {
    if n > 0 {
      StepsIsProduct(step, n - 1);
      assert n as real == (n - 1) as real + 1.0;
    }
  }

  lemma {:induction false} StaysUnsaturated(loop: Loop, power: real, n: nat)
    requires Good(loop) && InRange(loop, power) && Unsaturated(loop, power)
    ensures InRange(loop, Ticks(loop, power, n)) && Unsaturated(loop, Ticks(loop, power, n))
    decreases n
  {
    if n > 0 {
      StaysUnsaturated(loop, power, n - 1);
      TickUnsaturated(loop, Ticks(loop, power, n - 1));
      StepInRange(loop, Ticks(loop, power, n - 1), Level(loop, Ticks(loop, power, n - 1)));
    }
  }

  /** The distances before each of `n` ticks and after the last. */
  function Distances(loop: Loop, power: real, n: nat): (ds: seq<real>)
    ensures |ds| == n + 1 && ds[0] == Distance(loop, power) && ds[n] == Distance(loop, Ticks(loop, power, n))
  {
    if n == 0 then [Distance(loop, power)] else Distances(loop, power, n - 1) + [Distance(loop, Ticks(loop, power, n))]
  }

  predicate Decays(ds: seq<real>, step: real) {
    forall i :: 0 <= i < |ds| - 1 ==> ds[i + 1] == Max(0.0, ds[i] - step)
  }

  lemma {:induction false} DistancesDecay(loop: Loop, power: real, n: nat)
    requires Good(loop) && InRange(loop, power) && Unsaturated(loop, power)
    ensures Decays(Distances(loop, power, n), loop.step)
    decreases n
  {
    if n > 0 {
      DistancesDecay(loop, power, n - 1);
      StaysUnsaturated(loop, power, n - 1);
      TickUnsaturated(loop, Ticks(loop, power, n - 1));
    }
  }

  lemma {:induction false} DecayIsLinear(ds: seq<real>, step: real, n: nat)
    requires Decays(ds, step) && step > 0.0 && n < |ds| && ds[0] >= 0.0
    ensures ds[n] == Max(0.0, ds[0] - Steps(step, n))
    decreases n
  {
    if n > 0 {
      DecayIsLinear(ds, step, n - 1);
      assert ds[n - 1 + 1] == Max(0.0, ds[n - 1] - step);
    }
  }

  /** Unsaturated, the distance shrinks by exactly one step a tick until it is zero: after `n`
      ticks it is the larger of zero and the distance less `n` steps. */
  lemma {:induction false} ConvergesLinearly(loop: Loop, power: real, n: nat)
    requires Good(loop) && InRange(loop, power) && Unsaturated(loop, power)
    ensures Distance(loop, Ticks(loop, power, n)) == Max(0.0, Distance(loop, power) - n as real * loop.step)
  {
    hide Optimum, Ticks, Decays, Steps, Clamp, InRange, Unsaturated, Distances;
    assert Distance(loop, power) >= 0.0;
    hide Distance;
    DistancesDecay(loop, power, n);
    DecayIsLinear(Distances(loop, power, n), loop.step, n);
    StepsIsProduct(loop.step, n);
  }

  /** What the loop still sees of the error when the level is saturated. */
  function Visible(loop: Loop, power: real): real {
    if power + loop.gain - loop.fade < RSSI_MIN then loop.target - RSSI_MIN else RSSI_MAX - loop.target
  }

  /** Saturated, a tick moves by the step or by the visible error, if that is less, or reaches
      the optimum. */
  lemma SaturatedTick(loop: Loop, power: real)
    requires Good(loop) && InRange(loop, power) && !Unsaturated(loop, power)
    ensures Distance(loop, Tick(loop, power)) == Max(0.0, Distance(loop, power) - Min(loop.step, Visible(loop, power)))
  {
  }

  /** So the loop is stuck short of its optimum exactly when the level is saturated at the
      target itself. */
  lemma {:induction false} StuckIff(loop: Loop, power: real)
    requires Good(loop) && InRange(loop, power) && power != Optimum(loop)
    ensures Tick(loop, power) == power <==> !Unsaturated(loop, power) && Visible(loop, power) == 0.0
  {
    TickApproaches(loop, power);
    if Unsaturated(loop, power) { TickUnsaturated(loop, power); } else { SaturatedTick(loop, power); }
  }

  /** Short of the optimum with the level saturated at the target itself. */
  predicate Stuck(loop: Loop, power: real) {
    power != Optimum(loop) && !Unsaturated(loop, power) && Visible(loop, power) == 0.0
  }

  /** What a tick gains at least, until the optimum is reached. */
  function Pace(loop: Loop, power: real): real {
    if Unsaturated(loop, power) then loop.step else Min(loop.step, Visible(loop, power))
  }

  /** A tick gains its pace, and the next tick is no slower. */
  lemma TickGains(loop: Loop, power: real)
    requires Good(loop) && InRange(loop, power)
    ensures Distance(loop, Tick(loop, power)) == Max(0.0, Distance(loop, power) - Pace(loop, power))
    ensures Pace(loop, Tick(loop, power)) >= Pace(loop, power) || Tick(loop, power) == Optimum(loop)
  {
    if Unsaturated(loop, power) { TickUnsaturated(loop, power); } else { SaturatedTick(loop, power); }
  }

  lemma {:induction false} TicksGain(loop: Loop, power: real, n: nat)
    requires Good(loop) && InRange(loop, power)
    ensures var p := Ticks(loop, power, n);
            && InRange(loop, p)
            && (p == Optimum(loop) ||
                  (&& Distance(loop, p) <= Distance(loop, power) - Steps(Pace(loop, power), n)
                   && Pace(loop, p) >= Pace(loop, power)))
    decreases n
  {
    if n > 0 {
      TicksGain(loop, power, n - 1);
      var p := Ticks(loop, power, n - 1);
      StepInRange(loop, p, Level(loop, p));
      TickGains(loop, p);
    }
  }

  lemma {:induction false} StuckStays(loop: Loop, power: real, n: nat)
    requires Good(loop) && InRange(loop, power) && Stuck(loop, power)
    ensures Ticks(loop, power, n) == power
    decreases n
  {
    if n > 0 {
      StuckStays(loop, power, n - 1);
      StuckIff(loop, power);
    }
  }

  /** Enough positive steps go any distance. */
  lemma EnoughSteps(step: real, distance: real) returns (n: nat)
    requires step > 0.0 && distance >= 0.0
    ensures Steps(step, n) > distance
  {
    n := (distance / step).Floor + 1;
    StepsIsProduct(step, n);
    Product(n as real, step, distance);
  }

  lemma Product(n: real, step: real, distance: real)
    requires step > 0.0 && n > distance / step
    ensures n * step > distance
  {
    assert (distance / step) * step == distance;
  }

  /** The loop reaches its optimum after some number of ticks if and only if it does not start
      out stuck. */
  lemma {:induction false} ReachesOptimumIff(loop: Loop, power: real)
    requires Good(loop) && InRange(loop, power)
    ensures (exists n: nat :: Ticks(loop, power, n) == Optimum(loop)) <==> !Stuck(loop, power)
  {
    if Stuck(loop, power) {
      forall n: nat ensures Ticks(loop, power, n) != Optimum(loop) { StuckStays(loop, power, n); }
    } else if power == Optimum(loop) {
      assert Ticks(loop, power, 0) == Optimum(loop);
    } else {
      assert Pace(loop, power) > 0.0;
      var n := EnoughSteps(Pace(loop, power), Distance(loop, power));
      TicksGain(loop, power, n);
      assert Ticks(loop, power, n) == Optimum(loop);
    }
  }
}
