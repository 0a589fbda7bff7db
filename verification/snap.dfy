/** The store's `snappedValue`: a raw progress value is clamped into
    `[0, goal]`, rounded to the nearest multiple of the step (halves away
    from zero, as Swift's `rounded()` does), and clamped again. */
module Snap {

  /** `x / d` rounded to the nearest integer, halves up, for `x >= 0`: the
      source's floating-point division and rounding, done exactly. */
  function RoundDiv(x: nat, d: int): (q: nat)
    requires d > 0
    ensures -d < 2 * (q * d - x) <= d
  {
    var q := (2 * x + d) / (2 * d);
    DivBounds(2 * x + d, 2 * d);
    q
  }

  lemma DivBounds(a: nat, b: int)
    requires b > 0
    ensures b * (a / b) <= a < b * (a / b) + b
  {
  }

  /** `RoundDiv` is monotone in the dividend. */
  lemma RoundDivMonotone(x: nat, y: nat, d: int)
    requires d > 0 && x <= y
    ensures RoundDiv(x, d) <= RoundDiv(y, d)
  {
    var qx, qy := RoundDiv(x, d), RoundDiv(y, d);
    assert (qx - qy) * d == qx * d - qy * d;
    MulBelowFactor(qx - qy, d);
  }

  /** A multiple of `d` below `d` has a non-positive factor. */
  lemma MulBelowFactor(a: int, d: int)
    requires d > 0
    ensures a * d < d ==> a <= 0
  {
    if a >= 1 {
      MulMonotone(1, a, d);
    }
  }

  lemma MulMonotone(a: int, b: int, d: int)
    requires a <= b && d > 0
    ensures a * d <= b * d
  {
  }

  /** A multiple of `d` divides exactly. */
  lemma RoundDivOfMultiple(k: nat, d: int)
    requires d > 0
    ensures RoundDiv(k * d, d) == k
  {
    var q := RoundDiv(k * d, d);
    assert (q - k) * d == q * d - k * d;
    assert (k - q) * d == k * d - q * d;
    MulBelowFactor(q - k, d);
    MulBelowFactor(k - q, d);
  }

  function Clamp(x: int, lo: int, hi: int): int
    requires lo <= hi
  {
    if x < lo then lo else if x > hi then hi else x
  }

  /** True when `m` is the multiple of `s` nearest to `c`, halves going up. */
  predicate NearestMultiple(m: int, c: int, s: int)
    requires s > 0
  {
    m % s == 0 && -s < 2 * (m - c) <= s
  }

  /** `snappedValue(_:goal:step:)`. */
  function SnappedValue(value: int, goal: int, step: int): (r: int)
    ensures goal <= 0 ==> r == 0
    ensures 0 <= r && (goal > 0 ==> r <= goal)
    // The result is the multiple of the step nearest the clamped input; when
    // that multiple lies beyond the goal, which happens exactly when the
    // input is at least half a step above the last multiple within the goal,
    // the result is the goal.
    ensures goal > 0 ==>
              var s := if step >= 1 then step else 1;
              var c := Clamp(value, 0, goal);
              var top := goal / s * s;
              if 2 * (c - top) >= s then r == goal else NearestMultiple(r, c, s)
  {
    var safeGoal := if goal >= 0 then goal else 0;
    var safeStep := if step >= 1 then step else 1;
    var clamped := Clamp(value, 0, safeGoal);
    var snapped := if safeGoal > 0 then RoundDiv(clamped, safeStep) * safeStep else 0;
    var r := Clamp(snapped, 0, safeGoal);
    assert snapped % safeStep == 0 by {
      if safeGoal > 0 {
        MultipleMod(RoundDiv(clamped, safeStep), safeStep);
      }
    }
    assert safeGoal > 0 ==>
             (snapped > safeGoal <==> 2 * (clamped - safeGoal / safeStep * safeStep) >= safeStep) by {
      if safeGoal > 0 {
        RoundedPastGoal(clamped, safeGoal, safeStep);
      }
    }
    r
  }

  /** The rounded multiple lies beyond the goal exactly when the value is at
      least half a step above the last multiple within the goal. */
  lemma RoundedPastGoal(c: nat, goal: int, s: int)
    requires s > 0 && goal > 0 && c <= goal
    ensures RoundDiv(c, s) * s > goal <==> 2 * (c - goal / s * s) >= s
  {
    var q, k := RoundDiv(c, s), goal / s;
    DivBounds(goal, s);
    assert s * k == k * s;
    if 2 * (c - k * s) >= s {
      assert (k + 1 - q) * s == k * s + s - q * s;
      MulBelowFactor(k + 1 - q, s);
      MulMonotone(k + 1, q, s);
      assert (k + 1) * s == k * s + s;
    } else {
      assert (q - k) * s == q * s - k * s;
      MulBelowFactor(q - k, s);
      MulMonotone(q, k, s);
    }
  }

  lemma MultipleMod(k: nat, d: int)
    requires d > 0
    ensures (k * d) % d == 0
  {
    var a := k * d;
    var q, rem := a / d, a % d;
    assert a == d * q + rem;
    assert (k - q) * d == rem;
    assert (q - k) * d == -rem;
    MulBelowFactor(k - q, d);
    MulBelowFactor(q - k, d);
  }

  /** Snapping twice is snapping once, so a value the store wrote is stable. */
  lemma SnapIdempotent(value: int, goal: int, step: int)
    ensures SnappedValue(SnappedValue(value, goal, step), goal, step)
            == SnappedValue(value, goal, step)
  {
    if goal > 0 {
      var s := if step >= 1 then step else 1;
      var c := Clamp(value, 0, goal);
      var q := RoundDiv(c, s);
      var r := SnappedValue(value, goal, step);
      if q * s <= goal {
        assert r == q * s;
        RoundDivOfMultiple(q, s);
      } else {
        assert r == goal;
        RoundDivMonotone(c, goal, s);
        MulMonotone(q, RoundDiv(goal, s), s);
      }
    }
  }

  /** The rounding rule pinned on the example of a goal of 140 with a step
      of 20: a raw 130 lies halfway between 120 and 140 and goes up. */
  lemma SnapTieGoesUp()
    ensures SnappedValue(130, 140, 20) == 140
    ensures SnappedValue(129, 140, 20) == 120
    // With a goal off the step grid, a value nearer the last multiple within
    // the goal keeps that multiple; from half a step above it, the goal.
    ensures SnappedValue(132, 141, 20) == 140
    ensures SnappedValue(149, 155, 20) == 140
    ensures SnappedValue(150, 155, 20) == 155
  {
  }
}
