/** The value type for one trackable daily habit: identity, content,
    integer targets and progress, and the two self-contained transitions
    (`logStep`, `reset`). */
module Habits {

  /** One habit. Ids are opaque, modelled as naturals. Numeric fields are
      plain integers: a decoded record is not re-clamped, so nothing here
      forces them into range; `Valid` says when they are. */
  datatype Habit = Habit(
    id: nat,
    name: string,
    emoji: string,
    unit: string,
    goal: int,
    step: int,
    current: int,
    isProtected: bool)

  /** The emoji of the built-in Water habit. */
  const WaterEmoji: string := "\U{1F4A7}"

  /** The numeric ranges the initialiser establishes: nothing negative and,
      when there is a goal, step and progress at most the goal. */
  predicate Valid(h: Habit) {
    && h.goal >= 0
    && h.step >= 0
    && h.current >= 0
    && (h.goal > 0 ==> h.current <= h.goal && h.step <= h.goal)
  }

  function Max(a: int, b: int): int { if a >= b then a else b }
  function Min(a: int, b: int): int { if a <= b then a else b }

  /** `Habit.init` followed by `clampProgress`: negative inputs are raised to
      zero and, only when the goal is positive, step and progress are lowered
      to the goal. A zero goal leaves progress merely floored. */
  function Make(id: nat, name: string, emoji: string, unit: string,
                goal: int, step: int, current: int, isProtected: bool): (h: Habit)
    ensures Valid(h)
    ensures h.id == id && h.name == name && h.emoji == emoji && h.unit == unit
    ensures h.isProtected == isProtected
    // Inputs already in range are kept exactly.
    ensures goal >= 0 ==> h.goal == goal
    ensures 0 <= step && (goal <= 0 || step <= goal) ==> h.step == step
    ensures 0 <= current && (goal <= 0 || current <= goal) ==> h.current == current
    // Out-of-range inputs go to the nearest end of the allowed range.
    ensures goal < 0 ==> h.goal == 0
    ensures step < 0 ==> h.step == 0
    ensures current < 0 ==> h.current == 0
    ensures goal > 0 && step > goal ==> h.step == goal
    ensures goal > 0 && current > goal ==> h.current == goal
  {
    var g := Max(goal, 0);
    var s := Max(step, 0);
    var c := Max(current, 0);
    Habit(id, name, emoji, unit, g,
          if g > 0 then Min(s, g) else s,
          if g > 0 then Min(c, g) else c,
          isProtected)
  }

  /** The initialiser is idempotent: re-making a made habit changes nothing. */
  lemma MakeIdempotent(id: nat, name: string, emoji: string, unit: string,
                       goal: int, step: int, current: int, isProtected: bool)
    ensures var h := Make(id, name, emoji, unit, goal, step, current, isProtected);
            Make(h.id, h.name, h.emoji, h.unit, h.goal, h.step, h.current, h.isProtected) == h
  {
  }

  /** `isComplete`: a zero goal is never complete; otherwise complete means
      nothing remains. */
  predicate IsComplete(h: Habit)
    ensures IsComplete(h) <==> h.goal > 0 && Remaining(h) == 0
  {
    h.goal > 0 && h.current >= h.goal
  }

  /** `remaining`: how much is left to the goal, never negative. */
  function Remaining(h: Habit): (r: int)
    ensures r >= 0
    ensures h.current <= h.goal ==> r == h.goal - h.current
    ensures h.current >= h.goal ==> r == 0
  {
    Max(h.goal - h.current, 0)
  }

  /** With a positive goal, a habit is complete exactly when nothing remains. */
  lemma CompleteIffNothingRemains(h: Habit)
    requires h.goal > 0
    ensures IsComplete(h) <==> Remaining(h) == 0
  {
  }

  /** `logStep()`: adds one step, never past the goal; a zero step does
      nothing. */
  function LogStep(h: Habit): (r: Habit)
    ensures r == h.(current := r.current)
    ensures h.step <= 0 ==> r == h
    ensures h.step > 0 ==> r.current <= h.goal
    ensures h.current <= h.goal ==> r.current <= h.goal
    ensures h.step > 0 && h.current < h.goal ==> h.current < r.current
    ensures Valid(h) ==> Valid(r)
  {
    if h.step <= 0 then h else h.(current := Min(h.current + h.step, h.goal))
  }

  /** A complete habit is a fixed point of `LogStep`. */
  lemma LogStepOnCompleteIsNoOp(h: Habit)
    requires Valid(h) && IsComplete(h)
    ensures LogStep(h) == h
  {
  }

  /** `n` consecutive `logStep()` calls. */
  function LogSteps(h: Habit, n: nat): Habit
    decreases n
  {
    if n == 0 then h else LogSteps(LogStep(h), n - 1)
  }

  /** Repeated logging advances by whole steps, capped at the goal. */
  lemma {:induction false} LogStepsProgress(h: Habit, n: nat)
    requires Valid(h) && h.step > 0 && h.current <= h.goal
    ensures LogSteps(h, n) == h.(current := Min(h.current + n * h.step, h.goal))
    decreases n
  {
    if n > 0 {
      var h1 := LogStep(h);
      LogStepsProgress(h1, n - 1);
      if h.current + h.step <= h.goal {
        assert h1.current + (n - 1) * h.step == h.current + n * h.step;
      } else {
        assert h1.current == h.goal;
        assert h.current + n * h.step >= h.goal by {
          assert n * h.step >= h.step;
        }
      }
    }
  }

  /** Enough `logStep()` calls reach the goal exactly, after which further
      calls change nothing; with a positive goal the habit is then complete. */
  lemma LogStepsReachGoal(h: Habit, n: nat)
    requires Valid(h) && h.step > 0 && h.current <= h.goal
    requires h.current + n * h.step >= h.goal
    ensures LogSteps(h, n).current == h.goal
    ensures LogStep(LogSteps(h, n)) == LogSteps(h, n)
    ensures h.goal > 0 ==> IsComplete(LogSteps(h, n))
  {
    LogStepsProgress(h, n);
  }

  /** `reset()`: progress back to zero, every other field kept. */
  function Reset(h: Habit): (r: Habit)
    ensures r.current == 0
    ensures r.id == h.id && r.name == h.name && r.emoji == h.emoji && r.unit == h.unit
    ensures r.goal == h.goal && r.step == h.step && r.isProtected == h.isProtected
    ensures Valid(h) ==> Valid(r)
    ensures !IsComplete(r)
  {
    h.(current := 0)
  }

  /** `Habit.waterDefault()`: the protected built-in habit. */
  function WaterDefault(id: nat): (h: Habit)
    ensures Valid(h) && h.isProtected && h.id == id
    ensures h.name == "Water" && h.unit == "ml" && h.emoji == WaterEmoji
    ensures h.goal == 2000 && h.step == 250 && h.current == 0
  {
    Make(id, "Water", WaterEmoji, "ml", 2000, 250, 0, true)
  }

  /** The deletable built-in habit the store seeds after Water. */
  function ReadDefault(id: nat): (h: Habit)
    ensures Valid(h) && !h.isProtected && h.id == id
    ensures h.name == "Read" && h.unit == "pages" && h.emoji == "\U{1F4D8}"
    ensures h.goal == 20 && h.step == 2 && h.current == 0
  {
    Make(id, "Read", "\U{1F4D8}", "pages", 20, 2, 0, false)
  }
}
