/** `MiniProgressModel`: the single water counter of the compact view, with
    a fixed daily goal and step, its progress fraction and its cat tier. */
module MiniProgress {
  import opened CatTiers

  const DailyGoalML: int := 2000
  const StepML: int := 250

  /** The counter; it starts at zero and changes only through the intents. */
  datatype Mini = Mini(currentML: int)

  function Initial(): Mini {
    Mini(0)
  }

  /** `progress`: the fraction of the goal reached, capped at one. */
  function Progress(m: Mini): (p: real)
    ensures p <= 1.0
    ensures m.currentML >= 0 ==> 0.0 <= p
    ensures p == 1.0 <==> m.currentML >= DailyGoalML
    ensures m.currentML <= DailyGoalML ==> p == m.currentML as real / DailyGoalML as real
  {
    var ratio := m.currentML as real / DailyGoalML as real;
    if ratio < 1.0 then ratio else 1.0
  }

  /** `tier`: with a 2000 ml goal the tier thresholds fall at 600, 1200 and
      2000 ml. */
  function Tier(m: Mini): (t: CatTier)
    ensures t == Low <==> m.currentML < 600
    ensures t == Medium <==> 600 <= m.currentML < 1200
    ensures t == High <==> 1200 <= m.currentML < DailyGoalML
    ensures t == Complete <==> m.currentML >= DailyGoalML
  {
    From(Progress(m))
  }

  /** `isComplete`: the goal is reached, which is when progress is full. */
  predicate IsComplete(m: Mini)
    ensures IsComplete(m) <==> Progress(m) == 1.0
  {
    m.currentML >= DailyGoalML
  }

  /** The cat shows its Complete tier exactly when the goal is reached. */
  lemma TierCompleteIffComplete(m: Mini)
    ensures Tier(m) == Complete <==> IsComplete(m)
  {
  }

  /** `addStep()`: one step more, never past the goal. */
  function AddStep(m: Mini): (r: Mini)
    ensures r.currentML <= DailyGoalML
    ensures m.currentML < DailyGoalML ==> m.currentML < r.currentML
    ensures m.currentML + StepML <= DailyGoalML ==> r.currentML == m.currentML + StepML
    ensures m.currentML + StepML > DailyGoalML ==> r.currentML == DailyGoalML
  {
    var next := m.currentML + StepML;
    Mini(if next < DailyGoalML then next else DailyGoalML)
  }

  /** A reached goal is a fixed point of `addStep()`. */
  lemma AddStepOnCompleteIsNoOp(m: Mini)
    requires m.currentML == DailyGoalML
    ensures AddStep(m) == m
  {
  }

  /** `reset()`. */
  function Reset(m: Mini): (r: Mini)
    ensures r == Initial() && !IsComplete(r) && Tier(r) == Low
  {
    Mini(0)
  }

  /** `n` consecutive `addStep()` calls. */
  function AddSteps(m: Mini, n: nat): Mini
    decreases n
  {
    if n == 0 then m else AddSteps(AddStep(m), n - 1)
  }

  /** From zero, `n` steps reach `min(250 n, 2000)`. */
  lemma {:induction false} AddStepsFrom(m: Mini, n: nat)
    requires 0 <= m.currentML <= DailyGoalML
    ensures AddSteps(m, n).currentML
            == if m.currentML + n * StepML < DailyGoalML then m.currentML + n * StepML else DailyGoalML
    decreases n
  {
    if n > 0 {
      AddStepsFrom(AddStep(m), n - 1);
      if m.currentML + StepML > DailyGoalML {
        assert m.currentML + n * StepML >= DailyGoalML by {
          assert n * StepML >= StepML;
        }
      }
    }
  }

  /** Eight steps fill the day and seven do not; the tiers along the way
      climb from Low to Complete. */
  lemma EightStepsFillTheDay()
    ensures !IsComplete(AddSteps(Initial(), 7))
    ensures IsComplete(AddSteps(Initial(), 8))
    ensures AddStep(AddSteps(Initial(), 8)) == AddSteps(Initial(), 8)
    ensures Tier(AddSteps(Initial(), 1)) == Low
    ensures Tier(AddSteps(Initial(), 3)) == Medium
    ensures Tier(AddSteps(Initial(), 5)) == High
    ensures Tier(AddSteps(Initial(), 7)) == High
  {
    AddStepsFrom(Initial(), 1);
    AddStepsFrom(Initial(), 3);
    AddStepsFrom(Initial(), 5);
    AddStepsFrom(Initial(), 7);
    AddStepsFrom(Initial(), 8);
  }
}
