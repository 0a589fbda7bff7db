/** The add-habit form (`AddHabitSheetView`): five text drafts, the checks
    that enable its Save button, and what Save hands to the registry. */
module AddHabitForm {
  import opened Optional
  import opened Text
  import opened Habits
  import opened HabitsStore
  import opened IntParsing

  /** The form's drafts, all starting empty. */
  datatype Draft = Draft(name: string, unit: string, goalText: string, stepText: string, emoji: string)

  function Empty(): Draft {
    Draft("", "", "", "", "")
  }

  /** `canAddMore`. */
  predicate CanAddMore(hs: seq<Habit>) {
    |hs| < MaxHabits
  }

  /** `goal` and `step`: the trimmed text parsed as an integer. */
  function Goal(d: Draft): Option<int> {
    ParseInt(Trim(d.goalText))
  }

  function Step(d: Draft): Option<int> {
    ParseInt(Trim(d.stepText))
  }

  /** `trimmedEmoji`: the first character of the trimmed emoji draft. */
  function TrimmedEmoji(d: Draft): string {
    Prefix1(Trim(d.emoji))
  }

  /** `normalizedName` of the form. */
  function FormName(d: Draft): string {
    Lower(Trim(d.name))
  }

  /** `isDuplicateName`: a non-blank name some habit already has, compared
      trimmed and lower-cased. */
  predicate IsDuplicateName(d: Draft, hs: seq<Habit>) {
    FormName(d) != [] && exists i :: 0 <= i < |hs| && Lower(Trim(hs[i].name)) == FormName(d)
  }

  /** `isDuplicateEmoji`: a non-blank emoji whose first character some habit
      already starts with. */
  predicate IsDuplicateEmoji(d: Draft, hs: seq<Habit>) {
    TrimmedEmoji(d) != [] && exists i :: 0 <= i < |hs| && Prefix1(Trim(hs[i].emoji)) == TrimmedEmoji(d)
  }

  /** `isValid`: what enables Save. An enabled form has room, numbers that
      parse with 0 < step <= goal, and a name and emoji the registry does
      not already hold. */
  predicate IsValid(d: Draft, hs: seq<Habit>)
    ensures IsValid(d, hs) ==>
      && |hs| < MaxHabits
      && !HasName(hs, NormalizedName(d.name))
      && !HasEmoji(hs, NormalizedEmoji(d.emoji))
      && Goal(d).Some? && Step(d).Some? && 0 < Step(d).value <= Goal(d).value
  {
    DuplicateChecksAgree(d, hs);
    && CanAddMore(hs)
    && Trim(d.name) != []
    && Trim(d.unit) != []
    && TrimmedEmoji(d) != []
    && !IsDuplicateName(d, hs)
    && !IsDuplicateEmoji(d, hs)
    && Goal(d).Some? && Step(d).Some?
    && 0 < Step(d).value <= Goal(d).value
  }

  /** The duplicate checks are the registry's own, seen from the form. */
  lemma DuplicateChecksAgree(d: Draft, hs: seq<Habit>)
    ensures Trim(d.name) != [] ==> (IsDuplicateName(d, hs) <==> HasName(hs, NormalizedName(d.name)))
    ensures IsDuplicateEmoji(d, hs) <==> TrimmedEmoji(d) != [] && HasEmoji(hs, NormalizedEmoji(d.emoji))
  {
    LowerIdempotent(Trim(d.name));
  }

  /** Save: nothing happens unless both numbers parse; otherwise the trimmed
      fields go to `addHabit`, whose verdict decides whether the sheet
      closes. The form's checks and the registry's agree: a habit is added
      exactly when the button is enabled, and it is the drafts' habit. */
  function Save(d: Draft, s: Store, nextId: nat): (r: (Store, bool))
    ensures r.1 <==> IsValid(d, s.habits)
    ensures !r.1 ==> r.0.habits == s.habits
    ensures r.1 ==> r.0.habits == s.habits + [Habit(nextId, Trim(d.name), TrimmedEmoji(d), Trim(d.unit),
                                                     Goal(d).value, Step(d).value, 0, false)]
    ensures r.1 ==> r.0.disk.habitsData == Some(Encoded(r.0.habits))
    // A rejection writes no habits, and no save is scheduled either way.
    ensures !r.1 ==> r.0.disk.habitsData == s.disk.habitsData
    ensures r.0.savePending == s.savePending
    ensures r.0.disk.legacyCurrentML == s.disk.legacyCurrentML
    // Once both numbers parse, a Read name that passes the name checks
    // clears the deleted-Read flag, even when a later check rejects it.
    ensures r.0.disk.didDeleteRead
            == (s.disk.didDeleteRead && !(Goal(d).Some? && Step(d).Some? && AddReachesReadCheck(s.habits, Trim(d.name))))
  {
    TrimIdempotent(d.name);
    TrimIdempotent(d.unit);
    TrimPrefixStable(d.emoji);
    DuplicateChecksAgree(d, s.habits);
    assert NormalizedName(Trim(d.name)) == NormalizedName(d.name);
    assert NormalizedEmoji(TrimmedEmoji(d)) == TrimmedEmoji(d);
    match (Goal(d), Step(d))
    case (Some(goal), Some(step)) =>
      AddHabit(s, Trim(d.name), TrimmedEmoji(d), Trim(d.unit), goal, step, nextId)
    case _ => (s, false)
  }

  /** A fresh form is not valid: Save starts disabled. */
  lemma EmptyIsInvalid(hs: seq<Habit>)
    ensures !IsValid(Empty(), hs)
  {
    assert Trim("") == [];
  }
}
