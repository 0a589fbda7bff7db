/** What every registry operation keeps true of the collection, and the
    consequences for the built-in habits across restarts. */
module StoreInvariants {
  import opened Optional
  import opened Text
  import opened Habits
  import opened HabitsStore
  import Reorder

  function IdOf(h: Habit): nat {
    h.id
  }

  /** No two habits share an id. */
  predicate IdsUnique(hs: seq<Habit>) {
    forall i, j :: 0 <= i < |hs| && 0 <= j < |hs| && i != j ==> hs[i].id != hs[j].id
  }

  /** Every id is below `n`, so the ids from `n` upward are free. */
  predicate IdsBelow(hs: seq<Habit>, n: nat) {
    forall i :: 0 <= i < |hs| ==> hs[i].id < n
  }

  predicate AllValid(hs: seq<Habit>) {
    forall i :: 0 <= i < |hs| ==> Valid(hs[i])
  }

  /** No two habits share a normalized name. */
  predicate NamesUnique(hs: seq<Habit>) {
    forall i, j :: 0 <= i < |hs| && 0 <= j < |hs| && i != j ==>
      NormalizedName(hs[i].name) != NormalizedName(hs[j].name)
  }

  /** The registry invariant: a protected habit is present, every habit is
      in range, ids are unique, and the count is at most one over the limit
      (a full decoded collection without Water gets Water on top). */
  predicate Wf(hs: seq<Habit>) {
    && |hs| <= MaxHabits + 1
    && HasProtected(hs)
    && AllValid(hs)
    && IdsUnique(hs)
  }

  /** What a stored collection must satisfy for `load()` to produce a
      well-formed registry: habits in range, unique ids below `nextId`. */
  predicate DiskWf(disk: Disk, nextId: nat) {
    disk.habitsData.Some? && disk.habitsData.value.Encoded? ==>
      var hs := disk.habitsData.value.habits;
      AllValid(hs) && IdsUnique(hs) && IdsBelow(hs, nextId)
  }

  // ---------------------------------------------------------------------
  // Sequence facts

  lemma InsertAtIndex(hs: seq<Habit>, k: nat, h: Habit)
    requires k <= |hs|
    ensures forall j :: 0 <= j < k ==> InsertAt(hs, k, h)[j] == hs[j]
    ensures forall j :: k < j <= |hs| ==> InsertAt(hs, k, h)[j] == hs[j - 1]
  {
  }

  lemma RemoveAtIndex(hs: seq<Habit>, i: nat)
    requires i < |hs|
    ensures forall j :: 0 <= j < i ==> RemoveAt(hs, i)[j] == hs[j]
    ensures forall j :: i <= j < |hs| - 1 ==> RemoveAt(hs, i)[j] == hs[j + 1]
  {
  }

  lemma IdsUniqueIsKeysUnique(hs: seq<Habit>)
    ensures IdsUnique(hs) <==> Reorder.KeysUnique(hs, IdOf)
  {
  }

  // ---------------------------------------------------------------------
  // The ensure pass

  /** Putting Water in front keeps habits in range and ids unique, and
      spends at most the id `nextId`. */
  lemma WithWaterKeepsIds(hs: seq<Habit>, nextId: nat)
    requires AllValid(hs) && IdsUnique(hs) && IdsBelow(hs, nextId)
    ensures var w := WithWater(hs, nextId);
            AllValid(w) && IdsUnique(w) && IdsBelow(w, nextId + 1) && |w| <= |hs| + 1
  {
    var w := WithWater(hs, nextId);
    if !HasProtected(hs) {
      assert forall j :: 1 <= j < |w| ==> w[j] == hs[j - 1];
    }
  }

  /** Inserting an in-range habit with a fresh id keeps habits in range
      and ids unique. */
  lemma InsertKeepsIds(w: seq<Habit>, k: nat, h: Habit, n: nat)
    requires k <= |w| && AllValid(w) && IdsUnique(w) && IdsBelow(w, n)
    requires Valid(h) && h.id == n
    ensures var r := InsertAt(w, k, h);
            AllValid(r) && IdsUnique(r) && IdsBelow(r, n + 1)
  {
    var r := InsertAt(w, k, h);
    InsertAtIndex(w, k, h);
    forall i | 0 <= i < |r|
      ensures Valid(r[i]) && r[i].id < n + 1
      ensures i != k ==> r[i] == w[if i < k then i else i - 1]
    {
    }
    forall i, j | 0 <= i < |r| && 0 <= j < |r| && i != j
      ensures r[i].id != r[j].id
    {
      var i' := if i < k then i else i - 1;
      var j' := if j < k then j else j - 1;
      if i != k && j != k {
        assert w[i'].id != w[j'].id;
      }
    }
  }

  /** Inserting Read behind Water keeps the protected habit, habits in range
      and ids unique, and spends at most the id `nextId + 1`. */
  lemma InsertReadKeepsIds(w: seq<Habit>, nextId: nat)
    requires HasProtected(w) && AllValid(w) && IdsUnique(w) && IdsBelow(w, nextId + 1)
    ensures var r := InsertAt(w, ReadSlot(w), ReadDefault(nextId + 1));
            HasProtected(r) && AllValid(r) && IdsUnique(r) && IdsBelow(r, nextId + 2)
  {
    var k := ReadSlot(w);
    var r := InsertAt(w, k, ReadDefault(nextId + 1));
    InsertKeepsIds(w, k, ReadDefault(nextId + 1), nextId + 1);
    var p := FirstProtected(w).value;
    assert r[p] == w[p];
  }

  /** The ensure pass turns any in-range collection with unique ids and at
      most `MaxHabits` habits into a well-formed one, using at most the two
      ids it was handed. */
  lemma EnsureDefaultsWf(s: Store, nextId: nat)
    requires |s.habits| <= MaxHabits && AllValid(s.habits)
    requires IdsUnique(s.habits) && IdsBelow(s.habits, nextId)
    ensures Wf(EnsureDefaults(s, nextId).habits)
    ensures IdsBelow(EnsureDefaults(s, nextId).habits, nextId + 2)
  {
    var w := WithWater(s.habits, nextId);
    WithWaterKeepsIds(s.habits, nextId);
    if ReadWanted(w, s.disk.didDeleteRead) {
      InsertReadKeepsIds(w, nextId);
    }
  }

  /** The ensure pass is idempotent: what it produces it leaves alone. */
  lemma EnsureDefaultsIdempotent(s: Store, nextId: nat, laterId: nat)
    ensures EnsureDefaults(EnsureDefaults(s, nextId), laterId) == EnsureDefaults(s, nextId)
  {
  }

  // ---------------------------------------------------------------------
  // Preservation by each operation

  /** Appending an in-range habit with a fresh id below the limit keeps the
      invariant. */
  lemma AppendKeepsWf(hs: seq<Habit>, h: Habit, nextId: nat)
    requires Wf(hs) && IdsBelow(hs, nextId) && |hs| < MaxHabits
    requires Valid(h) && h.id == nextId
    ensures Wf(hs + [h]) && IdsBelow(hs + [h], nextId + 1)
  {
    var r := hs + [h];
    assert forall j :: 0 <= j < |hs| ==> r[j] == hs[j];
    var p :| 0 <= p < |hs| && hs[p].isProtected;
    assert r[p].isProtected;
  }

  /** `addHabit` keeps the invariant and appends only a fresh id. */
  lemma AddHabitKeepsWf(s: Store, name: string, emoji: string, unit: string, goal: int, step: int, nextId: nat)
    requires Wf(s.habits) && IdsBelow(s.habits, nextId)
    ensures var r := AddHabit(s, name, emoji, unit, goal, step, nextId).0;
            Wf(r.habits) && IdsBelow(r.habits, nextId + 1)
  {
    var r := AddHabit(s, name, emoji, unit, goal, step, nextId);
    if r.1 {
      AppendKeepsWf(s.habits, Habit(nextId, Trim(name), NormalizedEmoji(emoji), Trim(unit), goal, step, 0, false), nextId);
    }
  }

  /** An accepted `addHabit` never introduces a second habit with the same
      normalized name. */
  lemma AddHabitKeepsNamesUnique(s: Store, name: string, emoji: string, unit: string, goal: int, step: int, nextId: nat)
    requires NamesUnique(s.habits)
    ensures NamesUnique(AddHabit(s, name, emoji, unit, goal, step, nextId).0.habits)
  {
    var r := AddHabit(s, name, emoji, unit, goal, step, nextId);
    if r.1 {
      var hs := r.0.habits;
      var n := |s.habits|;
      assert forall j :: 0 <= j < n ==> hs[j] == s.habits[j];
      assert NormalizedName(hs[n].name) == NormalizedName(name);
      assert !HasName(s.habits, NormalizedName(name));
    }
  }

  /** `deleteHabit` keeps the invariant; the ensure pass may use the id
      `nextId + 1` for Read. */
  lemma DeleteHabitKeepsWf(s: Store, id: nat, nextId: nat)
    requires Wf(s.habits) && IdsBelow(s.habits, nextId)
    ensures Wf(DeleteHabit(s, id, nextId).habits)
    ensures IdsBelow(DeleteHabit(s, id, nextId).habits, nextId + 2)
  {
    match FirstIndex(s.habits, id)
    case None =>
    case Some(i) =>
      if !s.habits[i].isProtected {
        var rest := RemoveAt(s.habits, i);
        RemoveAtIndex(s.habits, i);
        assert forall j :: 0 <= j < |rest| ==> rest[j] in s.habits;
        var s1 := if IsReadName(s.habits[i].name) then SetDidDeleteRead(s, true) else s;
        EnsureDefaultsWf(s1.(habits := rest), nextId);
      }
  }

  /** A collection with the same members as a well-formed one, as long,
      and with unique ids, is well-formed. */
  lemma SameMembersKeepsWf(a: seq<Habit>, b: seq<Habit>)
    requires Wf(a) && |b| == |a| && IdsUnique(b)
    requires forall x :: x in a <==> x in b
    ensures Wf(b)
  {
    var p :| 0 <= p < |a| && a[p].isProtected;
    assert a[p] in b;
    forall j | 0 <= j < |b|
      ensures Valid(b[j])
    {
      assert b[j] in a;
    }
  }

  /** `moveHabits` keeps the invariant: it only permutes. */
  lemma MoveHabitsKeepsWf(s: Store, offsets: set<nat>, dest: nat)
    requires forall o :: o in offsets ==> o < |s.habits|
    requires dest <= |s.habits|
    requires Wf(s.habits)
    ensures Wf(MoveHabits(s, offsets, dest).habits)
  {
    var hs := MoveHabits(s, offsets, dest).habits;
    Reorder.PermutationSameMembers(s.habits, hs);
    IdsUniqueIsKeysUnique(s.habits);
    IdsUniqueIsKeysUnique(hs);
    Reorder.PermutationKeepsKeysUnique(s.habits, hs, IdOf);
    SameMembersKeepsWf(s.habits, hs);
  }

  /** A per-habit mutation that keeps a habit in range, its id and its
      protection keeps the invariant, whether it saves at once or later. */
  lemma MutateHabitKeepsWf(s: Store, id: nat, mutation: Habit -> Habit, saveImmediately: bool)
    requires Wf(s.habits)
    requires forall h :: Valid(h) ==>
               Valid(mutation(h)) && mutation(h).id == h.id && mutation(h).isProtected == h.isProtected
    ensures Wf(MutateHabit(s, id, mutation, saveImmediately).habits)
  {
    match FirstIndex(s.habits, id)
    case None =>
    case Some(i) =>
      var hs := MutateHabit(s, id, mutation, saveImmediately).habits;
      if !s.habits[i].isProtected {
        var p :| 0 <= p < |s.habits| && s.habits[p].isProtected;
        assert hs[p].isProtected;
      } else {
        assert hs[i].isProtected;
      }
  }

  lemma LogStepKeepsWf(s: Store, id: nat)
    requires Wf(s.habits)
    ensures Wf(HabitsStore.LogStep(s, id).habits)
  {
    MutateHabitKeepsWf(s, id, Habits.LogStep, true);
  }

  lemma ResetHabitKeepsWf(s: Store, id: nat)
    requires Wf(s.habits)
    ensures Wf(ResetHabit(s, id).habits)
  {
    MutateHabitKeepsWf(s, id, Habits.Reset, true);
  }

  lemma SetCurrentKeepsWf(s: Store, value: int, id: nat)
    requires Wf(s.habits)
    ensures Wf(SetCurrent(s, value, id).habits)
  {
    MutateHabitKeepsWf(s, id, (h: Habit) => h.(current := Snap.SnappedValue(value, h.goal, h.step)), false);
  }

  lemma ResetAllKeepsWf(s: Store)
    requires Wf(s.habits)
    ensures Wf(ResetAll(s).habits)
  {
    var hs := ResetAll(s).habits;
    var p :| 0 <= p < |s.habits| && s.habits[p].isProtected;
    assert hs[p].isProtected;
  }

  /** `updateHabit` keeps the invariant: ids and protection never change. */
  lemma UpdateHabitKeepsWf(s: Store, id: nat, name: string, emoji: string, unit: string, goal: int, step: int)
    requires Wf(s.habits)
    ensures Wf(UpdateHabit(s, id, name, emoji, unit, goal, step).0.habits)
  {
    var r := UpdateHabit(s, id, name, emoji, unit, goal, step);
    if r.1 {
      var i := FirstIndex(s.habits, id).value;
      var hs := r.0.habits;
      var p :| 0 <= p < |s.habits| && s.habits[p].isProtected;
      assert hs[p].isProtected;
    }
  }

  /** What `load()` finds on a well-formed store is fit for the ensure
      pass. */
  lemma LoadFoundFits(disk: Disk, nextId: nat)
    requires DiskWf(disk, nextId)
    ensures var s1 := LoadFound(disk, nextId);
            |s1.habits| <= MaxHabits && AllValid(s1.habits)
            && IdsUnique(s1.habits) && IdsBelow(s1.habits, nextId + 1)
  {
    var s1 := LoadFound(disk, nextId);
    if disk.habitsData.Some? && disk.habitsData.value.Encoded? {
      var hs := disk.habitsData.value.habits;
      assert forall j :: 0 <= j < |s1.habits| ==> s1.habits[j] == hs[j];
    }
  }

  /** `load()` from a well-formed stored collection yields a well-formed
      registry; Water may take `nextId` or `nextId + 1`, Read `nextId + 2`. */
  lemma LoadWf(disk: Disk, nextId: nat)
    requires DiskWf(disk, nextId)
    ensures Wf(Load(disk, nextId).habits)
    ensures IdsBelow(Load(disk, nextId).habits, nextId + 3)
  {
    LoadFoundFits(disk, nextId);
    EnsureDefaultsWf(LoadFound(disk, nextId), nextId + 1);
  }
}
