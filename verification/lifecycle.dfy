/** How the built-in habits and the saved collection behave across a
    restart: what `load()` rebuilds from what the registry wrote. */
module Lifecycle {
  import opened Optional
  import opened Text
  import opened Habits
  import opened HabitsStore
  import opened StoreInvariants

  /** A prefix of a collection without Read has no Read either. */
  lemma NoReadInPrefix(hs: seq<Habit>, m: nat)
    requires m <= |hs| && !HasRead(hs)
    ensures !HasRead(hs[..m])
  {
    assert forall j :: 0 <= j < m ==> hs[..m][j] == hs[j];
  }

  /** Putting Water in front never makes a Read habit appear. */
  lemma NoReadWithWater(hs: seq<Habit>, nextId: nat)
    requires !HasRead(hs)
    ensures !HasRead(WithWater(hs, nextId))
  {
    WaterIsNotRead(nextId);
    var w := WithWater(hs, nextId);
    if !HasProtected(hs) {
      assert forall j :: 1 <= j < |w| ==> w[j] == hs[j - 1];
    }
  }

  /** Removing the only Read-named habit leaves none. */
  lemma NoReadAfterRemove(hs: seq<Habit>, i: nat)
    requires i < |hs| && NamesUnique(hs) && IsReadName(hs[i].name)
    ensures !HasRead(RemoveAt(hs, i))
  {
    var rest := RemoveAt(hs, i);
    StoreInvariants.RemoveAtIndex(hs, i);
    forall j | 0 <= j < |rest|
      ensures !IsReadName(rest[j].name)
    {
      var j' := if j < i then j else j + 1;
      assert rest[j] == hs[j'] && j' != i;
    }
  }

  /** Deleting the Read habit sticks: it is gone afterwards and a reload
      from what was saved does not bring it back, with any fresh ids. */
  lemma DeletedReadStaysDeleted(s: Store, id: nat, nextId: nat, laterId: nat)
    requires HasProtected(s.habits) && NamesUnique(s.habits)
    requires FirstIndex(s.habits, id).Some?
    requires var h := s.habits[FirstIndex(s.habits, id).value];
             !h.isProtected && IsReadName(h.name)
    ensures var r := DeleteHabit(s, id, nextId);
            && r.disk.didDeleteRead
            && !HasRead(r.habits)
            && !HasRead(Load(r.disk, laterId).habits)
  {
    var i := FirstIndex(s.habits, id).value;
    var r := DeleteHabit(s, id, nextId);
    NoReadAfterRemove(s.habits, i);
    var hs := r.habits;
    var found := hs[..Min(|hs|, MaxHabits)];
    NoReadInPrefix(hs, Min(|hs|, MaxHabits));
    NoReadWithWater(found, laterId + 1);
  }

  /** An `addHabit` of "Read" that fails a later check still clears the
      deleted-Read flag, so the next start-up seeds Read again: the user's
      deletion is forgotten although nothing was added. */
  lemma RejectedReadAddRevivesRead(s: Store, emoji: string, unit: string, goal: int, step: int,
                                   nextId: nat, laterId: nat)
    requires s.disk.didDeleteRead
    requires s.disk.habitsData == Some(Encoded(s.habits))
    requires HasProtected(s.habits) && |s.habits| < MaxHabits && !HasRead(s.habits)
    requires NormalizedEmoji(emoji) == []
    ensures var r := AddHabit(s, "Read", emoji, unit, goal, step, nextId);
            && !r.1
            && r.0.habits == s.habits
            && !r.0.disk.didDeleteRead
            && HasRead(Load(r.0.disk, laterId).habits)
  {
    ReadDefaultIsRead(0);
    assert "Read" == ReadDefault(0).name;
    assert !HasName(s.habits, NormalizedName("Read"));
    var r := AddHabit(s, "Read", emoji, unit, goal, step, nextId);
    var hs := s.habits;
    assert hs[..Min(|hs|, MaxHabits)] == hs;
    ReadDefaultIsRead(laterId + 2);
  }

  /** What the ensure pass leaves behind: Water present and Read present
      unless deleted or out of room, within the limit. */
  predicate Settled(s: Store) {
    && HasProtected(s.habits)
    && (HasRead(s.habits) || s.disk.didDeleteRead || |s.habits| >= MaxHabits)
    && |s.habits| <= MaxHabits
  }

  /** Saving a settled registry and loading it back restores the same
      collection: no habit is lost, added or reordered. */
  lemma SaveLoadRoundTrip(s: Store, nextId: nat)
    requires Settled(s)
    ensures Load(SaveNow(s).disk, nextId).habits == s.habits
    ensures Load(SaveNow(s).disk, nextId).disk == SaveNow(s).disk
  {
    assert s.habits[..Min(|s.habits|, MaxHabits)] == s.habits;
  }

  /** The ensure pass settles the collection whenever it starts within the
      limit. */
  lemma EnsureDefaultsSettles(s: Store, nextId: nat)
    requires |s.habits| <= MaxHabits
    ensures |s.habits| < MaxHabits || HasProtected(s.habits) ==> Settled(EnsureDefaults(s, nextId))
  {
  }

  /** `resetAll()` does to every habit what `resetHabit(id:)` does to one. */
  lemma ResetAllIsEachReset(s: Store, i: nat)
    requires IdsUnique(s.habits) && i < |s.habits|
    ensures ResetAll(s).habits[i] == ResetHabit(s, s.habits[i].id).habits[i]
  {
    var k := FirstIndex(s.habits, s.habits[i].id).value;
    assert k == i;
  }
}
