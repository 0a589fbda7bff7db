/** The habit registry (`HabitsStore`): the ordered collection of habits,
    its validation rules, the built-in Water and Read habits, and the
    persistence of the collection in a key-value store. Every operation is a
    pure transition from one `Store` to the next. */
module HabitsStore {
  import opened Optional
  import opened Text
  import opened Habits
  import Snap
  import Reorder

  /** The most habits the registry accepts through `addHabit`. */
  const MaxHabits: nat := 5

  /** What the habits key of the key-value store holds: an encoded
      collection, or bytes that do not decode. */
  datatype Stored = Encoded(habits: seq<Habit>) | Undecodable

  /** The three keys of the key-value store the registry uses: the encoded
      collection, the legacy single-counter value, and the persisted flag
      recording that the user deleted the Read habit (an absent flag reads
      as false). */
  datatype Disk = Disk(habitsData: Option<Stored>, legacyCurrentML: Option<int>, didDeleteRead: bool)

  /** The registry: the published collection, the key-value store, and
      whether a debounced save is waiting to fire. */
  datatype Store = Store(habits: seq<Habit>, disk: Disk, savePending: bool)

  // ---------------------------------------------------------------------
  // Queries

  /** `normalizedName`: trimmed and lower-cased. A normalized name has no
      outer whitespace and no upper-case ASCII letter, so normalizing it
      again changes nothing. */
  function NormalizedName(name: string): (r: string)
    ensures IsTrimmed(r) && Lower(r) == r
    ensures |r| <= |name|
    ensures r == [] <==> AllSpace(name)
  {
    LowerIdempotent(Trim(name));
    Lower(Trim(name))
  }

  /** `normalizedEmoji`: the first character of the trimmed input, or ""
      when the input is blank. */
  function NormalizedEmoji(emoji: string): (r: string)
    ensures |r| <= 1 && IsTrimmed(r)
    ensures r == [] <==> AllSpace(emoji)
    ensures r != [] ==> r[0] == Trim(emoji)[0]
  {
    Prefix1(Trim(emoji))
  }

  /** `isReadName`: "read" in any case, with any outer whitespace. Outer
      whitespace does not matter, and a Read name trims to four characters. */
  predicate IsReadName(name: string)
    ensures IsReadName(name) ==> NormalizedName(Trim(name)) == "read"
    ensures IsReadName(name) ==> |Trim(name)| == 4
  {
    TrimIdempotent(name);
    NormalizedName(name) == "read"
  }

  predicate HasName(hs: seq<Habit>, candidate: string) {
    exists i :: 0 <= i < |hs| && NormalizedName(hs[i].name) == candidate
  }

  predicate HasEmoji(hs: seq<Habit>, candidate: string) {
    exists i :: 0 <= i < |hs| && NormalizedEmoji(hs[i].emoji) == candidate
  }

  predicate HasProtected(hs: seq<Habit>) {
    exists i :: 0 <= i < |hs| && hs[i].isProtected
  }

  predicate HasRead(hs: seq<Habit>) {
    exists i :: 0 <= i < |hs| && IsReadName(hs[i].name)
  }

  /** The position of the first habit with the given id, if any. */
  function FirstIndex(hs: seq<Habit>, id: nat): (r: Option<nat>)
    ensures r.Some? ==> r.value < |hs| && hs[r.value].id == id
    ensures r.Some? ==> forall j :: 0 <= j < r.value ==> hs[j].id != id
    ensures r.None? <==> forall j :: 0 <= j < |hs| ==> hs[j].id != id
  {
    if |hs| == 0 then None
    else if hs[0].id == id then Some(0)
    else match FirstIndex(hs[1..], id)
      case None => None
      case Some(k) => Some(k + 1)
  }

  /** The position of the first protected habit, if any: the slot of the Water
      habit, whose id is `waterHabitID`. */
  function FirstProtected(hs: seq<Habit>): (r: Option<nat>)
    ensures r.Some? ==> r.value < |hs| && hs[r.value].isProtected
    ensures r.Some? ==> forall j :: 0 <= j < r.value ==> !hs[j].isProtected
    ensures r.None? <==> !HasProtected(hs)
  {
    if |hs| == 0 then None
    else if hs[0].isProtected then Some(0)
    else match FirstProtected(hs[1..])
      case None => None
      case Some(k) => Some(k + 1)
  }

  // ---------------------------------------------------------------------
  // Persistence

  /** `saveNow()`: the whole collection is written under the habits key and
      no other key changes. */
  function SaveNow(s: Store): (r: Store)
    ensures r.habits == s.habits && r.savePending == s.savePending
    ensures r.disk.habitsData == Some(Encoded(s.habits))
    ensures r.disk.legacyCurrentML == s.disk.legacyCurrentML && r.disk.didDeleteRead == s.disk.didDeleteRead
  {
    s.(disk := s.disk.(habitsData := Some(Encoded(s.habits))))
  }

  /** `scheduleSave()`: a debounced save is requested; nothing is written
      yet. */
  function ScheduleSave(s: Store): (r: Store)
    ensures r.habits == s.habits && r.disk == s.disk && r.savePending
  {
    s.(savePending := true)
  }

  /** The debounce window elapsing: a pending save writes the collection as
      it is at that moment. */
  function FlushPendingSave(s: Store): (r: Store)
    ensures r.habits == s.habits && !r.savePending
    // Only the habits key is written; the other keys keep their values.
    ensures s.savePending ==> r.disk == s.disk.(habitsData := Some(Encoded(s.habits)))
    ensures !s.savePending ==> r == s
  {
    if s.savePending then SaveNow(s).(savePending := false) else s
  }

  function SetDidDeleteRead(s: Store, value: bool): Store {
    s.(disk := s.disk.(didDeleteRead := value))
  }

  /** True when `r` is `s` with its collection replaced by `hs` and written
      to the store, the other keys and the pending flag kept. */
  predicate SavedWith(s: Store, r: Store, hs: seq<Habit>) {
    && r.habits == hs
    && r.disk == s.disk.(habitsData := Some(Encoded(hs)))
    && r.savePending == s.savePending
  }

  // ---------------------------------------------------------------------
  // Adding

  /** The registry's acceptance rule for a new habit, stated on the raw
      inputs. */
  predicate AddAccepted(hs: seq<Habit>, name: string, emoji: string, unit: string, goal: int, step: int) {
    && |hs| < MaxHabits
    && Trim(name) != []
    && !HasName(hs, NormalizedName(name))
    && NormalizedEmoji(emoji) != []
    && !HasEmoji(hs, NormalizedEmoji(emoji))
    && Trim(unit) != []
    && 0 < step <= goal
  }

  /** True when `addHabit` gets as far as its Read check: the count and name
      checks passed and the name is Read. */
  predicate AddReachesReadCheck(hs: seq<Habit>, name: string) {
    |hs| < MaxHabits && Trim(name) != [] && !HasName(hs, NormalizedName(name)) && IsReadName(name)
  }

  /** `addHabit(name:emoji:unit:goal:step:)`, with `nextId` the new id.
      Returns the next registry and whether a habit was added. */
  function AddHabit(s: Store, name: string, emoji: string, unit: string, goal: int, step: int, nextId: nat)
    : (r: (Store, bool))
    ensures r.1 <==> AddAccepted(s.habits, name, emoji, unit, goal, step)
    ensures !r.1 ==> r.0.habits == s.habits && r.0.disk.habitsData == s.disk.habitsData
    ensures r.0.savePending == s.savePending
    ensures r.0.disk.legacyCurrentML == s.disk.legacyCurrentML
    // The Read flag is cleared as soon as the name checks pass, even when a
    // later check rejects the habit.
    ensures r.0.disk.didDeleteRead == (s.disk.didDeleteRead && !AddReachesReadCheck(s.habits, name))
    // One unprotected, unstarted habit is appended and everything is saved.
    ensures r.1 ==> SavedWith(s, r.0.(disk := r.0.disk.(didDeleteRead := s.disk.didDeleteRead)),
                              s.habits + [Habit(nextId, Trim(name), NormalizedEmoji(emoji), Trim(unit),
                                                goal, step, 0, false)])
  {
    var trimmedName := Trim(name);
    if !(|s.habits| < MaxHabits && trimmedName != [] && !HasName(s.habits, NormalizedName(trimmedName)))
    then (s, false)
    else
      var s1 := if IsReadName(trimmedName) then SetDidDeleteRead(s, false) else s;
      var candidateEmoji := NormalizedEmoji(emoji);
      var trimmedUnit := Trim(unit);
      if !(candidateEmoji != [] && !HasEmoji(s.habits, candidateEmoji) && trimmedUnit != []
           && goal > 0 && step > 0 && step <= goal)
      then (s1, false)
      else
        var h := Make(nextId, trimmedName, candidateEmoji, trimmedUnit, goal, step, 0, false);
        (SaveNow(s1.(habits := s1.habits + [h])), true)
  }

  // ---------------------------------------------------------------------
  // Built-in habits

  /** `s` with `h` inserted at index `k`. */
  function InsertAt(hs: seq<Habit>, k: nat, h: Habit): (r: seq<Habit>)
    requires k <= |hs|
    ensures |r| == |hs| + 1 && r[k] == h
    ensures r[..k] == hs[..k] && r[k + 1..] == hs[k..]
  {
    hs[..k] + [h] + hs[k..]
  }

  /** The collection after step 1 of the ensure pass: a Water habit in front
      when no protected habit exists. */
  function WithWater(hs: seq<Habit>, nextId: nat): (r: seq<Habit>)
    ensures HasProtected(r)
    ensures HasProtected(hs) ==> r == hs
    ensures !HasProtected(hs) ==> r == [WaterDefault(nextId)] + hs
  {
    if HasProtected(hs) then hs
    else
      var r := [WaterDefault(nextId)] + hs;
      assert r[0].isProtected;
      r
  }

  /** Where the ensure pass puts Read: right after the first protected habit. */
  function ReadSlot(hs: seq<Habit>): (k: nat)
    ensures k <= |hs|
    ensures FirstProtected(hs).Some? ==> k == FirstProtected(hs).value + 1
  {
    match FirstProtected(hs)
    case Some(w) => Min(w + 1, |hs|)
    case None => 0
  }

  /** True when the ensure pass adds Read to `hs`: no Read-named habit, the
      user never deleted Read, and room left. */
  predicate ReadWanted(hs: seq<Habit>, didDeleteRead: bool) {
    !HasRead(hs) && !didDeleteRead && |hs| < MaxHabits
  }

  /** The built-in Read habit carries a Read name. */
  lemma ReadDefaultIsRead(id: nat)
    ensures IsReadName(ReadDefault(id).name)
  {
  }

  /** The built-in Water habit does not. */
  lemma WaterIsNotRead(id: nat)
    ensures !IsReadName(WaterDefault(id).name)
    ensures !HasRead([WaterDefault(id)])
  {
    assert Trim("Water") == "Water";
  }

  /** `ensureDefaultHabitsExist()`; Water takes id `nextId`, Read `nextId + 1`. */
  function EnsureDefaults(s: Store, nextId: nat): (r: Store)
    ensures r.disk == s.disk && r.savePending == s.savePending
    ensures HasProtected(r.habits)
    ensures var w := WithWater(s.habits, nextId);
            if ReadWanted(w, s.disk.didDeleteRead)
            then r.habits == InsertAt(w, ReadSlot(w), ReadDefault(nextId + 1))
            else r.habits == w
    // Afterwards Read is there, or the user deleted it, or there is no room.
    ensures HasRead(r.habits) || s.disk.didDeleteRead || |r.habits| >= MaxHabits
  {
    var w := WithWater(s.habits, nextId);
    if HasRead(w) || s.disk.didDeleteRead || |w| >= MaxHabits then s.(habits := w)
    else
      var hs := InsertAt(w, ReadSlot(w), ReadDefault(nextId + 1));
      ReadDefaultIsRead(nextId + 1);
      assert hs[ReadSlot(w)] == ReadDefault(nextId + 1);
      assert HasProtected(hs) by {
        var k := FirstProtected(w).value;
        if k < ReadSlot(w) { assert hs[k] == w[k]; }
      }
      s.(habits := hs)
  }

  // ---------------------------------------------------------------------
  // Deleting and reordering

  function RemoveAt(hs: seq<Habit>, i: nat): (r: seq<Habit>)
    requires i < |hs|
    ensures |r| == |hs| - 1
  {
    hs[..i] + hs[i + 1..]
  }

  /** `deleteHabit(id:)`: unknown ids and protected habits are ignored;
      deleting a Read-named habit records that in the store; the ensure pass
      runs and the result is saved. */
  function DeleteHabit(s: Store, id: nat, nextId: nat): (r: Store)
    ensures FirstIndex(s.habits, id).None? ==> r == s
    ensures FirstIndex(s.habits, id).Some? && s.habits[FirstIndex(s.habits, id).value].isProtected ==> r == s
    ensures HasProtected(s.habits) ==> HasProtected(r.habits)
    ensures r.savePending == s.savePending
    ensures r.disk.legacyCurrentML == s.disk.legacyCurrentML
    ensures match FirstIndex(s.habits, id)
            case None => true
            case Some(i) =>
              var h := s.habits[i];
              var rest := RemoveAt(s.habits, i);
              !h.isProtected ==>
                && r.disk.didDeleteRead == (s.disk.didDeleteRead || IsReadName(h.name))
                && r.disk.habitsData == Some(Encoded(r.habits))
                && HasProtected(r.habits)
                // Water survives the delete, so at most Read comes back.
                && (HasProtected(s.habits) ==>
                      if ReadWanted(rest, r.disk.didDeleteRead)
                      then r.habits == InsertAt(rest, ReadSlot(rest), ReadDefault(nextId + 1))
                      else r.habits == rest)
  {
    match FirstIndex(s.habits, id)
    case None => s
    case Some(i) =>
      var h := s.habits[i];
      if h.isProtected then s
      else
        var s1 := if IsReadName(h.name) then SetDidDeleteRead(s, true) else s;
        var rest := RemoveAt(s1.habits, i);
        assert HasProtected(s.habits) ==> HasProtected(rest) by {
          if HasProtected(s.habits) {
            var k := FirstProtected(s.habits).value;
            if k < i { assert rest[k] == s.habits[k]; }
            else { assert rest[k - 1] == s.habits[k]; }
          }
        }
        SaveNow(EnsureDefaults(s1.(habits := rest), nextId))
  }

  /** `moveHabits(from:to:)`: reorders and saves. */
  function MoveHabits(s: Store, offsets: set<nat>, dest: nat): (r: Store)
    requires forall o :: o in offsets ==> o < |s.habits|
    requires dest <= |s.habits|
    ensures multiset(r.habits) == multiset(s.habits)
    ensures offsets == {} ==> r.habits == s.habits
    // The habits end up where SwiftUI's move puts them.
    ensures r.habits == Reorder.Move(s.habits, offsets, dest)
    ensures SavedWith(s, r, r.habits)
  {
    Reorder.MoveNothing(s.habits, offsets, dest);
    SaveNow(s.(habits := Reorder.Move(s.habits, offsets, dest)))
  }

  // ---------------------------------------------------------------------
  // Per-habit mutations

  /** True when `b` is `a` with at most the habit at `i` changed, and only in
      its progress. */
  predicate ChangesOnlyCurrentAt(a: seq<Habit>, b: seq<Habit>, i: nat) {
    && |a| == |b|
    && (forall j :: 0 <= j < |a| && j != i ==> b[j] == a[j])
    && (i < |a| ==> b[i] == a[i].(current := b[i].current))
  }

  /** `mutateHabit(id:_:saveImmediately:)`: applies `mutation` to the first
      habit with the id; then saves at once or schedules a debounced save. */
  function MutateHabit(s: Store, id: nat, mutation: Habit -> Habit, saveImmediately: bool): (r: Store)
    ensures FirstIndex(s.habits, id).None? ==> r == s
    ensures FirstIndex(s.habits, id).Some? ==>
              var i := FirstIndex(s.habits, id).value;
              var hs := s.habits[i := mutation(s.habits[i])];
              if saveImmediately then SavedWith(s, r, hs)
              else r.habits == hs && r.disk == s.disk && r.savePending
  {
    match FirstIndex(s.habits, id)
    case None => s
    case Some(i) =>
      var s1 := s.(habits := s.habits[i := mutation(s.habits[i])]);
      if saveImmediately then SaveNow(s1) else ScheduleSave(s1)
  }

  /** `logStep(for:)`. */
  function LogStep(s: Store, id: nat): (r: Store)
    ensures FirstIndex(s.habits, id).None? ==> r == s
    ensures FirstIndex(s.habits, id).Some? ==>
              var i := FirstIndex(s.habits, id).value;
              && ChangesOnlyCurrentAt(s.habits, r.habits, i)
              && r.habits[i] == Habits.LogStep(s.habits[i])
              && (s.habits[i].step > 0 ==> r.habits[i].current <= s.habits[i].goal)
              && (s.habits[i].step <= 0 ==> r.habits == s.habits)
              && SavedWith(s, r, r.habits)
  {
    MutateHabit(s, id, Habits.LogStep, true)
  }

  /** `undoStep(for:)`. The entity's `undoStep` transition is not part of this
      model and enters as `undo`; the registry's framing holds for any. */
  function UndoStep(s: Store, id: nat, undo: Habit -> Habit): (r: Store)
    ensures FirstIndex(s.habits, id).None? ==> r == s
    ensures FirstIndex(s.habits, id).Some? ==>
              var i := FirstIndex(s.habits, id).value;
              && |r.habits| == |s.habits|
              && r.habits[i] == undo(s.habits[i])
              && (forall j :: 0 <= j < |s.habits| && j != i ==> r.habits[j] == s.habits[j])
              && SavedWith(s, r, r.habits)
  {
    MutateHabit(s, id, undo, true)
  }

  /** `resetHabit(id:)`. */
  function ResetHabit(s: Store, id: nat): (r: Store)
    ensures FirstIndex(s.habits, id).None? ==> r == s
    ensures FirstIndex(s.habits, id).Some? ==>
              var i := FirstIndex(s.habits, id).value;
              && ChangesOnlyCurrentAt(s.habits, r.habits, i)
              && r.habits[i].current == 0
              && SavedWith(s, r, r.habits)
  {
    MutateHabit(s, id, Habits.Reset, true)
  }

  /** `setCurrent(_:for:)`: snaps the value to the habit's step within its
      goal and only schedules a save. */
  function SetCurrent(s: Store, value: int, id: nat): (r: Store)
    ensures FirstIndex(s.habits, id).None? ==> r == s
    ensures FirstIndex(s.habits, id).Some? ==>
              var i := FirstIndex(s.habits, id).value;
              var h := s.habits[i];
              && ChangesOnlyCurrentAt(s.habits, r.habits, i)
              && r.habits[i].current == Snap.SnappedValue(value, h.goal, h.step)
              && 0 <= r.habits[i].current
              && (h.goal > 0 ==> r.habits[i].current <= h.goal)
              && (h.goal <= 0 ==> r.habits[i].current == 0)
              && r.disk == s.disk && r.savePending
  {
    MutateHabit(s, id, (h: Habit) => h.(current := Snap.SnappedValue(value, h.goal, h.step)), false)
  }

  /** `resetAll()`: every progress back to zero, nothing else changed; an
      empty collection is left alone and not saved. */
  function ResetAll(s: Store): (r: Store)
    ensures |s.habits| == 0 ==> r == s
    ensures |r.habits| == |s.habits|
    ensures forall i :: 0 <= i < |s.habits| ==>
              r.habits[i].current == 0 && r.habits[i] == s.habits[i].(current := 0)
    ensures |s.habits| > 0 ==> SavedWith(s, r, r.habits)
  {
    if |s.habits| == 0 then s
    else SaveNow(s.(habits := seq(|s.habits|, i requires 0 <= i < |s.habits| => Habits.Reset(s.habits[i]))))
  }

  // ---------------------------------------------------------------------
  // Updating

  /** The registry's acceptance rule for editing the habit at `i`: the name
      and emoji are checked only for an unprotected habit, and neither is
      checked for uniqueness. */
  predicate UpdateAccepted(h: Habit, name: string, emoji: string, unit: string, goal: int, step: int) {
    && (h.isProtected || (Trim(name) != [] && Trim(emoji) != []))
    && Trim(unit) != []
    && 0 < step <= goal
  }

  /** The habit `h` becomes after an accepted edit. */
  predicate EditedAs(h: Habit, h': Habit, name: string, emoji: string, unit: string, goal: int, step: int) {
    && h'.id == h.id && h'.isProtected == h.isProtected
    // A protected habit keeps its identity.
    && h'.name == (if h.isProtected then h.name else Trim(name))
    && h'.emoji == (if h.isProtected then h.emoji else Prefix1(Trim(emoji)))
    && h'.unit == Trim(unit) && h'.goal == goal && h'.step == step
    // Progress is re-snapped onto the new step within the new goal.
    && h'.current == Snap.SnappedValue(h.current, goal, step)
    && 0 <= h'.current <= goal
    && Valid(h')
  }

  /** The field checks and assignments of `updateHabit` on one habit: the
      edited habit, or None when a check fails. */
  function EditHabit(h: Habit, name: string, emoji: string, unit: string, goal: int, step: int)
    : (r: Option<Habit>)
    ensures r.Some? <==> UpdateAccepted(h, name, emoji, unit, goal, step)
    ensures r.Some? ==> EditedAs(h, r.value, name, emoji, unit, goal, step)
  {
    var trimmedName := Trim(name);
    var trimmedEmoji := Trim(emoji);
    var trimmedUnit := Trim(unit);
    if !h.isProtected && (trimmedName == [] || trimmedEmoji == []) then None
    else
      var h1 := if h.isProtected then h else h.(name := trimmedName, emoji := Prefix1(trimmedEmoji));
      if trimmedUnit == [] || !(goal > 0 && step > 0 && step <= goal) then None
      else Some(h1.(unit := trimmedUnit, goal := goal, step := step,
                    current := Snap.SnappedValue(h.current, goal, step)))
  }

  /** `updateHabit(id:name:emoji:unit:goal:step:)`. */
  function UpdateHabit(s: Store, id: nat, name: string, emoji: string, unit: string, goal: int, step: int)
    : (r: (Store, bool))
    ensures FirstIndex(s.habits, id).None? ==> r == (s, false)
    ensures r.0.savePending == s.savePending
    ensures r.0.disk.legacyCurrentML == s.disk.legacyCurrentML
    ensures !r.1 ==> r.0.habits == s.habits && r.0.disk.habitsData == s.disk.habitsData
    ensures FirstIndex(s.habits, id).Some? ==>
              var i := FirstIndex(s.habits, id).value;
              var h := s.habits[i];
              && (r.1 <==> UpdateAccepted(h, name, emoji, unit, goal, step))
              // Renaming an unprotected habit to Read clears the flag, even
              // when the edit is then rejected.
              && r.0.disk.didDeleteRead == (s.disk.didDeleteRead && (h.isProtected || !IsReadName(name)))
              && (r.1 ==>
                    && |r.0.habits| == |s.habits|
                    && (forall j :: 0 <= j < |s.habits| && j != i ==> r.0.habits[j] == s.habits[j])
                    && EditedAs(h, r.0.habits[i], name, emoji, unit, goal, step)
                    && r.0.disk.habitsData == Some(Encoded(r.0.habits)))
  {
    match FirstIndex(s.habits, id)
    case None => (s, false)
    case Some(i) =>
      var h := s.habits[i];
      var s1 := if !h.isProtected && IsReadName(Trim(name)) then SetDidDeleteRead(s, false) else s;
      match EditHabit(h, name, emoji, unit, goal, step)
      case None => (s1, false)
      case Some(h2) => (SaveNow(s1.(habits := s1.habits[i := h2])), true)
  }

  // ---------------------------------------------------------------------
  // Loading

  /** The Water habit the legacy counter migrates into: `current` is the
      legacy value clamped into Water's range. */
  function MigratedWater(legacy: int, nextId: nat): (h: Habit)
    ensures h.isProtected && h.name == "Water" && h.goal == 2000 && h.step == 250
    ensures 0 <= h.current <= 2000
    ensures 0 <= legacy <= 2000 ==> h.current == legacy
    ensures legacy < 0 ==> h.current == 0
    ensures legacy > 2000 ==> h.current == 2000
    ensures Valid(h) && h == WaterDefault(nextId).(current := h.current)
  {
    var water := WaterDefault(nextId);
    water.(current := Min(Max(legacy, 0), water.goal))
  }

  /** The ensure pass over a collection holding only a protected habit that
      is not Read adds Read behind it, unless the user deleted Read. */
  lemma EnsureDefaultsAfterWater(s: Store, water: Habit, nextId: nat)
    requires WithWater(s.habits, nextId) == [water] && !IsReadName(water.name)
    ensures EnsureDefaults(s, nextId).habits
            == [water] + (if s.disk.didDeleteRead then [] else [ReadDefault(nextId + 1)])
  {
    var w := WithWater(s.habits, nextId);
    assert !HasRead(w);
    assert FirstProtected(w) == Some(0);
  }

  /** What `load()` finds before its ensure pass: the decoded collection cut
      to `MaxHabits`, the migrated legacy counter (saved at once), or
      nothing. */
  function LoadFound(disk: Disk, nextId: nat): (r: Store)
    ensures !r.savePending && r.disk.didDeleteRead == disk.didDeleteRead
    ensures disk.habitsData.Some? ==> r.disk == disk
    ensures disk.habitsData == Some(Undecodable) ==> r.habits == []
    ensures disk.habitsData.Some? && disk.habitsData.value.Encoded? ==>
              var hs := disk.habitsData.value.habits;
              r.habits == hs[..Min(|hs|, MaxHabits)]
    ensures disk.habitsData.None? && disk.legacyCurrentML.None? ==> r == Store([], disk, false)
    ensures disk.habitsData.None? && disk.legacyCurrentML.Some? ==>
              var water := MigratedWater(disk.legacyCurrentML.value, nextId);
              && r.habits == [water]
              && r.disk == disk.(habitsData := Some(Encoded([water])), legacyCurrentML := None)
  {
    var empty := Store([], disk, false);
    match disk.habitsData
    case None =>
      (match disk.legacyCurrentML
       case Some(v) => SaveNow(Store([MigratedWater(v, nextId)], disk.(legacyCurrentML := None), false))
       case None => empty)
    case Some(Encoded(hs)) => empty.(habits := hs[..Min(|hs|, MaxHabits)])
    case Some(Undecodable) => empty
  }

  /** `load()` at start-up, from the key-value store `disk`. Ids from `nextId`
      upward are new. The ensure pass runs last, after any save. */
  function Load(disk: Disk, nextId: nat): (r: Store)
    ensures HasProtected(r.habits) && !r.savePending
    ensures r.disk.didDeleteRead == disk.didDeleteRead
    // Data under the habits key is read, not written back.
    ensures disk.habitsData.Some? ==> r.disk == disk
    ensures disk.habitsData == Some(Undecodable) ==>
              r == EnsureDefaults(Store([], disk, false), nextId + 1)
    ensures disk.habitsData.Some? && disk.habitsData.value.Encoded? ==>
              var hs := disk.habitsData.value.habits;
              r == EnsureDefaults(Store(hs[..Min(|hs|, MaxHabits)], disk, false), nextId + 1)
    // No collection and no legacy value: the defaults alone.
    ensures disk.habitsData.None? && disk.legacyCurrentML.None? ==>
              r.disk == disk &&
              r.habits == [WaterDefault(nextId + 1)] + (if disk.didDeleteRead then [] else [ReadDefault(nextId + 2)])
    // The one-time migration of the legacy counter.
    ensures disk.habitsData.None? && disk.legacyCurrentML.Some? ==>
              var water := MigratedWater(disk.legacyCurrentML.value, nextId);
              && r.disk == disk.(habitsData := Some(Encoded([water])), legacyCurrentML := None)
              && r.habits == [water] + (if disk.didDeleteRead then [] else [ReadDefault(nextId + 2)])
  {
    var s1 := LoadFound(disk, nextId);
    if disk.habitsData.None? then
      var water := if disk.legacyCurrentML.Some? then MigratedWater(disk.legacyCurrentML.value, nextId)
                   else WaterDefault(nextId + 1);
      assert WithWater(s1.habits, nextId + 1) == [water] by {
        if disk.legacyCurrentML.Some? {
          assert s1.habits[0].isProtected;
        } else {
          assert [water] + [] == [water];
        }
      }
      WaterIsNotRead(nextId);
      WaterIsNotRead(nextId + 1);
      EnsureDefaultsAfterWater(s1, water, nextId + 1);
      EnsureDefaults(s1, nextId + 1)
    else
      EnsureDefaults(s1, nextId + 1)
  }
}
