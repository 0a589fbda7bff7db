# DailyPurrgress habit core in Dafny

DailyPurrgress is a small iOS habit tracker. The user keeps up to five daily
habits. Each habit has a goal, a step and a running progress value, and a cat
mascot changes its mood tier as progress grows. This project models the
non-visual core of the app as immutable Dafny datatypes and pure transition
functions:

- **`Habits`** (`habit.dfy`): the `Habit` value type.
  - Its clamping initialiser, `isComplete`, `remaining`, `logStep`, `reset`.
  - The built-in Water habit and the Read habit the registry seeds.
- **`HabitsStore`** (`store.dfy`): the habit registry.
  - Adding, deleting, reordering, per-habit logging and resetting, `setCurrent`, `updateHabit`.
  - The ensure pass that keeps Water present and re-seeds Read.
  - `load()` with its legacy-counter migration.
  - The registry's key-value store is the datatype `Disk`. It holds the encoded collection, the legacy counter and the persisted "user deleted Read" flag.
  - The debounced save is the flag `savePending`. `FlushPendingSave` stands for the moment the timer fires.
- **`Snap`** (`snap.dfy`): `snappedValue`, the round-to-step rule used by `setCurrent` and `updateHabit`.
- **`Reorder`** (`reorder.dfy`): the collection move behind `moveHabits(from:to:)`, with its permutation facts.
- **`Text`** (`text.dfy`): trimming of whitespace and newlines, lower-casing, and the first-character prefix.
- **`IntParsing`** (`intparsing.dfy`): the integer parse that the add form applies to its goal and step text.
- **`StoreInvariants`** (`invariants.dfy`): the registry invariant `Wf`, and proofs that every operation keeps it.
  - `Wf` means a protected habit is present, every habit is in range, and ids are unique.
- **`Lifecycle`** (`lifecycle.dfy`): properties that span several operations.
  - Deleting Read survives a restart.
  - Save followed by load is a round trip.
  - `resetAll` is `resetHabit` applied to each habit.
- **`CatTiers`** (`cattier.dfy`): progress-to-tier classification, and the override-or-localized-default lookup of each tier's emoji, title and subtitle.
- **`MiniProgress`** (`mini.dfy`): the single water counter of the compact view.
- **`CatTierSheet`** (`cattiersheet.dfy`): the tier editor's normalisation helpers, its Save (drafts become stored overrides) and its Reset to default.
- **`AddHabitForm`** (`addhabitform.dfy`): the add-habit form's enabling predicate, and its agreement with the registry's acceptance rule.

Design choices:

- **Strings and characters.** Strings are `seq<char>`. A Swift `Character` is one `char`.
- **Ids.** Habit ids are naturals. Where an operation creates habits, the caller passes `nextId`, and the new habits take ids from `nextId` upward.
- **The localization table.** The localization table and the override store are both `map<string, string>`.

Behaviour worth noting in the source:

- **The `emoji` field.**
  - `Habit.swift` declares no `emoji` field, although the registry reads and writes one. The model gives `Habit` that field.
  - The Water habit's emoji is taken to be U+1F4A7.
- **Zero goal.** With a zero goal, the initialiser only floors `current` at zero. Neither `current` nor `step` is capped.
- **`updateHabit` uniqueness.** `updateHabit` checks neither name nor emoji for uniqueness. Renaming an unprotected habit to Read clears the deleted-Read flag, even when the edit is then rejected.
- **Rejected Read add.** `addHabit` clears the deleted-Read flag as soon as the name checks pass, before the emoji, unit and number checks. So a rejected add of "Read" still brings Read back on the next load (`Lifecycle.RejectedReadAddRevivesRead`). The add form's Save inherits this: once goal and step parse, a rejected "Read" clears the flag too.
- **`load()`.**
  - Decoded habits are not re-clamped.
  - The collection is cut to five before the ensure pass, which may then prepend Water: a stored collection of five unprotected habits loads as six.
  - In the legacy branch, the migrated Water is saved before the ensure pass runs. So the store holds Water alone, not Water and Read.

## Model

| member | source | states |
|---|---|---|
| Text.TrimIsSlice | DailyPurrgress/Models/HabitsStore.swift:46-48 | the trimmed string is a contiguous slice of the input with only whitespace cut from either side |
| Text.Trim | DailyPurrgress/Models/HabitsStore.swift:46-48 | the result has no leading or trailing whitespace, is empty exactly when the input is all whitespace, and leaves an already-trimmed string unchanged |
| Text.TrimStartDrops | DailyPurrgress/Models/HabitsStore.swift:46-48 | trimming the front removes only a whitespace prefix and keeps the rest verbatim |
| Text.TrimEndDrops | DailyPurrgress/Models/HabitsStore.swift:46-48 | trimming the back removes only a whitespace suffix and keeps the rest verbatim |
| Text.TrimIdempotent | DailyPurrgress/Models/HabitsStore.swift:46-48 | trimming twice is trimming once |
| Text.LowerIdempotent | DailyPurrgress/Models/HabitsStore.swift:50-52 | lower-casing twice is lower-casing once, so a normalized name normalizes to itself |
| Text.Lower | DailyPurrgress/Models/HabitsStore.swift:50-52 | the result has the input's length, and each character is the input's character with A-Z mapped to a-z and every other character kept |
| Text.Prefix1 | DailyPurrgress/Models/HabitsStore.swift:54-56 | at most one character, empty exactly for empty input, otherwise the input's first character |
| Text.TrimPrefixStable | DailyPurrgress/Models/HabitsStore.swift:54-56 | the first character of the trimmed input is itself trimmed, so normalizing an emoji twice changes nothing |
| Habits.Make | DailyPurrgress/Models/Habit.swift:32-50 | after construction goal, step and current are non-negative; with a positive goal, step and current are at most the goal; in-range inputs are kept, out-of-range ones go to the nearest bound; a zero goal only floors current |
| Habits.MakeIdempotent | DailyPurrgress/Models/Habit.swift:82-94 | clamping a constructed habit again changes nothing |
| Habits.Remaining | DailyPurrgress/Models/Habit.swift:59-61 | remaining is never negative and equals goal minus current when current is at most the goal |
| Habits.IsComplete | DailyPurrgress/Models/Habit.swift:54-57 | a habit is complete exactly when its goal is positive and nothing remains |
| Habits.CompleteIffNothingRemains | DailyPurrgress/Models/Habit.swift:54-61 | with a positive goal, a habit is complete exactly when nothing remains |
| Habits.LogStep | DailyPurrgress/Models/Habit.swift:71-74 | only current changes; a zero step changes nothing; current never passes the goal and strictly grows while below it; range validity is kept |
| Habits.LogStepOnCompleteIsNoOp | DailyPurrgress/Models/Habit.swift:71-74 | logging on a complete habit is a no-op |
| Habits.LogStepsProgress | DailyPurrgress/Models/Habit.swift:71-74 | n logs add n steps, capped at the goal |
| Habits.LogStepsReachGoal | DailyPurrgress/Models/Habit.swift:71-74 | enough logs reach the goal exactly, after which logging is a no-op and the habit is complete |
| Habits.Reset | DailyPurrgress/Models/Habit.swift:76-78 | current becomes 0, every other field is kept, and the habit is not complete |
| Habits.WaterDefault | DailyPurrgress/Models/Habit.swift:100-109 | Water is protected, named "Water" in ml, with goal 2000, step 250 and current 0 |
| Habits.ReadDefault | DailyPurrgress/Models/HabitsStore.swift:316-324 | Read is unprotected, named "Read" in pages, with goal 20, step 2 and current 0 |
| Snap.SnappedValue | DailyPurrgress/Models/HabitsStore.swift:182-192 | the result lies in [0, max(goal, 0)], is 0 for a non-positive goal, and otherwise is the goal when the clamped value is at least half a step above the last step multiple within the goal, and the step multiple nearest the clamped value (halves up) in every other case |
| Snap.RoundedPastGoal | DailyPurrgress/Models/HabitsStore.swift:187-191 | the rounded multiple exceeds the goal exactly when the value is at least half a step above the last multiple within the goal |
| Snap.RoundDiv | DailyPurrgress/Models/HabitsStore.swift:187-189 | the quotient, rounded half up, is within half a divisor of the exact quotient |
| Snap.RoundDivMonotone | DailyPurrgress/Models/HabitsStore.swift:187-189 | rounding the quotient is monotone in the dividend |
| Snap.RoundDivOfMultiple | DailyPurrgress/Models/HabitsStore.swift:187-189 | an exact multiple rounds to its own factor |
| Snap.SnapIdempotent | DailyPurrgress/Models/HabitsStore.swift:182-192 | snapping a snapped value changes nothing |
| Snap.SnapTieGoesUp | DailyPurrgress/Models/HabitsStore.swift:182-192 | with goal 140 and step 20, 130 snaps up to 140 and 129 down to 120; with goal 141, 132 snaps to 140; with goal 155, 149 snaps to 140 and 150 to the goal |
| Reorder.Move | DailyPurrgress/Models/HabitsStore.swift:136-142 | moving the selected offsets before the destination keeps the length and the multiset of elements; the moved elements form one block, in their original order, right after the unmoved elements that preceded the destination; the unmoved elements around the block keep their original order |
| Reorder.PickMerge | DailyPurrgress/Models/HabitsStore.swift:136-142 | the unmoved elements before the destination followed by those after it are exactly the unmoved elements, in order |
| Reorder.MoveNothing | DailyPurrgress/Models/HabitsStore.swift:136-142 | moving no offsets leaves the order unchanged |
| Reorder.PickPartition | DailyPurrgress/Models/HabitsStore.swift:136-142 | the moved, before and after parts together hold every element exactly once |
| Reorder.PermutationSameMembers | DailyPurrgress/Models/HabitsStore.swift:136-142 | a permutation has the same members |
| Reorder.PermutationKeepsKeysUnique | DailyPurrgress/Models/HabitsStore.swift:136-142 | a permutation of a collection with unique keys has unique keys |
| HabitsStore.NormalizedName | DailyPurrgress/Models/HabitsStore.swift:50-52 | the normalized name has no outer whitespace and no upper-case letter, is no longer than the input, and is empty exactly for a blank input |
| HabitsStore.NormalizedEmoji | DailyPurrgress/Models/HabitsStore.swift:54-56 | at most one character with no outer whitespace, empty exactly for a blank input, otherwise the first character of the trimmed input |
| HabitsStore.IsReadName | DailyPurrgress/Models/HabitsStore.swift:58-60 | a Read name is four characters once trimmed, and trimming it first keeps it a Read name |
| HabitsStore.SaveNow | DailyPurrgress/Models/HabitsStore.swift:291-298 | the collection is written under the habits key; the collection, the pending flag and the other keys are unchanged |
| HabitsStore.ScheduleSave | DailyPurrgress/Models/HabitsStore.swift:287-289 | a save becomes pending while the collection and the stored data stay as they are |
| HabitsStore.FirstIndex | DailyPurrgress/Models/HabitsStore.swift:145-146 | the first position holding the id, or none exactly when no habit has it |
| HabitsStore.FirstProtected | DailyPurrgress/Models/HabitsStore.swift:62-64 | the first protected position, or none exactly when no habit is protected |
| HabitsStore.FlushPendingSave | DailyPurrgress/Models/HabitsStore.swift:287-298 | a pending save writes the collection as it is when the timer fires, under the habits key only, the other keys keeping their values; without one nothing changes |
| HabitsStore.AddHabit | DailyPurrgress/Models/HabitsStore.swift:78-119 | a habit is added exactly when there are fewer than five, the trimmed name is non-empty and new, the one-character emoji is non-empty and new, the unit is non-empty and 0 < step <= goal; a rejection leaves the collection and stored data as they were; an acceptance appends one unprotected, unstarted habit with trimmed fields and saves; the Read flag is cleared once the name checks pass on a Read name |
| HabitsStore.InsertAt | DailyPurrgress/Models/HabitsStore.swift:327-332 | the new habit is at the index and the others keep their order around it |
| HabitsStore.WithWater | DailyPurrgress/Models/HabitsStore.swift:301-304 | afterwards a protected habit exists; Water is put at index 0 only when none did |
| HabitsStore.ReadSlot | DailyPurrgress/Models/HabitsStore.swift:326-332 | Read goes right after the first protected habit |
| HabitsStore.EnsureDefaults | DailyPurrgress/Models/HabitsStore.swift:300-333 | Water is present afterwards; Read is inserted behind Water exactly when no Read-named habit exists, the user did not delete Read and there is room; afterwards Read is there, was deleted, or there is no room |
| HabitsStore.DeleteHabit | DailyPurrgress/Models/HabitsStore.swift:121-134 | unknown ids and protected habits change nothing; otherwise the habit is removed, deleting a Read name sets the flag, the ensure pass runs (re-adding at most Read) and the result is saved |
| HabitsStore.MoveHabits | DailyPurrgress/Models/HabitsStore.swift:136-142 | the collection becomes the array move of the offsets to the destination, so it is a permutation with the moved block placed as that move places it, and it is saved; no offsets means no change |
| HabitsStore.MutateHabit | DailyPurrgress/Models/HabitsStore.swift:144-156 | only the first habit with the id is replaced by its mutation; then it saves at once or only schedules a save |
| HabitsStore.LogStep | DailyPurrgress/Models/HabitsStore.swift:158-160 | unknown ids change nothing; otherwise that habit becomes its logged form (current plus step, capped at the goal), no other habit changes, and the result is saved |
| HabitsStore.UndoStep | DailyPurrgress/Models/HabitsStore.swift:162-164 | unknown ids change nothing; otherwise only that habit is replaced by its undone form and the result is saved |
| HabitsStore.ResetHabit | DailyPurrgress/Models/HabitsStore.swift:166-168 | unknown ids change nothing; otherwise only that habit's progress changes, to 0, and the result is saved |
| HabitsStore.SetCurrent | DailyPurrgress/Models/HabitsStore.swift:194-198 | unknown ids change nothing; otherwise only that habit's progress changes, to the value snapped to its goal and step, and a save is scheduled rather than written |
| HabitsStore.ResetAll | DailyPurrgress/Models/HabitsStore.swift:170-180 | every progress becomes 0 with count, order and other fields kept; an empty collection is neither changed nor saved |
| HabitsStore.EditHabit | DailyPurrgress/Models/HabitsStore.swift:214-244 | the edit is accepted exactly when the name and emoji are non-blank (unprotected habits only), the unit is non-blank and 0 < step <= goal; a protected habit keeps its name and emoji; progress is re-snapped into [0, goal] |
| HabitsStore.UpdateHabit | DailyPurrgress/Models/HabitsStore.swift:200-250 | unknown ids and rejected edits leave the collection and stored data unchanged; an accepted edit changes only that habit, as the edit rule says, and saves; renaming an unprotected habit to Read clears the flag |
| HabitsStore.MigratedWater | DailyPurrgress/Models/HabitsStore.swift:261-267 | the legacy counter becomes a protected Water whose progress is the counter clamped into [0, 2000] |
| HabitsStore.LoadFound | DailyPurrgress/Models/HabitsStore.swift:255-285 | decoded data is cut to five habits; undecodable data gives none; a legacy counter becomes Water, which is saved while the legacy key is removed |
| HabitsStore.EnsureDefaultsAfterWater | DailyPurrgress/Models/HabitsStore.swift:300-333 | after Water alone, the ensure pass adds only Read, unless Read was deleted |
| HabitsStore.Load | DailyPurrgress/Models/HabitsStore.swift:255-285 | a protected habit exists afterwards and nothing is pending; stored data is read without being written back; with nothing stored, Water and Read are seeded, Read unless it was deleted before; the legacy counter migrates into Water and the legacy key is removed |
| StoreInvariants.EnsureDefaultsWf | DailyPurrgress/Models/HabitsStore.swift:300-333 | the ensure pass turns any in-range collection of at most five habits with unique ids into one satisfying the registry invariant, using only the two fresh ids |
| StoreInvariants.EnsureDefaultsIdempotent | DailyPurrgress/Models/HabitsStore.swift:300-333 | running the ensure pass twice is running it once |
| StoreInvariants.AddHabitKeepsWf | DailyPurrgress/Models/HabitsStore.swift:78-119 | adding keeps the registry invariant and uses only the fresh id |
| StoreInvariants.AddHabitKeepsNamesUnique | DailyPurrgress/Models/HabitsStore.swift:87-91 | adding never creates two habits with the same normalized name |
| StoreInvariants.DeleteHabitKeepsWf | DailyPurrgress/Models/HabitsStore.swift:121-134 | deleting keeps the registry invariant |
| StoreInvariants.MoveHabitsKeepsWf | DailyPurrgress/Models/HabitsStore.swift:136-142 | reordering keeps the registry invariant |
| StoreInvariants.MutateHabitKeepsWf | DailyPurrgress/Models/HabitsStore.swift:144-156 | a mutation that keeps a habit in range, its id and its protection keeps the registry invariant |
| StoreInvariants.LogStepKeepsWf | DailyPurrgress/Models/HabitsStore.swift:158-160 | logging keeps the registry invariant |
| StoreInvariants.ResetHabitKeepsWf | DailyPurrgress/Models/HabitsStore.swift:166-168 | resetting one habit keeps the registry invariant |
| StoreInvariants.SetCurrentKeepsWf | DailyPurrgress/Models/HabitsStore.swift:194-198 | setting progress keeps the registry invariant |
| StoreInvariants.ResetAllKeepsWf | DailyPurrgress/Models/HabitsStore.swift:170-180 | resetting all keeps the registry invariant |
| StoreInvariants.UpdateHabitKeepsWf | DailyPurrgress/Models/HabitsStore.swift:200-250 | editing keeps the registry invariant |
| StoreInvariants.LoadWf | DailyPurrgress/Models/HabitsStore.swift:255-285 | loading a store whose collection is in range with unique ids yields a collection satisfying the registry invariant |
| Lifecycle.DeletedReadStaysDeleted | DailyPurrgress/Models/HabitsStore.swift:121-134 | deleting the Read habit sets the flag, leaves no Read, and a later load does not bring Read back |
| Lifecycle.RejectedReadAddRevivesRead | DailyPurrgress/Models/HabitsStore.swift:93-99 | an add of "Read" rejected for its emoji leaves the collection unchanged but clears the flag, so the next load seeds Read again |
| Lifecycle.SaveLoadRoundTrip | DailyPurrgress/Models/HabitsStore.swift:255-298 | saving a settled registry and loading it back restores the same collection and store |
| Lifecycle.EnsureDefaultsSettles | DailyPurrgress/Models/HabitsStore.swift:300-333 | the ensure pass leaves a collection that it, and hence load, leaves alone |
| Lifecycle.ResetAllIsEachReset | DailyPurrgress/Models/HabitsStore.swift:166-180 | resetting all does to each habit what resetting it by id does |
| MiniProgress.Progress | DailyPurrgress/Models/MiniProgressModel.swift:17-20 | progress is the fraction of 2000 ml reached, capped at 1, and is 1 exactly at or past the goal |
| MiniProgress.Tier | DailyPurrgress/Models/MiniProgressModel.swift:22-24 | with the 2000 ml goal the tier is Low below 600 ml, Medium below 1200 ml, High below 2000 ml and Complete from 2000 ml, each in both directions |
| MiniProgress.IsComplete | DailyPurrgress/Models/MiniProgressModel.swift:26-28 | the counter is complete exactly when progress is full |
| MiniProgress.TierCompleteIffComplete | DailyPurrgress/Models/MiniProgressModel.swift:22-28 | the tier is Complete exactly when the counter is complete |
| MiniProgress.AddStep | DailyPurrgress/Models/MiniProgressModel.swift:32-35 | one step adds 250 ml, never past 2000 |
| MiniProgress.AddStepOnCompleteIsNoOp | DailyPurrgress/Models/MiniProgressModel.swift:32-35 | adding a step at the goal changes nothing |
| MiniProgress.Reset | DailyPurrgress/Models/MiniProgressModel.swift:37-39 | reset returns to the initial 0 ml, not complete, Low tier |
| MiniProgress.AddStepsFrom | DailyPurrgress/Models/MiniProgressModel.swift:32-35 | n steps add 250 n ml, capped at 2000 |
| MiniProgress.EightStepsFillTheDay | DailyPurrgress/Models/MiniProgressModel.swift:8-13 | from 0, seven steps are not complete, eight are, and further steps are no-ops |
| CatTiers.From | DailyPurrgress/Models/CatTier.swift:110-123 | below 0.30 is Low, below 0.60 Medium, below 1.00 High, otherwise Complete, each in both directions |
| CatTiers.FromMonotone | DailyPurrgress/Models/CatTier.swift:110-123 | more progress never yields a lower tier |
| CatTiers.FromClamped | DailyPurrgress/Models/CatTier.swift:111 | clamping into [0, 1] first changes no tier |
| CatTiers.StorageKeyInjective | DailyPurrgress/Models/CatTier.swift:15-105 | each tier and kind has its own override key |
| CatTiers.DefaultKeyInjective | DailyPurrgress/Views/Sheets/CatTierSheetView.swift:107-136 | each tier and kind has its own localization key |
| CatTiers.Override | DailyPurrgress/Models/CatTier.swift:36 | the override read for a field is trimmed, and empty when the key is absent |
| CatTiers.Resolve | DailyPurrgress/Models/CatTier.swift:36-42 | a non-empty override wins, an empty one falls back to the localized default, and the result is empty only when the override is |
| CatTiers.BlankOverrideIsIgnored | DailyPurrgress/Models/CatTier.swift:36-42 | a blank override resolves like no override |
| CatTiers.OverrideIsLocal | DailyPurrgress/Models/CatTier.swift:15-105 | writing one field's override changes no other field |
| CatTiers.Emoji | DailyPurrgress/Models/CatTier.swift:15-43 | a tier's emoji is its trimmed override when non-empty, else the default |
| CatTiers.Title | DailyPurrgress/Models/CatTier.swift:47-75 | a tier's title is its trimmed override when non-empty, else the default |
| CatTiers.Subtitle | DailyPurrgress/Models/CatTier.swift:77-105 | a tier's subtitle is its trimmed override when non-empty, else the default |
| CatTierSheet.OneEmoji | DailyPurrgress/Views/Sheets/CatTierSheetView.swift:85-89 | at most one trimmed character; empty exactly for blank input; otherwise the first character of the trimmed input |
| CatTierSheet.OneEmojiIdempotent | DailyPurrgress/Views/Sheets/CatTierSheetView.swift:85-89 | applying it twice is applying it once |
| CatTierSheet.OnEmojiChange | DailyPurrgress/Views/Sheets/CatTierSheetView.swift:276-281 | the field ends as the one-character form of the typed value, untouched when already in that form |
| CatTierSheet.EmojiFieldSettles | DailyPurrgress/Views/Sheets/CatTierSheetView.swift:276-281 | the handler's own write-back leaves the field alone, so it settles after one rewrite |
| CatTierSheet.EmojiOverride | DailyPurrgress/Views/Sheets/CatTierSheetView.swift:91-94 | empty exactly when the one-character draft is empty or equals the default, else that character |
| CatTierSheet.TextOverride | DailyPurrgress/Views/Sheets/CatTierSheetView.swift:96-99 | empty exactly when the trimmed draft is empty or equals the default, else the trimmed draft |
| CatTierSheet.OverrideFor | DailyPurrgress/Views/Sheets/CatTierSheetView.swift:154-172 | the stored value of a field, by kind, empty exactly when the cleaned draft is empty or the default |
| CatTierSheet.Init | DailyPurrgress/Views/Sheets/CatTierSheetView.swift:54-71 | every draft starts as the value its tier currently shows |
| CatTierSheet.ResetToDefault | DailyPurrgress/Views/Sheets/CatTierSheetView.swift:181-199 | every draft becomes its localized default and the stored overrides are left untouched |
| CatTierSheet.Save | DailyPurrgress/Views/Sheets/CatTierSheetView.swift:154-179 | each of the twelve keys gets its field's override; every other key keeps its value, and no key outside the twelve appears |
| CatTierSheet.SaveThenResolve | DailyPurrgress/Views/Sheets/CatTierSheetView.swift:154-179 | after Save each tier shows its cleaned draft, or the default when the draft is blank |
| CatTierSheet.SaveUneditedKeepsLook | DailyPurrgress/Views/Sheets/CatTierSheetView.swift:54-179 | opening the sheet and saving without edits changes no tier's look |
| CatTierSheet.ResetThenSaveClearsOverrides | DailyPurrgress/Views/Sheets/CatTierSheetView.swift:154-199 | Reset to default and then Save stores empty overrides, so every tier shows its default |
| IntParsing.ParseInt | DailyPurrgress/Views/Sheets/AddHabitSheetView.swift:29-35 | a value exactly for an optional sign followed by decimal digits whose value fits in 64 bits |
| IntParsing.ParsedHasNoSpace | DailyPurrgress/Views/Sheets/AddHabitSheetView.swift:29-35 | a text that parses contains no space, tab or newline |
| IntParsing.ParseShow | DailyPurrgress/Views/Sheets/AddHabitSheetView.swift:29-35 | every 64-bit integer printed in decimal parses back to itself |
| IntParsing.ParsePlus | DailyPurrgress/Views/Sheets/AddHabitSheetView.swift:29-35 | a leading plus sign is accepted |
| AddHabitForm.DuplicateChecksAgree | DailyPurrgress/Views/Sheets/AddHabitSheetView.swift:53-65 | the form's isDuplicateName and isDuplicateEmoji checks are the registry's own name and emoji checks |
| AddHabitForm.IsValid | DailyPurrgress/Views/Sheets/AddHabitSheetView.swift:25-77 | an enabled form has room for another habit (canAddMore), goal and step that parse with 0 < step <= goal, and a name and emoji the registry does not already hold |
| AddHabitForm.Save | DailyPurrgress/Views/Sheets/AddHabitSheetView.swift:169-183 | a habit is added exactly when the form is valid; it is the drafts' habit (trimmed name and unit, one-character emoji, parsed goal and step, unstarted, unprotected) appended and saved; otherwise the collection and its stored copy are unchanged; no save is scheduled and the legacy key is untouched; once goal and step parse, a Read name that passes the name checks clears the deleted-Read flag even when a later check rejects the habit |
| AddHabitForm.EmptyIsInvalid | DailyPurrgress/Views/Sheets/AddHabitSheetView.swift:15-19 | a fresh form is not valid |

## Left out

- User interface: SwiftUI layout, animation, haptics and accessibility text, the refresh tick of the tier sheet, and the view files that only forward to the registry (the edit, delete, manage and message sheets and the older copies of the views).
- JSON encoding and decoding of the collection: data is either a decoded collection or undecodable.
- UUID generation: ids are naturals supplied by the caller.
- The 350 ms debounce timing: only "a save is pending" is modelled.
- `Habit.progress`, `overallProgress` and other Double-valued display values: floating point presentation.
- `habit(id:)` and `waterHabitID`: one-line lookups. Their logic is `FirstIndex` and `FirstProtected`.
- Copy.swift and the app entry point: constants and bootstrap only.
- Habits.LogStep: Swift traps on Int overflow of `current + step`; the model uses unbounded integers.
- Habits.Make: out-of-range 64-bit inputs are not modelled; the integers are unbounded.
- HabitsStore.UndoStep: the body of the entity's `undoStep` is not part of this model, so it enters as a parameter and only the registry's framing is stated.
- Snap.SnappedValue: uses exact integer rounding where the source divides Doubles. The two agree while the goal stays below 2^52; for larger goals the Double quotient can round across a half and snap differently.
- Text.Trim: whitespace is Unicode White_Space per code point, and a Swift Character (grapheme cluster) is one `char`, so multi-scalar emoji are cut at the first scalar.
- Text.Lower: lower-cases ASCII letters only, not full Unicode case mapping.
- HabitsStore.AddHabit, AddHabitForm.IsValid, CatTierSheet.EmojiOverride, CatTierSheet.TextOverride, CatTierSheet.OnEmojiChange: Swift compares Strings by Unicode canonical equivalence, so a precomposed and a decomposed spelling of the same name or emoji are equal in the source; the model compares code-point sequences, so it treats them as different.
- CatTiers.From: progress is an exact real, so NaN is not modelled.
- MiniProgress.Progress: an exact real instead of a Double.
- IntParsing.ParseInt: accepts ASCII digits only.
