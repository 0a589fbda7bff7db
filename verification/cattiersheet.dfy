/** The tier customisation sheet (`CatTierSheetView`): twelve drafts, one
    per tier and kind, that start at the values the tiers show; Save turns
    each draft into an override, storing "" wherever the draft is blank or
    equals the localized default; Reset to default only rewrites drafts. */
module CatTierSheet {
  import opened Text
  import opened CatTiers

  /** `oneEmoji(_:)`: the first character of the trimmed input, or "". */
  function OneEmoji(value: string): (r: string)
    ensures |r| <= 1 && IsTrimmed(r)
    ensures r == [] <==> AllSpace(value)
    ensures r != [] ==> r[0] == Trim(value)[0]
  {
    var clean := Trim(value);
    if clean == [] then [] else Prefix1(clean)
  }

  /** What `oneEmoji` returns it returns unchanged. */
  lemma OneEmojiIdempotent(value: string)
    ensures OneEmoji(OneEmoji(value)) == OneEmoji(value)
  {
    var r := OneEmoji(value);
    if r != [] {
      TrimSingle(r[0]);
    }
  }

  /** A trimmed string of at most one character is its own `oneEmoji`. */
  lemma OneEmojiOfShort(value: string)
    requires |value| <= 1 && IsTrimmed(value)
    ensures OneEmoji(value) == value
  {
    if value != [] {
      TrimSingle(value[0]);
    }
  }

  /** The emoji field's `onChange` handler: the field's value after it runs
      on `newValue`. It writes back only when the value is not already a
      single trimmed character. */
  function OnEmojiChange(newValue: string): (r: string)
    ensures r == OneEmoji(newValue)
    ensures newValue == OneEmoji(newValue) ==> r == newValue
  {
    var single := OneEmoji(newValue);
    if newValue != single then single else newValue
  }

  /** The write-back triggers the handler once more, and that run leaves the
      field alone: the handler reaches a fixed point after one round. */
  lemma EmojiFieldSettles(newValue: string)
    ensures OnEmojiChange(OnEmojiChange(newValue)) == OnEmojiChange(newValue)
  {
    OneEmojiIdempotent(newValue);
  }

  /** `emojiOverride(from:defaultValue:)`. */
  function EmojiOverride(draft: string, defaultValue: string): (r: string)
    ensures r == [] <==> OneEmoji(draft) == [] || OneEmoji(draft) == defaultValue
    ensures r != [] ==> r == OneEmoji(draft)
  {
    var value := OneEmoji(draft);
    if value == [] || value == defaultValue then [] else value
  }

  /** `textOverride(from:defaultValue:)`. */
  function TextOverride(draft: string, defaultValue: string): (r: string)
    ensures r == [] <==> Trim(draft) == [] || Trim(draft) == defaultValue
    ensures r != [] ==> r == Trim(draft)
  {
    var value := Trim(draft);
    if value == [] || value == defaultValue then [] else value
  }

  /** What a draft of the field amounts to once cleaned: one character for
      an emoji, the trimmed text otherwise. */
  function Cleaned(f: Field, draft: string): (r: string)
    ensures IsTrimmed(r)
    ensures f.kind == EmojiKind ==> |r| <= 1
  {
    if f.kind == EmojiKind then OneEmoji(draft) else Trim(draft)
  }

  /** The override Save writes for a field. */
  function OverrideFor(table: Table, f: Field, draft: string): (r: string)
    ensures r == [] <==> Cleaned(f, draft) == [] || Cleaned(f, draft) == DefaultValue(table, f)
    ensures r != [] ==> r == Cleaned(f, draft)
  {
    if f.kind == EmojiKind then EmojiOverride(draft, DefaultValue(table, f))
    else TextOverride(draft, DefaultValue(table, f))
  }

  /** The twelve fields, in the order the sheet writes them. */
  const FieldOrder: seq<Field> := [
    Field(EmojiKind, Low), Field(EmojiKind, Medium), Field(EmojiKind, High), Field(EmojiKind, Complete),
    Field(TitleKind, Low), Field(TitleKind, Medium), Field(TitleKind, High), Field(TitleKind, Complete),
    Field(SubtitleKind, Low), Field(SubtitleKind, Medium), Field(SubtitleKind, High), Field(SubtitleKind, Complete)
  ]

  /** Every field is one the sheet writes. */
  lemma FieldOrderCovers()
    ensures forall f: Field :: f in FieldOrder
  {
    forall f: Field
      ensures f in FieldOrder
    {
      var row := match f.kind case EmojiKind => 0 case TitleKind => 1 case SubtitleKind => 2;
      assert FieldOrder[4 * row + Rank(f.tier)] == f;
    }
  }

  /** No other field is stored under the key of `f`. */
  lemma KeyOfNoOther(f: Field)
    ensures forall g: Field :: g != f ==> StorageKey(g) != StorageKey(f)
  {
    forall g: Field | g != f
      ensures StorageKey(g) != StorageKey(f)
    {
      StorageKeyInjective(g, f);
    }
  }

  /** The sheet's drafts. */
  datatype Sheet = Sheet(drafts: map<Field, string>)

  /** A draft exists for every field. */
  ghost predicate Total(sh: Sheet) {
    forall f: Field :: f in sh.drafts
  }

  /** `init()`: each draft starts at the value the tier currently shows. */
  function Init(defaults: Defaults, table: Table): (sh: Sheet)
    ensures Total(sh)
    ensures forall f: Field :: sh.drafts[f] == Resolve(defaults, table, f)
  {
    FieldOrderCovers();
    Sheet(map f: Field | f in FieldOrder :: Resolve(defaults, table, f))
  }

  /** `resetToDefaultConfirmed()`: every draft back to its localized
      default, while the stored overrides stay exactly as they were until
      Save. */
  function ResetToDefault(sh: Sheet, stored: Defaults, table: Table): (r: (Sheet, Defaults))
    ensures Total(r.0)
    ensures forall f: Field :: r.0.drafts[f] == DefaultValue(table, f)
    ensures r.1 == stored
  {
    FieldOrderCovers();
    (Sheet(map f: Field | f in FieldOrder :: DefaultValue(table, f)), stored)
  }

  /** The keys the overrides of `fields` are stored under. */
  function KeysOf(fields: seq<Field>): set<string> {
    set f | f in fields :: StorageKey(f)
  }

  /** The store after `values` are written, field by field in the order of
      `fields`, each under the field's key. */
  function WriteFields(fields: seq<Field>, values: map<Field, string>, defaults: Defaults): (d: Defaults)
    requires forall f :: f in fields ==> f in values
    ensures forall f :: f in fields ==> StorageKey(f) in d && d[StorageKey(f)] == values[f]
    ensures forall f: Field :: f !in fields && StorageKey(f) in defaults ==>
              StorageKey(f) in d && d[StorageKey(f)] == defaults[StorageKey(f)]
    ensures forall k :: k in defaults ==> k in d
    ensures forall k :: k in defaults && k !in KeysOf(fields) ==> d[k] == defaults[k]
    ensures forall k :: k in d ==> k in defaults || k in KeysOf(fields)
    decreases |fields|
  {
    if |fields| == 0 then defaults
    else
      var f := fields[0];
      var d := WriteFields(fields[1..], values, defaults[StorageKey(f) := values[f]]);
      assert forall g :: g in fields ==> g == f || g in fields[1..];
      assert KeysOf(fields) == {StorageKey(f)} + KeysOf(fields[1..]);
      KeyOfNoOther(f);
      d
  }

  /** The override of every draft. */
  function Overrides(sh: Sheet, table: Table): (m: map<Field, string>)
    requires Total(sh)
    ensures forall f: Field :: f in m && m[f] == OverrideFor(table, f, sh.drafts[f])
  {
    map f: Field | f in sh.drafts :: OverrideFor(table, f, sh.drafts[f])
  }

  /** `saveAndDismiss()`: the overrides of all twelve fields. */
  function Save(sh: Sheet, defaults: Defaults, table: Table): (d: Defaults)
    requires Total(sh)
    ensures forall f: Field :: StorageKey(f) in d && d[StorageKey(f)] == OverrideFor(table, f, sh.drafts[f])
    // Every other key of the store is left as it was.
    ensures forall k :: k in defaults ==> k in d
    ensures forall k :: k in defaults && k !in KeysOf(FieldOrder) ==> d[k] == defaults[k]
    // and no key outside the twelve appears.
    ensures forall k :: k in d ==> k in defaults || k in KeysOf(FieldOrder)
  {
    FieldOrderCovers();
    WriteFields(FieldOrder, Overrides(sh, table), defaults)
  }

  /** After Save, each tier shows what its draft cleans to, or the default
      for a blank draft. */
  lemma SaveThenResolve(sh: Sheet, defaults: Defaults, table: Table, f: Field)
    requires Total(sh)
    ensures var v := Cleaned(f, sh.drafts[f]);
            Resolve(Save(sh, defaults, table), table, f) == if v == [] then DefaultValue(table, f) else v
  {
    var v := Cleaned(f, sh.drafts[f]);
    var stored := OverrideFor(table, f, sh.drafts[f]);
    var d := Save(sh, defaults, table);
    assert StorageKey(f) in d && d[StorageKey(f)] == stored;
    assert Override(d, f) == Trim(stored);
    if stored == [] {
      assert Trim(stored) == [];
    } else {
      assert Trim(stored) == stored;
    }
  }

  /** Localized defaults that are trimmed, one character long for emoji,
      and stored emoji overrides of one character: what the sheet itself
      would write. */
  ghost predicate Tidy(defaults: Defaults, table: Table) {
    forall f: Field ::
      && IsTrimmed(DefaultValue(table, f))
      && (f.kind == EmojiKind ==> |DefaultValue(table, f)| <= 1 && |Override(defaults, f)| <= 1)
  }

  /** Opening the sheet and saving without edits leaves every tier showing
      what it showed before. */
  lemma SaveUneditedKeepsLook(defaults: Defaults, table: Table, f: Field)
    requires Tidy(defaults, table)
    ensures Resolve(Save(Init(defaults, table), defaults, table), table, f) == Resolve(defaults, table, f)
  {
    var x := Resolve(defaults, table, f);
    if f.kind == EmojiKind {
      OneEmojiOfShort(x);
    }
    SaveThenResolve(Init(defaults, table), defaults, table, f);
  }

  /** Reset to default followed by Save removes every override. */
  lemma ResetThenSaveClearsOverrides(sh: Sheet, defaults: Defaults, table: Table, f: Field)
    requires Tidy(defaults, table)
    ensures var r := ResetToDefault(sh, defaults, table);
            Save(r.0, r.1, table)[StorageKey(f)] == []
    ensures var r := ResetToDefault(sh, defaults, table);
            Resolve(Save(r.0, r.1, table), table, f) == DefaultValue(table, f)
  {
    if f.kind == EmojiKind {
      OneEmojiOfShort(DefaultValue(table, f));
    }
    var r := ResetToDefault(sh, defaults, table);
    SaveThenResolve(r.0, r.1, table, f);
  }
}
