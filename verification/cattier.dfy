/** The cat's mood tiers (`CatTier`): the tier a progress fraction maps to,
    and the emoji, title and subtitle each tier shows, where a non-blank
    override in the key-value store wins over the localized default. */
module CatTiers {
  import opened Text

  /** The four tiers, in the order of their raw values 0 to 3. */
  datatype CatTier = Low | Medium | High | Complete

  /** `rawValue`. */
  function Rank(t: CatTier): (r: nat)
    ensures r <= 3
  {
    match t
    case Low => 0
    case Medium => 1
    case High => 2
    case Complete => 3
  }

  /** The progress fraction limited to the unit interval. */
  function ClampUnit(p: real): (c: real)
    ensures 0.0 <= c <= 1.0
    ensures 0.0 <= p <= 1.0 ==> c == p
    ensures p < 0.0 ==> c == 0.0
    ensures p > 1.0 ==> c == 1.0
  {
    if p < 0.0 then 0.0 else if p > 1.0 then 1.0 else p
  }

  /** `CatTier.from(progress:)`: below 0.30 is Low, below 0.60 Medium,
      below 1.00 High, and 1.00 or more Complete, after clamping. */
  function From(progress: real): (t: CatTier)
    ensures t == Low <==> progress < 0.30
    ensures t == Medium <==> 0.30 <= progress < 0.60
    ensures t == High <==> 0.60 <= progress < 1.00
    ensures t == Complete <==> progress >= 1.00
  {
    var c := ClampUnit(progress);
    if c < 0.30 then Low
    else if c < 0.60 then Medium
    else if c < 1.00 then High
    else Complete
  }

  /** More progress never yields a lower tier. */
  lemma FromMonotone(p: real, q: real)
    requires p <= q
    ensures Rank(From(p)) <= Rank(From(q))
  {
  }

  /** Clamping first changes nothing: the tier depends only on the clamped
      fraction. */
  lemma FromClamped(p: real)
    ensures From(ClampUnit(p)) == From(p)
  {
  }

  // ---------------------------------------------------------------------
  // Visual identity and copy

  /** The three things a tier shows. */
  datatype Kind = EmojiKind | TitleKind | SubtitleKind

  /** One of the twelve customisable values: a kind for a tier. */
  datatype Field = Field(kind: Kind, tier: CatTier)

  function TierName(t: CatTier): (r: string)
    ensures |r| > 0
  {
    match t
    case Low => "low"
    case Medium => "medium"
    case High => "high"
    case Complete => "complete"
  }

  function KindName(k: Kind): (r: string)
    ensures |r| > 0
  {
    match k
    case EmojiKind => "emoji"
    case TitleKind => "title"
    case SubtitleKind => "subtitle"
  }

  const StoragePrefix: string := "DailyPurrgress.catTier."

  /** The key-value store key holding the override, such as
      "DailyPurrgress.catTier.emoji.low". */
  function StorageKey(f: Field): (k: string)
    ensures |k| > |StoragePrefix| + |KindName(f.kind)| + 1
    ensures k[|StoragePrefix|] == KindName(f.kind)[0]
    ensures k[|StoragePrefix| + |KindName(f.kind)| + 1] == TierName(f.tier)[0]
  {
    StoragePrefix + KindName(f.kind) + "." + TierName(f.tier)
  }

  /** The localization key of the default, such as "catTier.low.emoji". */
  function DefaultKey(f: Field): (k: string)
    ensures |k| > 8 + |TierName(f.tier)| + 1
    ensures k[8] == TierName(f.tier)[0]
    ensures k[8 + |TierName(f.tier)| + 1] == KindName(f.kind)[0]
  {
    "catTier." + TierName(f.tier) + "." + KindName(f.kind)
  }

  /** Each field has a key of its own, so overrides never overwrite each
      other. */
  lemma StorageKeyInjective(f: Field, g: Field)
    ensures StorageKey(f) == StorageKey(g) <==> f == g
  {
    if StorageKey(f) == StorageKey(g) {
      assert KindName(f.kind)[0] == KindName(g.kind)[0];
      assert f.kind == g.kind;
      assert TierName(f.tier)[0] == TierName(g.tier)[0];
    }
  }

  /** Each field has a default of its own. */
  lemma DefaultKeyInjective(f: Field, g: Field)
    ensures DefaultKey(f) == DefaultKey(g) <==> f == g
  {
    if DefaultKey(f) == DefaultKey(g) {
      assert TierName(f.tier)[0] == TierName(g.tier)[0];
      assert f.tier == g.tier;
      assert KindName(f.kind)[0] == KindName(g.kind)[0];
    }
  }

  /** String values of the key-value store, by key. */
  type Defaults = map<string, string>

  /** A localization table; `NSLocalizedString` falls back to the key. */
  type Table = map<string, string>

  function Localized(table: Table, key: string): (r: string)
    ensures key in table ==> r == table[key]
    ensures key !in table ==> r == key
  {
    if key in table then table[key] else key
  }

  /** The localized default of a field. */
  function DefaultValue(table: Table, f: Field): string {
    Localized(table, DefaultKey(f))
  }

  /** The override as read: the stored string trimmed, or "" when absent. */
  function Override(defaults: Defaults, f: Field): (r: string)
    ensures IsTrimmed(r)
    ensures StorageKey(f) !in defaults ==> r == []
    ensures StorageKey(f) in defaults ==> r == Trim(defaults[StorageKey(f)])
  {
    var key := StorageKey(f);
    if key in defaults then Trim(defaults[key]) else []
  }

  /** The value a tier shows for a field: the override when it is not blank,
      otherwise the localized default. */
  function Resolve(defaults: Defaults, table: Table, f: Field): (r: string)
    ensures Override(defaults, f) != [] ==> r == Override(defaults, f) && IsTrimmed(r)
    ensures Override(defaults, f) == [] ==> r == DefaultValue(table, f)
    ensures r == [] ==> Override(defaults, f) == []
  {
    var o := Override(defaults, f);
    if o != [] then o else DefaultValue(table, f)
  }

  /** A blank or missing override is the same as none. */
  lemma BlankOverrideIsIgnored(defaults: Defaults, table: Table, f: Field, blank: string)
    requires AllSpace(blank)
    ensures Resolve(defaults[StorageKey(f) := blank], table, f) == DefaultValue(table, f)
    ensures Resolve(defaults[StorageKey(f) := blank], table, f)
            == Resolve(defaults - {StorageKey(f)}, table, f)
  {
  }

  /** An override written for one field changes no other field's value. */
  lemma OverrideIsLocal(defaults: Defaults, table: Table, f: Field, g: Field, value: string)
    requires f != g
    ensures Resolve(defaults[StorageKey(f) := value], table, g) == Resolve(defaults, table, g)
  {
    StorageKeyInjective(f, g);
  }

  /** `emoji`. */
  function Emoji(defaults: Defaults, table: Table, t: CatTier): (r: string)
    ensures Override(defaults, Field(EmojiKind, t)) != [] ==> r == Override(defaults, Field(EmojiKind, t))
    ensures Override(defaults, Field(EmojiKind, t)) == [] ==> r == DefaultValue(table, Field(EmojiKind, t))
  {
    Resolve(defaults, table, Field(EmojiKind, t))
  }

  /** `title`. */
  function Title(defaults: Defaults, table: Table, t: CatTier): (r: string)
    ensures Override(defaults, Field(TitleKind, t)) != [] ==> r == Override(defaults, Field(TitleKind, t))
    ensures Override(defaults, Field(TitleKind, t)) == [] ==> r == DefaultValue(table, Field(TitleKind, t))
  {
    Resolve(defaults, table, Field(TitleKind, t))
  }

  /** `subtitle`. */
  function Subtitle(defaults: Defaults, table: Table, t: CatTier): (r: string)
    ensures Override(defaults, Field(SubtitleKind, t)) != [] ==> r == Override(defaults, Field(SubtitleKind, t))
    ensures Override(defaults, Field(SubtitleKind, t)) == [] ==> r == DefaultValue(table, Field(SubtitleKind, t))
  {
    Resolve(defaults, table, Field(SubtitleKind, t))
  }
}
