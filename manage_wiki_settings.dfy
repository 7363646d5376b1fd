/**
 * Per-wiki settings a wiki's managers may change. A catalogue (configured, or the
 * built-in one) says which settings exist and what type each has; a value is checked and
 * normalised against its type before it is merged into the wiki's overlay in `cw_wikis`.
 * A normalised value of `false` means "rejected".
 */
module ManageWikiSettings {
  import opened Wrappers
  import opened Php
  import opened Assoc
  import opened Database
  import opened Globals
  import opened MirahezeFunctions
  import opened Sections

  /** The built-in catalogue: fourteen settings in five sections. */
  const DefaultSettings: seq<(string, SettingSpec)> := [
    ("wgSitename", SettingSpec("Site name", "text", Some("general"))),
    ("wgMetaNamespace", SettingSpec("Meta namespace", "text", Some("general"))),
    ("wgLanguageCode", SettingSpec("Language", "language", Some("general"))),
    ("wgDefaultSkin", SettingSpec("Default skin", "select", Some("appearance"))),
    ("wgLogo", SettingSpec("Logo URL", "text", Some("appearance"))),
    ("wgEnableUploads", SettingSpec("Enable file uploads", "check", Some("uploads"))),
    ("wgUseImageMagick", SettingSpec("Use ImageMagick", "check", Some("uploads"))),
    ("wgFileExtensions", SettingSpec("Allowed file extensions", "array", Some("uploads"))),
    ("wgMaxUploadSize", SettingSpec("Max upload size", "text", Some("uploads"))),
    ("wgRightsText", SettingSpec("Copyright text", "text", Some("rights"))),
    ("wgRightsUrl", SettingSpec("Copyright URL", "text", Some("rights"))),
    ("wgRightsIcon", SettingSpec("Copyright icon URL", "text", Some("rights"))),
    ("wgEmergencyContact", SettingSpec("Emergency contact email", "text", Some("email"))),
    ("wgPasswordSender", SettingSpec("Password sender email", "text", Some("email")))
  ]

  /** `getAvailableSettings`: the configured catalogue, or the built-in one when it is empty. */
  function AvailableSettings(configured: seq<(string, SettingSpec)>): (r: seq<(string, SettingSpec)>)
    ensures configured != [] ==> r == configured
    ensures configured == [] ==> |r| == 14 && Distinct(r)
  {
    if configured == [] then DefaultSettings else configured
  }

  /** The types `validateValue` knows; any other type passes values through. */
  const KnownKinds: seq<string> := ["text", "check", "select", "language", "array"]

  /** `$value === false`: the result by which `validateValue` rejects a value. */
  predicate Rejected(v: Value) {
    v == Bool(false)
  }

  /** `array_map('trim', $pieces)`. */
  function TrimPieces(pieces: seq<string>): (r: seq<Value>)
    ensures |r| == |pieces|
    ensures forall i :: 0 <= i < |r| ==> r[i] == Str(Trim(pieces[i]))
  {
    seq(|pieces|, i requires 0 <= i < |pieces| => Str(Trim(pieces[i])))
  }

  /**
   * `validateValue`: text and select settings take strings; a check setting takes the
   * truth value of anything (so `false` is itself a rejection); a language code is a
   * string of at most twelve characters; an array setting takes an array, or a
   * comma-separated string that is split and trimmed; other types pass values through.
   */
  function ValidateValue(v: Value, kind: string): (r: Value)
    ensures kind == "text" || kind == "select" ==> (Rejected(r) <==> !v.Str?) && (v.Str? ==> r == v)
    ensures kind == "check" ==> (Rejected(r) <==> !Truthy(v)) && (Truthy(v) ==> r == Bool(true))
    ensures kind == "language" ==>
              && (Rejected(r) <==> !(v.Str? && |v.s| <= 12))
              && (!Rejected(r) ==> r == v)
    ensures kind == "array" ==>
              && (Rejected(r) <==> !(v.Str? || v.Arr?))
              && (v.Arr? ==> r == v)
              && (v.Str? ==> r.Arr? && |r.elems| == |Explode(',', v.s)|)
    ensures kind !in KnownKinds ==> r == v
  {
    if kind == "text" || kind == "select" then
      if v.Str? then v else Bool(false)
    else if kind == "check" then
      Bool(Truthy(v))
    else if kind == "language" then
      if v.Str? && |v.s| <= 12 then v else Bool(false)
    else if kind == "array" then
      if v.Str? then Arr(TrimPieces(Explode(',', v.s)))
      else if v.Arr? then v
      else Bool(false)
    else v
  }

  /**
   * An array setting given as a comma-separated list of already trimmed, comma-free items
   * is stored as exactly those items.
   */
  lemma ArrayListRoundTrip(items: seq<string>)
    requires |items| >= 1
    requires forall i :: 0 <= i < |items| ==> ',' !in items[i] && Trim(items[i]) == items[i]
    ensures ValidateValue(Str(Implode(',', items)), "array") == Arr(StrItems(items))
  {
    ExplodeImplode(',', items);
    assert TrimPieces(items) == StrItems(items);
  }

  /** The items as PHP string values. */
  function StrItems(items: seq<string>): (r: seq<Value>)
    ensures |r| == |items|
    ensures forall i :: 0 <= i < |r| ==> r[i] == Str(items[i])
  {
    seq(|items|, i requires 0 <= i < |items| => Str(items[i]))
  }

  /** Every item of a comma-separated list is stored trimmed, in list order. */
  lemma ArrayListItems(s: string, i: int)
    requires 0 <= i < |Explode(',', s)|
    ensures ValidateValue(Str(s), "array").elems[i] == Str(Trim(Explode(',', s)[i]))
    ensures Implode(',', Explode(',', s)) == s
  {
    ImplodeExplode(',', s);
  }

  /** A value that was accepted validates to itself: stored values are normal forms. */
  lemma ValidateIdempotent(v: Value, kind: string)
    requires !Rejected(ValidateValue(v, kind))
    ensures ValidateValue(ValidateValue(v, kind), kind) == ValidateValue(v, kind)
  {
  }

  /** A check setting can be switched on but never off: every falsy value is rejected. */
  lemma CheckCannotBeCleared(v: Value)
    ensures !Rejected(ValidateValue(v, "check")) <==> ValidateValue(v, "check") == Bool(true)
    ensures Rejected(ValidateValue(Bool(false), "check"))
  {
  }

  /** The type of a catalogued setting. */
  function KindOf(available: seq<(string, SettingSpec)>, key: string): string
    requires Has(available, key)
  {
    Get(available, key).value.kind
  }

  /** `getSettings`: the wiki's overlay, or nothing for a wiki that is not registered. */
  function GetSettings(db: Db, dbname: string): (r: Settings)
    reads db
    ensures !WikiExists(db, dbname) ==> r == []
    ensures forall key :: Get(r, key) == SettingOf(db.wikis, dbname, key)
  {
    var info := GetWikiInfo(db, dbname);
    if info.None? then [] else info.value.settings
  }

  /** `getSetting`: one setting of the overlay, `null` when it is not set. */
  function GetSetting(db: Db, dbname: string, key: string): (r: Value)
    reads db
    ensures SettingOf(db.wikis, dbname, key).Some? ==> r == SettingOf(db.wikis, dbname, key).value
    ensures SettingOf(db.wikis, dbname, key).None? ==> r == Null
  {
    Get(GetSettings(db, dbname), key).GetOr(Null)
  }

  /**
   * `updateSetting`: an uncatalogued setting or a rejected value gives `false` and no
   * write; otherwise the normalised value is merged into the wiki's overlay, which gives
   * `false` only when the wiki is not registered.
   */
  method UpdateSetting(db: Db, g: Globals, dbname: string, key: string, v: Value) returns (ok: bool)
    requires db.Valid()
    modifies db`wikis
    ensures db.Valid()
    ensures ok <==>
              && Has(AvailableSettings(g.manageWikiSettings), key)
              && !Rejected(ValidateValue(v, KindOf(AvailableSettings(g.manageWikiSettings), key)))
              && Has(old(db.wikis), dbname)
    ensures !ok ==> db.wikis == old(db.wikis)
    ensures ok ==>
              var row := Get(old(db.wikis), dbname).value;
              var value := ValidateValue(v, KindOf(AvailableSettings(g.manageWikiSettings), key));
              db.wikis == Put(old(db.wikis), dbname, WithSettings(row, Merge(row.settings, [(key, value)])))
    ensures ok ==> GetSetting(db, dbname, key) == ValidateValue(v, KindOf(AvailableSettings(g.manageWikiSettings), key))
    ensures forall k :: k != key ==> SettingOf(db.wikis, dbname, k) == SettingOf(old(db.wikis), dbname, k)
  {
    var available := AvailableSettings(g.manageWikiSettings);
    if !Has(available, key) {
      return false;
    }
    var value := ValidateValue(v, Get(available, key).value.kind);
    if value == Bool(false) {
      return false;
    }
    ok := UpdateWikiSettings(db, dbname, [(key, value)]);
  }

  /**
   * The normalised values `updateSettings` keeps from `settings`: those of catalogued
   * settings whose value is not rejected, in input order.
   */
  function Validated(available: seq<(string, SettingSpec)>, settings: Settings): (r: Settings)
    ensures Distinct(r)
    ensures |r| <= |settings|
  {
    if settings == [] then []
    else
      var n := |settings| - 1;
      var r := Validated(available, settings[..n]);
      var (key, v) := settings[n];
      if Has(available, key) && !Rejected(ValidateValue(v, KindOf(available, key))) then
        Put(r, key, ValidateValue(v, KindOf(available, key)))
      else r
  }

  /** What `Validated` keeps: exactly the catalogued, accepted settings, normalised. */
  lemma {:induction false} ValidatedGet(available: seq<(string, SettingSpec)>, settings: Settings, key: string)
    requires Distinct(settings)
    ensures Get(Validated(available, settings), key) ==
      if Has(settings, key) && Has(available, key) && !Rejected(ValidateValue(Get(settings, key).value, KindOf(available, key)))
      then Some(ValidateValue(Get(settings, key).value, KindOf(available, key)))
      else None
  {
    if settings != [] {
      var n := |settings| - 1;
      var init := settings[..n];
      assert Distinct(init);
      ValidatedGet(available, init, key);
      assert !Has(init, settings[n].0) by {
        var j := IndexOf(init, settings[n].0);
        assert j < 0;
      }
      assert init + [settings[n]] == settings;
      assert settings == Put(init, settings[n].0, settings[n].1);
    }
  }

  /** The validation loop of `updateSettings`. */
  method ValidateAll(available: seq<(string, SettingSpec)>, settings: Settings) returns (validated: Settings)
    ensures validated == Validated(available, settings)
  {
    validated := [];
    var i := 0;
    while i < |settings|
      invariant 0 <= i <= |settings|
      invariant validated == Validated(available, settings[..i])
    {
      var (key, v) := settings[i];
      assert settings[..i + 1][..i] == settings[..i];
      if Has(available, key) {
        var value := ValidateValue(v, Get(available, key).value.kind);
        if value != Bool(false) {
          validated := Put(validated, key, value);
        }
      }
      i := i + 1;
    }
    assert settings[..i] == settings;
  }

  /**
   * `updateSettings`: validates every entry, silently dropping uncatalogued settings and
   * rejected values; when nothing is left it gives `false` without a write, otherwise
   * it merges what is left into the wiki's overlay.
   */
  method UpdateSettings(db: Db, g: Globals, dbname: string, settings: Settings) returns (ok: bool)
    requires db.Valid()
    requires Distinct(settings)
    modifies db`wikis
    ensures db.Valid()
    ensures ok <==> Validated(AvailableSettings(g.manageWikiSettings), settings) != [] && Has(old(db.wikis), dbname)
    ensures !ok ==> db.wikis == old(db.wikis)
    ensures ok ==>
              var row := Get(old(db.wikis), dbname).value;
              db.wikis == Put(old(db.wikis), dbname,
                WithSettings(row, Merge(row.settings, Validated(AvailableSettings(g.manageWikiSettings), settings))))
    ensures ok ==> forall key ::
                     SettingOf(db.wikis, dbname, key) ==
                     if Has(Validated(AvailableSettings(g.manageWikiSettings), settings), key)
                     then Get(Validated(AvailableSettings(g.manageWikiSettings), settings), key)
                     else SettingOf(old(db.wikis), dbname, key)
  {
    var validated := ValidateAll(AvailableSettings(g.manageWikiSettings), settings);
    if validated == [] {
      return false;
    }
    ok := UpdateWikiSettings(db, dbname, validated);
  }

  /**
   * `resetSetting`: removes the setting from the wiki's overlay, leaving every other
   * setting and every other wiki as it was. It gives `true` even for a wiki that is not
   * registered, whose row the update does not find.
   */
  method ResetSetting(db: Db, dbname: string, key: string) returns (ok: bool)
    requires db.Valid()
    modifies db`wikis
    ensures db.Valid()
    ensures ok
    ensures !Has(old(db.wikis), dbname) ==> db.wikis == old(db.wikis)
    ensures Has(old(db.wikis), dbname) ==>
              var row := Get(old(db.wikis), dbname).value;
              db.wikis == Put(old(db.wikis), dbname, WithSettings(row, Unset(row.settings, key)))
    ensures GetSetting(db, dbname, key) == Null
    ensures forall k :: k != key ==> SettingOf(db.wikis, dbname, k) == SettingOf(old(db.wikis), dbname, k)
  {
    var info := GetWikiInfo(db, dbname);
    ok := true;
    if info.None? {
      return;
    }
    var i := IndexOf(db.wikis, dbname);
    assert Distinct(info.value.settings) by { DistinctGet(db.wikis, i); }
    var current := Unset(info.value.settings, key);
    ghost var before := db.wikis;
    db.wikis := Put(db.wikis, dbname, WithSettings(info.value, current));
    assert db.wikis == before[i := (dbname, WithSettings(info.value, current))];
  }

  /**
   * `getSettingsBySection`: the catalogue split into its sections, every setting in the
   * bucket of its own section (`other` when it names none) and in no other.
   */
  method GetSettingsBySection(g: Globals) returns (sections: seq<(string, seq<(string, SettingSpec)>)>)
    requires Distinct(g.manageWikiSettings)
    ensures Distinct(sections)
    ensures forall name, key ::
              Get(Bucket(sections, name), key) ==
              var available := AvailableSettings(g.manageWikiSettings);
              if Has(available, key) && SectionName(Get(available, key).value.section) == name
              then Get(available, key) else None
  {
    var available := AvailableSettings(g.manageWikiSettings);
    var sectionOf := (s: SettingSpec) => s.section;
    sections := GroupBySection(available, sectionOf);
    forall name, key
      ensures Get(Bucket(sections, name), key) ==
                if Has(available, key) && SectionName(Get(available, key).value.section) == name
                then Get(available, key) else None
    {
      GroupByPlacement(available, sectionOf, name, key);
    }
  }
}
