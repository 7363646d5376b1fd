/**
 * Per-wiki extensions. Every catalogued extension is switched by one boolean setting
 * (its toggle, such as `wmgUseCite`) in the wiki's settings overlay; an extension is
 * enabled when its toggle is set to a true value. Enabling checks the extension's
 * requirements and conflicts against what is enabled already.
 */
module ManageWikiExtensions {
  import opened Wrappers
  import opened Php
  import opened Assoc
  import opened Database
  import opened Globals
  import opened MirahezeFunctions
  import opened Sections

  /** A built-in catalogue entry: documented on mediawiki.org, no conflicts, no requirements. */
  function Builtin(name: string, toggle: string, section: string): ExtensionSpec {
    ExtensionSpec(name, "https://www.mediawiki.org/wiki/Extension:" + name, toggle, [], [], Some(section))
  }

  /** The built-in catalogue: ten extensions. */
  const DefaultExtensions: seq<(string, ExtensionSpec)> := [
    ("Cite", Builtin("Cite", "wmgUseCite", "parserhooks")),
    ("CodeEditor", Builtin("CodeEditor", "wmgUseCodeEditor", "editor")),
    ("Gadgets", Builtin("Gadgets", "wmgUseGadgets", "other")),
    ("ImageMap", Builtin("ImageMap", "wmgUseImageMap", "media")),
    ("InputBox", Builtin("InputBox", "wmgUseInputBox", "parserhooks")),
    ("ParserFunctions", Builtin("ParserFunctions", "wmgUseParserFunctions", "parserhooks")),
    ("Scribunto", Builtin("Scribunto", "wmgUseScribunto", "parserhooks")),
    ("TemplateData", Builtin("TemplateData", "wmgUseTemplateData", "parserhooks")),
    ("VisualEditor", Builtin("VisualEditor", "wmgUseVisualEditor", "editor")),
    ("WikiEditor", Builtin("WikiEditor", "wmgUseWikiEditor", "editor"))
  ]

  /** `getAvailableExtensions`: the configured catalogue, or the built-in one when it is empty. */
  function AvailableExtensions(configured: seq<(string, ExtensionSpec)>): (r: seq<(string, ExtensionSpec)>)
    ensures configured != [] ==> r == configured
    ensures configured == [] ==> |r| == 10 && Distinct(r)
  {
    if configured == [] then DefaultExtensions else configured
  }

  /** `isset($settings[$var]) && $settings[$var]`: the toggle is set to a true value. */
  predicate IsOn(settings: Settings, toggle: string) {
    Truthy(Get(settings, toggle).GetOr(Null))
  }

  /** The catalogue keys whose toggle is on in `settings`, in catalogue order. */
  function EnabledIn(available: seq<(string, ExtensionSpec)>, settings: Settings): (r: seq<string>)
    ensures |r| <= |available|
    ensures forall i :: 0 <= i < |r| ==> Has(available, r[i])
  {
    if available == [] then []
    else
      var n := |available| - 1;
      var r := EnabledIn(available[..n], settings);
      assert forall i :: 0 <= i < |r| ==> Has(available, r[i]) by {
        forall i | 0 <= i < |r| ensures Has(available, r[i]) {
          var j := IndexOf(available[..n], r[i]);
          assert available[j].0 == r[i];
        }
      }
      if IsOn(settings, available[n].1.toggle) then r + [available[n].0] else r
  }

  /**
   * An extension of a catalogue with unique keys is listed exactly when it is catalogued
   * and its own toggle is on.
   */
  lemma {:induction false} EnabledInMembership(available: seq<(string, ExtensionSpec)>, settings: Settings, ext: string)
    requires Distinct(available)
    ensures ext in EnabledIn(available, settings) <==> Has(available, ext) && IsOn(settings, Get(available, ext).value.toggle)
  {
    if available != [] {
      var n := |available| - 1;
      var init := available[..n];
      assert Distinct(init);
      EnabledInMembership(init, settings, ext);
      assert !Has(init, available[n].0) by {
        var j := IndexOf(init, available[n].0);
        assert j < 0;
      }
      assert init + [available[n]] == available;
      assert available == Put(init, available[n].0, available[n].1);
    }
  }

  /** What `getEnabledExtensions` lists: nothing for a missing wiki or an empty overlay. */
  function EnabledFor(wikis: seq<(string, WikiRow)>, available: seq<(string, ExtensionSpec)>, dbname: string): seq<string> {
    var info := Get(wikis, dbname);
    if info.None? || info.value.settings == [] then [] else EnabledIn(available, info.value.settings)
  }

  /** An extension is listed for a wiki exactly when it is catalogued and the wiki has its toggle on. */
  lemma EnabledForMembership(wikis: seq<(string, WikiRow)>, available: seq<(string, ExtensionSpec)>, dbname: string, ext: string)
    requires Distinct(available)
    ensures ext in EnabledFor(wikis, available, dbname) <==>
              && Has(available, ext)
              && Truthy(SettingOf(wikis, dbname, Get(available, ext).value.toggle).GetOr(Null))
  {
    var info := Get(wikis, dbname);
    if info.Some? {
      EnabledInMembership(available, info.value.settings, ext);
    }
  }

  /** `getEnabledExtensions`: the loop over the catalogue. */
  method GetEnabledExtensions(db: Db, g: Globals, dbname: string) returns (enabled: seq<string>)
    ensures enabled == EnabledFor(db.wikis, AvailableExtensions(g.manageWikiExtensions), dbname)
  {
    var info := GetWikiInfo(db, dbname);
    if info.None? || info.value.settings == [] {
      return [];
    }
    var settings := info.value.settings;
    var available := AvailableExtensions(g.manageWikiExtensions);
    enabled := [];
    var i := 0;
    while i < |available|
      invariant 0 <= i <= |available|
      invariant enabled == EnabledIn(available[..i], settings)
    {
      assert available[..i + 1][..i] == available[..i];
      if IsOn(settings, available[i].1.toggle) {
        enabled := enabled + [available[i].0];
      }
      i := i + 1;
    }
    assert available[..i] == available;
  }

  /** `in_array` over a list of names, as the requirement and conflict loops use it. */
  method AllListed(names: seq<string>, listed: seq<string>) returns (all: bool)
    ensures all <==> forall x :: x in names ==> x in listed
  {
    var i := 0;
    while i < |names|
      invariant 0 <= i <= |names|
      invariant forall j :: 0 <= j < i ==> names[j] in listed
    {
      if names[i] !in listed {
        return false;
      }
      i := i + 1;
    }
    return true;
  }

  method NoneListed(names: seq<string>, listed: seq<string>) returns (none: bool)
    ensures none <==> forall x :: x in names ==> x !in listed
  {
    var i := 0;
    while i < |names|
      invariant 0 <= i <= |names|
      invariant forall j :: 0 <= j < i ==> names[j] !in listed
    {
      if names[i] in listed {
        return false;
      }
      i := i + 1;
    }
    return true;
  }

  /** Writing an extension's toggle decides whether the wiki lists it as enabled. */
  lemma ToggleDecides(wikis: seq<(string, WikiRow)>, available: seq<(string, ExtensionSpec)>, dbname: string, ext: string, on: bool)
    requires Distinct(available) && Has(available, ext) && Has(wikis, dbname)
    ensures var row := Get(wikis, dbname).value;
            var toggle := Get(available, ext).value.toggle;
            var after := Put(wikis, dbname, WithSettings(row, Merge(row.settings, [(toggle, Bool(on))])));
            ext in EnabledFor(after, available, dbname) <==> on
  {
    var row := Get(wikis, dbname).value;
    var toggle := Get(available, ext).value.toggle;
    var after := Put(wikis, dbname, WithSettings(row, Merge(row.settings, [(toggle, Bool(on))])));
    MergeGet(row.settings, [(toggle, Bool(on))], toggle);
    EnabledForMembership(after, available, dbname, ext);
  }

  /**
   * The requirement and conflict checks of `enableExtension`: every required extension
   * is enabled and no conflicting one is. Reads the registry and changes nothing.
   */
  method DependenciesAllow(db: Db, g: Globals, dbname: string, spec: ExtensionSpec) returns (allowed: bool)
    ensures allowed <==>
              var enabled := EnabledFor(db.wikis, AvailableExtensions(g.manageWikiExtensions), dbname);
              && (forall r :: r in spec.required ==> r in enabled)
              && (forall c :: c in spec.conflicts ==> c !in enabled)
  {
    if spec.required != [] {
      var enabled := GetEnabledExtensions(db, g, dbname);
      var met := AllListed(spec.required, enabled);
      if !met {
        return false;
      }
    }
    if spec.conflicts != [] {
      var enabled := GetEnabledExtensions(db, g, dbname);
      var clear := NoneListed(spec.conflicts, enabled);
      if !clear {
        return false;
      }
    }
    return true;
  }

  /**
   * `enableExtension`: an uncatalogued extension, a requirement that is not enabled, or
   * a conflicting extension that is enabled gives `false` and no write; otherwise the
   * toggle is set to `true`, which gives `false` only for a wiki that is not registered.
   * Afterwards the extension is listed as enabled.
   */
  method EnableExtension(db: Db, g: Globals, dbname: string, ext: string) returns (ok: bool)
    requires db.Valid()
    requires Distinct(g.manageWikiExtensions)
    modifies db`wikis
    ensures db.Valid()
    ensures ok <==>
              var available := AvailableExtensions(g.manageWikiExtensions);
              var enabled := EnabledFor(old(db.wikis), available, dbname);
              && Has(available, ext)
              && (forall r :: r in Get(available, ext).value.required ==> r in enabled)
              && (forall c :: c in Get(available, ext).value.conflicts ==> c !in enabled)
              && Has(old(db.wikis), dbname)
    ensures !ok ==> db.wikis == old(db.wikis)
    ensures ok ==>
              var row := Get(old(db.wikis), dbname).value;
              var toggle := Get(AvailableExtensions(g.manageWikiExtensions), ext).value.toggle;
              db.wikis == Put(old(db.wikis), dbname, WithSettings(row, Merge(row.settings, [(toggle, Bool(true))])))
    ensures ok ==> ext in EnabledFor(db.wikis, AvailableExtensions(g.manageWikiExtensions), dbname)
  {
    var available := AvailableExtensions(g.manageWikiExtensions);
    if !Has(available, ext) {
      return false;
    }
    var spec := Get(available, ext).value;
    var allowed := DependenciesAllow(db, g, dbname, spec);
    if !allowed {
      return false;
    }
    ghost var before := db.wikis;
    ok := UpdateWikiSettings(db, dbname, [(spec.toggle, Bool(true))]);
    if ok {
      ToggleDecides(before, available, dbname, ext, true);
    }
  }

  /**
   * `disableExtension`: an uncatalogued extension gives `false`; otherwise the toggle is
   * set to `false`, after which the extension is no longer listed as enabled.
   */
  method DisableExtension(db: Db, g: Globals, dbname: string, ext: string) returns (ok: bool)
    requires db.Valid()
    requires Distinct(g.manageWikiExtensions)
    modifies db`wikis
    ensures db.Valid()
    ensures ok <==> Has(AvailableExtensions(g.manageWikiExtensions), ext) && Has(old(db.wikis), dbname)
    ensures !ok ==> db.wikis == old(db.wikis)
    ensures ok ==>
              var row := Get(old(db.wikis), dbname).value;
              var toggle := Get(AvailableExtensions(g.manageWikiExtensions), ext).value.toggle;
              db.wikis == Put(old(db.wikis), dbname, WithSettings(row, Merge(row.settings, [(toggle, Bool(false))])))
    ensures ok ==> ext !in EnabledFor(db.wikis, AvailableExtensions(g.manageWikiExtensions), dbname)
  {
    var available := AvailableExtensions(g.manageWikiExtensions);
    if !Has(available, ext) {
      return false;
    }
    var spec := Get(available, ext).value;
    ghost var before := db.wikis;
    ok := UpdateWikiSettings(db, dbname, [(spec.toggle, Bool(false))]);
    if ok {
      ToggleDecides(before, available, dbname, ext, false);
    }
  }

  /**
   * `getExtensionsBySection`: the catalogue split into its sections, every extension in
   * the bucket of its own section (`other` when it names none) and in no other.
   */
  method GetExtensionsBySection(g: Globals) returns (sections: seq<(string, seq<(string, ExtensionSpec)>)>)
    requires Distinct(g.manageWikiExtensions)
    ensures Distinct(sections)
    ensures forall name, key ::
              Get(Bucket(sections, name), key) ==
              var available := AvailableExtensions(g.manageWikiExtensions);
              if Has(available, key) && SectionName(Get(available, key).value.section) == name
              then Get(available, key) else None
  {
    var available := AvailableExtensions(g.manageWikiExtensions);
    var sectionOf := (e: ExtensionSpec) => e.section;
    sections := GroupBySection(available, sectionOf);
    forall name, key
      ensures Get(Bucket(sections, name), key) ==
                if Has(available, key) && SectionName(Get(available, key).value.section) == name
                then Get(available, key) else None
    {
      GroupByPlacement(available, sectionOf, name, key);
    }
  }
}
