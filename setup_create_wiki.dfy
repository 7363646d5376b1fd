/**
 * The start-up of every wiki process: `setupCreateWiki` loads the registry's database
 * names into `$wgLocalDatabases` and, when the process's own `$wgDBname` is registered,
 * applies that wiki's row to the configuration. `getWikiFromSubdomain` and
 * `autoDetectWikiDatabase` pick the database from the request's host name.
 */
module SetupCreateWiki {
  import opened Wrappers
  import opened Php
  import opened Assoc
  import opened Database
  import opened Globals
  import opened MirahezeFunctions
  import opened ManageWikiPermissions

  // ---------------------------------------------------------------------------------
  // Applying a wiki's row

  /** The overlay keys `applyWikiSettings` copies into the configuration. */
  const AllowedSettings: seq<string> := [
    "wgLogo", "wgDefaultSkin", "wgMetaNamespace", "wgEnableUploads", "wgFileExtensions",
    "wgUseImageMagick", "wgRightsText", "wgRightsUrl", "wgRightsIcon"]

  /** What `setupClosedWiki` stores in `$wgReadOnly`. */
  const ClosedMessage: string := "This wiki has been closed."

  /** The configuration overrides after the loop over a wiki's settings overlay. */
  function OverridesAfter(overrides: seq<(string, Value)>, settings: Settings): seq<(string, Value)> {
    if settings == [] then overrides
    else
      var n := |settings| - 1;
      var before := OverridesAfter(overrides, settings[..n]);
      if settings[n].0 in AllowedSettings then Put(before, settings[n].0, settings[n].1) else before
  }

  /**
   * Exactly the allow-listed keys of the overlay reach the configuration, with their
   * values; every other key, `wgSitename` included, is ignored.
   */
  lemma {:induction false} OverridesGet(overrides: seq<(string, Value)>, settings: Settings, key: string)
    requires Distinct(settings)
    ensures Get(OverridesAfter(overrides, settings), key) ==
              if key in AllowedSettings && Has(settings, key) then Get(settings, key) else Get(overrides, key)
  {
    if settings != [] {
      var n := |settings| - 1;
      assert Distinct(settings[..n]);
      OverridesGet(overrides, settings[..n], key);
      GetLast(settings, key);
    }
  }

  /** An overlay entry for `wgSitename` never changes the configuration. */
  lemma SitenameNotOverridden(overrides: seq<(string, Value)>, settings: Settings)
    requires Distinct(settings)
    ensures Get(OverridesAfter(overrides, settings), "wgSitename") == Get(overrides, "wgSitename")
  {
    assert "wgSitename" !in AllowedSettings;
    OverridesGet(overrides, settings, "wgSitename");
  }

  /** The loop of `applyWikiSettings` over the overlay: `$GLOBALS[$key] = $value` when allowed. */
  method ApplyOverrides(g: Globals, settings: Settings)
    modifies g`overrides
    ensures g.overrides == OverridesAfter(old(g.overrides), settings)
  {
    var i := 0;
    while i < |settings|
      invariant 0 <= i <= |settings|
      invariant g.overrides == OverridesAfter(old(g.overrides), settings[..i])
    {
      assert settings[..i + 1][..i] == settings[..i];
      var (key, value) := settings[i];
      if key in AllowedSettings {
        g.overrides := Put(g.overrides, key, value);
      }
      i := i + 1;
    }
    assert settings[..i] == settings;
  }

  /** The rights `setupPrivateWiki` sets for anonymous users. */
  const PrivateRights: seq<(string, Value)> := [("read", Bool(false)), ("createaccount", Bool(false))]

  /** `$wgGroupPermissions` after `setupPrivateWiki`. */
  function PrivatePermissions(gp: seq<(string, seq<(string, Value)>)>): seq<(string, seq<(string, Value)>)> {
    SetRights(gp, "*", PrivateRights)
  }

  /** A private wiki denies `*` reading and account creation; no other right changes. */
  lemma PrivateWikiRights(gp: seq<(string, seq<(string, Value)>)>, group: string, right: string)
    ensures Get(RightsOf(PrivatePermissions(gp), group), right) ==
              if group == "*" && (right == "read" || right == "createaccount") then Some(Bool(false))
              else Get(RightsOf(gp, group), right)
  {
    var read, create := PrivateRights[0], PrivateRights[1];
    assert PrivateRights == [read] + [create];
    assert [create] == [create] + [];
    GetCons(read, [create], right);
    GetCons(create, [], right);
    SetRightsGet(gp, "*", PrivateRights, group, right);
  }

  /** `setupPrivateWiki`: `$wgGroupPermissions['*']['read']` then `['createaccount']` set to `false`. */
  method SetupPrivateWiki(g: Globals)
    modifies g`groupPermissions
    ensures g.groupPermissions == PrivatePermissions(old(g.groupPermissions))
  {
    ghost var gp := g.groupPermissions;
    assert PrivateRights[..1][..0] == [];
    assert SetRights(gp, "*", PrivateRights[..1]) == Put(gp, "*", Put(RightsOf(gp, "*"), "read", Bool(false)));
    g.groupPermissions := Put(g.groupPermissions, "*", Put(RightsOf(g.groupPermissions, "*"), "read", Bool(false)));
    g.groupPermissions := Put(g.groupPermissions, "*", Put(RightsOf(g.groupPermissions, "*"), "createaccount", Bool(false)));
  }

  /** `setupClosedWiki`: the wiki becomes read-only with the closing message. */
  method SetupClosedWiki(g: Globals)
    modifies g`readOnly
    ensures g.readOnly == Some(ClosedMessage)
  {
    g.readOnly := Some(ClosedMessage);
  }

  /**
   * `applyWikiSettings`: the row's sitename, language and URL become `$wgSitename`,
   * `$wgLanguageCode` and `$wgServer`; allow-listed overlay keys are copied; a private
   * wiki gets the anonymous restrictions and a closed one becomes read-only.
   */
  method ApplyWikiSettings(g: Globals, info: WikiRow)
    modifies g`sitename, g`languageCode, g`server, g`overrides, g`groupPermissions, g`readOnly
    ensures g.sitename == info.sitename && g.languageCode == info.language && g.server == info.url
    ensures g.overrides == OverridesAfter(old(g.overrides), info.settings)
    ensures g.groupPermissions == if info.private then PrivatePermissions(old(g.groupPermissions)) else old(g.groupPermissions)
    ensures g.readOnly == if info.closed then Some(ClosedMessage) else old(g.readOnly)
  {
    g.sitename := info.sitename;
    g.languageCode := info.language;
    g.server := info.url;
    if info.settings != [] {
      ApplyOverrides(g, info.settings);
    }
    if info.private {
      SetupPrivateWiki(g);
    }
    if info.closed {
      SetupClosedWiki(g);
    }
  }

  /**
   * `setupCreateWiki`: defaults `$wgCreateWikiDatabase` to `createwiki`, loads every
   * registered name into `$wgLocalDatabases` (none when the registry cannot be read,
   * as during installation), and applies the current wiki's row only when its name is
   * in that list.
   */
  method SetupCreateWiki(db: Db, g: Globals, registryReadable: bool)
    modifies g`createWikiDatabase, g`localDatabases
    modifies g`sitename, g`languageCode, g`server, g`overrides, g`groupPermissions, g`readOnly
    ensures g.createWikiDatabase == Some(old(g.createWikiDatabase).GetOr("createwiki"))
    ensures registryReadable ==>
              |g.localDatabases| == |db.wikis| && forall i :: 0 <= i < |db.wikis| ==> g.localDatabases[i] == db.wikis[i].0
    ensures !registryReadable ==> g.localDatabases == []
    ensures registryReadable && Has(db.wikis, g.dbName) ==>
              var info := Get(db.wikis, g.dbName).value;
              && g.sitename == info.sitename && g.languageCode == info.language && g.server == info.url
              && g.overrides == OverridesAfter(old(g.overrides), info.settings)
              && g.groupPermissions == (if info.private then PrivatePermissions(old(g.groupPermissions)) else old(g.groupPermissions))
              && g.readOnly == (if info.closed then Some(ClosedMessage) else old(g.readOnly))
    ensures !(registryReadable && Has(db.wikis, g.dbName)) ==>
              && g.sitename == old(g.sitename) && g.languageCode == old(g.languageCode) && g.server == old(g.server)
              && g.overrides == old(g.overrides) && g.groupPermissions == old(g.groupPermissions)
              && g.readOnly == old(g.readOnly)
  {
    if g.createWikiDatabase.None? {
      g.createWikiDatabase := Some("createwiki");
    }
    g.localDatabases := [];
    if registryReadable {
      g.localDatabases := GetWikiList(db);
    }
    if g.dbName in g.localDatabases {
      assert Has(db.wikis, g.dbName) by {
        var i :| 0 <= i < |g.localDatabases| && g.localDatabases[i] == g.dbName;
        assert db.wikis[i].0 == g.dbName;
      }
      var info := GetWikiInfo(db, g.dbName);
      ApplyWikiSettings(g, info.value);
    } else if registryReadable {
      forall j | 0 <= j < |db.wikis| ensures db.wikis[j].0 != g.dbName {
        assert g.localDatabases[j] == db.wikis[j].0;
      }
    }
  }

  // ---------------------------------------------------------------------------------
  // Choosing the database from the host name

  /** A label the pattern's `([a-z0-9_]+)` matches. */
  predicate IsLabel(s: string) {
    |s| > 0 && forall i :: 0 <= i < |s| ==> IsLowerAlnumUnderscore(s[i])
  }

  /** Position of the first `.` in `s`, or -1. */
  function FirstDot(s: string): (i: int)
    ensures -1 <= i < |s|
    ensures i >= 0 ==> s[i] == '.'
    ensures forall j :: 0 <= j < |s| && (i < 0 || j < i) ==> s[j] != '.'
  {
    if s == [] then -1
    else if s[0] == '.' then 0
    else var r := FirstDot(s[1..]); if r < 0 then -1 else r + 1
  }

  /**
   * `getWikiFromSubdomain`: matches the host against `/^([a-z0-9_]+)\.<domain>$/` with
   * the domain quoted, and gives the label; nothing when no domain is configured or
   * the host does not match. Without the `D` modifier, PHP's `$` also matches before a
   * final newline, so a host ending in one newline still matches.
   */
  function GetWikiFromSubdomain(subdomain: Option<string>, host: string): (r: Option<string>)
    ensures subdomain.None? ==> r.None?
    ensures r.Some? ==>
              && IsLabel(r.value)
              && (host == r.value + "." + subdomain.value || host == r.value + "." + subdomain.value + "\n")
  {
    if subdomain.None? then None
    else
      var p := FirstDot(host);
      if p < 0 then None
      else
        var sub := host[..p];
        var rest := host[p + 1..];
        assert host == sub + "." + rest;
        if IsLabel(sub) && (rest == subdomain.value || rest == subdomain.value + "\n") then Some(sub) else None
  }

  /** Every host made of a label, a dot and the domain (and maybe a final newline) is recognised. */
  lemma GetWikiFromSubdomainComplete(domain: string, name: string, host: string)
    requires IsLabel(name)
    requires host == name + "." + domain || host == name + "." + domain + "\n"
    ensures GetWikiFromSubdomain(Some(domain), host) == Some(name)
  {
    assert forall j :: 0 <= j < |name| ==> host[j] == name[j];
    assert host[|name|] == '.';
    assert FirstDot(host) == |name|;
    assert host[..|name|] == name;
    assert host[|name| + 1..] == domain || host[|name| + 1..] == domain + "\n";
  }

  /** The host of the URL a wiki was given resolves back to the wiki's (non-empty, sanitised) name. */
  lemma DetectsGeneratedUrl(domain: string, dbname: string)
    requires SanitizedName(dbname) && dbname != ""
    ensures GenerateWikiURL(Some(domain), dbname)[|"https://"|..] == dbname + "." + domain
    ensures GetWikiFromSubdomain(Some(domain), dbname + "." + domain) == Some(dbname)
  {
    var url := GenerateWikiURL(Some(domain), dbname);
    assert url == "https://" + (dbname + "." + domain);
    GetWikiFromSubdomainComplete(domain, dbname, dbname + "." + domain);
  }

  /**
   * `autoDetectWikiDatabase`: `$wgDBname` becomes the detected label when there is one
   * and it is truthy in PHP (so the label `0` is ignored).
   */
  method AutoDetectWikiDatabase(g: Globals, host: string)
    modifies g`dbName
    ensures var detected := GetWikiFromSubdomain(g.createWikiSubdomain, host);
            g.dbName == if detected.Some? && detected.value != "0" then detected.value else old(g.dbName)
  {
    var detected := GetWikiFromSubdomain(g.createWikiSubdomain, host);
    if detected.Some? && Truthy(Str(detected.value)) {
      g.dbName := detected.value;
    }
  }
}
