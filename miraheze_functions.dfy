/**
 * The registry helpers shared by every other part of the farm: database-name
 * sanitising, URL generation, the `cw_wikis` registry (list, exists, info, add, delete,
 * settings merge), provisioning of a wiki's database, and the request listing.
 */
module MirahezeFunctions {
  import opened Wrappers
  import opened Php
  import opened Assoc
  import opened Database

  // ---------------------------------------------------------------------------------
  // Database names

  /** `preg_replace('/[^a-z0-9_]/', '', $s)`: drop every character outside `[a-z0-9_]`. */
  function StripToDbChars(s: string): (r: string)
    ensures |r| <= |s|
    ensures forall i :: 0 <= i < |r| ==> IsLowerAlnumUnderscore(r[i])
    ensures (forall i :: 0 <= i < |s| ==> IsLowerAlnumUnderscore(s[i])) ==> r == s
    ensures |s| > 0 && IsLowerAlnumUnderscore(s[0]) ==> |r| > 0 && r[0] == s[0]
  {
    if s == [] then []
    else if IsLowerAlnumUnderscore(s[0]) then [s[0]] + StripToDbChars(s[1..])
    else StripToDbChars(s[1..])
  }

  /** `is_numeric(substr($name, 0, 1))`: the name starts with a decimal digit. */
  predicate StartsWithDigit(s: string) {
    |s| > 0 && IsDigit(s[0])
  }

  /**
   * `sanitizeDBname`: lower-case, keep only `[a-z0-9_]`, prefix `wiki_` when the result
   * starts with a digit, and cut to the 64 characters MySQL allows.
   */
  function SanitizeDBname(name: string): (r: string)
    ensures |r| <= 64
    ensures forall i :: 0 <= i < |r| ==> IsLowerAlnumUnderscore(r[i])
    ensures !StartsWithDigit(r)
  {
    var stripped := StripToDbChars(ToLower(name));
    var named := if StartsWithDigit(stripped) then "wiki_" + stripped else stripped;
    Prefix(named, 64)
  }

  /** A name `SanitizeDBname` leaves alone: short, over `[a-z0-9_]`, not starting with a digit. */
  predicate SanitizedName(s: string) {
    |s| <= 64 && (forall i :: 0 <= i < |s| ==> IsLowerAlnumUnderscore(s[i])) && !StartsWithDigit(s)
  }

  /** A stripped name that starts with a digit comes back as `wiki_` followed by (a prefix of) it. */
  lemma SanitizeDigitPrefix(name: string)
    requires StartsWithDigit(StripToDbChars(ToLower(name)))
    ensures SanitizeDBname(name) == Prefix("wiki_" + StripToDbChars(ToLower(name)), 64)
    ensures SanitizeDBname(name)[..5] == "wiki_"
  {
  }

  /** Exactly the sanitised names are fixed points. */
  lemma {:induction false} SanitizeFixpoint(s: string)
    ensures SanitizeDBname(s) == s <==> SanitizedName(s)
  {
    if SanitizedName(s) {
      var lower := ToLower(s);
      assert lower == s by {
        forall i | 0 <= i < |s| ensures lower[i] == s[i] {
          assert !('A' <= s[i] <= 'Z');
        }
      }
    }
  }

  /** Sanitising twice gives the same name as sanitising once. */
  lemma SanitizeIdempotent(name: string)
    ensures SanitizeDBname(SanitizeDBname(name)) == SanitizeDBname(name)
  {
    SanitizeFixpoint(SanitizeDBname(name));
  }

  /** A lower-case name with a letter first and digits later ("testwiki123") is kept as it is. */
  lemma SanitizeKeepsTrailingDigits()
    ensures SanitizeDBname("testwiki123") == "testwiki123"
  {
    var s := "testwiki123";
    assert forall i :: 0 <= i < |s| ==> IsLowerAlnumUnderscore(s[i]);
    SanitizeFixpoint(s);
  }

  /** A clean name with a digit first gains the `wiki_` prefix and nothing else changes. */
  lemma SanitizePrefixesLeadingDigit(s: string)
    requires forall i :: 0 <= i < |s| ==> IsLowerAlnumUnderscore(s[i])
    requires StartsWithDigit(s) && |s| <= 59
    ensures SanitizeDBname(s) == "wiki_" + s
  {
    var lower := ToLower(s);
    assert lower == s by {
      forall i | 0 <= i < |s| ensures lower[i] == s[i] {
        assert !('A' <= s[i] <= 'Z');
      }
    }
  }

  // ---------------------------------------------------------------------------------
  // URLs

  /** The farm's base domain: `$wgCreateWikiSubdomain`, or `wiki.local` when it is unset. */
  function BaseDomain(configured: Option<string>): string {
    configured.GetOr("wiki.local")
  }

  /** `generateWikiURL`: `https://<subdomain>.<base domain>`. */
  function GenerateWikiURL(configured: Option<string>, subdomain: string): (url: string)
    ensures url == "https://" + subdomain + "." + BaseDomain(configured)
  {
    if configured.Some? then "https://" + subdomain + "." + configured.value
    else "https://" + subdomain + ".wiki.local"
  }

  // ---------------------------------------------------------------------------------
  // The registry

  /** `wikiExists`: a `cw_wikis` row with this name is present. */
  predicate WikiExists(db: Db, dbname: string)
    reads db
  {
    Has(db.wikis, dbname)
  }

  /** `getWikiInfo`: the registry row, or nothing (the source's `false`). */
  function GetWikiInfo(db: Db, dbname: string): (info: Option<WikiRow>)
    reads db
    ensures info.Some? <==> WikiExists(db, dbname)
    ensures info.Some? ==> (dbname, info.value) in db.wikis
  {
    Get(db.wikis, dbname)
  }

  /** `getWikiList`: every registered database name, in table order. */
  method GetWikiList(db: Db) returns (names: seq<string>)
    ensures |names| == |db.wikis|
    ensures forall i :: 0 <= i < |names| ==> names[i] == db.wikis[i].0
  {
    names := [];
    var i := 0;
    while i < |db.wikis|
      invariant 0 <= i <= |db.wikis|
      invariant |names| == i
      invariant forall j :: 0 <= j < i ==> names[j] == db.wikis[j].0
    {
      names := names + [db.wikis[i].0];
      i := i + 1;
    }
  }

  /** The array `addWiki` is given; an absent or null entry is `None`. */
  datatype NewWiki = NewWiki(
    dbname: string,
    sitename: string,
    language: string,
    private: Option<bool>,
    category: Option<string>,
    url: string,
    settings: Option<Settings>)

  /** The row `addWiki` inserts at time `now`: open, active, and `?? ` defaults for the rest. */
  function NewWikiRow(data: NewWiki, now: nat): WikiRow {
    WikiRow(
      data.sitename, data.language, data.private.GetOr(false), false, false,
      data.category.GetOr("uncategorised"), data.url, Some(now), data.settings.GetOr([]))
  }

  /**
   * `addWiki`: inserts a new registry row stamped with the current time. `cw_wikis` is keyed
   * by database name, so inserting a name that is already registered fails (the insert
   * raises); the model reports that as `false` and writes nothing.
   */
  method AddWiki(db: Db, data: NewWiki) returns (ok: bool)
    requires db.Valid()
    requires data.settings.Some? ==> Distinct(data.settings.value)
    modifies db`wikis, db`clock
    ensures db.Valid()
    ensures ok <==> !Has(old(db.wikis), data.dbname)
    ensures db.clock == old(db.clock) + 1
    ensures ok ==> db.wikis == old(db.wikis) + [(data.dbname, NewWikiRow(data, old(db.clock)))]
    ensures !ok ==> db.wikis == old(db.wikis)
  {
    var now := db.Now();
    if Has(db.wikis, data.dbname) {
      return false;
    }
    var row := NewWikiRow(data, now);
    db.wikis := Put(db.wikis, data.dbname, row);
    ok := true;
    assert forall i :: 0 <= i < |old(db.wikis)| ==> db.wikis[i] == old(db.wikis)[i];
  }

  /**
   * `deleteWiki`: removes the registry row; with `deleteTables` it also drops the
   * database, and a failing drop is only logged. It always reports success.
   */
  method DeleteWiki(db: Db, dbname: string, deleteTables: bool, dropSucceeds: bool) returns (ok: bool)
    requires db.Valid()
    modifies db`wikis, db`databases, db`populated
    ensures db.Valid()
    ensures ok
    ensures db.wikis == Unset(old(db.wikis), dbname)
    ensures !WikiExists(db, dbname)
    ensures forall other :: other != dbname ==> Get(db.wikis, other) == Get(old(db.wikis), other)
    ensures db.databases == if deleteTables && dropSucceeds then old(db.databases) - {dbname} else old(db.databases)
    ensures db.populated == if deleteTables && dropSucceeds then old(db.populated) - {dbname} else old(db.populated)
  {
    ghost var before := db.wikis;
    db.wikis := Unset(db.wikis, dbname);
    UnsetKeepsRows(before, dbname);
    if deleteTables && dropSucceeds {
      db.databases := db.databases - {dbname};
      db.populated := db.populated - {dbname};
    }
    ok := true;
  }

  /** The registry row with a new settings overlay. */
  function WithSettings(row: WikiRow, settings: Settings): WikiRow {
    row.(settings := settings)
  }

  /**
   * `updateWikiSettings`: read-modify-write of a wiki's settings overlay with
   * `array_merge`. A wiki that is not registered gives `false` and no write; otherwise
   * the update's keys override, the others keep their values, and nothing else changes.
   */
  method UpdateWikiSettings(db: Db, dbname: string, update: Settings) returns (ok: bool)
    requires db.Valid()
    requires Distinct(update)
    modifies db`wikis
    ensures db.Valid()
    ensures ok <==> Has(old(db.wikis), dbname)
    ensures !ok ==> db.wikis == old(db.wikis)
    ensures ok ==> db.wikis == Put(old(db.wikis), dbname,
      WithSettings(Get(old(db.wikis), dbname).value, Merge(Get(old(db.wikis), dbname).value.settings, update)))
    ensures ok ==> forall key ::
                     SettingOf(db.wikis, dbname, key) ==
                     if Has(update, key) then Get(update, key) else SettingOf(old(db.wikis), dbname, key)
  {
    var info := GetWikiInfo(db, dbname);
    if info.None? {
      return false;
    }
    var merged := Merge(info.value.settings, update);
    var i := IndexOf(db.wikis, dbname);
    assert Distinct(info.value.settings) by { DistinctGet(db.wikis, i); }
    ghost var before := db.wikis;
    db.wikis := Put(db.wikis, dbname, WithSettings(info.value, merged));
    assert db.wikis == before[i := (dbname, WithSettings(info.value, merged))];
    forall key ensures SettingOf(db.wikis, dbname, key) == if Has(update, key) then Get(update, key) else Get(info.value.settings, key) {
      MergeGet(info.value.settings, update, key);
    }
    ok := true;
  }

  /** `$settings[$key] ?? null` on a wiki's overlay; nothing for an unregistered wiki. */
  function SettingOf(wikis: seq<(string, WikiRow)>, dbname: string, key: string): Option<Value> {
    var info := Get(wikis, dbname);
    if info.None? then None else Get(info.value.settings, key)
  }

  // ---------------------------------------------------------------------------------
  // Provisioning

  /**
   * MySQL's `LIKE`, as `SHOW DATABASES LIKE` applies it to a database name: `_` matches
   * any one character, `%` any run of characters, `\` makes the next character literal,
   * and every other character matches itself (names compare case-sensitively).
   */
  predicate LikeMatches(pattern: string, name: string)
    decreases |pattern| + |name|
  {
    if pattern == [] then name == []
    else if pattern[0] == '%' then LikeMatches(pattern[1..], name) || (name != [] && LikeMatches(pattern, name[1..]))
    else if pattern[0] == '\\' && |pattern| >= 2 then
      name != [] && name[0] == pattern[1] && LikeMatches(pattern[2..], name[1..])
    else name != [] && (pattern[0] == '_' || name[0] == pattern[0]) && LikeMatches(pattern[1..], name[1..])
  }

  /** A character `LIKE` treats specially. */
  predicate IsLikeSpecial(c: char) {
    c == '_' || c == '%' || c == '\\'
  }

  /** `SHOW DATABASES LIKE <dbname>` returns at least one row. */
  predicate DatabaseTaken(databases: set<string>, dbname: string) {
    exists d :: d in databases && LikeMatches(dbname, d)
  }

  /** A name without a backslash matches itself, whatever `_` and `%` it holds. */
  lemma {:induction false} LikeSelf(s: string)
    requires forall i :: 0 <= i < |s| ==> s[i] != '\\'
    ensures LikeMatches(s, s)
    decreases |s|
  {
    if s != [] {
      LikeSelf(s[1..]);
      if s[0] == '%' {
        assert LikeMatches(s[1..], s[1..]);
        assert LikeMatches(s, s[1..]);
      }
    }
  }

  /** A common plain prefix (no special characters) does not change whether a pattern matches. */
  lemma {:induction false} LikePlainPrefix(pre: string, pattern: string, name: string)
    requires forall i :: 0 <= i < |pre| ==> !IsLikeSpecial(pre[i])
    ensures LikeMatches(pre + pattern, pre + name) <==> LikeMatches(pattern, name)
    decreases |pre|
  {
    if pre != [] {
      var p, n := pre + pattern, pre + name;
      assert p[0] == pre[0] && n[0] == pre[0] && !IsLikeSpecial(p[0]);
      assert p[1..] == pre[1..] + pattern;
      assert n[1..] == pre[1..] + name;
      assert LikeMatches(p, n) == LikeMatches(p[1..], n[1..]);
      LikePlainPrefix(pre[1..], pattern, name);
    } else {
      assert pre + pattern == pattern && pre + name == name;
    }
  }

  /** `_` in a name stands for any character: `wiki_1` also matches `wikix1`. */
  lemma UnderscoreMatchesAny(pre: string, post: string, c: char)
    requires forall i :: 0 <= i < |pre| ==> !IsLikeSpecial(pre[i])
    requires forall i :: 0 <= i < |post| ==> post[i] != '\\'
    ensures LikeMatches(pre + "_" + post, pre + [c] + post)
  {
    LikePlainPrefix(pre, "_" + post, [c] + post);
    assert pre + "_" + post == pre + ("_" + post);
    assert pre + [c] + post == pre + ([c] + post);
    LikeSelf(post);
    assert ("_" + post)[1..] == post && ([c] + post)[1..] == post;
  }

  /** Without special characters, `LIKE` is equality. */
  lemma {:induction false} LikePlain(pattern: string, name: string)
    requires forall i :: 0 <= i < |pattern| ==> !IsLikeSpecial(pattern[i])
    ensures LikeMatches(pattern, name) <==> pattern == name
    decreases |pattern|
  {
    if pattern != [] && name != [] {
      LikePlain(pattern[1..], name[1..]);
      if pattern[0] == name[0] && pattern[1..] == name[1..] {
        assert pattern == [pattern[0]] + pattern[1..] && name == [name[0]] + name[1..];
      }
    }
  }

  /** A database of exactly that name is always found (for names without a backslash). */
  lemma TakenWhenPresent(databases: set<string>, dbname: string)
    requires forall i :: 0 <= i < |dbname| ==> dbname[i] != '\\'
    requires dbname in databases
    ensures DatabaseTaken(databases, dbname)
  {
    LikeSelf(dbname);
  }

  /** A name with `_` is refused when a database differs from it only there. */
  lemma WildcardNeighbourTaken()
    ensures DatabaseTaken({"wikix1"}, "wiki_1")
  {
    UnderscoreMatchesAny("wiki", "1", 'x');
    assert "wiki" + "_" + "1" == "wiki_1" && "wiki" + ['x'] + "1" == "wikix1";
  }

  /** For a name without special characters the check is plain membership. */
  lemma TakenPlain(databases: set<string>, dbname: string)
    requires forall i :: 0 <= i < |dbname| ==> !IsLikeSpecial(dbname[i])
    ensures DatabaseTaken(databases, dbname) <==> dbname in databases
  {
    if DatabaseTaken(databases, dbname) {
      var d :| d in databases && LikeMatches(dbname, d);
      LikePlain(dbname, d);
    }
    if dbname in databases {
      LikePlain(dbname, dbname);
    }
  }

  /**
   * `createWikiDB`: refuses when `SHOW DATABASES LIKE <dbname>` finds any database (so a
   * `_` in the name also hits names with another character there); otherwise creates the
   * database, and a failing connection or query gives `false`.
   */
  method CreateWikiDB(db: Db, dbname: string, server: Provision) returns (ok: bool)
    modifies db`databases
    ensures ok <==> !DatabaseTaken(old(db.databases), dbname) && server.createSucceeds
    ensures db.databases == if ok then old(db.databases) + {dbname} else old(db.databases)
  {
    if DatabaseTaken(db.databases, dbname) {
      return false;
    }
    if !server.createSucceeds {
      return false;
    }
    db.databases := db.databases + {dbname};
    ok := true;
  }

  /**
   * `populateWikiDB`: loads MediaWiki's `tables.sql` into the database. It fails when no
   * `tables.sql` is found, when the database cannot be connected to (it does not exist),
   * or when sourcing the file fails.
   */
  method PopulateWikiDB(db: Db, dbname: string, server: Provision) returns (ok: bool)
    modifies db`populated
    ensures ok <==> server.tablesSqlFound && dbname in db.databases && server.populateSucceeds
    ensures db.populated == if ok then old(db.populated) + {dbname} else old(db.populated)
  {
    if !server.tablesSqlFound {
      return false;
    }
    if dbname !in db.databases || !server.populateSucceeds {
      return false;
    }
    db.populated := db.populated + {dbname};
    ok := true;
  }

  /** The databases after `createWikiDB`: one more when it succeeds. */
  function AfterCreate(databases: set<string>, dbname: string, server: Provision): set<string> {
    if !DatabaseTaken(databases, dbname) && server.createSucceeds then databases + {dbname} else databases
  }

  /** The populated databases after `createWikiDB` then `populateWikiDB`. */
  function AfterPopulate(databases: set<string>, populated: set<string>, dbname: string, server: Provision): set<string> {
    if !DatabaseTaken(databases, dbname) && server.createSucceeds && server.tablesSqlFound && server.populateSucceeds
    then populated + {dbname} else populated
  }

  // ---------------------------------------------------------------------------------
  // Request listing

  /** One element of `getWikiRequests`' result. */
  datatype RequestSummary = RequestSummary(
    id: nat, dbname: string, sitename: string, language: string, category: string,
    requester: int, reason: string, status: string, timestamp: nat, comment: string)

  function Summarize(id: nat, r: RequestRow): RequestSummary {
    RequestSummary(id, r.dbname, r.sitename, r.language, r.category, r.user, r.reason,
      StatusName(r.status), r.timestamp, r.comment)
  }

  /** The `WHERE` of `getWikiRequests`: a truthy status filters on `cw_status`, any other lists all. */
  predicate StatusMatches(filter: string, r: RequestRow) {
    !Truthy(Str(filter)) || StatusName(r.status) == filter
  }

  /** The matching requests at positions `lo` and up, latest first. */
  function LatestFirst(requests: seq<RequestRow>, filter: string, lo: nat): seq<RequestSummary>
    decreases |requests| - lo
  {
    if lo >= |requests| then []
    else
      var rest := LatestFirst(requests, filter, lo + 1);
      if StatusMatches(filter, requests[lo]) then rest + [Summarize(lo + 1, requests[lo])] else rest
  }

  /**
   * `getWikiRequests`: the requests whose status matches, `ORDER BY cw_timestamp DESC`.
   * Timestamps increase with the id, so the selection is a scan from the newest row.
   */
  method GetWikiRequests(db: Db, filter: string) returns (result: seq<RequestSummary>)
    ensures result == LatestFirst(db.requests, filter, 0)
  {
    result := [];
    var i := |db.requests|;
    while i > 0
      invariant 0 <= i <= |db.requests|
      invariant result == LatestFirst(db.requests, filter, i)
    {
      i := i - 1;
      if StatusMatches(filter, db.requests[i]) {
        result := result + [Summarize(i + 1, db.requests[i])];
      }
    }
  }

  /** Everything `LatestFirst` lists is a matching request, summarised under its own id. */
  lemma {:induction false} LatestFirstSound(requests: seq<RequestRow>, filter: string, lo: nat)
    ensures forall k :: 0 <= k < |LatestFirst(requests, filter, lo)| ==>
      var s := LatestFirst(requests, filter, lo)[k];
      lo < s.id <= |requests| && s == Summarize(s.id, requests[s.id - 1])
      && StatusMatches(filter, requests[s.id - 1])
    decreases |requests| - lo
  {
    if lo < |requests| {
      LatestFirstSound(requests, filter, lo + 1);
    }
  }

  /** Every matching request at position `lo` or later is listed. */
  lemma {:induction false} LatestFirstComplete(requests: seq<RequestRow>, filter: string, lo: nat, i: nat)
    requires lo <= i < |requests| && StatusMatches(filter, requests[i])
    ensures Summarize(i + 1, requests[i]) in LatestFirst(requests, filter, lo)
    decreases |requests| - lo
  {
    if lo < i {
      LatestFirstComplete(requests, filter, lo + 1, i);
    }
  }

  /** With timestamps increasing by id, the listing is in strictly decreasing timestamp order. */
  lemma {:induction false} LatestFirstOrdered(requests: seq<RequestRow>, filter: string, lo: nat)
    requires forall i, j :: 0 <= i < j < |requests| ==> requests[i].timestamp < requests[j].timestamp
    ensures forall k, l :: 0 <= k < l < |LatestFirst(requests, filter, lo)| ==>
      LatestFirst(requests, filter, lo)[k].timestamp > LatestFirst(requests, filter, lo)[l].timestamp
    decreases |requests| - lo
  {
    if lo < |requests| {
      LatestFirstOrdered(requests, filter, lo + 1);
      LatestFirstSound(requests, filter, lo + 1);
    }
  }

  /** The default filter, `pending`, lists exactly the pending requests. */
  lemma PendingFilter(r: RequestRow)
    ensures StatusMatches("pending", r) <==> r.status == Pending
  {
  }

  /** An empty filter (and, being falsy, `"0"`) lists every request. */
  lemma FalsyFilterListsAll(requests: seq<RequestRow>, i: nat)
    requires i < |requests|
    ensures Summarize(i + 1, requests[i]) in LatestFirst(requests, "", 0)
    ensures Summarize(i + 1, requests[i]) in LatestFirst(requests, "0", 0)
  {
    LatestFirstComplete(requests, "", 0, i);
    LatestFirstComplete(requests, "0", 0, i);
  }
}
