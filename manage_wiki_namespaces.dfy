/**
 * Custom namespaces. A wiki's custom namespaces live in `mw_namespaces`, keyed by the
 * wiki and an even id of at least 3000; the odd id above each is its talk namespace.
 * `applyNamespaces` turns a wiki's rows into MediaWiki's namespace globals.
 */
module ManageWikiNamespaces {
  import opened Wrappers
  import opened Php
  import opened Assoc
  import opened Database
  import opened Globals
  import opened MirahezeFunctions

  // ---------------------------------------------------------------------------------
  // Reading

  /** `getNamespace`: the wiki's row for this id, or nothing (the source's `false`). */
  function GetNamespace(db: Db, dbname: string, id: int): (r: Option<NamespaceRow>)
    reads db
    ensures r.Some? ==> ((dbname, id), r.value) in db.namespaces
    ensures r.None? ==> forall j :: 0 <= j < |db.namespaces| ==> db.namespaces[j].0 != (dbname, id)
  {
    Get(db.namespaces, (dbname, id))
  }

  /** Ids in strictly increasing order (so no id twice). */
  predicate SortedIds(s: seq<(int, NamespaceRow)>) {
    forall i, j :: 0 <= i < j < |s| ==> s[i].0 < s[j].0
  }

  lemma SortedDistinct(s: seq<(int, NamespaceRow)>)
    requires SortedIds(s)
    ensures Distinct(s)
  {
  }

  /** `$namespaces[$id] = $row` on an id-ordered array: replaces the id's row or inserts it in order. */
  function Upsert(s: seq<(int, NamespaceRow)>, id: int, row: NamespaceRow): (r: seq<(int, NamespaceRow)>)
    ensures r != [] && r[0].0 == if s == [] || id <= s[0].0 then id else s[0].0
    ensures SortedIds(s) ==> SortedIds(r)
    ensures SortedIds(s) ==> forall x :: Get(r, x) == if x == id then Some(row) else Get(s, x)
  {
    if s == [] || id < s[0].0 then
      var r := [(id, row)] + s;
      assert forall x :: Get(r, x) == if x == id then Some(row) else Get(s, x) by {
        forall x ensures Get(r, x) == if x == id then Some(row) else Get(s, x) {
          GetCons((id, row), s, x);
        }
      }
      r
    else if id == s[0].0 then
      var r := [(id, row)] + s[1..];
      assert forall x :: Get(r, x) == if x == id then Some(row) else Get(s, x) by {
        assert [s[0]] + s[1..] == s;
        forall x ensures Get(r, x) == if x == id then Some(row) else Get(s, x) {
          GetCons((id, row), s[1..], x);
          GetCons(s[0], s[1..], x);
        }
      }
      r
    else
      var rest := Upsert(s[1..], id, row);
      var r := [s[0]] + rest;
      assert SortedIds(s) ==> SortedIds(r) by {
        if SortedIds(s) {
          assert SortedIds(s[1..]);
          forall j | 0 < j < |r| ensures r[0].0 < r[j].0 {
            assert r[j] == rest[j - 1];
            assert rest[0].0 <= rest[j - 1].0;
          }
        }
      }
      assert SortedIds(s) ==> forall x :: Get(r, x) == if x == id then Some(row) else Get(s, x) by {
        if SortedIds(s) {
          assert SortedIds(s[1..]);
          assert [s[0]] + s[1..] == s;
          forall x ensures Get(r, x) == if x == id then Some(row) else Get(s, x) {
            GetCons(s[0], rest, x);
            GetCons(s[0], s[1..], x);
          }
        }
      }
      r
  }

  /** The wiki's rows as `getNamespaces` returns them: keyed by id, in id order. */
  function NamespacesOf(table: seq<((string, int), NamespaceRow)>, dbname: string): seq<(int, NamespaceRow)> {
    if table == [] then []
    else
      var n := |table| - 1;
      var s := NamespacesOf(table[..n], dbname);
      if table[n].0.0 == dbname then Upsert(s, table[n].0.1, table[n].1) else s
  }

  /** `getNamespaces` lists exactly the wiki's rows, each under its id, in increasing id order. */
  lemma {:induction false} NamespacesOfExact(table: seq<((string, int), NamespaceRow)>, dbname: string)
    requires Distinct(table)
    ensures SortedIds(NamespacesOf(table, dbname))
    ensures forall id :: Get(NamespacesOf(table, dbname), id) == Get(table, (dbname, id))
  {
    if table != [] {
      var n := |table| - 1;
      var init := table[..n];
      assert Distinct(init);
      NamespacesOfExact(init, dbname);
      assert !Has(init, table[n].0) by {
        var j := IndexOf(init, table[n].0);
        assert j < 0;
      }
      assert init + [table[n]] == table;
      assert table == Put(init, table[n].0, table[n].1);
    }
  }

  /** Under the registry's invariant, every listed id is a custom one. */
  lemma NamespacesOfCustom(table: seq<((string, int), NamespaceRow)>, dbname: string)
    requires Distinct(table)
    requires forall i :: 0 <= i < |table| ==> CustomNamespaceId(table[i].0.1)
    ensures forall k :: 0 <= k < |NamespacesOf(table, dbname)| ==> CustomNamespaceId(NamespacesOf(table, dbname)[k].0)
  {
    var s := NamespacesOf(table, dbname);
    NamespacesOfExact(table, dbname);
    SortedDistinct(s);
    forall k | 0 <= k < |s| ensures CustomNamespaceId(s[k].0) {
      DistinctGet(s, k);
      assert ((dbname, s[k].0), s[k].1) in table;
    }
  }

  /** `getNamespaces`: the rows read back in id order, keyed by id. */
  method GetNamespaces(db: Db, dbname: string) returns (namespaces: seq<(int, NamespaceRow)>)
    requires db.Valid()
    ensures namespaces == NamespacesOf(db.namespaces, dbname)
    ensures SortedIds(namespaces)
    ensures forall id :: Get(namespaces, id) == GetNamespace(db, dbname, id)
  {
    namespaces := [];
    var i := 0;
    while i < |db.namespaces|
      invariant 0 <= i <= |db.namespaces|
      invariant namespaces == NamespacesOf(db.namespaces[..i], dbname)
    {
      assert db.namespaces[..i + 1][..i] == db.namespaces[..i];
      var (key, row) := db.namespaces[i];
      if key.0 == dbname {
        namespaces := Upsert(namespaces, key.1, row);
      }
      i := i + 1;
    }
    assert db.namespaces[..i] == db.namespaces;
    NamespacesOfExact(db.namespaces, dbname);
  }

  // ---------------------------------------------------------------------------------
  // Writing

  /** `$data` for `addNamespace`; `null` stands for an absent flag, as `??` treats them alike. */
  datatype NamespaceData = NamespaceData(
    name: string,
    searchable: Value,
    subpages: Value,
    content: Value,
    protection: Option<string>,
    aliases: Option<seq<string>>)

  /** `$v ?? $default` stored in a flag column. */
  function FlagOr(v: Value, default: bool): bool {
    if v.Null? then default else Truthy(v)
  }

  /** The inserted row: searchable and with subpages unless told otherwise, not content, no protection, no aliases. */
  function NewNamespaceRow(data: NamespaceData): NamespaceRow {
    NamespaceRow(
      data.name,
      FlagOr(data.searchable, true),
      FlagOr(data.subpages, true),
      FlagOr(data.content, false),
      data.protection.GetOr(""),
      data.aliases.GetOr([]))
  }

  /**
   * `addNamespace`: an id below 3000 or an odd id gives `false`, as does an id the wiki
   * already has; otherwise the row is inserted and `true` returned.
   */
  method AddNamespace(db: Db, dbname: string, id: int, data: NamespaceData) returns (ok: bool)
    requires db.Valid()
    modifies db`namespaces
    ensures db.Valid()
    ensures ok <==> CustomNamespaceId(id) && !Has(old(db.namespaces), (dbname, id))
    ensures !ok ==> db.namespaces == old(db.namespaces)
    ensures ok ==> db.namespaces == old(db.namespaces) + [((dbname, id), NewNamespaceRow(data))]
    ensures ok ==> GetNamespace(db, dbname, id) == Some(NewNamespaceRow(data))
  {
    if id < 3000 {
      return false;
    }
    if id % 2 != 0 {
      return false;
    }
    var existing := GetNamespace(db, dbname, id);
    if existing.Some? {
      return false;
    }
    db.namespaces := Put(db.namespaces, (dbname, id), NewNamespaceRow(data));
    ok := true;
  }

  /** `$data` for `updateNamespace`: a field is changed only when it is set (`isset`). */
  datatype NamespaceUpdate = NamespaceUpdate(
    name: Option<string>,
    searchable: Value,
    subpages: Value,
    content: Value,
    protection: Option<string>,
    aliases: Option<seq<string>>)

  /** Nothing is set, so `$updateData` stays empty. */
  predicate NoChange(u: NamespaceUpdate) {
    u.name.None? && u.searchable.Null? && u.subpages.Null? && u.content.Null? && u.protection.None? && u.aliases.None?
  }

  /** The row after the update: set fields replaced (flags by their truth value), the rest kept. */
  function Updated(row: NamespaceRow, u: NamespaceUpdate): NamespaceRow {
    NamespaceRow(
      u.name.GetOr(row.name),
      FlagOr(u.searchable, row.searchable),
      FlagOr(u.subpages, row.subpages),
      FlagOr(u.content, row.content),
      u.protection.GetOr(row.protection),
      u.aliases.GetOr(row.aliases))
  }

  /** Applying the same update twice is applying it once. */
  lemma UpdatedIdempotent(row: NamespaceRow, u: NamespaceUpdate)
    ensures Updated(Updated(row, u), u) == Updated(row, u)
  {
  }

  /** An update with nothing set would change nothing. */
  lemma NoChangeKeepsRow(row: NamespaceRow, u: NamespaceUpdate)
    requires NoChange(u)
    ensures Updated(row, u) == row
  {
  }

  /**
   * `updateNamespace`: with nothing to change it gives `false`; otherwise it updates the
   * wiki's row for the id, if there is one, and gives `true` either way.
   */
  method UpdateNamespace(db: Db, dbname: string, id: int, u: NamespaceUpdate) returns (ok: bool)
    requires db.Valid()
    modifies db`namespaces
    ensures db.Valid()
    ensures ok <==> !NoChange(u)
    ensures db.namespaces ==
              if ok && Has(old(db.namespaces), (dbname, id))
              then Put(old(db.namespaces), (dbname, id), Updated(Get(old(db.namespaces), (dbname, id)).value, u))
              else old(db.namespaces)
    ensures GetNamespace(db, dbname, id) ==
              var before := Get(old(db.namespaces), (dbname, id));
              if ok && before.Some? then Some(Updated(before.value, u)) else before
    ensures forall k :: k != (dbname, id) ==> Get(db.namespaces, k) == Get(old(db.namespaces), k)
  {
    if NoChange(u) {
      return false;
    }
    var row := GetNamespace(db, dbname, id);
    if row.Some? {
      var i := IndexOf(db.namespaces, (dbname, id));
      ghost var before := db.namespaces;
      db.namespaces := Put(db.namespaces, (dbname, id), Updated(row.value, u));
      assert db.namespaces == before[i := ((dbname, id), Updated(row.value, u))];
    }
    ok := true;
  }

  /**
   * `deleteNamespace`: an id below 3000 gives `false`; otherwise the wiki's row for the
   * id is deleted, if there is one, and `true` returned.
   */
  method DeleteNamespace(db: Db, dbname: string, id: int) returns (ok: bool)
    requires db.Valid()
    modifies db`namespaces
    ensures db.Valid()
    ensures ok <==> id >= 3000
    ensures db.namespaces == if ok then Unset(old(db.namespaces), (dbname, id)) else old(db.namespaces)
    ensures ok ==> GetNamespace(db, dbname, id) == None
    ensures forall k :: k != (dbname, id) ==> Get(db.namespaces, k) == Get(old(db.namespaces), k)
  {
    if id < 3000 {
      return false;
    }
    UnsetKeepsRows(db.namespaces, (dbname, id));
    db.namespaces := Unset(db.namespaces, (dbname, id));
    ok := true;
  }

  /** `MAX(ns_namespace_id)` over the wiki's rows; nothing when it has none. */
  function MaxNamespaceId(table: seq<((string, int), NamespaceRow)>, dbname: string): (m: Option<int>)
    ensures m.None? <==> forall j :: 0 <= j < |table| ==> table[j].0.0 != dbname
    ensures m.Some? ==> forall j :: 0 <= j < |table| && table[j].0.0 == dbname ==> table[j].0.1 <= m.value
    ensures m.Some? ==> Has(table, (dbname, m.value))
  {
    if table == [] then None
    else
      var n := |table| - 1;
      var m := MaxNamespaceId(table[..n], dbname);
      assert m.Some? ==> Has(table, (dbname, m.value)) by {
        if m.Some? {
          var j := IndexOf(table[..n], (dbname, m.value));
          assert table[j].0 == (dbname, m.value);
        }
      }
      if table[n].0.0 != dbname then m
      else if m.None? || m.value < table[n].0.1 then
        assert table[n].0 == (dbname, table[n].0.1);
        Some(table[n].0.1)
      else m
  }

  /**
   * `getNextNamespaceId`: one above the largest id the wiki uses (0 for a wiki with
   * none, as `intval` reads the empty maximum), at least 3000, rounded up to even.
   */
  function NextNamespaceId(table: seq<((string, int), NamespaceRow)>, dbname: string): (r: int)
    ensures CustomNamespaceId(r)
    ensures forall j :: 0 <= j < |table| && table[j].0.0 == dbname ==> table[j].0.1 < r
  {
    var maxId := MaxNamespaceId(table, dbname).GetOr(0);
    var next := if 3000 >= maxId + 1 then 3000 else maxId + 1;
    if next % 2 != 0 then next + 1 else next
  }

  /** The proposed id is free, so `addNamespace` with it succeeds. */
  lemma NextNamespaceIdIsFree(table: seq<((string, int), NamespaceRow)>, dbname: string)
    ensures CustomNamespaceId(NextNamespaceId(table, dbname))
    ensures !Has(table, (dbname, NextNamespaceId(table, dbname)))
  {
    var r := NextNamespaceId(table, dbname);
    var j := IndexOf(table, (dbname, r));
    assert j < 0;
  }

  /** A wiki without custom namespaces gets 3000; otherwise, the even id right after its largest. */
  lemma NextNamespaceIdValue(table: seq<((string, int), NamespaceRow)>, dbname: string)
    requires forall i :: 0 <= i < |table| ==> CustomNamespaceId(table[i].0.1)
    ensures MaxNamespaceId(table, dbname).None? ==> NextNamespaceId(table, dbname) == 3000
    ensures MaxNamespaceId(table, dbname).Some? ==> NextNamespaceId(table, dbname) == MaxNamespaceId(table, dbname).value + 2
  {
    var m := MaxNamespaceId(table, dbname);
    if m.Some? {
      var j := IndexOf(table, (dbname, m.value));
      assert CustomNamespaceId(table[j].0.1);
    }
  }

  // ---------------------------------------------------------------------------------
  // Applying to the configuration

  /** One namespace in `$wgExtraNamespaces`: its name under its id, `<name>_talk` under the id above. */
  function ExtraStep(extra: seq<(int, string)>, id: int, ns: NamespaceRow): seq<(int, string)> {
    Put(Put(extra, id, ns.name), id + 1, ns.name + "_talk")
  }

  /** One namespace in `$wgNamespacesWithSubpages`: subpages on for it and its talk, when it has them. */
  function SubpagesStep(subpages: seq<(int, bool)>, id: int, ns: NamespaceRow): seq<(int, bool)> {
    if ns.subpages then Put(Put(subpages, id, true), id + 1, true) else subpages
  }

  /** One namespace in `$wgContentNamespaces`: its id appended when it is a content namespace. */
  function ContentStep(content: seq<int>, id: int, ns: NamespaceRow): seq<int> {
    if ns.content then content + [id] else content
  }

  /** One namespace in `$wgNamespaceProtection`: a non-empty protection right becomes its only one. */
  function ProtectionStep(protection: seq<(int, seq<string>)>, id: int, ns: NamespaceRow): seq<(int, seq<string>)> {
    if !EmptyString(ns.protection) then Put(protection, id, [ns.protection]) else protection
  }

  /** The inner alias loop: every alias of one namespace points at its id. */
  function PutAll(aliases: seq<(string, int)>, names: seq<string>, id: int): seq<(string, int)> {
    if names == [] then aliases
    else
      var n := |names| - 1;
      Put(PutAll(aliases, names[..n], id), names[n], id)
  }

  /** One namespace in `$wgNamespaceAliases`. */
  function AliasesStep(aliases: seq<(string, int)>, id: int, ns: NamespaceRow): seq<(string, int)> {
    if ns.aliases != [] then PutAll(aliases, ns.aliases, id) else aliases
  }

  /** `$wgExtraNamespaces` after the loop over `list`. */
  function ExtraAfter(extra: seq<(int, string)>, list: seq<(int, NamespaceRow)>): seq<(int, string)> {
    if list == [] then extra
    else ExtraStep(ExtraAfter(extra, list[..|list| - 1]), list[|list| - 1].0, list[|list| - 1].1)
  }

  /** `$wgNamespacesWithSubpages` after the loop over `list`. */
  function SubpagesAfter(subpages: seq<(int, bool)>, list: seq<(int, NamespaceRow)>): seq<(int, bool)> {
    if list == [] then subpages
    else SubpagesStep(SubpagesAfter(subpages, list[..|list| - 1]), list[|list| - 1].0, list[|list| - 1].1)
  }

  /** `$wgContentNamespaces` after the loop over `list`. */
  function ContentAfter(content: seq<int>, list: seq<(int, NamespaceRow)>): seq<int> {
    if list == [] then content
    else ContentStep(ContentAfter(content, list[..|list| - 1]), list[|list| - 1].0, list[|list| - 1].1)
  }

  /** `$wgNamespaceProtection` after the loop over `list`. */
  function ProtectionAfter(protection: seq<(int, seq<string>)>, list: seq<(int, NamespaceRow)>): seq<(int, seq<string>)> {
    if list == [] then protection
    else ProtectionStep(ProtectionAfter(protection, list[..|list| - 1]), list[|list| - 1].0, list[|list| - 1].1)
  }

  /** `$wgNamespaceAliases` after the loop over `list`. */
  function AliasesAfter(aliases: seq<(string, int)>, list: seq<(int, NamespaceRow)>): seq<(string, int)> {
    if list == [] then aliases
    else AliasesStep(AliasesAfter(aliases, list[..|list| - 1]), list[|list| - 1].0, list[|list| - 1].1)
  }

  /** Every id is even, so no id is another's talk id. */
  predicate EvenIds(list: seq<(int, NamespaceRow)>) {
    forall i :: 0 <= i < |list| ==> list[i].0 % 2 == 0
  }

  lemma TalkIdOdd(id: int)
    requires id % 2 == 0
    ensures (id + 1) % 2 != 0
  {
  }

  lemma OddAbsent(list: seq<(int, NamespaceRow)>, x: int)
    requires EvenIds(list) && x % 2 != 0
    ensures !Has(list, x)
  {
    var j := IndexOf(list, x);
    assert j < 0;
  }

  lemma EvenHas(list: seq<(int, NamespaceRow)>, x: int)
    requires EvenIds(list) && Has(list, x)
    ensures x % 2 == 0
  {
    var j := IndexOf(list, x);
    assert list[j].0 == x;
  }

  /**
   * Every namespace id carries its name and the odd id above it the talk name; every
   * other id keeps what it had.
   */
  lemma {:induction false} ExtraNames(extra: seq<(int, string)>, list: seq<(int, NamespaceRow)>, x: int)
    requires Distinct(list) && EvenIds(list)
    ensures Get(ExtraAfter(extra, list), x) ==
              if Has(list, x) then Some(Get(list, x).value.name)
              else if Has(list, x - 1) then Some(Get(list, x - 1).value.name + "_talk")
              else Get(extra, x)
  {
    if list != [] {
      var n := |list| - 1;
      var init := list[..n];
      var id, ns := list[n].0, list[n].1;
      assert Distinct(init) && EvenIds(init);
      ExtraNames(extra, init, x);
      GetLast(list, x);
      GetLast(list, x - 1);
      var e := ExtraAfter(extra, init);
      ExtraStepGet(e, id, ns, x);
      assert ExtraAfter(extra, list) == ExtraStep(e, id, ns);
      if x == id + 1 {
        TalkIdOdd(id);
        OddAbsent(list, x);
        assert Get(ExtraAfter(extra, list), x) == Some(ns.name + "_talk");
        assert Get(list, x - 1) == Some(ns);
      } else if x == id {
        assert Get(ExtraAfter(extra, list), x) == Some(ns.name);
        assert Get(list, x) == Some(ns);
      } else {
        assert Get(ExtraAfter(extra, list), x) == Get(e, x);
        assert Get(list, x) == Get(init, x);
        assert Get(list, x - 1) == Get(init, x - 1);
      }
    }
  }

  lemma ExtraStepGet(extra: seq<(int, string)>, id: int, ns: NamespaceRow, x: int)
    ensures Get(ExtraStep(extra, id, ns), x) ==
              if x == id + 1 then Some(ns.name + "_talk")
              else if x == id then Some(ns.name)
              else Get(extra, x)
  {
  }

  /** Subpages are on for an id when it or the id below is a listed namespace asking for them; otherwise unchanged. */
  lemma {:induction false} SubpagesOn(subpages: seq<(int, bool)>, list: seq<(int, NamespaceRow)>, x: int)
    requires Distinct(list)
    ensures Get(SubpagesAfter(subpages, list), x) ==
              if (Has(list, x) && Get(list, x).value.subpages) || (Has(list, x - 1) && Get(list, x - 1).value.subpages)
              then Some(true) else Get(subpages, x)
  {
    if list != [] {
      var n := |list| - 1;
      assert Distinct(list[..n]);
      SubpagesOn(subpages, list[..n], x);
      GetLast(list, x);
      GetLast(list, x - 1);
      SubpagesStepGet(SubpagesAfter(subpages, list[..n]), list[n].0, list[n].1, x);
    }
  }

  lemma SubpagesStepGet(subpages: seq<(int, bool)>, id: int, ns: NamespaceRow, x: int)
    ensures Get(SubpagesStep(subpages, id, ns), x) ==
              if ns.subpages && (x == id || x == id + 1) then Some(true) else Get(subpages, x)
  {
  }

  /** An id is a content namespace exactly when it was one or a listed namespace is marked content. */
  lemma {:induction false} ContentIds(content: seq<int>, list: seq<(int, NamespaceRow)>, x: int)
    requires Distinct(list)
    ensures x in ContentAfter(content, list) <==> x in content || (Has(list, x) && Get(list, x).value.content)
  {
    if list != [] {
      var n := |list| - 1;
      assert Distinct(list[..n]);
      ContentIds(content, list[..n], x);
      GetLast(list, x);
    }
  }

  /** A namespace with a non-empty protection right is protected by that right alone; other ids keep theirs. */
  lemma {:induction false} ProtectionRights(protection: seq<(int, seq<string>)>, list: seq<(int, NamespaceRow)>, x: int)
    requires Distinct(list)
    ensures Get(ProtectionAfter(protection, list), x) ==
              if Has(list, x) && !EmptyString(Get(list, x).value.protection)
              then Some([Get(list, x).value.protection]) else Get(protection, x)
  {
    if list != [] {
      var n := |list| - 1;
      assert Distinct(list[..n]);
      ProtectionRights(protection, list[..n], x);
      GetLast(list, x);
    }
  }

  lemma {:induction false} PutAllGet(aliases: seq<(string, int)>, names: seq<string>, id: int, a: string)
    ensures Get(PutAll(aliases, names, id), a) == if a in names then Some(id) else Get(aliases, a)
  {
    if names != [] {
      var n := |names| - 1;
      PutAllGet(aliases, names[..n], id, a);
      assert names == names[..n] + [names[n]];
    }
  }

  /** The id of the last listed namespace that has this alias. */
  function LastOwner(list: seq<(int, NamespaceRow)>, a: string): Option<int> {
    if list == [] then None
    else
      var n := |list| - 1;
      if a in list[n].1.aliases then Some(list[n].0) else LastOwner(list[..n], a)
  }

  /** An alias points at the last namespace that lists it (in id order); other aliases keep their target. */
  lemma {:induction false} AliasTargets(aliases: seq<(string, int)>, list: seq<(int, NamespaceRow)>, a: string)
    ensures Get(AliasesAfter(aliases, list), a) == if LastOwner(list, a).Some? then LastOwner(list, a) else Get(aliases, a)
  {
    if list != [] {
      var n := |list| - 1;
      AliasTargets(aliases, list[..n], a);
      PutAllGet(AliasesAfter(aliases, list[..n]), list[n].1.aliases, list[n].0, a);
    }
  }

  /** The body of the alias loop for one namespace. */
  method RegisterAliases(g: Globals, names: seq<string>, id: int)
    modifies g`namespaceAliases
    ensures g.namespaceAliases == PutAll(old(g.namespaceAliases), names, id)
  {
    var j := 0;
    while j < |names|
      invariant 0 <= j <= |names|
      invariant g.namespaceAliases == PutAll(old(g.namespaceAliases), names[..j], id)
    {
      assert names[..j + 1][..j] == names[..j];
      g.namespaceAliases := Put(g.namespaceAliases, names[j], id);
      j := j + 1;
    }
    assert names[..j] == names;
  }

  /** The body of the `applyNamespaces` loop for one namespace. */
  method RegisterNamespace(g: Globals, id: int, ns: NamespaceRow)
    modifies g`extraNamespaces, g`namespacesWithSubpages, g`contentNamespaces, g`namespaceProtection, g`namespaceAliases
    ensures g.extraNamespaces == ExtraStep(old(g.extraNamespaces), id, ns)
    ensures g.namespacesWithSubpages == SubpagesStep(old(g.namespacesWithSubpages), id, ns)
    ensures g.contentNamespaces == ContentStep(old(g.contentNamespaces), id, ns)
    ensures g.namespaceProtection == ProtectionStep(old(g.namespaceProtection), id, ns)
    ensures g.namespaceAliases == AliasesStep(old(g.namespaceAliases), id, ns)
  {
    ghost var content, protection := g.contentNamespaces, g.namespaceProtection;
    RegisterTitles(g, id, ns);
    if ns.content {
      g.contentNamespaces := g.contentNamespaces + [id];
    }
    assert g.contentNamespaces == ContentStep(content, id, ns);
    if !EmptyString(ns.protection) {
      g.namespaceProtection := Put(g.namespaceProtection, id, [ns.protection]);
    }
    assert g.namespaceProtection == ProtectionStep(protection, id, ns);
    if ns.aliases != [] {
      RegisterAliases(g, ns.aliases, id);
    }
  }

  /** The name, talk name and subpage lines of the loop body. */
  method RegisterTitles(g: Globals, id: int, ns: NamespaceRow)
    modifies g`extraNamespaces, g`namespacesWithSubpages
    ensures g.extraNamespaces == ExtraStep(old(g.extraNamespaces), id, ns)
    ensures g.namespacesWithSubpages == SubpagesStep(old(g.namespacesWithSubpages), id, ns)
  {
    g.extraNamespaces := Put(g.extraNamespaces, id, ns.name);
    g.extraNamespaces := Put(g.extraNamespaces, id + 1, ns.name + "_talk");
    if ns.subpages {
      g.namespacesWithSubpages := Put(g.namespacesWithSubpages, id, true);
      g.namespacesWithSubpages := Put(g.namespacesWithSubpages, id + 1, true);
    }
  }

  /** One more namespace of the list is one more step of each fold. */
  lemma AfterStep(
    extra: seq<(int, string)>, subpages: seq<(int, bool)>, content: seq<int>,
    protection: seq<(int, seq<string>)>, aliases: seq<(string, int)>,
    list: seq<(int, NamespaceRow)>, i: int)
    requires 0 <= i < |list|
    ensures ExtraAfter(extra, list[..i + 1]) == ExtraStep(ExtraAfter(extra, list[..i]), list[i].0, list[i].1)
    ensures SubpagesAfter(subpages, list[..i + 1]) == SubpagesStep(SubpagesAfter(subpages, list[..i]), list[i].0, list[i].1)
    ensures ContentAfter(content, list[..i + 1]) == ContentStep(ContentAfter(content, list[..i]), list[i].0, list[i].1)
    ensures ProtectionAfter(protection, list[..i + 1]) == ProtectionStep(ProtectionAfter(protection, list[..i]), list[i].0, list[i].1)
    ensures AliasesAfter(aliases, list[..i + 1]) == AliasesStep(AliasesAfter(aliases, list[..i]), list[i].0, list[i].1)
  {
    assert list[..i + 1][..i] == list[..i];
  }

  /**
   * `applyNamespaces`: reads the wiki's namespaces in id order and registers each one,
   * with its talk namespace, in the namespace globals.
   */
  method ApplyNamespaces(db: Db, g: Globals, dbname: string)
    requires db.Valid()
    modifies g`extraNamespaces, g`namespacesWithSubpages, g`contentNamespaces, g`namespaceProtection, g`namespaceAliases
    ensures g.extraNamespaces == ExtraAfter(old(g.extraNamespaces), NamespacesOf(db.namespaces, dbname))
    ensures g.namespacesWithSubpages == SubpagesAfter(old(g.namespacesWithSubpages), NamespacesOf(db.namespaces, dbname))
    ensures g.contentNamespaces == ContentAfter(old(g.contentNamespaces), NamespacesOf(db.namespaces, dbname))
    ensures g.namespaceProtection == ProtectionAfter(old(g.namespaceProtection), NamespacesOf(db.namespaces, dbname))
    ensures g.namespaceAliases == AliasesAfter(old(g.namespaceAliases), NamespacesOf(db.namespaces, dbname))
  {
    var list := GetNamespaces(db, dbname);
    ghost var e, s, c, p, a := g.extraNamespaces, g.namespacesWithSubpages, g.contentNamespaces, g.namespaceProtection, g.namespaceAliases;
    var i := 0;
    while i < |list|
      invariant 0 <= i <= |list|
      invariant g.extraNamespaces == ExtraAfter(e, list[..i])
      invariant g.namespacesWithSubpages == SubpagesAfter(s, list[..i])
      invariant g.contentNamespaces == ContentAfter(c, list[..i])
      invariant g.namespaceProtection == ProtectionAfter(p, list[..i])
      invariant g.namespaceAliases == AliasesAfter(a, list[..i])
    {
      AfterStep(e, s, c, p, a, list, i);
      RegisterNamespace(g, list[i].0, list[i].1);
      i := i + 1;
    }
    assert list[..i] == list;
  }

  /**
   * What `applyNamespaces` registers, in terms of the wiki's rows: every custom
   * namespace under its name, its talk namespace under `<name>_talk`, its protection
   * when it has one, and its id as content namespace when it is one.
   */
  lemma AppliedNamespaces(
    table: seq<((string, int), NamespaceRow)>, dbname: string,
    extra: seq<(int, string)>, protection: seq<(int, seq<string>)>, content: seq<int>, id: int)
    requires Distinct(table)
    requires forall i :: 0 <= i < |table| ==> CustomNamespaceId(table[i].0.1)
    ensures var list := NamespacesOf(table, dbname);
            var row := Get(table, (dbname, id));
            && (row.Some? ==> Get(ExtraAfter(extra, list), id) == Some(row.value.name))
            && (row.Some? ==> Get(ExtraAfter(extra, list), id + 1) == Some(row.value.name + "_talk"))
            && (row.Some? && !EmptyString(row.value.protection) ==>
                  Get(ProtectionAfter(protection, list), id) == Some([row.value.protection]))
            && (id in ContentAfter(content, list) <==> id in content || (row.Some? && row.value.content))
  {
    var list := NamespacesOf(table, dbname);
    var row := Get(table, (dbname, id));
    NamespacesOfExact(table, dbname);
    NamespacesOfCustom(table, dbname);
    SortedDistinct(list);
    assert EvenIds(list);
    assert Get(list, id) == row;
    ExtraNames(extra, list, id);
    ExtraNames(extra, list, id + 1);
    if row.Some? {
      EvenHas(list, id);
      TalkIdOdd(id);
      OddAbsent(list, id + 1);
      assert Get(list, id + 1 - 1) == row;
    }
    ProtectionRights(protection, list, id);
    ContentIds(content, list, id);
  }
}
