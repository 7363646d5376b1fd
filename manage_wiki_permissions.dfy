/**
 * Per-wiki user groups. A wiki's overrides live in `mw_permissions`, keyed by the wiki
 * and the group: the rights the group is granted or denied, and the groups its members
 * may add and remove. `applyPermissions` writes them into `$wgGroupPermissions`,
 * `$wgAddGroups` and `$wgRemoveGroups`.
 */
module ManageWikiPermissions {
  import opened Wrappers
  import opened Php
  import opened Assoc
  import opened Database
  import opened Globals

  // ---------------------------------------------------------------------------------
  // Reading

  /** `getGroup`: the wiki's row for the group, or nothing (the source's `false`). */
  function GetGroup(db: Db, dbname: string, group: string): (r: Option<GroupRow>)
    reads db
    ensures r.Some? ==> ((dbname, group), r.value) in db.permissions
    ensures r.None? ==> forall j :: 0 <= j < |db.permissions| ==> db.permissions[j].0 != (dbname, group)
  {
    Get(db.permissions, (dbname, group))
  }

  /** The wiki's rows as `getGroups` returns them: keyed by group, in table order. */
  function GroupsOf(table: seq<((string, string), GroupRow)>, dbname: string): seq<(string, GroupRow)> {
    if table == [] then []
    else
      var n := |table| - 1;
      var groups := GroupsOf(table[..n], dbname);
      if table[n].0.0 == dbname then Put(groups, table[n].0.1, table[n].1) else groups
  }

  /** `getGroups` lists exactly the wiki's groups, each once, with its own row. */
  lemma {:induction false} GroupsOfExact(table: seq<((string, string), GroupRow)>, dbname: string)
    requires Distinct(table)
    ensures Distinct(GroupsOf(table, dbname))
    ensures forall group :: Get(GroupsOf(table, dbname), group) == Get(table, (dbname, group))
  {
    if table != [] {
      var n := |table| - 1;
      assert Distinct(table[..n]);
      GroupsOfExact(table[..n], dbname);
      forall group ensures Get(GroupsOf(table, dbname), group) == Get(table, (dbname, group)) {
        GetLast(table, (dbname, group));
      }
    }
  }

  /** `getGroups`: the loop over the wiki's rows. */
  method GetGroups(db: Db, dbname: string) returns (groups: seq<(string, GroupRow)>)
    requires db.Valid()
    ensures groups == GroupsOf(db.permissions, dbname)
    ensures Distinct(groups)
    ensures forall group :: Get(groups, group) == GetGroup(db, dbname, group)
  {
    groups := [];
    var i := 0;
    while i < |db.permissions|
      invariant 0 <= i <= |db.permissions|
      invariant groups == GroupsOf(db.permissions[..i], dbname)
    {
      assert db.permissions[..i + 1][..i] == db.permissions[..i];
      var (key, row) := db.permissions[i];
      if key.0 == dbname {
        groups := Put(groups, key.1, row);
      }
      i := i + 1;
    }
    assert db.permissions[..i] == db.permissions;
    GroupsOfExact(db.permissions, dbname);
  }

  // ---------------------------------------------------------------------------------
  // Writing

  /** `$data` for `updateGroup`; an absent part is `None`. */
  datatype GroupData = GroupData(
    permissions: Option<seq<(string, Value)>>,
    addgroups: Option<seq<string>>,
    removegroups: Option<seq<string>>)

  /** The stored row: every absent part is the empty list. */
  function GroupRowOf(data: GroupData): GroupRow {
    GroupRow(data.permissions.GetOr([]), data.addgroups.GetOr([]), data.removegroups.GetOr([]))
  }

  /**
   * `updateGroup`: an upsert on (wiki, group) that replaces the whole row, absent parts
   * by empty lists; it always gives `true`.
   */
  method UpdateGroup(db: Db, dbname: string, group: string, data: GroupData) returns (ok: bool)
    requires db.Valid()
    requires data.permissions.Some? ==> Distinct(data.permissions.value)
    modifies db`permissions
    ensures db.Valid()
    ensures ok
    ensures db.permissions == Put(old(db.permissions), (dbname, group), GroupRowOf(data))
    ensures GetGroup(db, dbname, group) == Some(GroupRowOf(data))
    ensures forall k :: k != (dbname, group) ==> Get(db.permissions, k) == Get(old(db.permissions), k)
  {
    ghost var before := db.permissions;
    db.permissions := Put(db.permissions, (dbname, group), GroupRowOf(data));
    if Has(before, (dbname, group)) {
      PutExistingRows(before, (dbname, group), GroupRowOf(data));
    }
    ok := true;
  }

  /**
   * `deleteGroup`: a default group gives `false` and no write; any other group's row is
   * deleted, if there is one, and `true` returned.
   */
  method DeleteGroup(db: Db, g: Globals, dbname: string, group: string) returns (ok: bool)
    requires db.Valid()
    modifies db`permissions
    ensures db.Valid()
    ensures ok <==> group !in g.defaultGroups
    ensures db.permissions == if ok then Unset(old(db.permissions), (dbname, group)) else old(db.permissions)
    ensures ok ==> GetGroup(db, dbname, group) == None
    ensures forall k :: k != (dbname, group) ==> Get(db.permissions, k) == Get(old(db.permissions), k)
  {
    if group in g.defaultGroups {
      return false;
    }
    UnsetKeepsRows(db.permissions, (dbname, group));
    db.permissions := Unset(db.permissions, (dbname, group));
    ok := true;
  }

  // ---------------------------------------------------------------------------------
  // Applying to the configuration

  /** The rights of a group in `$wgGroupPermissions` (none when the group is not there). */
  function RightsOf(gp: seq<(string, seq<(string, Value)>)>, group: string): seq<(string, Value)> {
    Get(gp, group).GetOr([])
  }

  /** The inner loop: `$wgGroupPermissions[$group][$right] = $value` for every listed right. */
  function SetRights(gp: seq<(string, seq<(string, Value)>)>, group: string, rights: seq<(string, Value)>): seq<(string, seq<(string, Value)>)> {
    if rights == [] then gp
    else
      var n := |rights| - 1;
      var before := SetRights(gp, group, rights[..n]);
      Put(before, group, Put(RightsOf(before, group), rights[n].0, rights[n].1))
  }

  /** Setting a group's rights changes exactly those rights of that group. */
  lemma {:induction false} SetRightsGet(gp: seq<(string, seq<(string, Value)>)>, group: string, rights: seq<(string, Value)>, other: string, right: string)
    requires Distinct(rights)
    ensures Get(RightsOf(SetRights(gp, group, rights), other), right) ==
              if other == group && Has(rights, right) then Get(rights, right) else Get(RightsOf(gp, other), right)
  {
    if rights != [] {
      var n := |rights| - 1;
      assert Distinct(rights[..n]);
      SetRightsGet(gp, group, rights[..n], other, right);
      GetLast(rights, right);
    }
  }

  /** `$wgGroupPermissions` after the loop over the groups. */
  function PermissionsAfter(gp: seq<(string, seq<(string, Value)>)>, groups: seq<(string, GroupRow)>): seq<(string, seq<(string, Value)>)> {
    if groups == [] then gp
    else
      var n := |groups| - 1;
      SetRights(PermissionsAfter(gp, groups[..n]), groups[n].0, groups[n].1.permissions)
  }

  /** `$wgAddGroups` or `$wgRemoveGroups` after the loop: a group's non-empty list replaces its entry. */
  function ListsAfter(lists: seq<(string, seq<string>)>, groups: seq<(string, GroupRow)>, part: GroupRow -> seq<string>): seq<(string, seq<string>)> {
    if groups == [] then lists
    else
      var n := |groups| - 1;
      var before := ListsAfter(lists, groups[..n], part);
      if part(groups[n].1) != [] then Put(before, groups[n].0, part(groups[n].1)) else before
  }

  /** Each right of each listed group is set to the row's value; every other right keeps its value. */
  lemma {:induction false} PermissionsApplied(gp: seq<(string, seq<(string, Value)>)>, groups: seq<(string, GroupRow)>, group: string, right: string)
    requires Distinct(groups)
    requires forall i :: 0 <= i < |groups| ==> Distinct(groups[i].1.permissions)
    ensures Get(RightsOf(PermissionsAfter(gp, groups), group), right) ==
              if Has(groups, group) && Has(Get(groups, group).value.permissions, right)
              then Get(Get(groups, group).value.permissions, right)
              else Get(RightsOf(gp, group), right)
  {
    if groups != [] {
      var n := |groups| - 1;
      assert Distinct(groups[..n]);
      PermissionsApplied(gp, groups[..n], group, right);
      GetLast(groups, group);
      SetRightsGet(PermissionsAfter(gp, groups[..n]), groups[n].0, groups[n].1.permissions, group, right);
    }
  }

  /** A listed group with a non-empty list gets that list; every other entry is kept. */
  lemma {:induction false} ListsApplied(lists: seq<(string, seq<string>)>, groups: seq<(string, GroupRow)>, part: GroupRow -> seq<string>, group: string)
    requires Distinct(groups)
    ensures Get(ListsAfter(lists, groups, part), group) ==
              if Has(groups, group) && part(Get(groups, group).value) != []
              then Some(part(Get(groups, group).value))
              else Get(lists, group)
  {
    if groups != [] {
      var n := |groups| - 1;
      assert Distinct(groups[..n]);
      ListsApplied(lists, groups[..n], part, group);
      GetLast(groups, group);
    }
  }

  /** The inner loop of `applyPermissions` for one group. */
  method ApplyRights(g: Globals, group: string, rights: seq<(string, Value)>)
    modifies g`groupPermissions
    ensures g.groupPermissions == SetRights(old(g.groupPermissions), group, rights)
  {
    var j := 0;
    while j < |rights|
      invariant 0 <= j <= |rights|
      invariant g.groupPermissions == SetRights(old(g.groupPermissions), group, rights[..j])
    {
      assert rights[..j + 1][..j] == rights[..j];
      var (right, value) := rights[j];
      g.groupPermissions := Put(g.groupPermissions, group, Put(RightsOf(g.groupPermissions, group), right, value));
      j := j + 1;
    }
    assert rights[..j] == rights;
  }

  ghost function AddPart(): GroupRow -> seq<string> {
    (r: GroupRow) => r.addgroups
  }

  ghost function RemovePart(): GroupRow -> seq<string> {
    (r: GroupRow) => r.removegroups
  }

  /**
   * `applyPermissions`: for every group of the wiki, sets each of its rights in
   * `$wgGroupPermissions`, and replaces its `$wgAddGroups` and `$wgRemoveGroups` entries
   * by its lists when these are not empty.
   */
  method ApplyPermissions(db: Db, g: Globals, dbname: string)
    requires db.Valid()
    modifies g`groupPermissions, g`addGroups, g`removeGroups
    ensures g.groupPermissions == PermissionsAfter(old(g.groupPermissions), GroupsOf(db.permissions, dbname))
    ensures g.addGroups == ListsAfter(old(g.addGroups), GroupsOf(db.permissions, dbname), AddPart())
    ensures g.removeGroups == ListsAfter(old(g.removeGroups), GroupsOf(db.permissions, dbname), RemovePart())
  {
    var groups := GetGroups(db, dbname);
    ghost var gp, ag, rg := g.groupPermissions, g.addGroups, g.removeGroups;
    var i := 0;
    while i < |groups|
      invariant 0 <= i <= |groups|
      invariant g.groupPermissions == PermissionsAfter(gp, groups[..i])
      invariant g.addGroups == ListsAfter(ag, groups[..i], AddPart())
      invariant g.removeGroups == ListsAfter(rg, groups[..i], RemovePart())
    {
      assert groups[..i + 1][..i] == groups[..i];
      var (group, data) := groups[i];
      ApplyRights(g, group, data.permissions);
      if data.addgroups != [] {
        g.addGroups := Put(g.addGroups, group, data.addgroups);
      }
      if data.removegroups != [] {
        g.removeGroups := Put(g.removeGroups, group, data.removegroups);
      }
      i := i + 1;
    }
    assert groups[..i] == groups;
  }

  /**
   * What `applyPermissions` configures, in terms of the wiki's rows: each right a row
   * lists gets the row's value, and a row's non-empty add and remove lists become the
   * group's; everything the wiki's rows do not mention is left as it was.
   */
  lemma AppliedPermissions(
    table: seq<((string, string), GroupRow)>, dbname: string,
    gp: seq<(string, seq<(string, Value)>)>, ag: seq<(string, seq<string>)>, rg: seq<(string, seq<string>)>,
    group: string, right: string)
    requires Distinct(table)
    requires forall i :: 0 <= i < |table| ==> Distinct(table[i].1.permissions)
    ensures var groups := GroupsOf(table, dbname);
            var row := Get(table, (dbname, group));
            && Get(RightsOf(PermissionsAfter(gp, groups), group), right) ==
                 (if row.Some? && Has(row.value.permissions, right) then Get(row.value.permissions, right)
                  else Get(RightsOf(gp, group), right))
            && Get(ListsAfter(ag, groups, AddPart()), group) ==
                 (if row.Some? && row.value.addgroups != [] then Some(row.value.addgroups) else Get(ag, group))
            && Get(ListsAfter(rg, groups, RemovePart()), group) ==
                 (if row.Some? && row.value.removegroups != [] then Some(row.value.removegroups) else Get(rg, group))
  {
    var groups := GroupsOf(table, dbname);
    GroupsOfExact(table, dbname);
    forall i | 0 <= i < |groups| ensures Distinct(groups[i].1.permissions) {
      DistinctGet(groups, i);
      assert ((dbname, groups[i].0), groups[i].1) in table;
    }
    PermissionsApplied(gp, groups, group, right);
    ListsApplied(ag, groups, AddPart(), group);
    ListsApplied(rg, groups, RemovePart(), group);
  }
}
