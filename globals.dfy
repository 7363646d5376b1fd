/**
 * The PHP global configuration the farm's code reads and writes (`$wgDBname`,
 * `$wgGroupPermissions`, ...), as the fields of one object. An unset global is `None`
 * where the code tests it with `isset`, and an empty array where it tests it with `empty`.
 */
module Globals {
  import opened Wrappers
  import opened Php

  /** One `$wgManageWikiSettings` entry; `options`, `help` and the label are display-only. */
  datatype SettingSpec = SettingSpec(name: string, kind: string, section: Option<string>)

  /**
   * One `$wgManageWikiExtensions` entry. `conflicts => false` in the catalogue is the
   * empty list: the code only ever tests it with `empty`.
   */
  datatype ExtensionSpec = ExtensionSpec(
    name: string,
    linkPage: string,
    toggle: string,
    conflicts: seq<string>,
    required: seq<string>,
    section: Option<string>)

  class Globals {
    /** `$wgCreateWikiSubdomain`: the farm's base domain. */
    var createWikiSubdomain: Option<string>
    /** `$wgCreateWikiDatabase`: name of the central database. */
    var createWikiDatabase: Option<string>
    /** `$wgManageWikiSettings`: the settings catalogue (empty = use the built-in one). */
    var manageWikiSettings: seq<(string, SettingSpec)>
    /** `$wgManageWikiExtensions`: the extension catalogue (empty = use the built-in one). */
    var manageWikiExtensions: seq<(string, ExtensionSpec)>
    /** `$wgManageWikiPermissionsDefaultGroups`: groups that cannot be deleted. */
    var defaultGroups: seq<string>

    /** `$wgDBname`: the wiki this process serves. */
    var dbName: string
    /** `$wgLocalDatabases`. */
    var localDatabases: seq<string>
    var sitename: string
    var languageCode: string
    var server: string
    /** The allow-listed settings `applyWikiSettings` writes through `$GLOBALS[$key]`. */
    var overrides: seq<(string, Value)>
    /** `$wgGroupPermissions`: group to (right to value). */
    var groupPermissions: seq<(string, seq<(string, Value)>)>
    var addGroups: seq<(string, seq<string>)>
    var removeGroups: seq<(string, seq<string>)>
    /** `$wgReadOnly`. */
    var readOnly: Option<string>
    var extraNamespaces: seq<(int, string)>
    var namespacesWithSubpages: seq<(int, bool)>
    var contentNamespaces: seq<int>
    var namespaceProtection: seq<(int, seq<string>)>
    var namespaceAliases: seq<(string, int)>

    /** A process before `LocalSettings.php` has set anything farm-specific. */
    constructor(dbName: string)
      ensures createWikiSubdomain == None && createWikiDatabase == None
      ensures manageWikiSettings == [] && manageWikiExtensions == [] && defaultGroups == []
      ensures this.dbName == dbName && localDatabases == []
      ensures sitename == "" && languageCode == "en" && server == ""
      ensures overrides == [] && groupPermissions == [] && addGroups == [] && removeGroups == []
      ensures readOnly == None
      ensures extraNamespaces == [] && namespacesWithSubpages == [] && contentNamespaces == []
      ensures namespaceProtection == [] && namespaceAliases == []
    {
      createWikiSubdomain, createWikiDatabase := None, None;
      manageWikiSettings, manageWikiExtensions, defaultGroups := [], [], [];
      this.dbName, localDatabases := dbName, [];
      sitename, languageCode, server := "", "en", "";
      overrides, groupPermissions, addGroups, removeGroups := [], [], [], [];
      readOnly := None;
      extraNamespaces, namespacesWithSubpages, contentNamespaces := [], [], [];
      namespaceProtection, namespaceAliases := [], [];
    }
  }
}
