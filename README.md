# WikiFarmV2 control plane in Dafny

A model of the control plane of a MediaWiki wiki farm: the CreateWikiV2 extension
(registry of wikis, creation requests, direct creation, start-up configuration, the JSON
copy of the registry) and the ManageWikiV2 extension (per-wiki settings, extensions,
namespaces and user groups), together with proofs about it.

The farm's central database is one object, `Database.Db`. Its tables are sequences of
rows in insertion order: `cw_wikis`, `cw_requests`, `cw_comments`, `mw_namespaces` and
`mw_permissions`. The database server behind it is a set of databases and the subset that
has its MediaWiki tables loaded. `wfTimestampNow()` is a clock that ticks once per
stamped insert. The PHP globals the code reads and writes (`$wgDBname`,
`$wgGroupPermissions`, `$wgExtraNamespaces`, ...) are the fields of `Globals.Globals`.
Operations that change the tables or the globals are methods with field-granular
`modifies` frames. Each states its whole new state, usually through a specification
function (a fold over the rows), and lemmas state what that function means key by key.

PHP arrays with string or integer keys are sequences of (key, value) pairs (module
`Assoc`). `Get` finds a key, `Put` is `$a[$k] = $v` (replace in place or append), and
`Unset` is `unset($a[$k])`. `Distinct` says the keys are unique, which PHP guarantees for
its arrays. So inputs that are PHP arrays (catalogues, form data, imported files) are
required to be `Distinct`. `Db.Valid` keeps the same property for every table and overlay
the code writes. PHP values are `Php.Value`, and `Php.Truthy` is PHP's conversion to
boolean (`"0"` is false).

Where the code and its documentation disagree, the model follows the code:

- `sanitizeDBname("testwiki123")` is `testwiki123`. Only a name whose first character is a
  digit gets the `wiki_` prefix (`MirahezeFunctions.SanitizeKeepsTrailingDigits`).
- `createWikiDB` checks for an existing database with `SHOW DATABASES LIKE`, so a `_` in
  the name (every digit-led name gets `wiki_`) also matches a database with any other
  character there: `wiki_1` is refused when `wikix1` exists
  (`MirahezeFunctions.WildcardNeighbourTaken`).
- `decline` returns `true` whether or not a pending row was changed. `addComment` does not
  check that the request exists.
- `submit` stores `cw_private = 1` whenever the `private` key is present, even when its
  value is `false`.
- `applyWikiSettings` ignores an overlay's `wgSitename`: only its nine allow-listed keys
  are copied.
- `onSubmit` has no emptiness check of its own.
- A `check` setting can never be set to `false` through `updateSetting`, because `false` is
  the validator's failure value.
- `resetSetting` returns `true` even for a wiki that is not registered.
- The `2999` fallback of `getNextNamespaceId` cannot be reached. `MAX()` over no rows
  yields one row holding `NULL`, `intval(null) + 1` is `1`, and `max(3000, 1)` is `3000`.
- `getWikiFromSubdomain` also matches a host with one trailing newline, because PHP's `$`
  without the `D` modifier matches before a final newline. `autoDetectWikiDatabase`
  ignores the label `0`, which PHP treats as false.
- `CreateWikiJson::load` never clears its copy: it merges the registry into it.
- `setupCreateWiki` never runs at start-up as shipped. The guard at the end of
  `SetupCreateWiki.php` is `function_exists('MirahezeFunctions::getDB')`, and
  `function_exists` does not accept a `Class::method` name, so it is always false.
  `LocalSettings.example.php` only includes the file and calls nothing in it. The model's
  `SetupCreateWiki.SetupCreateWiki` states what the function does when it is called.

## Model

| member | source | states |
|---|---|---|
| Assoc.Get | extensions/ManageWikiV2/includes/ManageWikiSettings.php:149 | a lookup finds a value exactly when the key is present, and the pair is in the array |
| Assoc.Put | extensions/ManageWikiV2/includes/ManageWikiPermissions.php:143 | after `$a[$k] = $v` the key maps to `v` and every other key keeps its value; a new key is appended, an existing one is replaced in place; keys stay unique |
| Assoc.Merge | extensions/CreateWikiV2/includes/MirahezeFunctions.php:264 | `array_merge` of arrays with unique keys has unique keys (its values are `MergeGet`) |
| Assoc.MergeGet | extensions/CreateWikiV2/includes/MirahezeFunctions.php:264 | the merged value of every key is the update's value if it has the key, else the original's |
| Assoc.Unset | extensions/ManageWikiV2/includes/ManageWikiSettings.php:280 | `unset` removes exactly that key and keeps every other key's value |
| Assoc.PutPut | extensions/ManageWikiV2/includes/ManageWikiSettings.php:260-263 | assigning a key twice is the same as assigning it the second value |
| Php.ImplodeExplode | extensions/ManageWikiV2/includes/ManageWikiSettings.php:238 | imploding the pieces of an exploded string gives the string back |
| Php.ExplodeImplode | extensions/ManageWikiV2/includes/ManageWikiSettings.php:238 | exploding an imploded list of separator-free pieces gives the pieces back |
| Php.Trim | extensions/ManageWikiV2/includes/ManageWikiSettings.php:238 | `trim` removes PHP's whitespace set from both ends and nothing else |
| Php.TrimIdempotent | extensions/ManageWikiV2/includes/ManageWikiSettings.php:238 | trimming twice is trimming once |
| Php.ToLower | extensions/CreateWikiV2/includes/MirahezeFunctions.php:300 | `strtolower` keeps the length, lower-cases every ASCII capital and leaves other characters alone |
| Database.StatusName | extensions/CreateWikiV2/includes/RequestWiki.php:61 | each status has its own stored string |
| MirahezeFunctions.StripToDbChars | extensions/CreateWikiV2/includes/MirahezeFunctions.php:300 | the result uses only `[a-z0-9_]`, is no longer than the input, and is the input when that is already clean |
| MirahezeFunctions.SanitizeDBname | extensions/CreateWikiV2/includes/MirahezeFunctions.php:298-311 | the result has at most 64 characters, all from `[a-z0-9_]`, and never starts with a digit |
| MirahezeFunctions.SanitizeDigitPrefix | extensions/CreateWikiV2/includes/MirahezeFunctions.php:303-305 | a stripped name starting with a digit comes back as `wiki_` plus the name, cut to 64 |
| MirahezeFunctions.SanitizePrefixesLeadingDigit | extensions/CreateWikiV2/includes/MirahezeFunctions.php:303-308 | a clean name of at most 59 characters that starts with a digit becomes exactly `wiki_` plus the name |
| MirahezeFunctions.SanitizeFixpoint | extensions/CreateWikiV2/includes/MirahezeFunctions.php:298-311 | a name is left unchanged exactly when it is already short, clean and not digit-led |
| MirahezeFunctions.SanitizeIdempotent | extensions/CreateWikiV2/includes/MirahezeFunctions.php:298-311 | sanitising twice gives the same as sanitising once |
| MirahezeFunctions.SanitizeKeepsTrailingDigits | extensions/CreateWikiV2/includes/MirahezeFunctions.php:303 | `testwiki123` is kept as it is: digits after the first character trigger no prefix |
| MirahezeFunctions.GenerateWikiURL | extensions/CreateWikiV2/includes/MirahezeFunctions.php:282-290 | the URL is `https://` + name + `.` + the configured domain, or `wiki.local` when none is set |
| MirahezeFunctions.GetWikiInfo | extensions/CreateWikiV2/includes/MirahezeFunctions.php:79-105 | a row is returned exactly when the wiki exists, and it is that wiki's registry row |
| MirahezeFunctions.GetWikiList | extensions/CreateWikiV2/includes/MirahezeFunctions.php:36-52 | every registered name, in table order |
| MirahezeFunctions.AddWiki | extensions/CreateWikiV2/includes/MirahezeFunctions.php:189-210 | succeeds exactly for an unregistered name and appends a row stamped now, open, active, with the `??` defaults (private false, `uncategorised`, empty settings); otherwise the registry is unchanged; the clock ticks once either way |
| MirahezeFunctions.DeleteWiki | extensions/CreateWikiV2/includes/MirahezeFunctions.php:219-247 | always `true`; removes only that registry row; the database is dropped only when asked and the drop succeeds |
| MirahezeFunctions.UpdateWikiSettings | extensions/CreateWikiV2/includes/MirahezeFunctions.php:256-274 | `false` and no write for an unregistered wiki; otherwise the update's keys override, the other keys keep their values, nothing else changes |
| MirahezeFunctions.CreateWikiDB | extensions/CreateWikiV2/includes/MirahezeFunctions.php:113-142 | refuses when `SHOW DATABASES LIKE <name>` finds any database, where `_` in the name matches any character; otherwise it is created when the server's `CREATE DATABASE` succeeds |
| MirahezeFunctions.LikeSelf | extensions/CreateWikiV2/includes/MirahezeFunctions.php:128 | a name without a backslash matches itself under `LIKE`, whatever `_` and `%` it holds |
| MirahezeFunctions.LikePlainPrefix | extensions/CreateWikiV2/includes/MirahezeFunctions.php:128 | a common prefix without `_`, `%` or a backslash does not decide a match |
| MirahezeFunctions.UnderscoreMatchesAny | extensions/CreateWikiV2/includes/MirahezeFunctions.php:128 | `_` in the pattern matches any one character at its place |
| MirahezeFunctions.LikePlain | extensions/CreateWikiV2/includes/MirahezeFunctions.php:128 | without special characters, `LIKE` is equality |
| MirahezeFunctions.TakenWhenPresent | extensions/CreateWikiV2/includes/MirahezeFunctions.php:128-131 | an existing database of exactly that name is always found |
| MirahezeFunctions.TakenPlain | extensions/CreateWikiV2/includes/MirahezeFunctions.php:128-131 | for a name without `_`, `%` or a backslash, the existence check is plain membership |
| MirahezeFunctions.WildcardNeighbourTaken | extensions/CreateWikiV2/includes/MirahezeFunctions.php:128-131 | `wiki_1` is refused when only `wikix1` exists (a digit-led name always has the `wiki_` prefix) |
| MirahezeFunctions.PopulateWikiDB | extensions/CreateWikiV2/includes/MirahezeFunctions.php:150-181 | succeeds exactly when a `tables.sql` is found, the database exists and sourcing succeeds |
| MirahezeFunctions.GetWikiRequests | extensions/CreateWikiV2/includes/MirahezeFunctions.php:337-370 | the listing is the specification `LatestFirst` of the request table under the filter |
| MirahezeFunctions.LatestFirstSound | extensions/CreateWikiV2/includes/MirahezeFunctions.php:340-342 | every listed request passes the status filter and is the row its id names |
| MirahezeFunctions.LatestFirstComplete | extensions/CreateWikiV2/includes/MirahezeFunctions.php:340-342 | every request that passes the filter is listed |
| MirahezeFunctions.LatestFirstOrdered | extensions/CreateWikiV2/includes/MirahezeFunctions.php:349 | the listing is in strictly decreasing timestamp order |
| MirahezeFunctions.PendingFilter | extensions/CreateWikiV2/includes/MirahezeFunctions.php:336-342 | the default filter `pending` selects exactly the pending requests |
| MirahezeFunctions.FalsyFilterListsAll | extensions/CreateWikiV2/includes/MirahezeFunctions.php:340 | a falsy filter (`""` or `"0"`) lists every request |
| RequestWiki.CheckRequired | extensions/CreateWikiV2/includes/RequestWiki.php:19-24 | the loop accepts exactly when none of the five required fields is empty |
| RequestWiki.FindPending | extensions/CreateWikiV2/includes/RequestWiki.php:35-47 | finds a row exactly when a pending request for the name exists |
| RequestWiki.Submit | extensions/CreateWikiV2/includes/RequestWiki.php:15-69 | an id exactly when the data is complete, the sanitised name is unregistered and has no pending request; then one pending row with the sanitised name, its URL and an empty comment is appended, and `getRequest` of the new id reads that row while every other id reads as before; otherwise no write |
| RequestWiki.PrivateWhenSetToFalse | extensions/CreateWikiV2/includes/RequestWiki.php:56 | a request whose `private` is `false` is still stored private |
| RequestWiki.RequestedWikiRow | extensions/CreateWikiV2/includes/RequestWiki.php:186-196 | the registry row of an approved request has its sitename, language, private, category and URL, is open and active, and has empty settings |
| RequestWiki.CreateWikiFromRequest | extensions/CreateWikiV2/includes/RequestWiki.php:175-198 | succeeds exactly when no database matches the name under `LIKE`, create and populate succeed and the name is unregistered; the registry gains the row only then |
| RequestWiki.ResolveKeepsValid | extensions/CreateWikiV2/includes/RequestWiki.php:105-113 | resolving a pending row keeps at most one pending request per name and the timestamp order |
| RequestWiki.Approve | extensions/CreateWikiV2/includes/RequestWiki.php:79-127 | no pending request of that id: `false`, nothing changes; a failed creation leaves the request pending and the registry unchanged; success adds the wiki, then marks the request approved with the comment; through `getRequest` only that id changes, and only on success |
| RequestWiki.ApproveAfterPopulateFailure | extensions/CreateWikiV2/includes/RequestWiki.php:98-102 | for a sanitised name, after a populate failure a retry fails too, as the database now exists and matches itself; the request stays pending |
| RequestWiki.Decline | extensions/CreateWikiV2/includes/RequestWiki.php:137-167 | only a pending request changes, to declined with the reason; through `getRequest`, an approved or declined request reads the same afterwards; the result is always `true` |
| RequestWiki.GetRequest | extensions/CreateWikiV2/includes/RequestWiki.php:206-234 | the row with that id, or nothing (`false`) outside the table; `Submit`, `Approve` and `Decline` state their effect through it |
| RequestWiki.AddComment | extensions/CreateWikiV2/includes/RequestWiki.php:244-259 | appends one comment stamped now, whatever the request's status |
| RequestWiki.GetComments | extensions/CreateWikiV2/includes/RequestWiki.php:267-288 | the listing is the specification `CommentsFor` of the comment table |
| RequestWiki.CommentsForSound | extensions/CreateWikiV2/includes/RequestWiki.php:270-276 | every listed comment belongs to the request |
| RequestWiki.CommentsForComplete | extensions/CreateWikiV2/includes/RequestWiki.php:270-276 | every comment of the request is listed |
| RequestWiki.CommentsForOrdered | extensions/CreateWikiV2/includes/RequestWiki.php:275 | comments are listed in increasing timestamp order |
| Sections.GroupBy | extensions/ManageWikiV2/includes/ManageWikiSettings.php:254-267 | section names are unique and every bucket has unique keys |
| Sections.GroupByPlacement | extensions/ManageWikiV2/includes/ManageWikiExtensions.php:211-217 | every catalogue entry is in the bucket of its section (or `other`) and in no other; buckets hold nothing else |
| Sections.GroupBySection | extensions/ManageWikiV2/includes/ManageWikiSettings.php:258-264 | the grouping loop computes `GroupBy` |
| ManageWikiSettings.AvailableSettings | extensions/ManageWikiV2/includes/ManageWikiSettings.php:13-22 | the configured catalogue when there is one, else the 14 built-in settings |
| ManageWikiSettings.TrimPieces | extensions/ManageWikiV2/includes/ManageWikiSettings.php:238 | `array_map('trim', ...)` trims each piece and keeps their number and order |
| ManageWikiSettings.ValidateValue | extensions/ManageWikiV2/includes/ManageWikiSettings.php:220-247 | `text`/`select` accept exactly strings, unchanged; `check` gives `true` or the failure value; `language` accepts strings of at most 12 characters; `array` splits strings, passes arrays and rejects the rest; unknown types pass the value through |
| ManageWikiSettings.ArrayListRoundTrip | extensions/ManageWikiV2/includes/ManageWikiSettings.php:236-238 | a comma-joined list of trimmed, comma-free items validates to exactly those items |
| ManageWikiSettings.ArrayListItems | extensions/ManageWikiV2/includes/ManageWikiSettings.php:238 | each element of a split value is the trimmed piece between commas |
| ManageWikiSettings.StrItems | extensions/ManageWikiV2/includes/ManageWikiSettings.php:238 | the PHP string array of a list of strings, in order |
| ManageWikiSettings.ValidateIdempotent | extensions/ManageWikiV2/includes/ManageWikiSettings.php:220-247 | validating an accepted value again gives it back |
| ManageWikiSettings.CheckCannotBeCleared | extensions/ManageWikiV2/includes/ManageWikiSettings.php:173-175 | the only accepted `check` value is `true`; `false` is rejected |
| ManageWikiSettings.GetSettings | extensions/ManageWikiV2/includes/ManageWikiSettings.php:130-138 | the wiki's overlay, key by key; empty for an unregistered wiki |
| ManageWikiSettings.GetSetting | extensions/ManageWikiV2/includes/ManageWikiSettings.php:147-150 | the stored value, or `null` when the wiki or the key is missing |
| ManageWikiSettings.UpdateSetting | extensions/ManageWikiV2/includes/ManageWikiSettings.php:160-179 | succeeds exactly for a catalogued setting whose validated value is not the failure value on a registered wiki; then only that key changes, to the validated value; otherwise no write |
| ManageWikiSettings.Validated | extensions/ManageWikiV2/includes/ManageWikiSettings.php:192-204 | the kept settings have unique keys and are no more than the input |
| ManageWikiSettings.ValidatedGet | extensions/ManageWikiV2/includes/ManageWikiSettings.php:192-204 | exactly the catalogued, accepted settings are kept, with their validated values |
| ManageWikiSettings.ValidateAll | extensions/ManageWikiV2/includes/ManageWikiSettings.php:190-204 | the validation loop computes `Validated` |
| ManageWikiSettings.UpdateSettings | extensions/ManageWikiV2/includes/ManageWikiSettings.php:188-211 | `false` and no write when nothing survives validation or the wiki is unregistered; otherwise exactly the surviving keys are merged |
| ManageWikiSettings.ResetSetting | extensions/ManageWikiV2/includes/ManageWikiSettings.php:276-290 | always `true`; the key reads `null` afterwards and every other key and wiki is unchanged |
| ManageWikiSettings.GetSettingsBySection | extensions/ManageWikiV2/includes/ManageWikiSettings.php:254-267 | every catalogued setting is in its section's bucket and in no other |
| ManageWikiExtensions.AvailableExtensions | extensions/ManageWikiV2/includes/ManageWikiExtensions.php:13-22 | the configured catalogue when there is one, else the 10 built-in extensions |
| ManageWikiExtensions.EnabledIn | extensions/ManageWikiV2/includes/ManageWikiExtensions.php:130-135 | only catalogued extensions are reported, each at most once per catalogue entry |
| ManageWikiExtensions.EnabledInMembership | extensions/ManageWikiV2/includes/ManageWikiExtensions.php:130-135 | an extension is reported exactly when it is catalogued and its toggle is set and truthy |
| ManageWikiExtensions.EnabledForMembership | extensions/ManageWikiV2/includes/ManageWikiExtensions.php:120-138 | the same for a wiki; nothing for an unregistered wiki or an empty overlay |
| ManageWikiExtensions.GetEnabledExtensions | extensions/ManageWikiV2/includes/ManageWikiExtensions.php:120-138 | the loop computes `EnabledFor` |
| ManageWikiExtensions.AllListed | extensions/ManageWikiV2/includes/ManageWikiExtensions.php:160-164 | the requirements loop accepts exactly when every required extension is enabled |
| ManageWikiExtensions.NoneListed | extensions/ManageWikiV2/includes/ManageWikiExtensions.php:170-174 | the conflicts loop accepts exactly when no conflicting extension is enabled |
| ManageWikiExtensions.ToggleDecides | extensions/ManageWikiV2/includes/ManageWikiExtensions.php:178 | writing an extension's toggle as `true` or `false` makes it enabled or not |
| ManageWikiExtensions.DependenciesAllow | extensions/ManageWikiV2/includes/ManageWikiExtensions.php:158-175 | accepts exactly when all requirements are enabled and no conflict is |
| ManageWikiExtensions.EnableExtension | extensions/ManageWikiV2/includes/ManageWikiExtensions.php:147-179 | succeeds exactly for a catalogued extension whose requirements are enabled and conflicts are not, on a registered wiki; then only its toggle is set to `true` and it is enabled; otherwise no write |
| ManageWikiExtensions.DisableExtension | extensions/ManageWikiV2/includes/ManageWikiExtensions.php:188-200 | succeeds exactly for a catalogued extension on a registered wiki; then only its toggle is set to `false` and it is not enabled |
| ManageWikiExtensions.GetExtensionsBySection | extensions/ManageWikiV2/includes/ManageWikiExtensions.php:207-220 | every catalogued extension is in its section's bucket and in no other |
| ManageWikiNamespaces.GetNamespace | extensions/ManageWikiV2/includes/ManageWikiNamespaces.php:48-74 | the wiki's row for the id, or nothing exactly when there is none |
| ManageWikiNamespaces.SortedDistinct | extensions/ManageWikiV2/includes/ManageWikiNamespaces.php:22 | a strictly id-sorted listing has unique ids |
| ManageWikiNamespaces.Upsert | extensions/ManageWikiV2/includes/ManageWikiNamespaces.php:22-37 | keying a row into an id-sorted listing keeps it sorted and sets exactly that id |
| ManageWikiNamespaces.NamespacesOfExact | extensions/ManageWikiV2/includes/ManageWikiNamespaces.php:14-39 | the listing is sorted by id and holds exactly the wiki's rows |
| ManageWikiNamespaces.NamespacesOfCustom | extensions/ManageWikiV2/includes/ManageWikiNamespaces.php:14-39 | every listed id is a custom (even, at least 3000) id |
| ManageWikiNamespaces.GetNamespaces | extensions/ManageWikiV2/includes/ManageWikiNamespaces.php:14-39 | the loop computes `NamespacesOf`; each id maps to what `getNamespace` returns |
| ManageWikiNamespaces.AddNamespace | extensions/ManageWikiV2/includes/ManageWikiNamespaces.php:84-128 | succeeds exactly for an even id of at least 3000 not yet used by the wiki; the new row has the defaults searchable, subpages, not content, no protection, no aliases |
| ManageWikiNamespaces.UpdatedIdempotent | extensions/ManageWikiV2/includes/ManageWikiNamespaces.php:141-164 | applying the same partial update twice is applying it once |
| ManageWikiNamespaces.NoChangeKeepsRow | extensions/ManageWikiV2/includes/ManageWikiNamespaces.php:141-164 | an update with no fields changes no row |
| ManageWikiNamespaces.UpdateNamespace | extensions/ManageWikiV2/includes/ManageWikiNamespaces.php:138-177 | `false` and no write for empty data; otherwise only the supplied fields of that row change |
| ManageWikiNamespaces.DeleteNamespace | extensions/ManageWikiV2/includes/ManageWikiNamespaces.php:186-204 | refuses ids below 3000; otherwise removes only that row |
| ManageWikiNamespaces.MaxNamespaceId | extensions/ManageWikiV2/includes/ManageWikiNamespaces.php:215-222 | `MAX()` is nothing exactly when the wiki has no rows, else the largest of its ids |
| ManageWikiNamespaces.NextNamespaceId | extensions/ManageWikiV2/includes/ManageWikiNamespaces.php:212-231 | an even id of at least 3000 above every id of the wiki |
| ManageWikiNamespaces.NextNamespaceIdIsFree | extensions/ManageWikiV2/includes/ManageWikiNamespaces.php:212-231 | the next id is not used by the wiki |
| ManageWikiNamespaces.NextNamespaceIdValue | extensions/ManageWikiV2/includes/ManageWikiNamespaces.php:224-230 | 3000 for a wiki with no namespaces, else the largest id plus 2 |
| ManageWikiNamespaces.ExtraNames | extensions/ManageWikiV2/includes/ManageWikiNamespaces.php:246-247 | each id gets its row's name and the next odd id the name plus `_talk`; other ids are untouched |
| ManageWikiNamespaces.SubpagesOn | extensions/ManageWikiV2/includes/ManageWikiNamespaces.php:250-253 | both ids of a namespace with subpages get subpages; other entries are untouched |
| ManageWikiNamespaces.ContentIds | extensions/ManageWikiV2/includes/ManageWikiNamespaces.php:256-258 | an id is a content namespace exactly when it was or its row has the content flag |
| ManageWikiNamespaces.ProtectionRights | extensions/ManageWikiV2/includes/ManageWikiNamespaces.php:261-263 | a non-empty protection right becomes the id's only required right; other ids are untouched |
| ManageWikiNamespaces.PutAllGet | extensions/ManageWikiV2/includes/ManageWikiNamespaces.php:267-269 | every alias of one namespace points to its id |
| ManageWikiNamespaces.AliasTargets | extensions/ManageWikiV2/includes/ManageWikiNamespaces.php:266-270 | an alias points to the last namespace listing it; other aliases are untouched |
| ManageWikiNamespaces.RegisterNamespace | extensions/ManageWikiV2/includes/ManageWikiNamespaces.php:245-270 | the loop body applies one row to all five globals |
| ManageWikiNamespaces.RegisterTitles | extensions/ManageWikiV2/includes/ManageWikiNamespaces.php:246-253 | the name, talk-name and subpage lines of the loop body are one step of their folds |
| ManageWikiNamespaces.ApplyNamespaces | extensions/ManageWikiV2/includes/ManageWikiNamespaces.php:238-272 | each of the five globals becomes its fold over the wiki's listing |
| ManageWikiNamespaces.AppliedNamespaces | extensions/ManageWikiV2/includes/ManageWikiNamespaces.php:238-272 | in terms of the table: names, talk names, protection and content flags of the wiki's rows are configured |
| ManageWikiPermissions.GetGroup | extensions/ManageWikiV2/includes/ManageWikiPermissions.php:44-67 | the wiki's row for the group, or nothing (`false`) exactly when there is none |
| ManageWikiPermissions.GroupsOfExact | extensions/ManageWikiV2/includes/ManageWikiPermissions.php:14-35 | the listing holds each of the wiki's groups once, with its own row |
| ManageWikiPermissions.GetGroups | extensions/ManageWikiV2/includes/ManageWikiPermissions.php:14-35 | the loop computes `GroupsOf`; each group maps to what `getGroup` returns |
| ManageWikiPermissions.UpdateGroup | extensions/ManageWikiV2/includes/ManageWikiPermissions.php:77-99 | always `true`; the (wiki, group) row becomes the supplied lists with `[]` for omitted ones; other rows are untouched |
| ManageWikiPermissions.DeleteGroup | extensions/ManageWikiV2/includes/ManageWikiPermissions.php:108-128 | refuses a default group with no write; otherwise removes only the (wiki, group) row |
| ManageWikiPermissions.SetRightsGet | extensions/ManageWikiV2/includes/ManageWikiPermissions.php:142-144 | the inner loop sets exactly the listed rights of that group |
| ManageWikiPermissions.PermissionsApplied | extensions/ManageWikiV2/includes/ManageWikiPermissions.php:140-144 | each stored right of each group gets its value; rights not mentioned keep theirs |
| ManageWikiPermissions.ListsApplied | extensions/ManageWikiV2/includes/ManageWikiPermissions.php:147-154 | a non-empty stored add or remove list replaces the group's entry; empty ones change nothing |
| ManageWikiPermissions.ApplyRights | extensions/ManageWikiV2/includes/ManageWikiPermissions.php:142-144 | the inner loop computes `SetRights` |
| ManageWikiPermissions.ApplyPermissions | extensions/ManageWikiV2/includes/ManageWikiPermissions.php:135-156 | the three globals become their folds over the wiki's groups |
| ManageWikiPermissions.AppliedPermissions | extensions/ManageWikiV2/includes/ManageWikiPermissions.php:135-156 | in terms of the table: each stored right, and each non-empty list, of the wiki's groups is configured; the rest is unchanged |
| SetupCreateWiki.OverridesGet | extensions/CreateWikiV2/SetupCreateWiki.php:78-96 | exactly the allow-listed overlay keys reach the configuration, with their values |
| SetupCreateWiki.SitenameNotOverridden | extensions/CreateWikiV2/SetupCreateWiki.php:81-95 | an overlay's `wgSitename` never changes the configuration |
| SetupCreateWiki.ApplyOverrides | extensions/CreateWikiV2/SetupCreateWiki.php:79-96 | the loop computes `OverridesAfter` |
| SetupCreateWiki.PrivateWikiRights | extensions/CreateWikiV2/SetupCreateWiki.php:113-121 | a private wiki denies `*` reading and account creation and changes no other right |
| SetupCreateWiki.SetupPrivateWiki | extensions/CreateWikiV2/SetupCreateWiki.php:113-121 | the two assignments are `PrivatePermissions` |
| SetupCreateWiki.SetupClosedWiki | extensions/CreateWikiV2/SetupCreateWiki.php:126-130 | `$wgReadOnly` holds the closing message |
| SetupCreateWiki.ApplyWikiSettings | extensions/CreateWikiV2/SetupCreateWiki.php:61-108 | sitename, language and URL come from the row; allow-listed overlay keys are copied; private and closed wikis get their restrictions |
| SetupCreateWiki.SetupCreateWiki | extensions/CreateWikiV2/SetupCreateWiki.php:17-54 | `createwiki` is the default central database; the registry's names are loaded (none when it cannot be read); the row is applied only when the current name is among them |
| SetupCreateWiki.FirstDot | extensions/CreateWikiV2/SetupCreateWiki.php:148 | the position of the first `.`, which ends the label `([a-z0-9_]+)` |
| SetupCreateWiki.GetWikiFromSubdomain | extensions/CreateWikiV2/SetupCreateWiki.php:138-155 | nothing without a configured domain; a result is a non-empty `[a-z0-9_]` label with host = label `.` domain (or that plus one final newline) |
| SetupCreateWiki.GetWikiFromSubdomainComplete | extensions/CreateWikiV2/SetupCreateWiki.php:148-152 | every host of that shape gives its label |
| SetupCreateWiki.DetectsGeneratedUrl | extensions/CreateWikiV2/SetupCreateWiki.php:148-152 | the host of a wiki's generated URL resolves back to its (non-empty, sanitised) name |
| SetupCreateWiki.AutoDetectWikiDatabase | extensions/CreateWikiV2/SetupCreateWiki.php:160-168 | `$wgDBname` becomes the detected label when it is there and truthy, else stays |
| CreateWikiJson.LoadedGet | extensions/CreateWikiV2/includes/CreateWikiJson.php:40-51 | `load` keys every registered wiki's fields by its name; other cached entries stay |
| CreateWikiJson.ImportGet | extensions/CreateWikiV2/includes/CreateWikiJson.php:91-118 | every imported name gets the entry's fields; names the file does not list are untouched |
| CreateWikiJson.ImportUnchanged | extensions/CreateWikiV2/includes/CreateWikiJson.php:91-118 | an import that rewrites rows with what they hold changes nothing |
| CreateWikiJson.LoadImportRoundTrip | extensions/CreateWikiV2/includes/CreateWikiJson.php:41-50 | importing what `load` read leaves the registry exactly as it was |
| CreateWikiJson.LoadedDistinct | extensions/CreateWikiV2/includes/CreateWikiJson.php:41 | a freshly loaded copy has each name once |
| CreateWikiJson.CreateWikiJson.Load | extensions/CreateWikiV2/includes/CreateWikiJson.php:30-52 | the loop computes `LoadedFrom` |
| CreateWikiJson.CreateWikiJson.GetWikis | extensions/CreateWikiV2/includes/CreateWikiJson.php:128-134 | loads only when the copy is empty, then returns it |
| CreateWikiJson.CreateWikiJson.GetWiki | extensions/CreateWikiV2/includes/CreateWikiJson.php:142-148 | loads only when the copy is empty, then the entry or nothing (`null`) |
| CreateWikiJson.CreateWikiJson.ImportFromFile | extensions/CreateWikiV2/includes/CreateWikiJson.php:77-121 | `false` and no write for a missing file or non-array content; otherwise every entry is upserted |
| CreateWikiJson.CreateWikiJson.ImportEntries | extensions/CreateWikiV2/includes/CreateWikiJson.php:91-118 | the upsert loop computes `ImportAfter` |
| CreateWikiJson.CreateWikiJson.Upsert | extensions/CreateWikiV2/includes/CreateWikiJson.php:92-117 | one upsert: insert without creation time, or update keeping it |
| SpecialCreateWiki.MessageKey | extensions/CreateWikiV2/includes/specials/SpecialCreateWiki.php:110-152 | only a creation shows the success message |
| SpecialCreateWiki.CreateAndRegister | extensions/CreateWikiV2/includes/specials/SpecialCreateWiki.php:116-146 | stops at a registered name before provisioning, at a failed create (a database matches the name under `LIKE`, or the server fails) or populate with the registry unchanged; otherwise registers the wiki with its URL and empty settings |
| SpecialCreateWiki.ProcessForm | extensions/CreateWikiV2/includes/specials/SpecialCreateWiki.php:95-157 | an empty sanitised name, sitename or language stops everything; otherwise as `CreateAndRegister` on the sanitised name |
| SpecialCreateWiki.OnSubmit | extensions/CreateWikiV2/includes/specials/SpecialCreateWiki.php:165-209 | with no emptiness check, the outcomes of `CreateAndRegister` on the sanitised name, each exactly under its condition: `AlreadyExists` when that name is registered (nothing provisioned), `DatabaseFailed` when its database is taken under `LIKE` or creation fails, `PopulateFailed` when population fails, `Created` otherwise; storage becomes `AfterCreate`/`AfterPopulate` off the `AlreadyExists` path; registry and clock are unchanged on every failure |
| SpecialCreateWiki.FormWikiRow | extensions/CreateWikiV2/includes/specials/SpecialCreateWiki.php:137-146 | the registered row has the sanitised name, the form's fields, the generated URL and empty settings |
| SpecialCreateWiki.SubmitDefaults | extensions/CreateWikiV2/includes/specials/SpecialCreateWiki.php:187-196 | without `private` the wiki is public, and without a category it is `uncategorised` |

## Left out

- `MirahezeFunctions::getDB` and the connection handling: every helper works on the one `Db` object.
- The SQL, file reading and `Database::factory` internals of `createWikiDB`, `populateWikiDB` and `deleteWiki`: their outcomes are the `Provision` flags and the `dropSucceeds` parameter.
- `isSharedHosting` and `userCanManageWiki`: they probe the file system and the host's `User` object.
- Logging (`wfLogWarning`, `logChange`, `ManualLogEntry`) and the hooks in `CreateWikiHooks.php`: audit side effects only.
- `ManageWikiHooks.php`, the alias files, the HTML of the special pages, `SpecialRequestWiki.php` and `SpecialRequestWikiQueue.php`: user interface only.
- `CreateWikiJson::exportToFile`: it writes a file; the copy it writes is the one `Load` computes.
- Making the cache directory in the `CreateWikiJson` constructor: file system only.
- JSON encoding and decoding: stored JSON columns hold the decoded value directly, so `json_decode(...) ?: []` of a stored value is the value.
- `NULL` columns: every row field holds a value, so the `isset` tests in `applyWikiSettings` always pass.
- Imported entries with missing fields: each entry has all eight fields.
- Renumbering of numeric-string keys by `array_merge`: setting names are never numeric.
- Floating-point values and associative arrays inside a setting value: `Php.Value` has neither.
- The `options` of `select` settings: `validateValue` does not check them either.
- MirahezeFunctions.AddWiki: on a name that is already registered the source's insert throws (the name is the table's key) and nothing is written. The model renders that exception as a `false` result with no write. `createWikiFromRequest` ignores the result of `addWiki` and returns `true`, but the uncaught exception would stop `approve` after provisioning. The model's `CreateWikiFromRequest` returns `false` instead, and `approve` leaves the same state the exception leaves (databases created, request pending, registry unchanged).
- MirahezeFunctions.CreateWikiDB: `LIKE` compares names case-sensitively, as MySQL does for database names on a case-sensitive file system; the case-insensitive setting is not modelled.
- `strlen` counts bytes while the model counts characters: the language codes are ASCII.
- Database coercion of stored flags: namespace flags given as PHP values are stored as their truthiness.
- Timestamps that tie: the clock is strictly increasing.
- Concurrency: the code has no transactions or locks, and the model is sequential.
- `addNamespace` callers that omit the name: the name is a required field of the model's data.
- The start-up guard at the end of `SetupCreateWiki.php`: it is always false (see the list above), so the model has no member for it; `SetupCreateWiki.SetupCreateWiki` models the function itself.
- `LocalSettings.example.php`: its catalogues are the model's built-in constants.
