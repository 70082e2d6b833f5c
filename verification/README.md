# Module versioning: the version-history bookkeeping

This project models the core of a Joomla system plugin that keeps a history of
every site module. A module is a content block with a title, position,
publishing dates, parameters and similar settings. Each time an administrator
saves a module, the plugin may snapshot its settings into the auxiliary table
`#__modules_versions`. It keeps at most `versionstokeep` rows per module, marks
one row per module as "current", and can write any stored row back onto the
module.

The model is functional:

- **Schema** (`schema.dfy`): the table is a sequence of immutable `Row`s in
  auto-increment order, with a `nextId` counter. Each row has `id`, `current`,
  `mod_id`, a map from tracked column name to value, and an opaque
  `changedate`. Column values are SQL NULL or a string, as PHP loads them.
- **Helper** (`helper.dfy`): every database helper of `src/Helper.php` is a
  pure function over that table. `HelperFacts` (`helper_facts.dfy`) relates
  them to each other.
- **Lifecycle** (`lifecycle.dfy`): the event handlers both plugin classes
  share. A handler returns the log of helper calls it makes, and `Exec` runs
  that log against the database. The contracts can therefore speak both of
  how many times a helper runs and of the table that results. The save
  handler is one function, parameterised by the set of accepted contexts.
  `LifecycleFacts` (`lifecycle_facts.dfy`) proves the save, restore and delete
  theorems.
- **Moduleversion** (`moduleversion.dfy`) and **LegacyPlugin**
  (`legacy_plugin.dfy`) are the two plugin entry classes. They differ in
  which contexts they version.
- **OldestFirst** (`oldest_first.dfy`) is the corrected eviction described
  under Findings.

Assumptions:

- The helper class `ModuleversionHelper`, which the namespaced class calls, is
  not part of this model. It is assumed to have the same operations as
  `Helper` in `src/Helper.php`.
- The static cache `self::$results` is loaded once per request, from the
  request's `id`. Theorems about the table after a save assume that the
  loaded rows equal the table's rows for the saved module (`Snapshot`).

Three points about the code that the model makes precise:

- `removeObsolete` deletes the module's newest row, not its oldest (see
  Findings).
- The retention loop runs `N - keep + 1` times when `N >= keep`, and not at
  all otherwise, with `N` counted before the new row is appended. So a
  changed save leaves exactly `min(N + 1, keep)` rows
  (`LifecycleFacts.ChangedSaveCount`).
- The restore branch indexes the loaded rows without a bounds check. The
  model makes the index a precondition.

## Model

| member | source | states |
|---|---|---|
| `Helper.FilterContent` | src/Helper.php:327-356 | keeps exactly the keys that are in the 15-key allowlist and not excluded, each with its value unchanged |
| `HelperFacts.FilterIdempotent` | src/Helper.php:327-356 | filtering an already filtered map gives the same map |
| `HelperFacts.FilterCompose` | src/Helper.php:327-356 | two filters in a row equal one filter that excludes both lists |
| `Helper.CompareVersion` | src/Helper.php:312-318 | true exactly when some allowlisted key of the module is missing from the version or has a different string value there |
| `HelperFacts.CompareEqualFiltered` | src/Helper.php:312-318 | a version whose filtered fields equal the module's filtered fields is never reported as changed |
| `HelperFacts.CompareIgnoresLoadedOnlyKey` | src/Helper.php:312-318 | a key only the loaded version has, such as `mod_id`, never changes the result |
| `HelperFacts.CompareIgnoresUntrackedKey` | src/Helper.php:312-318 | keys outside the allowlist never change the result, on either side |
| `HelperFacts.CompareIsOneDirectional` | src/Helper.php:312-318 | extra fields in the version go unnoticed, while the same field missing from the version counts as a change |
| `HelperFacts.CompareNullIsEmpty` | src/Helper.php:312-318 | NULL and the empty string compare equal, as PHP's string cast makes them |
| `Helper.GetVersions` | src/Helper.php:37-81 | returns exactly the rows with the given `mod_id`, in strictly descending id order |
| `Helper.StoreVersion` | src/Helper.php:88-131 | appends exactly one row and keeps every other row. The new row has the next id, `mod_id` = the item's id, `current` set, and the item's filtered fields, each quoted as a string, so a NULL column is stored as the empty string. An empty publishing date is stored as NULL |
| `HelperFacts.StoreAppendsVersion` | src/Helper.php:88-131 | the stored row joins the end of its module's version list, and no other module's list changes |
| `HelperFacts.StoredVersionMatchesItem` | src/Helper.php:97-104 | a row just stored from a module compares equal to that module, so saving the same settings again is not a change |
| `Helper.ResetCurrent` | src/Helper.php:138-164 | afterwards no row of the module is current. Rows of other modules are unchanged, and only current flags differ |
| `Helper.SetCurrent` | src/Helper.php:172-198 | among the module's rows exactly the one with the given id is current, and if there is none, no row is. Other modules are untouched, and only flags differ |
| `HelperFacts.SetCurrentRows` | src/Helper.php:172-198 | after setCurrent, each of the module's rows is current exactly when it has the given id, and every row of another module is one the table already had |
| `Helper.RestoreAssignments` | src/Helper.php:214-225 | the SET list is the version's tracked fields without `mod_id`. Empty, "0", zero-date or quoted-empty publishing dates become NULL |
| `Helper.UpdateModuleToVersion` | src/Helper.php:205-236 | only the module whose id is the version's `mod_id` changes. It takes the version's tracked fields and keeps every other column |
| `HelperFacts.RestoreAfterStore` | src/Helper.php:205-236 | restoring a stored version gives back the columns it was stored from as strings, a NULL column as the empty string, with publishing dates normalised to NULL |
| `HelperFacts.NullContentStoredAsEmpty` | src/Helper.php:108-113 | a module whose `content` is NULL is stored with `content` = '' and restored with '' |
| `Helper.DeleteVersion` | src/Helper.php:243-263 | removes every row of the module and only those |
| `HelperFacts.DeleteVersionEmpties` | src/Helper.php:243-263 | afterwards the module has no versions, and every other module keeps its list |
| `Helper.UninstallVersion` | src/Helper.php:288-303 | removes exactly the rows whose `module` and `client_id` equal the uninstalled extension's |
| `Helper.RemoveObsolete` | src/Helper.php:394-412 | does nothing to a module without rows and keeps the id counter |
| `Helper.RemoveObsoleteDeletesNewest` | src/Helper.php:394-412 | when the module has a row, exactly one row is deleted: one of that module with the highest id |
| `HelperFacts.RemoveObsoleteDropsNewest` | src/Helper.php:394-412 | the module's newest-first list loses its head, and every other module's list is unchanged |
| `HelperFacts.RemoveNewestOwned` | src/Helper.php:394-412 | on rows in id order, one removeObsolete takes off the last of the module's rows in table order, and leaves the rows as they were when the module has none |
| `LifecycleFacts.RemovalRowsOwned` | src/Helper.php:394-412 | `k` removeObsolete calls drop the module's `k` newest rows, or all of them when it has fewer |
| `LifecycleFacts.RemovalRowsOthers` | src/Helper.php:394-412 | removeObsolete calls for one module leave every other module's rows unchanged |
| `LifecycleFacts.RemovalRowsFrame` | src/Helper.php:394-412 | removeObsolete calls only delete rows, and rows in id order stay in id order |
| `Lifecycle.LoadVersionsResults` | src/Extension/Moduleversion.php:485-505 | a filled cache is returned as it is. With no request `id` the result is empty with count 0, and otherwise it holds exactly that module's rows, newest first |
| `LifecycleFacts.LoadIsMemoised` | src/Extension/Moduleversion.php:487-489 | a second load, for any request and table, returns the first load's result |
| `Lifecycle.VersionsToKeep` | src/Extension/Moduleversion.php:414-419 | the option (10 when unset) is used as it is when it is 1 or more, and a value below 1 becomes exactly 1 |
| `Lifecycle.Evictions` | src/Extension/Moduleversion.php:422-430 | the retention loop makes `N - keep + 1` removeObsolete calls for the module when `N >= keep`, and none otherwise |
| `Lifecycle.SavePlan` | src/Extension/Moduleversion.php:376-431 | outside the administrator or an accepted context no call is made and the cache is unchanged. Otherwise the cache is loaded, and any calls begin with resetCurrent then storeVersion |
| `Lifecycle.DeletePlan` | src/Extension/Moduleversion.php:442-454 | deleteVersion of the module is called exactly when the administrator deletes in an accepted context |
| `Lifecycle.RestorePlan` | src/Extension/Moduleversion.php:319-328 | with loaded versions and a posted index, calls updateModuleToVersion then setCurrent for that version, and otherwise nothing |
| `Lifecycle.UninstallPlan` | src/Extension/Moduleversion.php:465-476 | in the administrator, deletes the versions of the uninstalled extension, and otherwise nothing |
| `LifecycleFacts.InitialSave` | src/Extension/Moduleversion.php:389-397 | for a new module or one with no loaded versions, the calls are exactly reset and store. The module gains one version, the newest, carrying its fields, and it is the module's only current row. Other modules are unchanged |
| `LifecycleFacts.UnchangedSave` | src/Extension/Moduleversion.php:399-405 | when the newest loaded version compares equal, the database is unchanged |
| `LifecycleFacts.ResaveIsNoop` | src/Extension/Moduleversion.php:399-405 | saving the settings the newest version was stored from changes nothing |
| `LifecycleFacts.ChangedSaveCalls` | src/Extension/Moduleversion.php:407-430 | a changed save calls reset and store once each. It calls removeObsolete `N - keep + 1` times when `N >= keep` and never when `N < keep`, with `N` counted before the append |
| `LifecycleFacts.ChangedSaveCount` | src/Extension/Moduleversion.php:407-430 | after a changed save the module has exactly `min(N + 1, keep)` versions |
| `LifecycleFacts.ChangedSaveBelowLimit` | src/Extension/Moduleversion.php:407-430 | below the limit the new row is added, is the newest, carries the module's fields, and is the only current row |
| `LifecycleFacts.ChangedSaveOthers` | src/Extension/Moduleversion.php:407-430 | a changed save leaves every other module's versions unchanged |
| `LifecycleFacts.ChangedSaveEvictsNewVersion` | src/Extension/Moduleversion.php:422-430 | at or above the limit the row just stored is deleted. The `keep` oldest versions remain, and none of the module's rows is current |
| `LifecycleFacts.NewestEvictionExample` | src/Helper.php:403-407 | a module with one version "A", keep 1, saved with title "B", keeps only "A", and "A" is no longer current |
| `LifecycleFacts.SaveKeepsAtMostOneCurrent` | src/Extension/Moduleversion.php:376-431 | every save preserves "at most one current row per module" |
| `LifecycleFacts.SaveModulesUntouched` | src/Extension/Moduleversion.php:376-431 | no save writes to a module |
| `LifecycleFacts.RestoreSelectsVersion` | moduleversion.php:139-150 | restoring a loaded version still in the table writes it to its module and makes it the module's only current row. No row is added or removed, and the cache is kept |
| `LifecycleFacts.RestoreWritesModule` | src/Extension/Moduleversion.php:319-328 | a restore with a valid posted index writes that version onto its module, whether or not the row is still in the table |
| `LifecycleFacts.RestoreKeepsCounts` | src/Extension/Moduleversion.php:319-328 | a restore neither adds nor removes any module's versions |
| `LifecycleFacts.RestoreKeepsAtMostOneCurrent` | src/Extension/Moduleversion.php:319-328 | a restore preserves "at most one current row per module" |
| `LifecycleFacts.DeleteRemovesVersions` | src/Extension/Moduleversion.php:442-454 | a delete in an accepted context removes all of the module's versions, and nothing else changes |
| `LifecycleFacts.UninstallRemovesVersions` | moduleversion.php:275-284 | an administrator uninstall removes exactly the uninstalled extension's versions |
| `Moduleversion.OnExtensionAfterSave` | src/Extension/Moduleversion.php:376-387 | outside the administrator, or in a context other than `com_modules.module` and `com_advancedmodules.module`, nothing changes. Modules are never written, and at most one current row per module is kept |
| `Moduleversion.AdvancedModulesVersioned` | src/Extension/Moduleversion.php:383-397 | a new module saved from Advanced Module Manager gains one version, its newest, with the next id; it is current and is the module's only current row |
| `Moduleversion.ChangedSaveRetention` | src/Extension/Moduleversion.php:407-430 | a changed save calls removeObsolete `N - keep + 1` times exactly when `N >= keep` and leaves `min(N + 1, keep)` versions. Every other module keeps its versions |
| `Moduleversion.OnExtensionAfterDelete` | src/Extension/Moduleversion.php:442-454 | in an accepted administrator context the module loses all its versions and others keep theirs; otherwise nothing changes |
| `Moduleversion.OnExtensionBeforeUninstall` | src/Extension/Moduleversion.php:465-476 | in the administrator, exactly the rows of the uninstalled extension go; otherwise nothing changes |
| `Moduleversion.OnAfterRender` | src/Extension/Moduleversion.php:319-328 | with a valid posted index, the version is written to its module. When the version is still in the table it stays there, flagged current, and is its module's only current row. No version is added or removed, and outside the administrator, with no loaded versions or with no posted index, the site is unchanged |
| `LegacyPlugin.OnExtensionAfterSave` | moduleversion.php:195-202 | only an administrator save in `com_modules.module` does anything. Modules are never written, and at most one current row per module is kept |
| `LegacyPlugin.AdvancedModulesIgnored` | moduleversion.php:197-200 | a save from `com_advancedmodules.module` changes nothing, where the namespaced class would store a version |
| `LegacyPlugin.NewModuleSave` | moduleversion.php:204-212 | a new module, or one with no loaded versions, gains one version: its newest, with the next id and the item's fields; it is current and is the module's only current row |
| `LegacyPlugin.UnchangedSaveIsNoop` | moduleversion.php:214-220 | a save matching the newest loaded version changes nothing |
| `LegacyPlugin.ChangedSaveTrims` | moduleversion.php:228-245 | `keep` is at least 1, and removeObsolete runs `N - keep + 1` times exactly when `N >= keep` |
| `LegacyPlugin.OnExtensionAfterDelete` | moduleversion.php:255-264 | an administrator delete in `com_modules.module` removes every version of `table.id` and no other; otherwise nothing changes |
| `OldestFirst.RemoveOldest` | src/Helper.php:403-407 | the corrected eviction only deletes rows, keeps the id order and keeps the next id |
| `OldestFirst.DropOldestOwned` | src/Helper.php:403-407 | the corrected eviction takes out exactly the module's first row, or nothing when the module has no rows |
| `OldestFirst.DropOldestLowestId` | src/Helper.php:403-407 | the row the corrected eviction takes out has the lowest id among the module's rows |
| `OldestFirst.DropOldestNOwned` | src/Helper.php:403-407 | `k` corrected evictions drop the module's `k` oldest versions, or all of them when it has fewer |
| `OldestFirst.CorrectedSaveCurrent` | src/Extension/Moduleversion.php:407-430 | however many corrected evictions follow a changed save, the module's only current row is the new one, if it remains |
| `OldestFirst.CorrectedSaveKeepsNewVersion` | src/Extension/Moduleversion.php:407-430 | with oldest-first eviction a changed save leaves `min(N + 1, keep)` versions. The new one remains, is the newest, and is the only current row |

## Left out

- HTML and UI: the modal and accordion built in `onAfterRender`, `layout/modal.php`, `Helper::formatOutput`, the toolbar button of `onBeforeRender`, `onBeforeCompileHead`, the waiting spinner and the `Refresh` redirect. These are presentation and I/O.
- The load in `onBeforeRender`: the restore branch reads the cache that this earlier listener filled. The model takes that cache as an input.
- SQL and driver behaviour: `LIKE` on an integer id is equality. Quoting is modelled only by its effect on values: every stored value becomes a string, NULL becoming the empty string, and the check for the quoted empty string `"''"` is the empty value.
- Clock and JSON: `changedate` comes from the clock and is a parameter. `params` is an opaque string.
- `uninstallVersion`: the `#__extensions` lookup of the extension id is a foreign query. Its result, the element and the client, is passed in as parameters. When the lookup finds nothing, PHP reads the element and client as null (with a warning), and the DELETE still runs with `module = ''` and `client_id = ''`. The model does not treat this case separately: it corresponds to passing the empty strings as the parameters.
- `script.php`: installer DDL and version checks.
- Interleaving: races between the separate `resetCurrent` and `storeVersion` statements, and cache behaviour across requests. The model is single-request and sequential.
- Database errors: every query is assumed to succeed.
- PHP type juggling: the `(int)` cast of `versionstokeep` is an optional integer, and non-numeric option text is not modelled. moduleversion.php declares `strict_types = 1`, and the legacy class passes ids that the database may return as strings to int parameters: `$item->id` and `$item->mod_id` to `setCurrent` (150), `$item->id` to `resetCurrent` (207, 223) and `removeObsolete` (242), and `$table->id` to `deleteVersion` (263). The type errors strict typing could raise on those calls are not modelled; ids are integers throughout.
- `RestorePlan`: an out-of-range posted index is excluded by a precondition. PHP's undefined-index behaviour is not modelled.
- `LifecycleFacts.RestoreSelectsVersion`: assumes the loaded version is still in the table, as it is when the cache was loaded in the same request.
- `Moduleversion.OnAfterRender`: the clause that the restored version becomes its module's only current row assumes the cached row is still in the table. If the row was deleted since the cache was loaded, setCurrent flags no row of the module. The module write is promised for every valid index.

## Findings

| source | as written | input that shows it | evidently intended | confidence | as-written member | corrected member |
|---|---|---|---|---|---|---|
| src/Helper.php:403-407 | `removeObsolete` deletes the module's row with the highest id (`ORDER BY id DESC LIMIT 1`). The save handler calls it right after storing the new version | module 5 has one version, title "A", and `versionstokeep` is 1. Saving it with title "B" deletes the new "B" version at once, and "A" is left with no current mark | evict the oldest versions, so that the version just saved stays and is current | not executed; high: the save handler stores the new row before it trims, so the first row the newest-first delete removes is the row just stored | `LifecycleFacts.NewestEvictionExample` | `OldestFirst.CorrectedSaveKeepsNewVersion` |

The event handlers keep `removeObsolete` as written, because the model describes the code. `LifecycleFacts.ChangedSaveEvictsNewVersion` states the general consequence. `OldestFirst` gives the oldest-first eviction and proves what it would guarantee.
