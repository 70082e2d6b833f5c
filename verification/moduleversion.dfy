/**
 * The namespaced plugin class `Moduleversion` (Joomla 4 event subscriber):
 * its save, delete and uninstall listeners and the restore branch of
 * onAfterRender, over the shared handlers with the two module editors'
 * contexts accepted.
 */
module Moduleversion {
  import opened Wrappers
  import opened Schema
  import Helper
  import HelperFacts
  import opened Lifecycle
  import LifecycleFacts

  /** The save and delete contexts of the core module manager and of Advanced Module Manager. */
  const AcceptedContexts: set<string> := {"com_modules.module", "com_advancedmodules.module"}

  /**
   * onExtensionAfterSave. Outside the administrator, or for any other
   * context, nothing at all changes; otherwise the cache is filled for the
   * request. Modules are never written, and at most one version per module
   * stays current.
   */
  function OnExtensionAfterSave(s: Site, req: Request, context: string, item: Module, isNew: bool,
                                keepSetting: Option<int>, now: string): (r: Site)
    ensures !req.isAdministrator || context !in AcceptedContexts ==> r == s
    ensures req.isAdministrator && context in AcceptedContexts ==> r.cache == LoadVersionsResults(s.cache, req.id, s.db.versions)
    ensures r.db.modules == s.db.modules
    ensures AtMostOneCurrent(s.db.versions) ==> AtMostOneCurrent(r.db.versions)
  {
    var r := OnSave(AcceptedContexts, s, req, context, item, isNew, keepSetting, now);
    LifecycleFacts.SaveModulesUntouched(AcceptedContexts, s, req, context, item, isNew, keepSetting, now);
    LifecycleFacts.SaveKeepsAtMostOneCurrent(AcceptedContexts, s, req, context, item, isNew, keepSetting, now);
    r
  }

  /** Saves from Advanced Module Manager are versioned like the core module manager's. */
  lemma AdvancedModulesVersioned(s: Site, req: Request, item: Module, keepSetting: Option<int>, now: string)
    requires req.isAdministrator
    ensures var t, t' := s.db.versions, OnExtensionAfterSave(s, req, "com_advancedmodules.module", item, true, keepSetting, now).db.versions;
      && HelperFacts.Count(t', item.id) == HelperFacts.Count(t, item.id) + 1
      && Helper.GetVersions(t', item.id)[0].id == t.nextId
      && Helper.GetVersions(t', item.id)[0].current
      && (forall x :: x in t'.rows && x.modId == item.id ==> (x.current <==> x.id == t.nextId))
  {
    LifecycleFacts.InitialSave(AcceptedContexts, s, req, "com_advancedmodules.module", item, true, keepSetting, now);
  }

  /**
   * A save whose newest loaded version differs: with `N` loaded versions,
   * equal to the module's versions in the table, and the clamped `keep`,
   * removeObsolete runs `N - keep + 1` times when `N >= keep` and never
   * otherwise, and the module ends up with `min(N + 1, keep)` versions;
   * every other module keeps its versions.
   */
  lemma ChangedSaveRetention(s: Site, req: Request, context: string, item: Module, keepSetting: Option<int>, now: string)
    requires LifecycleFacts.ChangedSave(AcceptedContexts, s, req, context, item, false)
    requires LifecycleFacts.Snapshot(s, req, item.id)
    ensures var n, keep := HelperFacts.Count(s.db.versions, item.id), VersionsToKeep(keepSetting);
      var calls := SavePlan(AcceptedContexts, s.cache, s.db, req, context, item, false, keepSetting, now).calls;
      var t' := OnExtensionAfterSave(s, req, context, item, false, keepSetting, now).db.versions;
      && Occurrences(calls, RemoveObsolete(item.id)) == (if n >= keep then n - keep + 1 else 0)
      && HelperFacts.Count(t', item.id) == (if n + 1 <= keep then n + 1 else keep)
      && (forall other :: other != item.id ==> Helper.GetVersions(t', other) == Helper.GetVersions(s.db.versions, other))
  {
    LifecycleFacts.ChangedSaveCalls(AcceptedContexts, s, req, context, item, false, keepSetting, now);
    LifecycleFacts.ChangedSaveCount(AcceptedContexts, s, req, context, item, false, keepSetting, now);
    forall other | other != item.id
      ensures Helper.GetVersions(OnExtensionAfterSave(s, req, context, item, false, keepSetting, now).db.versions, other)
        == Helper.GetVersions(s.db.versions, other)
    {
      LifecycleFacts.ChangedSaveOthers(AcceptedContexts, s, req, context, item, false, keepSetting, now, other);
    }
  }

  /**
   * onExtensionAfterDelete. In an accepted administrator context the
   * deleted module loses all its versions and every other module keeps its
   * own; otherwise nothing changes.
   */
  function OnExtensionAfterDelete(s: Site, req: Request, context: string, modId: int): (r: Site)
    ensures !req.isAdministrator || context !in AcceptedContexts ==> r == s
    ensures req.isAdministrator && context in AcceptedContexts ==>
      && Helper.GetVersions(r.db.versions, modId) == []
      && (forall other :: other != modId ==> Helper.GetVersions(r.db.versions, other) == Helper.GetVersions(s.db.versions, other))
    ensures r.db.modules == s.db.modules && r.cache == s.cache
  {
    var r := OnDelete(AcceptedContexts, s, req, context, modId);
    LifecycleFacts.DeleteRemovesVersions(AcceptedContexts, s, req, context, modId);
    r
  }

  /**
   * onExtensionBeforeUninstall, with the `#__extensions` lookup of the
   * extension id given as its element and client: in the administrator the
   * versions of that extension's modules go, and exactly those.
   */
  function OnExtensionBeforeUninstall(s: Site, req: Request, element: string, clientId: string): (r: Site)
    ensures !req.isAdministrator ==> r == s
    ensures req.isAdministrator ==>
      forall x :: x in r.db.versions.rows <==> x in s.db.versions.rows && !Helper.Matches(Helper.ExtensionIs(element, clientId), x)
  {
    var r := OnUninstall(s, req, element, clientId);
    LifecycleFacts.UninstallRemovesVersions(s, req, element, clientId);
    r
  }

  /**
   * The restore branch of onAfterRender. A posted index that names a loaded
   * version writes that version onto its module; when the version is still in
   * the table it also becomes the module's only current version. No version
   * is added or removed.
   */
  function OnAfterRender(s: Site, req: Request): (r: Site)
    requires req.isAdministrator && NumberOfVersions(s.cache) > 0 && req.index >= 0 ==> req.index < NumberOfVersions(s.cache)
    ensures !req.isAdministrator || NumberOfVersions(s.cache) == 0 || req.index < 0 ==> r == s
    ensures r.cache == s.cache
    ensures forall m :: HelperFacts.Count(r.db.versions, m) == HelperFacts.Count(s.db.versions, m)
    ensures req.isAdministrator && 0 <= req.index < NumberOfVersions(s.cache) ==>
      r.db.modules == Helper.UpdateModuleToVersion(s.db.modules, s.cache.results[req.index])
    ensures req.isAdministrator && 0 <= req.index < NumberOfVersions(s.cache) && s.cache.results[req.index] in s.db.versions.rows ==>
      var v := s.cache.results[req.index];
      && v.(current := true) in r.db.versions.rows
      && (forall x :: x in r.db.versions.rows && x.modId == v.modId ==> (x.current <==> x.id == v.id))
  {
    var r := OnRestore(s, req);
    LifecycleFacts.RestoreKeepsCounts(s, req);
    LifecycleFacts.RestoreWritesModule(s, req);
    LifecycleFacts.RestoreSelectsVersion(s, req);
    r
  }
}
