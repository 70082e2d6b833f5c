/**
 * The legacy plugin class `PlgSystemModuleversion`: the same save and delete
 * listeners over the shared handlers, accepting only the core module
 * manager's context. Its restore branch and uninstall listener make the same
 * helper calls as the namespaced class and need no context, so they are the
 * shared `OnRestore` and `OnUninstall`.
 */
module LegacyPlugin {
  import opened Wrappers
  import opened Schema
  import Helper
  import HelperFacts
  import opened Lifecycle
  import LifecycleFacts
  import Moduleversion

  /** The only context the legacy class versions. */
  const AcceptedContexts: set<string> := {"com_modules.module"}

  /**
   * onExtensionAfterSave of the legacy class: only an administrator save in
   * `com_modules.module` does anything; modules are never written, and at
   * most one version per module stays current.
   */
  function OnExtensionAfterSave(s: Site, req: Request, context: string, item: Module, isNew: bool,
                                keepSetting: Option<int>, now: string): (r: Site)
    ensures !req.isAdministrator || context != "com_modules.module" ==> r == s
    ensures req.isAdministrator && context == "com_modules.module" ==> r.cache == LoadVersionsResults(s.cache, req.id, s.db.versions)
    ensures r.db.modules == s.db.modules
    ensures AtMostOneCurrent(s.db.versions) ==> AtMostOneCurrent(r.db.versions)
  {
    var r := OnSave(AcceptedContexts, s, req, context, item, isNew, keepSetting, now);
    LifecycleFacts.SaveModulesUntouched(AcceptedContexts, s, req, context, item, isNew, keepSetting, now);
    LifecycleFacts.SaveKeepsAtMostOneCurrent(AcceptedContexts, s, req, context, item, isNew, keepSetting, now);
    r
  }

  /**
   * Unlike the namespaced class, the legacy class ignores saves from Advanced
   * Module Manager, even for a new module.
   */
  lemma AdvancedModulesIgnored(s: Site, req: Request, item: Module, isNew: bool, keepSetting: Option<int>, now: string)
    ensures OnExtensionAfterSave(s, req, "com_advancedmodules.module", item, isNew, keepSetting, now) == s
    ensures req.isAdministrator && isNew ==>
      Moduleversion.OnExtensionAfterSave(s, req, "com_advancedmodules.module", item, isNew, keepSetting, now).db
        != s.db
  {
    if req.isAdministrator && isNew {
      LifecycleFacts.InitialSave(Moduleversion.AcceptedContexts, s, req, "com_advancedmodules.module", item, isNew, keepSetting, now);
    }
  }

  /**
   * A new module, or one with no loaded versions, is reset and stored once:
   * it gains one version, the newest, which carries its fields and is its
   * only current version.
   */
  lemma NewModuleSave(s: Site, req: Request, item: Module, isNew: bool, keepSetting: Option<int>, now: string)
    requires req.isAdministrator
    requires isNew || NumberOfVersions(LoadVersionsResults(s.cache, req.id, s.db.versions)) == 0
    ensures var t, t' := s.db.versions, OnExtensionAfterSave(s, req, "com_modules.module", item, isNew, keepSetting, now).db.versions;
      && HelperFacts.Count(t', item.id) == HelperFacts.Count(t, item.id) + 1
      && Helper.GetVersions(t', item.id)[0].id == t.nextId
      && Helper.GetVersions(t', item.id)[0].current
      && Helper.GetVersions(t', item.id)[0].fields == Helper.StoredFields(item)
      && (forall x :: x in t'.rows && x.modId == item.id ==> (x.current <==> x.id == t.nextId))
  {
    LifecycleFacts.InitialSave(AcceptedContexts, s, req, "com_modules.module", item, isNew, keepSetting, now);
  }

  /** A save whose settings match the newest loaded version leaves the database as it was. */
  lemma UnchangedSaveIsNoop(s: Site, req: Request, item: Module, keepSetting: Option<int>, now: string)
    requires req.isAdministrator
    requires var c := LoadVersionsResults(s.cache, req.id, s.db.versions);
      NumberOfVersions(c) > 0 && !Helper.CompareVersion(item.columns, AsObject(c.results[0]))
    ensures OnExtensionAfterSave(s, req, "com_modules.module", item, false, keepSetting, now).db == s.db
  {
    LifecycleFacts.UnchangedSave(AcceptedContexts, s, req, "com_modules.module", item, keepSetting, now);
  }

  /**
   * A changed save: `keep` is the option raised to at least 1, and
   * removeObsolete runs `N - keep + 1` times exactly when the `N` loaded
   * versions reach it.
   */
  lemma ChangedSaveTrims(s: Site, req: Request, item: Module, keepSetting: Option<int>, now: string)
    requires LifecycleFacts.ChangedSave(AcceptedContexts, s, req, "com_modules.module", item, false)
    ensures var n := NumberOfVersions(LoadVersionsResults(s.cache, req.id, s.db.versions));
      var keep := VersionsToKeep(keepSetting);
      var calls := SavePlan(AcceptedContexts, s.cache, s.db, req, "com_modules.module", item, false, keepSetting, now).calls;
      && keep >= 1
      && (n >= keep <==> Occurrences(calls, RemoveObsolete(item.id)) > 0)
      && (n >= keep ==> Occurrences(calls, RemoveObsolete(item.id)) == n - keep + 1)
  {
    LifecycleFacts.ChangedSaveCalls(AcceptedContexts, s, req, "com_modules.module", item, false, keepSetting, now);
  }

  /**
   * onExtensionAfterDelete of the legacy class: a delete in
   * `com_modules.module` by the administrator removes every version of the
   * deleted module and no other; anything else changes nothing.
   */
  function OnExtensionAfterDelete(s: Site, req: Request, context: string, modId: int): (r: Site)
    ensures !req.isAdministrator || context != "com_modules.module" ==> r == s
    ensures req.isAdministrator && context == "com_modules.module" ==>
      && Helper.GetVersions(r.db.versions, modId) == []
      && (forall other :: other != modId ==> Helper.GetVersions(r.db.versions, other) == Helper.GetVersions(s.db.versions, other))
    ensures r.db.modules == s.db.modules && r.cache == s.cache
  {
    var r := OnDelete(AcceptedContexts, s, req, context, modId);
    LifecycleFacts.DeleteRemovesVersions(AcceptedContexts, s, req, context, modId);
    r
  }
}
