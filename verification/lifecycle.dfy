/**
 * The event handlers both plugin classes share: the save handler's decision
 * and retention logic, the delete and uninstall handlers, the restore branch
 * of onAfterRender, and the per-request cache of loaded versions.
 *
 * A handler's effect on the database is the sequence of helper calls it makes
 * (`Call`), run in order by `Exec`; stating effects as call logs lets the
 * contracts speak both about which helpers run and about the resulting table.
 */
module Lifecycle {
  import opened Wrappers
  import opened Schema
  import Helper

  /** The database the plugin touches: the version table and the `#__modules` rows by id. */
  datatype Db = Db(versions: Table, modules: map<int, Columns>)

  /** One call of a database helper, with its arguments. */
  datatype Call =
    | ResetCurrent(modId: int)
    | StoreVersion(item: Module, now: string)
    | SetCurrent(id: int, modId: int)
    | UpdateModuleToVersion(version: Row)
    | DeleteVersion(modId: int)
    | RemoveObsolete(modId: int)
    | UninstallVersion(element: string, clientId: string)

  function Run(db: Db, c: Call): Db
  {
    match c
    case ResetCurrent(m) => db.(versions := Helper.ResetCurrent(db.versions, m))
    case StoreVersion(item, now) => db.(versions := Helper.StoreVersion(db.versions, item, now))
    case SetCurrent(id, m) => db.(versions := Helper.SetCurrent(db.versions, id, m))
    case UpdateModuleToVersion(v) => db.(modules := Helper.UpdateModuleToVersion(db.modules, v))
    case DeleteVersion(m) => db.(versions := Helper.DeleteVersion(db.versions, m))
    case RemoveObsolete(m) => db.(versions := Helper.RemoveObsolete(db.versions, m))
    case UninstallVersion(e, cl) => db.(versions := Helper.UninstallVersion(db.versions, e, cl))
  }

  /** Runs the calls one after another, first to last. */
  function Exec(db: Db, calls: seq<Call>): Db
    decreases |calls|
  {
    if |calls| == 0 then db else Exec(Run(db, calls[0]), calls[1..])
  }

  /** How many times `c` occurs in the call log. */
  function Occurrences(calls: seq<Call>, c: Call): nat
  {
    if |calls| == 0 then 0 else (if calls[0] == c then 1 else 0) + Occurrences(calls[1..], c)
  }

  /** `k` copies of one call. */
  function Repeat(c: Call, k: nat): (r: seq<Call>)
    ensures |r| == k && forall i :: 0 <= i < k ==> r[i] == c
  {
    seq(k, _ => c)
  }

  /**
   * The static cache `self::$results`: nothing loaded yet, or the version rows
   * loaded once for the request; `self::$numberOfVersions` is their count.
   */
  datatype Cache = Unloaded | Loaded(results: seq<Row>)

  function NumberOfVersions(c: Cache): nat
  {
    match c
    case Unloaded => 0
    case Loaded(rs) => |rs|
  }

  /** The request input the handlers read: the client, the GET `id` (0 when absent) and the POST `index` (-1 when absent). */
  datatype Request = Request(isAdministrator: bool, id: int, index: int)

  /**
   * loadVersionsResults: loads the versions of the module named by the
   * request once; when the cache is already filled it does nothing.
   */
  function LoadVersionsResults(c: Cache, requestId: int, t: Table): (r: Cache)
    ensures r.Loaded?
    ensures c.Loaded? ==> r == c
    ensures c.Unloaded? && requestId == 0 ==> r == Loaded([]) && NumberOfVersions(r) == 0
    ensures c.Unloaded? && requestId != 0 ==>
      && (forall x :: x in r.results <==> x in t.rows && x.modId == requestId)
      && (forall i, j :: 0 <= i < j < |r.results| ==> r.results[i].id > r.results[j].id)
  {
    if c.Loaded? then c
    else if requestId == 0 then Loaded([])
    else Loaded(Helper.GetVersions(t, requestId))
  }

  /** The `versionstokeep` option (10 when unset), raised to 1 when below 1. */
  function VersionsToKeep(setting: Option<int>): (keep: int)
    ensures keep >= 1
    ensures setting.GetOr(10) >= 1 ==> keep == setting.GetOr(10)
    ensures setting.GetOr(10) < 1 ==> keep == 1
    ensures setting.None? ==> keep == 10
  {
    var configured := setting.GetOr(10);
    if configured < 1 then 1 else configured
  }

  /** The retention loop: `for (i = 0; i <= n - keep; i++) removeObsolete(modId)` when `n >= keep`. */
  function Evictions(n: nat, keep: int, modId: int): (calls: seq<Call>)
    ensures |calls| == (if n >= keep then n - keep + 1 else 0)
    ensures forall i :: 0 <= i < |calls| ==> calls[i] == RemoveObsolete(modId)
  {
    var tooMany := n - keep;
    if n >= keep && tooMany >= 0 then Repeat(RemoveObsolete(modId), tooMany + 1) else []
  }

  /** What a handler leaves behind: the cache after it, and the helper calls it made. */
  datatype Outcome = Outcome(cache: Cache, calls: seq<Call>)

  /**
   * onExtensionAfterSave, for the contexts the plugin class `accepted`:
   * outside the administrator or an accepted context nothing happens; a new
   * module, or one with no loaded versions, gets its mark reset and a new
   * version; otherwise the newest loaded version is compared with the module
   * and, when something changed, a new version is stored and the history trimmed.
   */
  function SavePlan(accepted: set<string>, cache: Cache, db: Db, req: Request, context: string,
                    item: Module, isNew: bool, keepSetting: Option<int>, now: string): (out: Outcome)
    ensures !req.isAdministrator || context !in accepted ==> out == Outcome(cache, [])
    ensures req.isAdministrator && context in accepted ==> out.cache == LoadVersionsResults(cache, req.id, db.versions)
    ensures |out.calls| == 0 || (|out.calls| >= 2 && out.calls[..2] == [ResetCurrent(item.id), StoreVersion(item, now)])
  {
    if !req.isAdministrator || context !in accepted then
      Outcome(cache, [])
    else
      var loaded := LoadVersionsResults(cache, req.id, db.versions);
      if isNew || NumberOfVersions(loaded) == 0 then
        Outcome(loaded, [ResetCurrent(item.id), StoreVersion(item, now)])
      else if !Helper.CompareVersion(item.columns, AsObject(loaded.results[0])) then
        Outcome(loaded, [])
      else
        var keep := VersionsToKeep(keepSetting);
        Outcome(loaded, [ResetCurrent(item.id), StoreVersion(item, now)] + Evictions(NumberOfVersions(loaded), keep, item.id))
  }

  /** onExtensionAfterDelete: in an accepted administrator context, deletes the module's versions. */
  function DeletePlan(accepted: set<string>, req: Request, context: string, modId: int): (calls: seq<Call>)
    ensures calls == [] || calls == [DeleteVersion(modId)]
    ensures calls != [] <==> req.isAdministrator && context in accepted
  {
    if !req.isAdministrator || context !in accepted then [] else [DeleteVersion(modId)]
  }

  /**
   * The restore branch of onAfterRender: with versions in the cache and a
   * posted index, writes that version back onto its module and makes it the
   * current one. The posted index must name a cached version.
   */
  function RestorePlan(cache: Cache, req: Request): (calls: seq<Call>)
    requires req.isAdministrator && NumberOfVersions(cache) > 0 && req.index >= 0 ==> req.index < NumberOfVersions(cache)
    ensures calls != [] <==> req.isAdministrator && NumberOfVersions(cache) > 0 && req.index >= 0
    ensures calls != [] ==>
      && cache.Loaded?
      && calls == [UpdateModuleToVersion(cache.results[req.index]),
                   SetCurrent(cache.results[req.index].id, cache.results[req.index].modId)]
  {
    if !req.isAdministrator || cache.Unloaded? || |cache.results| == 0 then []
    else if req.index < 0 then []
    else
      var v := cache.results[req.index];
      [UpdateModuleToVersion(v), SetCurrent(v.id, v.modId)]
  }

  /**
   * onExtensionBeforeUninstall: in the administrator, deletes the versions of
   * every module of the uninstalled extension, named by its element and client.
   */
  function UninstallPlan(req: Request, element: string, clientId: string): (calls: seq<Call>)
    ensures calls != [] <==> req.isAdministrator
    ensures calls != [] ==> calls == [UninstallVersion(element, clientId)]
  {
    if !req.isAdministrator then [] else [UninstallVersion(element, clientId)]
  }

  /** The plugin's view of the world during one request: the database and the static cache. */
  datatype Site = Site(db: Db, cache: Cache)

  function Apply(s: Site, out: Outcome): Site
  {
    Site(Exec(s.db, out.calls), out.cache)
  }

  function OnSave(accepted: set<string>, s: Site, req: Request, context: string,
                  item: Module, isNew: bool, keepSetting: Option<int>, now: string): Site
  {
    Apply(s, SavePlan(accepted, s.cache, s.db, req, context, item, isNew, keepSetting, now))
  }

  function OnDelete(accepted: set<string>, s: Site, req: Request, context: string, modId: int): Site
  {
    Apply(s, Outcome(s.cache, DeletePlan(accepted, req, context, modId)))
  }

  function OnRestore(s: Site, req: Request): Site
    requires req.isAdministrator && NumberOfVersions(s.cache) > 0 && req.index >= 0 ==> req.index < NumberOfVersions(s.cache)
  {
    Apply(s, Outcome(s.cache, RestorePlan(s.cache, req)))
  }

  function OnUninstall(s: Site, req: Request, element: string, clientId: string): Site
  {
    Apply(s, Outcome(s.cache, UninstallPlan(req, element, clientId)))
  }
}
