/**
 * What the save, restore and delete handlers do to the version table: the
 * three save paths, the number of versions kept after a changed save, the
 * current mark, and the consequences of evicting with removeObsolete.
 */
module LifecycleFacts {
  import opened Wrappers
  import opened Schema
  import Helper
  import HelperFacts
  import opened Lifecycle

  /** The versions the save handler loads are exactly the table's versions of module `m`. */
  predicate Snapshot(s: Site, req: Request, m: int)
  {
    LoadVersionsResults(s.cache, req.id, s.db.versions) == Loaded(Helper.GetVersions(s.db.versions, m))
  }

  /** The save takes the changed path: accepted, not new, versions loaded, and the newest differs. */
  predicate ChangedSave(accepted: set<string>, s: Site, req: Request, context: string, item: Module, isNew: bool)
  {
    var c := LoadVersionsResults(s.cache, req.id, s.db.versions);
    && req.isAdministrator && context in accepted && !isNew
    && NumberOfVersions(c) > 0
    && Helper.CompareVersion(item.columns, AsObject(c.results[0]))
  }

  // ---------------------------------------------------------------------------
  // Call logs
  // ---------------------------------------------------------------------------

  lemma {:induction false} ExecConcat(db: Db, a: seq<Call>, b: seq<Call>)
    ensures Exec(db, a + b) == Exec(Exec(db, a), b)
    decreases |a|
  {
    if |a| == 0 {
      assert a + b == b;
    } else {
      assert (a + b)[0] == a[0];
      assert (a + b)[1..] == a[1..] + b;
      ExecConcat(Run(db, a[0]), a[1..], b);
    }
  }

  lemma ExecSingle(db: Db, a: Call)
    ensures Exec(db, [a]) == Run(db, a)
  {
    assert [a][1..] == [];
    assert Exec(db, [a]) == Exec(Run(db, a), []);
  }

  lemma ExecPair(db: Db, a: Call, b: Call)
    ensures Exec(db, [a, b]) == Run(Run(db, a), b)
  {
    assert [a, b][1..] == [b];
    assert Exec(db, [a, b]) == Exec(Run(db, a), [b]);
    ExecSingle(Run(db, a), b);
  }

  lemma {:induction false} OccurrencesConcat(a: seq<Call>, b: seq<Call>, c: Call)
    ensures Occurrences(a + b, c) == Occurrences(a, c) + Occurrences(b, c)
  {
    if |a| == 0 {
      assert a + b == b;
    } else {
      assert (a + b)[1..] == a[1..] + b;
      OccurrencesConcat(a[1..], b, c);
    }
  }

  lemma {:induction false} OccurrencesRepeat(c: Call, k: nat, d: Call)
    ensures Occurrences(Repeat(c, k), d) == if c == d then k else 0
  {
    if k > 0 {
      assert Repeat(c, k)[1..] == Repeat(c, k - 1);
      OccurrencesRepeat(c, k - 1, d);
    }
  }

  /** How many times the retention loop calls removeObsolete for `n` loaded versions. */
  function Trims(n: nat, keep: int): nat
  {
    if n >= keep then n - keep + 1 else 0
  }

  /** The number of versions left after `k` removals from `n`. */
  function Remaining(n: nat, k: nat): nat
  {
    if k <= n then n - k else 0
  }

  /** removeObsolete's deletion applied `k` times to the rows. */
  function RemovalRows(rows: seq<Row>, m: int, k: nat): seq<Row>
    decreases k
  {
    if k == 0 then rows else RemovalRows(Helper.RemoveNewest(rows, m), m, k - 1)
  }

  /** Repeated removals only delete rows and keep the id order. */
  lemma {:induction false} RemovalRowsFrame(rows: seq<Row>, m: int, k: nat)
    ensures forall x :: x in RemovalRows(rows, m, k) ==> x in rows
    ensures Ascending(rows) ==> Ascending(RemovalRows(rows, m, k))
    decreases k
  {
    if k > 0 {
      var rows1 := Helper.RemoveNewest(rows, m);
      HelperFacts.RemoveNewestSubset(rows, m);
      if Ascending(rows) {
        HelperFacts.RemoveNewestAscending(rows, m);
      }
      RemovalRowsFrame(rows1, m, k - 1);
      forall x | x in RemovalRows(rows1, m, k - 1) ensures x in rows {
        assert x in rows1;
      }
    }
  }

  /** removeObsolete applied `k` times to the version table. */
  function Removals(t: Table, m: int, k: nat): (r: Table)
    ensures r.rows == RemovalRows(t.rows, m, k) && r.nextId == t.nextId
  {
    var rows := RemovalRows(t.rows, m, k);
    RemovalRowsFrame(t.rows, m, k);
    assert forall i :: 0 <= i < |rows| ==> rows[i] in t.rows;
    VersionTable(rows, t.nextId)
  }

  /** Running `k` removeObsolete calls changes only the version table, as `Removals` does. */
  lemma {:induction false} ExecRemovalsIsRemovals(db: Db, m: int, k: nat)
    ensures Exec(db, Repeat(RemoveObsolete(m), k)) == Db(Removals(db.versions, m, k), db.modules)
    decreases k
  {
    if k > 0 {
      var calls := Repeat(RemoveObsolete(m), k);
      var db1 := Run(db, RemoveObsolete(m));
      assert calls[0] == RemoveObsolete(m);
      assert calls[1..] == Repeat(RemoveObsolete(m), k - 1);
      assert Exec(db, calls) == Exec(db1, calls[1..]);
      assert db1.versions.rows == Helper.RemoveNewest(db.versions.rows, m);
      ExecRemovalsIsRemovals(db1, m, k - 1);
      assert Removals(db.versions, m, k).rows == Removals(db1.versions, m, k - 1).rows;
    }
  }

  /** Repeated removals only delete rows and keep the id counter. */
  lemma RemovalsFrame(t: Table, m: int, k: nat)
    ensures var r := Removals(t, m, k);
      r.nextId == t.nextId && forall x :: x in r.rows ==> x in t.rows
  {
    RemovalRowsFrame(t.rows, m, k);
  }

  /**
   * Calling removeObsolete `k` times on rows in id order drops the module's
   * `k` last rows, its `k` newest versions, or all of them when it has fewer.
   */
  lemma {:induction false} RemovalRowsOwned(rows: seq<Row>, m: int, k: nat)
    requires Ascending(rows)
    ensures var o := Helper.Owned(rows, m);
      Helper.Owned(RemovalRows(rows, m, k), m) == o[..Remaining(|o|, k)]
    decreases k
  {
    if k == 0 {
      var o := Helper.Owned(rows, m);
      assert o[..|o|] == o;
    } else {
      var rows1 := Helper.RemoveNewest(rows, m);
      HelperFacts.RemoveNewestAscending(rows, m);
      RemovalRowsOwned(rows1, m, k - 1);
      RemovalStep(rows, m, k);
    }
  }

  /** One removal takes the module's last row off, which is what one of the `k` removals accounts for. */
  lemma RemovalStep(rows: seq<Row>, m: int, k: nat)
    requires Ascending(rows) && k > 0
    ensures var o, o1 := Helper.Owned(rows, m), Helper.Owned(Helper.RemoveNewest(rows, m), m);
      o1[..Remaining(|o1|, k - 1)] == o[..Remaining(|o|, k)]
  {
    var o := Helper.Owned(rows, m);
    HelperFacts.RemoveNewestOwned(rows, m);
    if |o| > 0 {
      RemainingStep(o, k);
    }
  }

  /** Taking off the last element and then `k - 1` more is taking off `k`. */
  lemma RemainingStep(o: seq<Row>, k: nat)
    requires k > 0 && |o| > 0
    ensures o[..|o| - 1][..Remaining(|o| - 1, k - 1)] == o[..Remaining(|o|, k)]
  {
  }

  /** The table form of `RemovalRowsOwned`, in terms of the module's count. */
  lemma RemovalsOwned(t: Table, m: int, k: nat)
    ensures Helper.Owned(Removals(t, m, k).rows, m)
      == Helper.Owned(t.rows, m)[..Remaining(HelperFacts.Count(t, m), k)]
  {
    RemovalRowsOwned(t.rows, m, k);
  }

  /** Calling removeObsolete for one module leaves another module's versions alone. */
  lemma {:induction false} RemovalRowsOthers(rows: seq<Row>, m: int, k: nat, other: int)
    requires other != m
    ensures Helper.Owned(RemovalRows(rows, m, k), other) == Helper.Owned(rows, other)
    decreases k
  {
    if k > 0 {
      HelperFacts.RemoveNewestOthers(rows, m, other);
      RemovalRowsOthers(Helper.RemoveNewest(rows, m), m, k - 1, other);
    }
  }

  /** The table form of `RemovalRowsOthers`. */
  lemma RemovalsOthers(t: Table, m: int, k: nat, other: int)
    requires other != m
    ensures Helper.Owned(Removals(t, m, k).rows, other) == Helper.Owned(t.rows, other)
  {
    RemovalRowsOthers(t.rows, m, k, other);
  }

  // ---------------------------------------------------------------------------
  // Reset followed by store
  // ---------------------------------------------------------------------------

  /** Selections agree on two tables that agree on every selected row and differ elsewhere only in flags. */
  lemma {:induction false} SelectPointwise(a: seq<Row>, b: seq<Row>, w: Helper.Where)
    requires |a| == |b|
    requires forall i :: 0 <= i < |a| ==> SameRecord(a[i], b[i]) && (Helper.Matches(w, a[i]) ==> a[i] == b[i])
    ensures Helper.Select(a, w, true) == Helper.Select(b, w, true)
  {
    if |a| > 0 {
      SelectPointwise(a[1..], b[1..], w);
    }
  }

  /** resetCurrent followed by storeVersion of the same module. */
  function ResetAndStore(t: Table, item: Module, now: string): Table
  {
    Helper.StoreVersion(Helper.ResetCurrent(t, item.id), item, now)
  }

  /** The row resetCurrent then storeVersion appends: the next id, the module, its fields, current. */
  lemma ResetThenStoreRow(t: Table, item: Module, now: string)
    ensures var n := ResetAndStore(t, item, now).rows[|t.rows|];
      n.id == t.nextId && n.current && n.modId == item.id && n.fields == Helper.StoredFields(item)
  {
  }

  /** After resetCurrent then storeVersion the module gains exactly the new row, at the end of its list. */
  lemma ResetThenStoreOwned(t: Table, item: Module, now: string)
    ensures var t1, t2 := Helper.ResetCurrent(t, item.id), ResetAndStore(t, item, now);
      && Helper.Owned(t2.rows, item.id) == Helper.Owned(t1.rows, item.id) + [t2.rows[|t.rows|]]
      && HelperFacts.Count(t2, item.id) == HelperFacts.Count(t, item.id) + 1
  {
    var t1 := Helper.ResetCurrent(t, item.id);
    HelperFacts.StoreAppendsVersion(t1, item, now, item.id);
    HelperFacts.FlagsKeepOwned(t, t1, item.id);
  }

  /** After resetCurrent then storeVersion the new row is the module's newest version. */
  lemma ResetThenStoreNewest(t: Table, item: Module, now: string)
    ensures var t2 := ResetAndStore(t, item, now);
      |Helper.GetVersions(t2, item.id)| > 0 && Helper.GetVersions(t2, item.id)[0] == t2.rows[|t.rows|]
  {
    ResetThenStoreOwned(t, item, now);
  }

  /** Other modules' versions are not touched by resetCurrent then storeVersion. */
  lemma ResetThenStoreOthers(t: Table, item: Module, now: string, other: int)
    requires other != item.id
    ensures Helper.Owned(ResetAndStore(t, item, now).rows, other) == Helper.Owned(t.rows, other)
  {
    var t1 := Helper.ResetCurrent(t, item.id);
    HelperFacts.StoreAppendsVersion(t1, item, now, other);
    SelectPointwise(t1.rows, t.rows, Helper.ModIdIs(other));
  }

  /** After resetCurrent then storeVersion, the new row is the module's only current version. */
  lemma ResetThenStoreCurrent(t: Table, item: Module, now: string)
    ensures var t2 := ResetAndStore(t, item, now);
      forall x :: x in t2.rows && x.modId == item.id ==> (x.current <==> x.id == t.nextId)
  {
    var t1 := Helper.ResetCurrent(t, item.id);
    var t2 := ResetAndStore(t, item, now);
    forall x | x in t2.rows && x.modId == item.id
      ensures x.current <==> x.id == t.nextId
    {
      var i :| 0 <= i < |t2.rows| && t2.rows[i] == x;
      if i < |t.rows| {
        assert x == t1.rows[i];
      }
    }
  }

  /** Every row of another module after resetCurrent then storeVersion was in the table before. */
  lemma ResetThenStoreOtherRows(t: Table, item: Module, now: string)
    ensures forall x :: x in ResetAndStore(t, item, now).rows && x.modId != item.id ==> x in t.rows
  {
    var t1 := Helper.ResetCurrent(t, item.id);
    var t2 := ResetAndStore(t, item, now);
    forall x | x in t2.rows && x.modId != item.id
      ensures x in t.rows
    {
      var i :| 0 <= i < |t2.rows| && t2.rows[i] == x;
      assert t1.rows[i] == x;
      assert t.rows[i] == x;
    }
  }

  /** resetCurrent then storeVersion keeps at most one current version per module. */
  lemma ResetThenStoreOneCurrent(t: Table, item: Module, now: string)
    requires AtMostOneCurrent(t)
    ensures AtMostOneCurrent(ResetAndStore(t, item, now))
  {
    ResetThenStoreCurrent(t, item, now);
    ResetThenStoreOtherRows(t, item, now);
  }

  /** Removals only delete rows, so they keep at most one current version per module. */
  lemma RemovalsKeepOneCurrent(t: Table, m: int, k: nat)
    requires AtMostOneCurrent(t)
    ensures AtMostOneCurrent(Removals(t, m, k))
  {
    RemovalsFrame(t, m, k);
  }

  /** The table a changed save leaves: reset, store, then `k` removals. */
  function AfterChangedSave(t: Table, item: Module, now: string, k: nat): Table
  {
    Removals(ResetAndStore(t, item, now), item.id, k)
  }

  /** With `N >= keep`, the `N - keep + 1` removals leave the first `keep` of the module's reset rows. */
  lemma EvictionKeepsOldest(t: Table, item: Module, now: string, keep: int)
    requires 1 <= keep <= HelperFacts.Count(t, item.id)
    ensures var n, o1 := HelperFacts.Count(t, item.id), Helper.Owned(Helper.ResetCurrent(t, item.id).rows, item.id);
      keep <= |o1| && Helper.Owned(AfterChangedSave(t, item, now, Trims(n, keep)).rows, item.id) == o1[..keep]
  {
    var n := HelperFacts.Count(t, item.id);
    var t2 := ResetAndStore(t, item, now);
    ResetThenStoreOwned(t, item, now);
    RemovalsOwned(t2, item.id, Trims(n, keep));
    var o1 := Helper.Owned(Helper.ResetCurrent(t, item.id).rows, item.id);
    assert Remaining(n + 1, Trims(n, keep)) == keep;
    TakeBeforeAppended(o1, t2.rows[|t.rows|], keep);
  }

  /** A prefix no longer than `o` is not affected by appending to `o`. */
  lemma TakeBeforeAppended(o: seq<Row>, x: Row, k: nat)
    requires k <= |o|
    ensures (o + [x])[..k] == o[..k]
  {
  }

  /**
   * With `N >= keep`, the `N - keep + 1` removals after a store leave the
   * module `keep` versions, its `keep` oldest, flags aside.
   */
  lemma EvictionKeepsRecords(t: Table, item: Module, now: string, keep: int)
    requires 1 <= keep <= HelperFacts.Count(t, item.id)
    ensures var t' := AfterChangedSave(t, item, now, Trims(HelperFacts.Count(t, item.id), keep));
      && HelperFacts.Count(t', item.id) == keep
      && forall i :: 0 <= i < keep ==> SameRecord(Helper.Owned(t'.rows, item.id)[i], Helper.Owned(t.rows, item.id)[i])
  {
    EvictionKeepsOldest(t, item, now, keep);
    HelperFacts.FlagsKeepOwned(t, Helper.ResetCurrent(t, item.id), item.id);
  }

  /** After resetCurrent no version of the module is current, and each predates the next id. */
  lemma ResetOwnedNotCurrent(t: Table, m: int)
    ensures forall x :: x in Helper.Owned(Helper.ResetCurrent(t, m).rows, m) ==> !x.current && x.id < t.nextId
  {
    var t1 := Helper.ResetCurrent(t, m);
    Helper.SelectMembers(t1.rows, Helper.ModIdIs(m), true);
    forall x | x in Helper.Owned(t1.rows, m)
      ensures !x.current && x.id < t.nextId
    {
      var i :| 0 <= i < |t1.rows| && t1.rows[i] == x;
    }
  }

  /** A table whose module rows are a prefix of the reset rows has none of them current. */
  lemma PrefixOfResetNotCurrent(t: Table, m: int, r: Table, keep: int)
    requires 0 <= keep <= |Helper.Owned(Helper.ResetCurrent(t, m).rows, m)|
    requires Helper.Owned(r.rows, m) == Helper.Owned(Helper.ResetCurrent(t, m).rows, m)[..keep]
    ensures forall x :: x in r.rows && x.modId == m ==> !x.current && x.id < t.nextId
  {
    ResetOwnedNotCurrent(t, m);
    Helper.SelectMembers(r.rows, Helper.ModIdIs(m), true);
    var o1 := Helper.Owned(Helper.ResetCurrent(t, m).rows, m);
    forall x | x in r.rows && x.modId == m
      ensures !x.current && x.id < t.nextId
    {
      assert x in Helper.Owned(r.rows, m);
      assert x in o1[..keep];
    }
  }

  /** Those removals delete the new row, so none of the module's versions is left current. */
  lemma EvictionNoneCurrent(t: Table, item: Module, now: string, keep: int)
    requires 1 <= keep <= HelperFacts.Count(t, item.id)
    ensures var t' := AfterChangedSave(t, item, now, Trims(HelperFacts.Count(t, item.id), keep));
      forall x :: x in t'.rows && x.modId == item.id ==> !x.current && x.id < t.nextId
  {
    EvictionKeepsOldest(t, item, now, keep);
    PrefixOfResetNotCurrent(t, item.id, AfterChangedSave(t, item, now, Trims(HelperFacts.Count(t, item.id), keep)), keep);
  }

  /** Rows drawn from the reset-and-store table, none of them the new row, all predate the next id. */
  lemma WithoutNewRow(t: Table, item: Module, now: string, r: Table)
    requires forall x :: x in r.rows ==> x in ResetAndStore(t, item, now).rows
    requires forall x :: x in r.rows && x.modId == item.id ==> x.id < t.nextId
    ensures forall x :: x in r.rows ==> x.id < t.nextId
  {
    ResetThenStoreOtherRows(t, item, now);
    forall x | x in r.rows && x.modId != item.id
      ensures x.id < t.nextId
    {
      assert x in t.rows;
      var i :| 0 <= i < |t.rows| && t.rows[i] == x;
    }
  }

  /** In particular the new row itself, with id `nextId`, does not survive those removals. */
  lemma EvictionDropsNewRow(t: Table, item: Module, now: string, keep: int)
    requires 1 <= keep <= HelperFacts.Count(t, item.id)
    ensures forall x :: x in AfterChangedSave(t, item, now, Trims(HelperFacts.Count(t, item.id), keep)).rows ==> x.id < t.nextId
  {
    var k := Trims(HelperFacts.Count(t, item.id), keep);
    EvictionNoneCurrent(t, item, now, keep);
    RemovalsFrame(ResetAndStore(t, item, now), item.id, k);
    WithoutNewRow(t, item, now, AfterChangedSave(t, item, now, k));
  }

  /**
   * Once the module has `N >= keep` versions, reset, store and `N - keep + 1`
   * removals delete the new row, keep the `keep` oldest versions (flags
   * aside) and leave none of the module's versions current.
   */
  lemma AfterEviction(t: Table, item: Module, now: string, keep: int)
    requires 1 <= keep <= HelperFacts.Count(t, item.id)
    ensures var t' := AfterChangedSave(t, item, now, Trims(HelperFacts.Count(t, item.id), keep));
      && (forall x :: x in t'.rows ==> x.id != t.nextId)
      && (forall x :: x in t'.rows && x.modId == item.id ==> !x.current)
      && HelperFacts.Count(t', item.id) == keep
      && (forall i :: 0 <= i < keep ==> SameRecord(Helper.Owned(t'.rows, item.id)[i], Helper.Owned(t.rows, item.id)[i]))
  {
    EvictionKeepsRecords(t, item, now, keep);
    EvictionNoneCurrent(t, item, now, keep);
    EvictionDropsNewRow(t, item, now, keep);
  }

  /**
   * A concrete history that shows the eviction order: module 5 has one
   * version "A", `keep` is 1, and a save changes its title to "B". The one
   * removeObsolete call deletes the new version "B", so the module is left
   * with its old version only, and that version is no longer current.
   */
  lemma NewestEvictionExample()
    ensures var t: Table := VersionTable([Row(1, true, 5, map["title" := Str("A")], "d1")], 2);
      var item := Module(5, map["title" := Str("B")]);
      var t' := AfterChangedSave(t, item, "d2", Trims(HelperFacts.Count(t, 5), 1));
      && Trims(HelperFacts.Count(t, 5), 1) == 1
      && HelperFacts.Count(t', 5) == 1
      && (forall x :: x in t'.rows ==> x.id == 1 && !x.current && x.fields == map["title" := Str("A")])
  {
    var t: Table := VersionTable([Row(1, true, 5, map["title" := Str("A")], "d1")], 2);
    var item := Module(5, map["title" := Str("B")]);
    assert Helper.Owned(t.rows, 5) == [t.rows[0]];
    var t2 := ResetAndStore(t, item, "d2");
    var t' := AfterChangedSave(t, item, "d2", 1);
    AfterEviction(t, item, "d2", 1);
    RemovalsFrame(t2, item.id, 1);
    assert t2.rows == [t.rows[0].(current := false), t2.rows[1]];
    forall x | x in t'.rows ensures x.id == 1 && !x.current && x.fields == map["title" := Str("A")] {
      assert x in t2.rows;
    }
  }

  /** Under a snapshot the number of loaded versions is the module's count. */
  lemma SnapshotCount(s: Site, req: Request, m: int)
    requires Snapshot(s, req, m)
    ensures NumberOfVersions(LoadVersionsResults(s.cache, req.id, s.db.versions)) == HelperFacts.Count(s.db.versions, m)
  {
  }

  /** Reset, store and the loop's removals leave the module `min(N + 1, keep)` versions. */
  lemma AfterChangedSaveCount(t: Table, item: Module, now: string, keep: int)
    requires keep >= 1
    ensures var n := HelperFacts.Count(t, item.id);
      HelperFacts.Count(AfterChangedSave(t, item, now, Trims(n, keep)), item.id)
        == if n + 1 <= keep then n + 1 else keep
  {
    var n := HelperFacts.Count(t, item.id);
    ResetThenStoreOwned(t, item, now);
    RemovalsOwned(ResetAndStore(t, item, now), item.id, Trims(n, keep));
  }

  /** A changed save leaves the table `AfterChangedSave` describes, with `N` the module's count. */
  lemma ChangedSaveIsAfter(accepted: set<string>, s: Site, req: Request, context: string,
                           item: Module, isNew: bool, keepSetting: Option<int>, now: string)
    requires ChangedSave(accepted, s, req, context, item, isNew)
    requires Snapshot(s, req, item.id)
    ensures var n, keep := HelperFacts.Count(s.db.versions, item.id), VersionsToKeep(keepSetting);
      OnSave(accepted, s, req, context, item, isNew, keepSetting, now).db
        == Db(AfterChangedSave(s.db.versions, item, now, Trims(n, keep)), s.db.modules)
  {
    SnapshotCount(s, req, item.id);
    ChangedSaveTable(accepted, s, req, context, item, isNew, keepSetting, now);
  }

  // ---------------------------------------------------------------------------
  // The save handler
  // ---------------------------------------------------------------------------

  /** A new module, or one with no loaded versions, is reset and stored, and that is all. */
  lemma InitialSaveTable(accepted: set<string>, s: Site, req: Request, context: string,
                         item: Module, isNew: bool, keepSetting: Option<int>, now: string)
    requires req.isAdministrator && context in accepted
    requires isNew || NumberOfVersions(LoadVersionsResults(s.cache, req.id, s.db.versions)) == 0
    ensures SavePlan(accepted, s.cache, s.db, req, context, item, isNew, keepSetting, now).calls
      == [ResetCurrent(item.id), StoreVersion(item, now)]
    ensures OnSave(accepted, s, req, context, item, isNew, keepSetting, now).db
      == Db(ResetAndStore(s.db.versions, item, now), s.db.modules)
  {
    ExecPair(s.db, ResetCurrent(item.id), StoreVersion(item, now));
  }

  /**
   * A new module, or one with no loaded versions, is reset and stored once,
   * with no comparison and no trimming; afterwards its newest version is the
   * new row and is its only current version.
   */
  lemma InitialSave(accepted: set<string>, s: Site, req: Request, context: string,
                    item: Module, isNew: bool, keepSetting: Option<int>, now: string)
    requires req.isAdministrator && context in accepted
    requires isNew || NumberOfVersions(LoadVersionsResults(s.cache, req.id, s.db.versions)) == 0
    ensures var t, t' := s.db.versions, OnSave(accepted, s, req, context, item, isNew, keepSetting, now).db.versions;
      && SavePlan(accepted, s.cache, s.db, req, context, item, isNew, keepSetting, now).calls
           == [ResetCurrent(item.id), StoreVersion(item, now)]
      && OnSave(accepted, s, req, context, item, isNew, keepSetting, now).db.modules == s.db.modules
      && HelperFacts.Count(t', item.id) == HelperFacts.Count(t, item.id) + 1
      && Helper.GetVersions(t', item.id)[0].id == t.nextId
      && Helper.GetVersions(t', item.id)[0].current
      && Helper.GetVersions(t', item.id)[0].fields == Helper.StoredFields(item)
      && (forall x :: x in t'.rows && x.modId == item.id ==> (x.current <==> x.id == t.nextId))
      && (forall other :: other != item.id ==> Helper.GetVersions(t', other) == Helper.GetVersions(t, other))
  {
    InitialSaveTable(accepted, s, req, context, item, isNew, keepSetting, now);
    ResetThenStoreRow(s.db.versions, item, now);
    ResetThenStoreOwned(s.db.versions, item, now);
    ResetThenStoreNewest(s.db.versions, item, now);
    ResetThenStoreCurrent(s.db.versions, item, now);
    forall other | other != item.id
      ensures Helper.Owned(ResetAndStore(s.db.versions, item, now).rows, other) == Helper.Owned(s.db.versions.rows, other)
    {
      ResetThenStoreOthers(s.db.versions, item, now, other);
    }
  }

  /** When the newest loaded version matches the module, the save changes no table. */
  lemma UnchangedSave(accepted: set<string>, s: Site, req: Request, context: string,
                      item: Module, keepSetting: Option<int>, now: string)
    requires req.isAdministrator && context in accepted
    requires var c := LoadVersionsResults(s.cache, req.id, s.db.versions);
      NumberOfVersions(c) > 0 && !Helper.CompareVersion(item.columns, AsObject(c.results[0]))
    ensures OnSave(accepted, s, req, context, item, false, keepSetting, now).db == s.db
  {
  }

  /**
   * A changed save calls resetCurrent and storeVersion, then removeObsolete
   * `N - keep + 1` times when the `N` loaded versions reach the clamped
   * `keep`, and never otherwise.
   */
  lemma ChangedSaveCalls(accepted: set<string>, s: Site, req: Request, context: string,
                         item: Module, isNew: bool, keepSetting: Option<int>, now: string)
    requires ChangedSave(accepted, s, req, context, item, isNew)
    ensures var n := NumberOfVersions(LoadVersionsResults(s.cache, req.id, s.db.versions));
      var keep := VersionsToKeep(keepSetting);
      var calls := SavePlan(accepted, s.cache, s.db, req, context, item, isNew, keepSetting, now).calls;
      && calls[..2] == [ResetCurrent(item.id), StoreVersion(item, now)]
      && Occurrences(calls, ResetCurrent(item.id)) == 1
      && Occurrences(calls, StoreVersion(item, now)) == 1
      && (n >= keep ==> Occurrences(calls, RemoveObsolete(item.id)) == n - keep + 1)
      && (n < keep ==> Occurrences(calls, RemoveObsolete(item.id)) == 0)
  {
    var n := NumberOfVersions(LoadVersionsResults(s.cache, req.id, s.db.versions));
    var calls := SavePlan(accepted, s.cache, s.db, req, context, item, isNew, keepSetting, now).calls;
    assert calls == [ResetCurrent(item.id), StoreVersion(item, now)] + Evictions(n, VersionsToKeep(keepSetting), item.id);
    ChangedSaveOccurrences(item, now, n, VersionsToKeep(keepSetting));
  }

  /** Reset and store once each, then the loop's removals: how often each call occurs. */
  lemma ChangedSaveOccurrences(item: Module, now: string, n: nat, keep: int)
    ensures var calls := [ResetCurrent(item.id), StoreVersion(item, now)] + Evictions(n, keep, item.id);
      && Occurrences(calls, ResetCurrent(item.id)) == 1
      && Occurrences(calls, StoreVersion(item, now)) == 1
      && (n >= keep ==> Occurrences(calls, RemoveObsolete(item.id)) == n - keep + 1)
      && (n < keep ==> Occurrences(calls, RemoveObsolete(item.id)) == 0)
  {
    var head := [ResetCurrent(item.id), StoreVersion(item, now)];
    var tail := Evictions(n, keep, item.id);
    OccurrencesConcat(head, tail, RemoveObsolete(item.id));
    OccurrencesConcat(head, tail, ResetCurrent(item.id));
    OccurrencesConcat(head, tail, StoreVersion(item, now));
    assert head[1..][1..] == [];
    if n >= keep {
      OccurrencesRepeat(RemoveObsolete(item.id), n - keep + 1, RemoveObsolete(item.id));
      OccurrencesRepeat(RemoveObsolete(item.id), n - keep + 1, ResetCurrent(item.id));
      OccurrencesRepeat(RemoveObsolete(item.id), n - keep + 1, StoreVersion(item, now));
    }
  }

  /** The table after a changed save, in terms of the reset-and-store table and the removals. */
  lemma ChangedSaveTable(accepted: set<string>, s: Site, req: Request, context: string,
                         item: Module, isNew: bool, keepSetting: Option<int>, now: string)
    requires ChangedSave(accepted, s, req, context, item, isNew)
    ensures var n := NumberOfVersions(LoadVersionsResults(s.cache, req.id, s.db.versions));
      var keep := VersionsToKeep(keepSetting);
      var t2 := ResetAndStore(s.db.versions, item, now);
      OnSave(accepted, s, req, context, item, isNew, keepSetting, now).db
        == Db(Removals(t2, item.id, Trims(n, keep)), s.db.modules)
  {
    var n := NumberOfVersions(LoadVersionsResults(s.cache, req.id, s.db.versions));
    var keep := VersionsToKeep(keepSetting);
    var head := [ResetCurrent(item.id), StoreVersion(item, now)];
    ExecConcat(s.db, head, Evictions(n, keep, item.id));
    ExecPair(s.db, ResetCurrent(item.id), StoreVersion(item, now));
    if n < keep {
      assert Evictions(n, keep, item.id) == Repeat(RemoveObsolete(item.id), 0);
    }
    ExecRemovalsIsRemovals(Db(ResetAndStore(s.db.versions, item, now), s.db.modules), item.id,
                           Trims(n, keep));
  }

  /**
   * After a changed save, with the loaded versions equal to the table's, the
   * module has exactly `min(N + 1, keep)` versions, `N` being the count before.
   */
  lemma ChangedSaveCount(accepted: set<string>, s: Site, req: Request, context: string,
                         item: Module, isNew: bool, keepSetting: Option<int>, now: string)
    requires ChangedSave(accepted, s, req, context, item, isNew)
    requires Snapshot(s, req, item.id)
    ensures var n, keep := HelperFacts.Count(s.db.versions, item.id), VersionsToKeep(keepSetting);
      var t' := OnSave(accepted, s, req, context, item, isNew, keepSetting, now).db.versions;
      HelperFacts.Count(t', item.id) == if n + 1 <= keep then n + 1 else keep
  {
    ChangedSaveIsAfter(accepted, s, req, context, item, isNew, keepSetting, now);
    AfterChangedSaveCount(s.db.versions, item, now, VersionsToKeep(keepSetting));
  }

  /**
   * Once the module has at least `keep` versions, a changed save deletes the
   * version it has just stored, keeps the `keep` oldest versions (flags
   * aside), and leaves none of the module's versions current.
   */
  lemma ChangedSaveEvictsNewVersion(accepted: set<string>, s: Site, req: Request, context: string,
                                    item: Module, isNew: bool, keepSetting: Option<int>, now: string)
    requires ChangedSave(accepted, s, req, context, item, isNew)
    requires Snapshot(s, req, item.id)
    requires HelperFacts.Count(s.db.versions, item.id) >= VersionsToKeep(keepSetting)
    ensures var t, keep := s.db.versions, VersionsToKeep(keepSetting);
      var t' := OnSave(accepted, s, req, context, item, isNew, keepSetting, now).db.versions;
      && (forall x :: x in t'.rows ==> x.id != t.nextId)
      && (forall x :: x in t'.rows && x.modId == item.id ==> !x.current)
      && HelperFacts.Count(t', item.id) == keep
      && (forall i :: 0 <= i < keep ==> SameRecord(Helper.Owned(t'.rows, item.id)[i], Helper.Owned(t.rows, item.id)[i]))
  {
    ChangedSaveIsAfter(accepted, s, req, context, item, isNew, keepSetting, now);
    AfterEviction(s.db.versions, item, now, VersionsToKeep(keepSetting));
  }

  /** A changed save leaves every other module's versions as they were. */
  lemma ChangedSaveOthers(accepted: set<string>, s: Site, req: Request, context: string,
                          item: Module, isNew: bool, keepSetting: Option<int>, now: string, other: int)
    requires ChangedSave(accepted, s, req, context, item, isNew)
    requires other != item.id
    ensures var t' := OnSave(accepted, s, req, context, item, isNew, keepSetting, now).db.versions;
      Helper.GetVersions(t', other) == Helper.GetVersions(s.db.versions, other)
  {
    var n := NumberOfVersions(LoadVersionsResults(s.cache, req.id, s.db.versions));
    ChangedSaveTable(accepted, s, req, context, item, isNew, keepSetting, now);
    ResetThenStoreOthers(s.db.versions, item, now, other);
    RemovalsOthers(ResetAndStore(s.db.versions, item, now), item.id, Trims(n, VersionsToKeep(keepSetting)), other);
  }

  /**
   * Below the limit, a changed save keeps every version and the new one is
   * the module's newest and only current version.
   */
  lemma ChangedSaveBelowLimit(accepted: set<string>, s: Site, req: Request, context: string,
                              item: Module, isNew: bool, keepSetting: Option<int>, now: string)
    requires ChangedSave(accepted, s, req, context, item, isNew)
    requires Snapshot(s, req, item.id)
    requires HelperFacts.Count(s.db.versions, item.id) < VersionsToKeep(keepSetting)
    ensures var t := s.db.versions;
      var t' := OnSave(accepted, s, req, context, item, isNew, keepSetting, now).db.versions;
      && HelperFacts.Count(t', item.id) == HelperFacts.Count(t, item.id) + 1
      && Helper.GetVersions(t', item.id)[0].id == t.nextId
      && Helper.GetVersions(t', item.id)[0].fields == Helper.StoredFields(item)
      && (forall x :: x in t'.rows && x.modId == item.id ==> (x.current <==> x.id == t.nextId))
  {
    var t := s.db.versions;
    ChangedSaveIsAfter(accepted, s, req, context, item, isNew, keepSetting, now);
    assert AfterChangedSave(t, item, now, 0) == ResetAndStore(t, item, now);
    ResetThenStoreRow(t, item, now);
    ResetThenStoreOwned(t, item, now);
    ResetThenStoreNewest(t, item, now);
    ResetThenStoreCurrent(t, item, now);
  }

  /**
   * Saving settings the newest version was stored from is a no-op: the
   * comparison finds nothing changed.
   */
  lemma ResaveIsNoop(accepted: set<string>, s: Site, req: Request, context: string,
                     item: Module, keepSetting: Option<int>, now: string)
    requires req.isAdministrator && context in accepted
    requires "mod_id" !in item.columns
    requires Snapshot(s, req, item.id)
    requires HelperFacts.Count(s.db.versions, item.id) > 0
    requires Helper.GetVersions(s.db.versions, item.id)[0].fields == Helper.StoredFields(item)
    ensures OnSave(accepted, s, req, context, item, false, keepSetting, now).db == s.db
  {
    HelperFacts.StoredVersionMatchesItem(item, Helper.GetVersions(s.db.versions, item.id)[0]);
  }

  /** Every save keeps at most one current version per module. */
  lemma SaveKeepsAtMostOneCurrent(accepted: set<string>, s: Site, req: Request, context: string,
                                  item: Module, isNew: bool, keepSetting: Option<int>, now: string)
    ensures AtMostOneCurrent(s.db.versions) ==>
      AtMostOneCurrent(OnSave(accepted, s, req, context, item, isNew, keepSetting, now).db.versions)
  {
    var t := s.db.versions;
    if AtMostOneCurrent(t) && req.isAdministrator && context in accepted {
      var c := LoadVersionsResults(s.cache, req.id, t);
      if isNew || NumberOfVersions(c) == 0 {
        InitialSaveTable(accepted, s, req, context, item, isNew, keepSetting, now);
        ResetThenStoreOneCurrent(t, item, now);
      } else if Helper.CompareVersion(item.columns, AsObject(c.results[0])) {
        var n, keep := NumberOfVersions(c), VersionsToKeep(keepSetting);
        ChangedSaveTable(accepted, s, req, context, item, isNew, keepSetting, now);
        ResetThenStoreOneCurrent(t, item, now);
        RemovalsKeepOneCurrent(ResetAndStore(t, item, now), item.id, Trims(n, keep));
      }
    }
  }

  /** Helper calls other than updateModuleToVersion never write a module. */
  lemma {:induction false} ExecKeepsModules(db: Db, calls: seq<Call>)
    requires forall i :: 0 <= i < |calls| ==> !calls[i].UpdateModuleToVersion?
    ensures Exec(db, calls).modules == db.modules
    decreases |calls|
  {
    if |calls| > 0 {
      ExecKeepsModules(Run(db, calls[0]), calls[1..]);
    }
  }

  /** No save writes to a module. */
  lemma SaveModulesUntouched(accepted: set<string>, s: Site, req: Request, context: string,
                             item: Module, isNew: bool, keepSetting: Option<int>, now: string)
    ensures OnSave(accepted, s, req, context, item, isNew, keepSetting, now).db.modules == s.db.modules
  {
    var calls := SavePlan(accepted, s.cache, s.db, req, context, item, isNew, keepSetting, now).calls;
    if calls != [] {
      var n := NumberOfVersions(LoadVersionsResults(s.cache, req.id, s.db.versions));
      var head := [ResetCurrent(item.id), StoreVersion(item, now)];
      var tail := Evictions(n, VersionsToKeep(keepSetting), item.id);
      assert calls == head || calls == head + tail;
      assert forall i :: 0 <= i < |tail| ==> tail[i] == RemoveObsolete(item.id);
    }
    ExecKeepsModules(s.db, calls);
  }

  // ---------------------------------------------------------------------------
  // Restore, delete and uninstall
  // ---------------------------------------------------------------------------

  /**
   * Restoring a cached version that is still in the table writes its fields
   * to its module and leaves it the module's only current version; no version
   * is added or removed and the cache stays as it was.
   */
  lemma RestoreSelectsVersion(s: Site, req: Request)
    requires req.isAdministrator && NumberOfVersions(s.cache) > 0 && req.index >= 0 ==> req.index < NumberOfVersions(s.cache)
    ensures req.isAdministrator && 0 <= req.index < NumberOfVersions(s.cache) && s.cache.results[req.index] in s.db.versions.rows ==>
      var v := s.cache.results[req.index];
      var s' := OnRestore(s, req);
      && s'.cache == s.cache
      && s'.db.modules == Helper.UpdateModuleToVersion(s.db.modules, v)
      && |s'.db.versions.rows| == |s.db.versions.rows|
      && (forall m :: HelperFacts.Count(s'.db.versions, m) == HelperFacts.Count(s.db.versions, m))
      && v.(current := true) in s'.db.versions.rows
      && (forall x :: x in s'.db.versions.rows && x.modId == v.modId ==> (x.current <==> x.id == v.id))
  {
    if req.isAdministrator && 0 <= req.index < NumberOfVersions(s.cache) && s.cache.results[req.index] in s.db.versions.rows {
      var v := s.cache.results[req.index];
      var t := s.db.versions;
      ExecPair(s.db, UpdateModuleToVersion(v), SetCurrent(v.id, v.modId));
      var t' := Helper.SetCurrent(t, v.id, v.modId);
      forall m ensures HelperFacts.Count(t', m) == HelperFacts.Count(t, m) {
        HelperFacts.FlagsKeepOwned(t, t', m);
      }
      var i :| 0 <= i < |t.rows| && t.rows[i] == v;
      assert t'.rows[i] == v.(current := true);
      HelperFacts.SetCurrentRows(t, v.id, v.modId);
    }
  }

  /**
   * A restore with a posted index that names a loaded version writes that
   * version onto its module, whether or not the row is still in the table.
   */
  lemma RestoreWritesModule(s: Site, req: Request)
    requires req.isAdministrator && NumberOfVersions(s.cache) > 0 && req.index >= 0 ==> req.index < NumberOfVersions(s.cache)
    ensures req.isAdministrator && 0 <= req.index < NumberOfVersions(s.cache) ==>
      OnRestore(s, req).db.modules == Helper.UpdateModuleToVersion(s.db.modules, s.cache.results[req.index])
  {
    if req.isAdministrator && 0 <= req.index < NumberOfVersions(s.cache) {
      var v := s.cache.results[req.index];
      ExecPair(s.db, UpdateModuleToVersion(v), SetCurrent(v.id, v.modId));
    }
  }

  /** A restore neither adds nor removes a version of any module. */
  lemma RestoreKeepsCounts(s: Site, req: Request)
    requires req.isAdministrator && NumberOfVersions(s.cache) > 0 && req.index >= 0 ==> req.index < NumberOfVersions(s.cache)
    ensures forall m :: HelperFacts.Count(OnRestore(s, req).db.versions, m) == HelperFacts.Count(s.db.versions, m)
  {
    if RestorePlan(s.cache, req) != [] {
      var v := s.cache.results[req.index];
      ExecPair(s.db, UpdateModuleToVersion(v), SetCurrent(v.id, v.modId));
      forall m ensures HelperFacts.Count(OnRestore(s, req).db.versions, m) == HelperFacts.Count(s.db.versions, m) {
        HelperFacts.FlagsKeepOwned(s.db.versions, Helper.SetCurrent(s.db.versions, v.id, v.modId), m);
      }
    }
  }

  /** Restoring keeps at most one current version per module. */
  lemma RestoreKeepsAtMostOneCurrent(s: Site, req: Request)
    requires req.isAdministrator && NumberOfVersions(s.cache) > 0 && req.index >= 0 ==> req.index < NumberOfVersions(s.cache)
    requires AtMostOneCurrent(s.db.versions)
    ensures AtMostOneCurrent(OnRestore(s, req).db.versions)
  {
    var calls := RestorePlan(s.cache, req);
    if calls != [] {
      var v := s.cache.results[req.index];
      var t := s.db.versions;
      ExecPair(s.db, UpdateModuleToVersion(v), SetCurrent(v.id, v.modId));
      HelperFacts.SetCurrentRows(t, v.id, v.modId);
    }
  }

  /** A delete in an accepted administrator context removes all of the module's versions and nothing else. */
  lemma DeleteRemovesVersions(accepted: set<string>, s: Site, req: Request, context: string, modId: int)
    ensures req.isAdministrator && context in accepted ==>
      var s' := OnDelete(accepted, s, req, context, modId);
      && Helper.GetVersions(s'.db.versions, modId) == []
      && (forall other :: other != modId ==> Helper.GetVersions(s'.db.versions, other) == Helper.GetVersions(s.db.versions, other))
      && s'.db.modules == s.db.modules
      && s'.cache == s.cache
      && (AtMostOneCurrent(s.db.versions) ==> AtMostOneCurrent(s'.db.versions))
  {
    if req.isAdministrator && context in accepted {
      ExecSingle(s.db, DeleteVersion(modId));
      HelperFacts.DeleteVersionEmpties(s.db.versions, modId);
    }
  }

  /** An uninstall in the administrator removes exactly the uninstalled extension's versions. */
  lemma UninstallRemovesVersions(s: Site, req: Request, element: string, clientId: string)
    ensures req.isAdministrator ==>
      var t' := OnUninstall(s, req, element, clientId).db.versions;
      && (forall x :: x in t'.rows <==> x in s.db.versions.rows && !Helper.Matches(Helper.ExtensionIs(element, clientId), x))
      && (AtMostOneCurrent(s.db.versions) ==> AtMostOneCurrent(t'))
  {
    if req.isAdministrator {
      ExecSingle(s.db, UninstallVersion(element, clientId));
    }
  }

  /** loadVersionsResults is memoised: a second call, for any request and table, returns the cache unchanged. */
  lemma LoadIsMemoised(c: Cache, id1: int, t1: Table, id2: int, t2: Table)
    ensures var once := LoadVersionsResults(c, id1, t1);
      LoadVersionsResults(once, id2, t2) == once
  {
  }
}
