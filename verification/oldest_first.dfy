/**
 * Retention with the eviction the save handler evidently intends: the
 * history is trimmed from its oldest end (DELETE ... ORDER BY id ASC LIMIT 1),
 * so the version just stored survives and stays current. The handlers
 * themselves keep removeObsolete as written, which deletes the newest row.
 */
module OldestFirst {
  import opened Schema
  import Helper
  import HelperFacts
  import LifecycleFacts

  /**
   * The rows without the module's first row in table order, the one with
   * the lowest id; the rows themselves when the module has none.
   */
  function DropOldest(rows: seq<Row>, modId: int): seq<Row>
  {
    if |rows| == 0 then []
    else if rows[0].modId == modId then rows[1..]
    else [rows[0]] + DropOldest(rows[1..], modId)
  }

  /** DropOldest only deletes a row. */
  lemma {:induction false} DropOldestSubset(rows: seq<Row>, modId: int)
    ensures forall x :: x in DropOldest(rows, modId) ==> x in rows
  {
    if |rows| > 0 && rows[0].modId != modId {
      DropOldestSubset(rows[1..], modId);
      forall x | x in DropOldest(rows[1..], modId) ensures x in rows {
        assert x in rows[1..];
      }
    }
  }

  /** DropOldest keeps the id order. */
  lemma {:induction false} DropOldestAscending(rows: seq<Row>, modId: int)
    requires Ascending(rows)
    ensures Ascending(DropOldest(rows, modId))
  {
    if |rows| > 0 && rows[0].modId != modId {
      var rest := DropOldest(rows[1..], modId);
      DropOldestAscending(rows[1..], modId);
      DropOldestSubset(rows[1..], modId);
      forall y | y in rest ensures rows[0].id < y.id {
        var j :| 0 <= j < |rows[1..]| && rows[1..][j] == y;
        assert rows[j + 1] == y;
      }
      Helper.ConsAscending(rows[0], rest);
    }
  }

  /** Deletes the module's row with the lowest id when it has one, and nothing else. */
  function RemoveOldest(t: Table, modId: int): (r: Table)
    ensures r.nextId == t.nextId
    ensures forall x :: x in r.rows ==> x in t.rows
  {
    var rows := DropOldest(t.rows, modId);
    DropOldestSubset(t.rows, modId);
    DropOldestAscending(t.rows, modId);
    assert forall i :: 0 <= i < |rows| ==> rows[i] in t.rows;
    VersionTable(rows, t.nextId)
  }

  /** DropOldest takes out exactly one row of the module, its first, or nothing when it has none. */
  lemma {:induction false} DropOldestOwned(rows: seq<Row>, m: int)
    ensures var o := Helper.Owned(rows, m);
      Helper.Owned(DropOldest(rows, m), m) == if |o| == 0 then o else o[1..]
  {
    if |rows| > 0 && rows[0].modId != m {
      DropOldestOwned(rows[1..], m);
    }
  }

  /** The row DropOldest takes out has the lowest id of all the module's rows. */
  lemma {:induction false} DropOldestLowestId(rows: seq<Row>, m: int)
    requires Ascending(rows)
    requires |Helper.Owned(rows, m)| > 0
    ensures forall x :: x in rows && x.modId == m ==> Helper.Owned(rows, m)[0].id <= x.id
  {
    Helper.SelectAscending(rows, Helper.ModIdIs(m), true);
    Helper.SelectMembers(rows, Helper.ModIdIs(m), true);
    var o := Helper.Owned(rows, m);
    forall x | x in rows && x.modId == m ensures o[0].id <= x.id {
      assert x in o;
    }
  }

  /** DropOldest applied `k` times. */
  function DropOldestN(rows: seq<Row>, m: int, k: nat): seq<Row>
    decreases k
  {
    if k == 0 then rows else DropOldestN(DropOldest(rows, m), m, k - 1)
  }

  /** Repeated oldest-first removals only delete rows and keep the id order. */
  lemma {:induction false} DropOldestNFrame(rows: seq<Row>, m: int, k: nat)
    ensures forall x :: x in DropOldestN(rows, m, k) ==> x in rows
    ensures Ascending(rows) ==> Ascending(DropOldestN(rows, m, k))
    decreases k
  {
    if k > 0 {
      var rows1 := DropOldest(rows, m);
      DropOldestSubset(rows, m);
      if Ascending(rows) {
        DropOldestAscending(rows, m);
      }
      DropOldestNFrame(rows1, m, k - 1);
      forall x | x in DropOldestN(rows1, m, k - 1) ensures x in rows {
        assert x in rows1;
      }
    }
  }

  /** Dropping the head and then `k - 1` more is dropping `k`. */
  lemma DroppedStep(o: seq<Row>, k: nat)
    requires k > 0 && |o| > 0
    ensures o[1..][Dropped(|o| - 1, k - 1)..] == o[Dropped(|o|, k)..]
  {
  }

  /** How many of `n` rows `k` removals take away. */
  function Dropped(n: nat, k: nat): nat
  {
    if k <= n then k else n
  }

  /** `k` oldest-first removals drop the module's `k` oldest rows, or all of them when it has fewer. */
  lemma {:induction false} DropOldestNOwned(rows: seq<Row>, m: int, k: nat)
    ensures var o := Helper.Owned(rows, m);
      Helper.Owned(DropOldestN(rows, m, k), m) == o[Dropped(|o|, k)..]
    decreases k
  {
    var o := Helper.Owned(rows, m);
    if k == 0 {
      assert o[0..] == o;
    } else {
      var rows1 := DropOldest(rows, m);
      DropOldestOwned(rows, m);
      DropOldestNOwned(rows1, m, k - 1);
      if |o| > 0 {
        DroppedStep(o, k);
      }
    }
  }

  /** RemoveOldest applied `k` times to the version table. */
  function OldestRemovals(t: Table, m: int, k: nat): (r: Table)
    ensures r.rows == DropOldestN(t.rows, m, k) && r.nextId == t.nextId
  {
    var rows := DropOldestN(t.rows, m, k);
    DropOldestNFrame(t.rows, m, k);
    assert forall i :: 0 <= i < |rows| ==> rows[i] in t.rows;
    VersionTable(rows, t.nextId)
  }

  /** A changed save with oldest-first eviction: reset, store, then `k` removals of the oldest row. */
  function CorrectedChangedSave(t: Table, item: Module, now: string, k: nat): Table
  {
    OldestRemovals(LifecycleFacts.ResetAndStore(t, item, now), item.id, k)
  }

  /** However many oldest-first removals follow, the module's only current row is the new one, if any. */
  lemma CorrectedSaveCurrent(t: Table, item: Module, now: string, k: nat)
    ensures forall x :: x in CorrectedChangedSave(t, item, now, k).rows && x.modId == item.id ==> (x.current <==> x.id == t.nextId)
  {
    var t2 := LifecycleFacts.ResetAndStore(t, item, now);
    LifecycleFacts.ResetThenStoreCurrent(t, item, now);
    DropOldestNFrame(t2.rows, item.id, k);
    forall x | x in CorrectedChangedSave(t, item, now, k).rows && x.modId == item.id
      ensures x.current <==> x.id == t.nextId
    {
      assert x in t2.rows;
    }
  }

  /**
   * With the handler's loop bound, oldest-first removals after a store keep
   * the module's newest `min(N + 1, keep)` rows, the new row last.
   */
  lemma CorrectedSaveOwned(t: Table, item: Module, now: string, keep: int)
    requires keep >= 1
    ensures var n := HelperFacts.Count(t, item.id);
      var t' := CorrectedChangedSave(t, item, now, LifecycleFacts.Trims(n, keep));
      var o' := Helper.Owned(t'.rows, item.id);
      && |o'| == (if n + 1 <= keep then n + 1 else keep)
      && o'[|o'| - 1] == LifecycleFacts.ResetAndStore(t, item, now).rows[|t.rows|]
  {
    var n := HelperFacts.Count(t, item.id);
    var k := LifecycleFacts.Trims(n, keep);
    var t2 := LifecycleFacts.ResetAndStore(t, item, now);
    LifecycleFacts.ResetThenStoreOwned(t, item, now);
    DropOldestNOwned(t2.rows, item.id, k);
    var o2 := Helper.Owned(t2.rows, item.id);
    assert Helper.Owned(CorrectedChangedSave(t, item, now, k).rows, item.id) == o2[k..];
  }

  /**
   * With oldest-first eviction and the handler's own loop bound, a changed
   * save of a module with `N` versions leaves it `min(N + 1, keep)` versions:
   * the new one, which is its newest and only current version, and the
   * newest of the ones it had.
   */
  lemma CorrectedSaveKeepsNewVersion(t: Table, item: Module, now: string, keep: int)
    requires keep >= 1
    ensures var n := HelperFacts.Count(t, item.id);
      var t' := CorrectedChangedSave(t, item, now, LifecycleFacts.Trims(n, keep));
      && HelperFacts.Count(t', item.id) == (if n + 1 <= keep then n + 1 else keep)
      && |Helper.GetVersions(t', item.id)| > 0
      && Helper.GetVersions(t', item.id)[0].id == t.nextId
      && Helper.GetVersions(t', item.id)[0].fields == Helper.StoredFields(item)
      && (forall x :: x in t'.rows && x.modId == item.id ==> (x.current <==> x.id == t.nextId))
  {
    var k := LifecycleFacts.Trims(HelperFacts.Count(t, item.id), keep);
    CorrectedSaveOwned(t, item, now, keep);
    CorrectedSaveCurrent(t, item, now, k);
    LifecycleFacts.ResetThenStoreRow(t, item, now);
  }
}
