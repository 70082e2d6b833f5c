/**
 * Properties relating the helper's operations to each other: the filter is
 * idempotent, the comparison is one-directional, and each update changes the
 * per-module version lists exactly as the plugin relies on.
 */
module HelperFacts {
  import opened Schema
  import opened Helper

  /** The number of versions a module has in the table. */
  function Count(t: Table, modId: int): nat
  {
    |Owned(t.rows, modId)|
  }

  // ---------------------------------------------------------------------------
  // filterContent and compareVersion
  // ---------------------------------------------------------------------------

  /** Filtering an already filtered map changes nothing. */
  lemma FilterIdempotent(content: Columns, excluded: set<string>)
    ensures FilterContent(FilterContent(content, excluded), excluded) == FilterContent(content, excluded)
  {
  }

  /** Two filters in a row are one filter excluding both lists. */
  lemma FilterCompose(content: Columns, e1: set<string>, e2: set<string>)
    ensures FilterContent(FilterContent(content, e1), e2) == FilterContent(content, e1 + e2)
  {
  }

  /** A version whose filtered fields equal the settings' filtered fields is never reported as changed. */
  lemma CompareEqualFiltered(settings: Columns, loaded: Columns)
    requires FilterContent(settings, {}) == FilterContent(loaded, {})
    ensures !CompareVersion(settings, loaded)
  {
    forall k | k in settings && k in TrackedKeys
      ensures k in loaded && Text(settings[k]) == Text(loaded[k])
    {
      assert k in FilterContent(settings, {});
    }
  }

  /** A key the settings do not have (such as `mod_id`) never affects the comparison. */
  lemma CompareIgnoresLoadedOnlyKey(settings: Columns, loaded: Columns, k: string, v: Value)
    requires k !in settings
    ensures CompareVersion(settings, loaded[k := v]) == CompareVersion(settings, loaded)
  {
    if CompareVersion(settings, loaded) {
      var j :| j in settings && j in TrackedKeys && (j !in loaded || Text(settings[j]) != Text(loaded[j]));
      assert j != k;
    }
    if CompareVersion(settings, loaded[k := v]) {
      var j :| j in settings && j in TrackedKeys && (j !in loaded[k := v] || Text(settings[j]) != Text(loaded[k := v][j]));
      assert j != k;
    }
  }

  /** Keys outside the allowlist never affect the comparison, on either side. */
  lemma CompareIgnoresUntrackedKey(settings: Columns, loaded: Columns, k: string, v: Value, u: Value)
    requires k !in TrackedKeys
    ensures CompareVersion(settings[k := v], loaded[k := u]) == CompareVersion(settings, loaded)
  {
  }

  /** The comparison is not symmetric: extra fields in the loaded version go unnoticed. */
  lemma CompareIsOneDirectional()
    ensures !CompareVersion(map[], map["title" := Str("A")])
    ensures CompareVersion(map["title" := Str("A")], map[])
  {
    assert "title" in TrackedKeys;
  }

  /** NULL and the empty string compare equal, as PHP's string cast makes them. */
  lemma CompareNullIsEmpty(settings: Columns, k: string)
    requires k in settings && settings[k] == Str("")
    ensures CompareVersion(settings, settings[k := Null]) == false
  {
  }

  // ---------------------------------------------------------------------------
  // Selection
  // ---------------------------------------------------------------------------

  lemma {:induction false} SelectConcat(a: seq<Row>, b: seq<Row>, w: Where, matching: bool)
    ensures Select(a + b, w, matching) == Select(a, w, matching) + Select(b, w, matching)
  {
    if |a| == 0 {
      assert a + b == b;
    } else {
      assert (a + b)[1..] == a[1..] + b;
      SelectConcat(a[1..], b, w, matching);
    }
  }

  lemma {:induction false} SelectNothing(rows: seq<Row>, w: Where, matching: bool)
    requires forall j :: 0 <= j < |rows| ==> Matches(w, rows[j]) != matching
    ensures Select(rows, w, matching) == []
  {
    if |rows| > 0 {
      SelectNothing(rows[1..], w, matching);
    }
  }

  /** Selection depends only on what the current flag does not affect. */
  lemma {:induction false} SelectSameRecords(a: seq<Row>, b: seq<Row>, w: Where, matching: bool)
    requires |a| == |b| && forall i :: 0 <= i < |a| ==> SameRecord(a[i], b[i])
    ensures |Select(a, w, matching)| == |Select(b, w, matching)|
    ensures forall i :: 0 <= i < |Select(a, w, matching)| ==> SameRecord(Select(a, w, matching)[i], Select(b, w, matching)[i])
  {
    if |a| > 0 {
      SelectSameRecords(a[1..], b[1..], w, matching);
    }
  }

  /** Rows of one module are never rows of another. */
  lemma {:induction false} OwnedOfOthers(rows: seq<Row>, m: int, other: int)
    requires m != other
    ensures Owned(Select(rows, ModIdIs(m), false), other) == Owned(rows, other)
  {
    if |rows| > 0 {
      OwnedOfOthers(rows[1..], m, other);
    }
  }

  // ---------------------------------------------------------------------------
  // The per-module version lists under each update
  // ---------------------------------------------------------------------------

  /** Changing only current flags keeps every module's version list, up to those flags. */
  lemma FlagsKeepOwned(t: Table, r: Table, m: int)
    requires FlagsOnlyChanged(t, r)
    ensures Count(r, m) == Count(t, m)
    ensures forall i :: 0 <= i < Count(t, m) ==> SameRecord(Owned(r.rows, m)[i], Owned(t.rows, m)[i])
  {
    SelectSameRecords(r.rows, t.rows, ModIdIs(m), true);
  }

  /** After setCurrent the module's rows are flagged by their id, and every other row was in the table. */
  lemma SetCurrentRows(t: Table, id: int, m: int)
    ensures forall x :: x in SetCurrent(t, id, m).rows ==>
      && (x.modId == m ==> (x.current <==> x.id == id))
      && (x.modId != m ==> x in t.rows)
  {
    var r := SetCurrent(t, id, m);
    forall x | x in r.rows
      ensures (x.modId == m ==> (x.current <==> x.id == id)) && (x.modId != m ==> x in t.rows)
    {
      var i :| 0 <= i < |r.rows| && r.rows[i] == x;
      if x.modId != m {
        assert t.rows[i] == x;
      }
    }
  }

  /** storeVersion adds the new row as the newest version of the item, and only there. */
  lemma StoreAppendsVersion(t: Table, item: Module, now: string, m: int)
    ensures var r := StoreVersion(t, item, now);
      Owned(r.rows, m) == Owned(t.rows, m) + (if m == item.id then [r.rows[|t.rows|]] else [])
  {
    var r := StoreVersion(t, item, now);
    assert r.rows == t.rows + [r.rows[|t.rows|]];
    SelectConcat(t.rows, [r.rows[|t.rows|]], ModIdIs(m), true);
  }

  /** Under the table invariant, the row removeObsolete picks is the module's last row in table order. */
  lemma NewestIsLast(rows: seq<Row>, m: int, i: int)
    requires Ascending(rows)
    requires 0 <= i < |rows| && rows[i].modId == m
    requires forall j :: 0 <= j < |rows| && rows[j].modId == m ==> rows[j].id <= rows[i].id
    ensures forall j :: i < j < |rows| ==> rows[j].modId != m
  {
  }

  /** Selecting from a sequence with one element taken out, and from the whole, around that element. */
  lemma RemoveAtSelect(rows: seq<Row>, i: int, w: Where, matching: bool)
    requires 0 <= i < |rows|
    ensures Select(rows, w, matching) == Select(rows[..i], w, matching) + Select([rows[i]], w, matching) + Select(rows[i + 1..], w, matching)
    ensures Select(RemoveAt(rows, i), w, matching) == Select(rows[..i], w, matching) + Select(rows[i + 1..], w, matching)
  {
    var a, x, b := rows[..i], rows[i], rows[i + 1..];
    assert rows == a + [x] + b;
    assert RemoveAt(rows, i) == a + b;
    SelectConcat(a + [x], b, w, matching);
    SelectConcat(a, [x], w, matching);
    SelectConcat(a, b, w, matching);
  }

  /** removeObsolete only ever deletes: every remaining row was there before. */
  lemma RemoveNewestSubset(rows: seq<Row>, m: int)
    ensures forall x :: x in RemoveNewest(rows, m) ==> x in rows
  {
    var r := RemoveNewest(rows, m);
    forall y | y in r ensures y in rows {
      var j :| 0 <= j < |r| && r[j] == y;
      if NewestIndex(rows, m).Some? {
        var i := NewestIndex(rows, m).value;
        if j < i { assert rows[j] == y; } else { assert rows[j + 1] == y; }
      }
    }
  }

  /** Deleting one row keeps the rows in id order. */
  lemma RemoveNewestAscending(rows: seq<Row>, m: int)
    requires Ascending(rows)
    ensures Ascending(RemoveNewest(rows, m))
  {
    if NewestIndex(rows, m).Some? {
      var i := NewestIndex(rows, m).value;
      var r := RemoveAt(rows, i);
      forall a, b | 0 <= a < b < |r| ensures r[a].id < r[b].id {
        var a' := if a < i then a else a + 1;
        var b' := if b < i then b else b + 1;
        assert r[a] == rows[a'] && r[b] == rows[b'];
      }
    }
  }

  /** Taking out a module's last row in table order shortens that module's list by its last element. */
  lemma RemoveLastOwned(rows: seq<Row>, i: int, m: int)
    requires 0 <= i < |rows| && rows[i].modId == m
    requires forall j :: i < j < |rows| ==> rows[j].modId != m
    ensures |Owned(rows, m)| > 0
    ensures Owned(RemoveAt(rows, i), m) == Owned(rows, m)[..|Owned(rows, m)| - 1]
  {
    var b := rows[i + 1..];
    assert forall j :: 0 <= j < |b| ==> b[j] == rows[i + 1 + j];
    SelectNothing(b, ModIdIs(m), true);
    RemoveAtSelect(rows, i, ModIdIs(m), true);
  }

  /** Taking out a row of another module leaves a module's list as it was. */
  lemma RemoveOtherOwned(rows: seq<Row>, i: int, other: int)
    requires 0 <= i < |rows| && rows[i].modId != other
    ensures Owned(RemoveAt(rows, i), other) == Owned(rows, other)
  {
    RemoveAtSelect(rows, i, ModIdIs(other), true);
    assert Select([rows[i]], ModIdIs(other), true) == [];
  }

  /** removeObsolete drops the last row of the module's list in table order, and touches no other list. */
  lemma RemoveNewestOwned(rows: seq<Row>, m: int)
    requires Ascending(rows)
    ensures var o := Owned(rows, m);
      && (|o| > 0 ==> Owned(RemoveNewest(rows, m), m) == o[..|o| - 1])
      && (|o| == 0 ==> RemoveNewest(rows, m) == rows)
  {
    var found := NewestIndex(rows, m);
    if found.None? {
      SelectNothing(rows, ModIdIs(m), true);
    } else {
      var i := found.value;
      NewestIsLast(rows, m, i);
      RemoveLastOwned(rows, i, m);
    }
  }

  lemma RemoveNewestOthers(rows: seq<Row>, m: int, other: int)
    requires other != m
    ensures Owned(RemoveNewest(rows, m), other) == Owned(rows, other)
  {
    var found := NewestIndex(rows, m);
    if found.Some? {
      RemoveOtherOwned(rows, found.value, other);
    }
  }

  lemma ReverseDropLast(o: seq<Row>)
    requires |o| > 0
    ensures Reverse(o[..|o| - 1]) == Reverse(o)[1..]
  {
  }

  /**
   * removeObsolete deletes the newest version of the module: its list of
   * versions (newest first) loses its head, and no other module's list changes.
   */
  lemma RemoveObsoleteDropsNewest(t: Table, m: int)
    ensures var r := RemoveObsolete(t, m);
      && (forall x :: x in r.rows ==> x in t.rows)
      && (Count(t, m) > 0 ==> GetVersions(r, m) == GetVersions(t, m)[1..])
      && (Count(t, m) == 0 ==> r == t)
      && (forall other :: other != m ==> GetVersions(r, other) == GetVersions(t, other))
  {
    RemoveNewestSubset(t.rows, m);
    RemoveNewestOwned(t.rows, m);
    if Count(t, m) > 0 {
      ReverseDropLast(Owned(t.rows, m));
    }
    forall other | other != m ensures GetVersions(RemoveObsolete(t, m), other) == GetVersions(t, other) {
      RemoveNewestOthers(t.rows, m, other);
    }
  }

  /** After deleteVersion the module has no versions, and every other module keeps its list. */
  lemma DeleteVersionEmpties(t: Table, m: int)
    ensures GetVersions(DeleteVersion(t, m), m) == []
    ensures forall other :: other != m ==> GetVersions(DeleteVersion(t, m), other) == GetVersions(t, other)
  {
    var r := DeleteVersion(t, m);
    SelectNothing(r.rows, ModIdIs(m), true);
    forall other | other != m ensures Owned(r.rows, other) == Owned(t.rows, other) {
      OwnedOfOthers(t.rows, m, other);
    }
  }

  // ---------------------------------------------------------------------------
  // Store, compare and restore together
  // ---------------------------------------------------------------------------

  /**
   * A freshly stored version compares equal to the module it was taken from,
   * so saving the same settings again is not a change. A module record has no
   * `mod_id` column of its own.
   */
  lemma StoredVersionMatchesItem(item: Module, n: Row)
    requires "mod_id" !in item.columns
    requires n.fields == StoredFields(item)
    ensures !CompareVersion(item.columns, AsObject(n))
  {
    forall k | k in item.columns && k in TrackedKeys
      ensures k in AsObject(n) && Text(item.columns[k]) == Text(AsObject(n)[k])
    {
      assert k in n.fields;
      ObjectShowsField(n, k);
    }
  }

  /** The bookkeeping columns of a loaded row are not tracked fields. */
  lemma BookkeepingUntracked()
    ensures "id" !in TrackedKeys && "current" !in TrackedKeys && "changedate" !in TrackedKeys
  {
  }

  /** A loaded row shows each of its stored tracked fields unchanged. */
  lemma ObjectShowsField(r: Row, k: string)
    requires k in r.fields && k in TrackedKeys && k != "mod_id"
    ensures k in AsObject(r) && AsObject(r)[k] == r.fields[k]
  {
    BookkeepingUntracked();
  }

  /**
   * Restoring a version onto its module gives back the columns it was stored
   * from, as strings (a NULL column comes back as the empty string); the
   * publishing dates come back as NULL when they were empty, "0", the zero
   * date or a quoted empty string.
   */
  lemma RestoreAfterStore(t: Table, item: Module, now: string, modules: map<int, Columns>)
    requires item.id in modules
    ensures var n := StoreVersion(t, item, now).rows[|t.rows|];
      var after := UpdateModuleToVersion(modules, n)[item.id];
      && (forall k :: k in item.columns && k in TrackedKeys && k != "mod_id" && k !in DateKeys ==> after[k] == Str(Text(item.columns[k])))
      && (forall k :: k in item.columns && k in DateKeys ==> after[k] == RestoredValue(k, item.columns[k]))
  {
    var n := StoreVersion(t, item, now).rows[|t.rows|];
    assert forall k :: k in item.columns && k in DateKeys ==> k in n.fields && k in TrackedKeys && k != "mod_id";
  }

  /**
   * A NULL column is quoted on store, so it is kept as the empty string and
   * restored as the empty string, not as NULL.
   */
  lemma NullContentStoredAsEmpty(t: Table, now: string, modules: map<int, Columns>)
    requires 7 in modules
    ensures var item := Module(7, map["content" := Null]);
      var n := StoreVersion(t, item, now).rows[|t.rows|];
      && n.fields["content"] == Str("")
      && UpdateModuleToVersion(modules, n)[7]["content"] == Str("")
  {
    var item := Module(7, map["content" := Null]);
    assert "content" in TrackedKeys && "content" !in DateKeys;
    RestoreAfterStore(t, item, now, modules);
  }
}
