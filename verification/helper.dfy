/**
 * The database helper of the plugin (`Helper` / `ModuleversionHelper`): every
 * query against `#__modules_versions` as a pure function over the table, and
 * the filter and comparison it applies to field maps.
 */
module Helper {
  import opened Wrappers
  import opened Schema

  // ---------------------------------------------------------------------------
  // Field maps: filterContent and compareVersion
  // ---------------------------------------------------------------------------

  /** Keeps the allowlisted keys that are not `excluded`, with their values. */
  function FilterContent(content: Columns, excluded: set<string>): (r: Columns)
    ensures r.Keys == content.Keys * (TrackedKeys - excluded)
    ensures forall k :: k in r ==> r[k] == content[k]
  {
    map k | k in content && k in TrackedKeys && k !in excluded :: content[k]
  }

  /**
   * PHP's `array_diff_assoc(a, b)`: the entries of `a` whose key is missing
   * from `b` or whose value differs from `b`'s as a string.
   */
  function DiffAssoc(a: Columns, b: Columns): (r: Columns)
    ensures r.Keys <= a.Keys
    ensures forall k :: k in r ==> r[k] == a[k]
    ensures forall k :: k in a ==> (k in r <==> k !in b || Text(a[k]) != Text(b[k]))
  {
    map k | k in a && (k !in b || Text(a[k]) != Text(b[k])) :: a[k]
  }

  /**
   * Whether the module's settings differ from a loaded version: some
   * allowlisted key of the settings is missing from the version or has a
   * different string value there. Keys only the version has never count.
   */
  function CompareVersion(settings: Columns, loaded: Columns): (changed: bool)
    ensures changed <==> exists k :: k in settings && k in TrackedKeys && (k !in loaded || Text(settings[k]) != Text(loaded[k]))
  {
    var diff := DiffAssoc(FilterContent(settings, {}), FilterContent(loaded, {}));
    assert diff != map[] ==> exists k :: k in settings && k in TrackedKeys && (k !in loaded || Text(settings[k]) != Text(loaded[k])) by {
      if diff != map[] {
        var k :| k in diff;
        assert k in FilterContent(settings, {});
      }
    }
    diff != map[]
  }

  // ---------------------------------------------------------------------------
  // Row selection: WHERE clauses of the version queries
  // ---------------------------------------------------------------------------

  /** The WHERE conditions the helper uses on version rows. */
  datatype Where =
    | ModIdIs(modId: int)
    | ExtensionIs(element: string, clientId: string)

  predicate Matches(w: Where, r: Row)
  {
    match w
    case ModIdIs(m) => r.modId == m
    case ExtensionIs(e, c) =>
      "module" in r.fields && r.fields["module"] == Str(e)
      && "client_id" in r.fields && r.fields["client_id"] == Str(c)
  }

  /**
   * The rows, in table order, whose match against `w` equals `matching`:
   * with `matching` true a SELECT, with false what a DELETE leaves behind.
   */
  function Select(rows: seq<Row>, w: Where, matching: bool): (r: seq<Row>)
    ensures |r| <= |rows|
  {
    if |rows| == 0 then []
    else
      var rest := Select(rows[1..], w, matching);
      if Matches(w, rows[0]) == matching then [rows[0]] + rest else rest
  }

  /** A row is selected exactly when it is in the table and its match is `matching`. */
  lemma {:induction false} SelectMembers(rows: seq<Row>, w: Where, matching: bool)
    ensures forall x :: x in Select(rows, w, matching) <==> x in rows && Matches(w, x) == matching
  {
    if |rows| > 0 {
      SelectMembers(rows[1..], w, matching);
      assert forall x :: x in rows <==> x == rows[0] || x in rows[1..];
    }
  }

  /** Selection keeps the table's id order. */
  lemma {:induction false} SelectAscending(rows: seq<Row>, w: Where, matching: bool)
    requires Ascending(rows)
    ensures Ascending(Select(rows, w, matching))
  {
    if |rows| > 0 {
      var rest := Select(rows[1..], w, matching);
      SelectAscending(rows[1..], w, matching);
      SelectMembers(rows[1..], w, matching);
      if Matches(w, rows[0]) == matching {
        forall x | x in rest ensures rows[0].id < x.id {
          var j :| 0 <= j < |rows[1..]| && rows[1..][j] == x;
          assert rows[j + 1] == x;
        }
        ConsAscending(rows[0], rest);
      }
    }
  }

  /** A row placed before rows of higher id keeps a sequence in id order. */
  lemma ConsAscending(x: Row, rest: seq<Row>)
    requires Ascending(rest)
    requires forall y :: y in rest ==> x.id < y.id
    ensures Ascending([x] + rest)
  {
    var r := [x] + rest;
    forall i, j | 0 <= i < j < |r| ensures r[i].id < r[j].id {
      if i > 0 {
        assert r[i] == rest[i - 1] && r[j] == rest[j - 1];
      } else {
        assert r[j] in rest;
      }
    }
  }

  /** A selection of a valid table, with the same counter, is a valid table. */
  function Restrict(t: Table, w: Where, matching: bool): (r: Table)
    ensures r.rows == Select(t.rows, w, matching) && r.nextId == t.nextId
    ensures forall x :: x in r.rows <==> x in t.rows && Matches(w, x) == matching
  {
    var rows := Select(t.rows, w, matching);
    SelectAscending(t.rows, w, matching);
    SelectMembers(t.rows, w, matching);
    assert forall i :: 0 <= i < |rows| ==> rows[i] in t.rows;
    VersionTable(rows, t.nextId)
  }

  /** The rows of one module, oldest first. */
  function Owned(rows: seq<Row>, modId: int): seq<Row>
  {
    Select(rows, ModIdIs(modId), true)
  }

  /** The sequence in reverse order. */
  function Reverse(s: seq<Row>): (r: seq<Row>)
    ensures |r| == |s|
    ensures forall i :: 0 <= i < |s| ==> r[i] == s[|s| - 1 - i]
  {
    seq(|s|, i requires 0 <= i < |s| => s[|s| - 1 - i])
  }

  // ---------------------------------------------------------------------------
  // Queries and updates
  // ---------------------------------------------------------------------------

  /** getVersions: the rows of one module, newest (highest id) first. */
  function GetVersions(t: Table, modId: int): (r: seq<Row>)
    ensures forall x :: x in r <==> x in t.rows && x.modId == modId
    ensures forall i, j :: 0 <= i < j < |r| ==> r[i].id > r[j].id
  {
    var owned := Owned(t.rows, modId);
    SelectAscending(t.rows, ModIdIs(modId), true);
    SelectMembers(t.rows, ModIdIs(modId), true);
    var r := Reverse(owned);
    assert forall x :: x in r <==> x in owned by {
      forall x | x in owned ensures x in r {
        var i :| 0 <= i < |owned| && owned[i] == x;
        assert r[|owned| - 1 - i] == x;
      }
    }
    r
  }

  /**
   * The stored form of one field: every value is quoted as a string, so NULL
   * is stored as the empty string, except that an empty publishing date
   * becomes NULL.
   */
  function StoredValue(key: string, v: Value): Value
  {
    if key in DateKeys && Text(v) == "" then Null else Str(Text(v))
  }

  /**
   * The tracked fields a new version stores: the filtered module columns,
   * where the merged-in `mod_id` entry replaces any `mod_id` the module had.
   */
  function StoredFields(item: Module): (f: Columns)
    ensures f.Keys == item.columns.Keys * (TrackedKeys - {"mod_id"})
    ensures forall k :: k in f ==> f[k] == StoredValue(k, item.columns[k])
  {
    var filtered := FilterContent(item.columns, {});
    map k | k in filtered && k != "mod_id" :: StoredValue(k, filtered[k])
  }

  /** storeVersion: appends one current snapshot of the module, nothing else changes. */
  function StoreVersion(t: Table, item: Module, now: string): (r: Table)
    ensures |r.rows| == |t.rows| + 1 && r.rows[..|t.rows|] == t.rows
    ensures r.nextId == t.nextId + 1
    ensures var n := r.rows[|t.rows|];
      && n.id == t.nextId && n.current && n.modId == item.id && n.changedate == now
      && n.fields.Keys == item.columns.Keys * (TrackedKeys - {"mod_id"})
      && (forall k :: k in n.fields && k !in DateKeys ==> n.fields[k] == Str(Text(item.columns[k])))
      && (forall k :: k in n.fields && k in DateKeys ==>
            n.fields[k] == if Text(item.columns[k]) == "" then Null else item.columns[k])
  {
    VersionTable(t.rows + [Row(t.nextId, true, item.id, StoredFields(item), now)], t.nextId + 1)
  }

  /** The table differs from `t` at most in rows' current flags. */
  predicate FlagsOnlyChanged(t: Table, r: Table)
  {
    |r.rows| == |t.rows| && r.nextId == t.nextId
    && forall i :: 0 <= i < |t.rows| ==> SameRecord(r.rows[i], t.rows[i])
  }

  /** resetCurrent: clears the current mark on every row of the module. */
  function ResetCurrent(t: Table, modId: int): (r: Table)
    ensures FlagsOnlyChanged(t, r)
    ensures forall i :: 0 <= i < |r.rows| && r.rows[i].modId == modId ==> !r.rows[i].current
    ensures forall i :: 0 <= i < |r.rows| && t.rows[i].modId != modId ==> r.rows[i] == t.rows[i]
  {
    VersionTable(
      seq(|t.rows|, i requires 0 <= i < |t.rows| =>
        if t.rows[i].current && t.rows[i].modId == modId then t.rows[i].(current := false) else t.rows[i]),
      t.nextId)
  }

  /** setCurrent: among the module's rows, marks the row with `id` current and every other not. */
  function SetCurrent(t: Table, id: int, modId: int): (r: Table)
    ensures FlagsOnlyChanged(t, r)
    ensures forall i :: 0 <= i < |r.rows| && r.rows[i].modId == modId ==> (r.rows[i].current <==> r.rows[i].id == id)
    ensures forall i :: 0 <= i < |r.rows| && t.rows[i].modId != modId ==> r.rows[i] == t.rows[i]
  {
    VersionTable(
      seq(|t.rows|, i requires 0 <= i < |t.rows| =>
        if t.rows[i].modId == modId then t.rows[i].(current := t.rows[i].id == id) else t.rows[i]),
      t.nextId)
  }

  /** The restored form of a date field: empty, "0", the zero date or a quoted empty string become NULL. */
  function RestoredValue(key: string, v: Value): Value
  {
    if key in DateKeys && Text(v) in {"", "0", "0000-00-00 00:00:00", "''"} then Null else v
  }

  /** The SET list of updateModuleToVersion: the version's filtered fields without `mod_id`. */
  function RestoreAssignments(version: Row): (a: Columns)
    ensures a.Keys == version.fields.Keys * (TrackedKeys - {"mod_id"})
    ensures forall k :: k in a ==> a[k] == RestoredValue(k, version.fields[k])
  {
    var filtered := FilterContent(AsObject(version), {"mod_id"});
    assert forall k :: k in filtered ==> k in version.fields && filtered[k] == version.fields[k];
    map k | k in filtered :: RestoredValue(k, filtered[k])
  }

  /**
   * updateModuleToVersion: writes the version's tracked fields onto the
   * module whose id is the version's `mod_id`; no other module changes.
   */
  function UpdateModuleToVersion(modules: map<int, Columns>, version: Row): (r: map<int, Columns>)
    ensures r.Keys == modules.Keys
    ensures forall id :: id in modules && id != version.modId ==> r[id] == modules[id]
    ensures version.modId in modules ==>
      var before, after := modules[version.modId], r[version.modId];
      && after.Keys == before.Keys + version.fields.Keys * (TrackedKeys - {"mod_id"})
      && (forall k :: k in version.fields && k in TrackedKeys && k != "mod_id" ==> after[k] == RestoredValue(k, version.fields[k]))
      && (forall k :: k in before && (k !in version.fields || k !in TrackedKeys || k == "mod_id") ==> after[k] == before[k])
  {
    if version.modId in modules then
      modules[version.modId := modules[version.modId] + RestoreAssignments(version)]
    else
      modules
  }

  /** deleteVersion: removes every row of the module and only those. */
  function DeleteVersion(t: Table, modId: int): (r: Table)
    ensures forall x :: x in r.rows <==> x in t.rows && x.modId != modId
    ensures r.nextId == t.nextId
  {
    Restrict(t, ModIdIs(modId), false)
  }

  /**
   * The final delete of uninstallVersion: removes the rows whose `module`
   * and `client_id` columns equal the uninstalled extension's, and only those.
   */
  function UninstallVersion(t: Table, element: string, clientId: string): (r: Table)
    ensures forall x :: x in r.rows <==> x in t.rows && !Matches(ExtensionIs(element, clientId), x)
    ensures r.nextId == t.nextId
  {
    Restrict(t, ExtensionIs(element, clientId), false)
  }

  /** The position of the module's row with the highest id, if it has one. */
  function NewestIndex(rows: seq<Row>, modId: int): (r: Option<int>)
    ensures r.None? <==> forall j :: 0 <= j < |rows| ==> rows[j].modId != modId
    ensures r.Some? ==> 0 <= r.value < |rows| && rows[r.value].modId == modId
    ensures r.Some? ==> forall j :: 0 <= j < |rows| && rows[j].modId == modId ==> rows[j].id <= rows[r.value].id
  {
    if |rows| == 0 then None
    else
      match NewestIndex(rows[1..], modId)
      case None => if rows[0].modId == modId then Some(0) else None
      case Some(i) => if rows[0].modId == modId && rows[0].id > rows[i + 1].id then Some(0) else Some(i + 1)
  }

  /** The sequence without its element at position `i`. */
  function RemoveAt(rows: seq<Row>, i: int): (r: seq<Row>)
    requires 0 <= i < |rows|
    ensures |r| == |rows| - 1
    ensures forall j :: 0 <= j < i ==> r[j] == rows[j]
    ensures forall j :: i <= j < |r| ==> r[j] == rows[j + 1]
  {
    rows[..i] + rows[i + 1..]
  }

  /**
   * removeObsolete (DELETE ... ORDER BY id DESC LIMIT 1): deletes the
   * module's row with the highest id when it has one, and nothing else.
   */
  function RemoveObsolete(t: Table, modId: int): (r: Table)
    ensures r.nextId == t.nextId
    ensures (forall j :: 0 <= j < |t.rows| ==> t.rows[j].modId != modId) ==> r == t
  {
    VersionTable(RemoveNewest(t.rows, modId), t.nextId)
  }

  /** The rows without the module's row of highest id, or the rows themselves when it has none. */
  function RemoveNewest(rows: seq<Row>, modId: int): seq<Row>
  {
    match NewestIndex(rows, modId)
    case None => rows
    case Some(i) => RemoveAt(rows, i)
  }

  /** When the module owns a row, removeObsolete deletes exactly one row of it, one with the highest id. */
  lemma RemoveObsoleteDeletesNewest(t: Table, modId: int)
    requires exists j :: 0 <= j < |t.rows| && t.rows[j].modId == modId
    ensures exists i :: (0 <= i < |t.rows| && t.rows[i].modId == modId
      && (forall j :: 0 <= j < |t.rows| && t.rows[j].modId == modId ==> t.rows[j].id <= t.rows[i].id)
      && RemoveObsolete(t, modId).rows == RemoveAt(t.rows, i))
  {
    var i := NewestIndex(t.rows, modId).value;
    assert RemoveObsolete(t, modId).rows == RemoveAt(t.rows, i);
  }
}
