/**
 * The data of the module-versioning plugin: the live module record and the
 * auxiliary `#__modules_versions` table, kept as a sequence of immutable rows
 * in insertion (auto-increment) order.
 */
module Schema {

  /** A column value as PHP sees it after loading: SQL NULL or a string. */
  datatype Value = Null | Str(s: string)

  /** PHP's string cast, which `array_diff_assoc` applies before comparing: NULL becomes "". */
  function Text(v: Value): string
  {
    match v
    case Null => ""
    case Str(s) => s
  }

  /** A record's properties as an associative array (field name to value). */
  type Columns = map<string, Value>

  /** The fifteen keys `filterContent` lets through. */
  const TrackedKeys: set<string> := {
    "mod_id", "title", "note", "content", "ordering", "position",
    "publish_up", "publish_down", "published", "module", "access",
    "showtitle", "params", "client_id", "language"
  }

  /** The date columns that are stored or restored as NULL when empty. */
  const DateKeys: set<string> := {"publish_up", "publish_down"}

  /**
   * One version row. `id`, `current` and `mod_id` are typed columns; `fields`
   * holds the snapshot of the module's tracked columns other than `mod_id`;
   * `changedate` is the insertion timestamp, kept as an opaque string.
   */
  datatype Row = Row(id: int, current: bool, modId: int, fields: Columns, changedate: string)

  /** Two rows that differ at most in their `current` flag. */
  predicate SameRecord(a: Row, b: Row)
  {
    a.id == b.id && a.modId == b.modId && a.fields == b.fields && a.changedate == b.changedate
  }

  /** Row ids strictly increase along the sequence. */
  predicate Ascending(rows: seq<Row>)
  {
    forall i, j :: 0 <= i < j < |rows| ==> rows[i].id < rows[j].id
  }

  /** The version table together with its auto-increment counter. */
  datatype VersionTable = VersionTable(rows: seq<Row>, nextId: int)

  /**
   * What the primary key and the auto-increment counter guarantee: rows are
   * kept in id order, and every id is below the next id to be handed out.
   */
  predicate Valid(t: VersionTable)
  {
    Ascending(t.rows) && forall i :: 0 <= i < |t.rows| ==> t.rows[i].id < t.nextId
  }

  type Table = t: VersionTable | Valid(t) witness VersionTable([], 1)

  /** At most one row per owning module carries the current mark. */
  predicate AtMostOneCurrent(t: Table)
  {
    forall x, y :: x in t.rows && y in t.rows && x.current && y.current && x.modId == y.modId ==> x.id == y.id
  }

  /** The live module as the save event hands it over: its id and its columns. */
  datatype Module = Module(id: int, columns: Columns)

  function Digit(d: nat): char
    requires d < 10
  {
    "0123456789"[d]
  }

  /** Decimal digits of a natural number, most significant first. */
  function Digits(n: nat): (r: string)
    ensures |r| > 0
  {
    if n < 10 then [Digit(n)] else Digits(n / 10) + [Digit(n % 10)]
  }

  /** The decimal text the database driver returns for an integer column. */
  function Decimal(n: int): string
  {
    if n < 0 then "-" + Digits(-n) else Digits(n)
  }

  /**
   * A loaded version row as the object `getVersions` returns: the stored fields
   * plus the `id`, `current`, `mod_id` and `changedate` columns, all as text.
   */
  function AsObject(r: Row): Columns
  {
    r.fields + map[
      "id" := Str(Decimal(r.id)),
      "current" := Str(if r.current then "1" else "0"),
      "mod_id" := Str(Decimal(r.modId)),
      "changedate" := Str(r.changedate)
    ]
  }
}
