/**
 * The relational store as the sync code sees it: named tables with a fixed
 * schema, rows as column-to-value maps, and the effect of the SQL statements
 * the sync code issues (SELECT with a filter and ORDER BY, INSERT OR REPLACE,
 * UPDATE ... WHERE id = ?, DELETE ... WHERE id = ?), including the errors they
 * raise. A table is the sequence of its rows in scan order.
 */
module Store {
  import opened Wrappers
  import Text

  /** The SQLite values the model carries (REAL and BLOB are not modelled). */
  datatype Value = Null | Int(i: int) | Str(s: string)

  /** A row: column name to value; a column missing from the map reads as NULL. */
  type Row = map<string, Value>

  type Table = seq<Row>

  /**
   * A table's declaration: its primary-key columns, all its columns, the
   * columns that may not be NULL and have no default (which include the key),
   * and whether the key is `id INTEGER PRIMARY KEY`, the table's rowid. Such an
   * id-keyed table is stored, and scanned, in ascending `id` order; any other
   * table gets a fresh, largest rowid for every row it stores, so its rows
   * are scanned in the order they were stored.
   */
  datatype TableSchema = TableSchema(key: seq<string>, columns: set<string>, required: set<string>, rowid: bool)
  {
    /** Every table with an `id` column has `id` as its primary key, as in the MIRS schema. */
    predicate WellFormed()
    {
      |key| > 0 && (forall c :: c in key ==> c in required) && required <= columns &&
      ("id" in columns ==> key == ["id"]) && (rowid ==> key == ["id"])
    }
  }

  datatype Relation = Relation(schema: TableSchema, rows: Table)

  /** The database: table name to its declaration and contents. */
  type Database = map<string, Relation>

  /** The error SQLite raises for a statement; its text becomes a conflict's `error`. */
  datatype SqlError =
    | SyntaxError          // an empty column list or SET clause
    | NoSuchTable(table: string)
    | NoSuchColumn         // a named column the table does not declare
    | NotNullFailed        // a NOT NULL column without default left or set NULL
    | DatatypeMismatch     // a value that is not an integer for an INTEGER PRIMARY KEY

  function Get(r: Row, c: string): Value
  {
    if c in r then r[c] else Null
  }

  function Project(r: Row, cols: seq<string>): (vs: seq<Value>)
    ensures |vs| == |cols| && forall i :: 0 <= i < |cols| ==> vs[i] == Get(r, cols[i])
  {
    if cols == [] then [] else [Get(r, cols[0])] + Project(r, cols[1..])
  }

  function KeyOf(s: TableSchema, r: Row): seq<Value>
  {
    Project(r, s.key)
  }

  /**
   * A stored row names only declared columns, holds a value in every required
   * one, and holds an integer `id` when that is the rowid.
   */
  predicate Conforms(s: TableSchema, r: Row)
  {
    r.Keys <= s.columns && (forall c :: c in s.required ==> Get(r, c) != Null) && (s.rowid ==> Get(r, "id").Int?)
  }

  predicate UniqueKeys(s: TableSchema, t: Table)
  {
    forall i, j :: 0 <= i < j < |t| ==> KeyOf(s, t[i]) != KeyOf(s, t[j])
  }

  predicate ValidRelation(rel: Relation)
  {
    rel.schema.WellFormed() &&
    (forall i :: 0 <= i < |rel.rows| ==> Conforms(rel.schema, rel.rows[i])) &&
    UniqueKeys(rel.schema, rel.rows) &&
    (rel.schema.rowid ==> SortedBy(rel.rows, "id"))
  }

  predicate ValidDatabase(db: Database)
  {
    forall name :: name in db ==> ValidRelation(db[name])
  }

  // ---------------------------------------------------------------- ordering

  /** SQLite's comparison of values: NULL before integers, integers before text. */
  predicate ValueLess(a: Value, b: Value)
  {
    match a
    case Null => !b.Null?
    case Int(x) => (b.Int? && x < b.i) || b.Str?
    case Str(x) => b.Str? && Text.Less(x, b.s)
  }

  lemma ValueLessIrreflexive(a: Value)
    ensures !ValueLess(a, a)
  {
    if a.Str? {
      Text.LessIrreflexive(a.s);
    }
  }

  lemma ValueLessTransitive(a: Value, b: Value, c: Value)
    requires ValueLess(a, b) && ValueLess(b, c)
    ensures ValueLess(a, c)
  {
    if a.Str? {
      Text.LessTransitive(a.s, b.s, c.s);
    }
  }

  lemma ValueLessTotal(a: Value, b: Value)
    requires a != b
    ensures ValueLess(a, b) || ValueLess(b, a)
  {
    if a.Str? && b.Str? {
      Text.LessTotal(a.s, b.s);
    }
  }

  /** "Not after" is transitive, so ORDER BY can place rows consistently. */
  lemma NotLessTransitive(a: Value, b: Value, c: Value)
    requires !ValueLess(b, a) && !ValueLess(c, b)
    ensures !ValueLess(c, a)
  {
    if a != b {
      ValueLessTotal(a, b);
    }
    if b != c {
      ValueLessTotal(b, c);
    }
    if a != b && b != c {
      ValueLessTransitive(a, b, c);
      if ValueLess(c, a) {
        ValueLessTransitive(c, a, b);
        ValueLessIrreflexive(c);
        ValueLessTransitive(b, c, b);
        ValueLessIrreflexive(b);
      }
    } else if a == b {
      assert !ValueLess(c, a);
    }
  }

  /** Rows in ascending order of column `col`. */
  predicate SortedBy(t: Table, col: string)
  {
    forall i, j :: 0 <= i < j < |t| ==> !ValueLess(Get(t[j], col), Get(t[i], col))
  }

  function InsertSorted(t: Table, r: Row, col: string): (u: Table)
    ensures multiset(u) == multiset(t) + multiset{r}
    ensures |u| == |t| + 1
    ensures forall x :: x in u <==> x in t || x == r
    decreases |t|
  {
    if t == [] then [r]
    else if ValueLess(Get(r, col), Get(t[|t| - 1], col)) then
      assert t == t[..|t| - 1] + [t[|t| - 1]];
      InsertSorted(t[..|t| - 1], r, col) + [t[|t| - 1]]
    else t + [r]
  }

  lemma {:induction false} InsertSortedSorted(t: Table, r: Row, col: string)
    requires SortedBy(t, col)
    ensures SortedBy(InsertSorted(t, r, col), col)
    decreases |t|
  {
    if t != [] {
      var last := t[|t| - 1];
      var init := t[..|t| - 1];
      var u := InsertSorted(t, r, col);
      if ValueLess(Get(r, col), Get(last, col)) {
        InsertSortedSorted(init, r, col);
        var v := InsertSorted(init, r, col);
        assert u == v + [last];
        forall i | 0 <= i < |v|
          ensures !ValueLess(Get(last, col), Get(v[i], col))
        {
          assert v[i] in multiset(v);
          if v[i] == r {
            ValueLessAsymmetric(Get(r, col), Get(last, col));
          } else {
            assert v[i] in multiset(init);
            var k :| 0 <= k < |init| && init[k] == v[i];
            assert t[k] == v[i];
          }
        }
      } else {
        assert u == t + [r];
        forall i | 0 <= i < |t|
          ensures !ValueLess(Get(r, col), Get(t[i], col))
        {
          if i < |t| - 1 {
            NotLessTransitive(Get(t[i], col), Get(last, col), Get(r, col));
          }
        }
      }
    }
  }

  lemma ValueLessAsymmetric(a: Value, b: Value)
    requires ValueLess(a, b)
    ensures !ValueLess(b, a)
  {
    if ValueLess(b, a) {
      ValueLessTransitive(a, b, a);
      ValueLessIrreflexive(a);
    }
  }

  /** `ORDER BY col`: an ascending arrangement of the same rows. */
  function SortBy(t: Table, col: string): (u: Table)
    ensures multiset(u) == multiset(t)
    ensures |u| == |t|
    ensures SortedBy(u, col)
    decreases |t|
  {
    if t == [] then []
    else
      var init := SortBy(t[..|t| - 1], col);
      InsertSortedSorted(init, t[|t| - 1], col);
      assert t == t[..|t| - 1] + [t[|t| - 1]];
      InsertSorted(init, t[|t| - 1], col)
  }

  // ---------------------------------------------------------------- SELECT

  /** The WHERE clauses the sync code builds, with SQL's rule that NULL matches nothing. */
  datatype Condition =
    | Always
    | ColumnEquals(col: string, v: Value)   // col = v
    | ColumnAfter(col: string, v: Value)    // col > v
    | Both(left: Condition, right: Condition)

  predicate Holds(c: Condition, r: Row)
  {
    match c
    case Always => true
    case ColumnEquals(col, v) => v != Null && Get(r, col) == v
    case ColumnAfter(col, v) => v != Null && Get(r, col) != Null && ValueLess(v, Get(r, col))
    case Both(a, b) => Holds(a, r) && Holds(b, r)
  }

  /** The columns a condition mentions: naming an undeclared one is an error. */
  function Mentions(c: Condition): set<string>
  {
    match c
    case Always => {}
    case ColumnEquals(col, _) => {col}
    case ColumnAfter(col, _) => {col}
    case Both(a, b) => Mentions(a) + Mentions(b)
  }

  /**
   * The rows for which `cond` holds (keep = true, a SELECT's WHERE) or does not
   * hold (keep = false, the rows a DELETE leaves), in scan order.
   */
  function Filter(t: Table, cond: Condition, keep: bool): (u: Table)
    ensures |u| <= |t|
    ensures forall x :: x in u <==> x in t && Holds(cond, x) == keep
  {
    if t == [] then []
    else
      assert t == [t[0]] + t[1..];
      (if Holds(cond, t[0]) == keep then [t[0]] else []) + Filter(t[1..], cond, keep)
  }

  /** Filtering keeps every kept row as often as it occurs. */
  lemma {:induction false} FilterCount(t: Table, cond: Condition, keep: bool, x: Row)
    ensures multiset(Filter(t, cond, keep))[x] == if Holds(cond, x) == keep then multiset(t)[x] else 0
    decreases |t|
  {
    if t != [] {
      var rest := Filter(t[1..], cond, keep);
      FilterCount(t[1..], cond, keep, x);
      assert t == [t[0]] + t[1..];
      assert multiset(t) == multiset([t[0]]) + multiset(t[1..]);
      if Holds(cond, t[0]) == keep {
        assert Filter(t, cond, keep) == [t[0]] + rest;
        assert multiset([t[0]] + rest) == multiset([t[0]]) + multiset(rest);
      } else {
        assert Filter(t, cond, keep) == [] + rest == rest;
      }
    }
  }

  /** `SELECT *` yields every declared column; omitted ones read as NULL. */
  function Complete(s: TableSchema, r: Row): Row
  {
    map c | c in s.columns :: Get(r, c)
  }

  function CompleteAll(s: TableSchema, t: Table): (u: Table)
    ensures |u| == |t| && forall i :: 0 <= i < |t| ==> u[i] == Complete(s, t[i])
  {
    seq(|t|, i requires 0 <= i < |t| => Complete(s, t[i]))
  }

  lemma CompleteReads(s: TableSchema, r: Row, c: string)
    requires c in s.columns
    ensures Get(Complete(s, r), c) == Get(r, c)
  {
  }

  /** `SELECT * FROM table WHERE cond`, in scan order. */
  function Select(db: Database, table: string, cond: Condition): (r: Result<Table, SqlError>)
    ensures table !in db ==> r == Err(NoSuchTable(table))
    ensures table in db && !(Mentions(cond) <= db[table].schema.columns) ==> r == Err(NoSuchColumn)
    ensures r.Ok? ==> |r.value| <= |db[table].rows|
  {
    if table !in db then Err(NoSuchTable(table))
    else if !(Mentions(cond) <= db[table].schema.columns) then Err(NoSuchColumn)
    else Ok(CompleteAll(db[table].schema, Filter(db[table].rows, cond, true)))
  }

  /** `SELECT * FROM table WHERE cond ORDER BY col`. */
  function SelectOrdered(db: Database, table: string, cond: Condition, col: string): (r: Result<Table, SqlError>)
    ensures table !in db ==> r == Err(NoSuchTable(table))
    ensures table in db && !(Mentions(cond) + {col} <= db[table].schema.columns) ==> r.Err?
    ensures r.Ok? ==> SortedBy(r.value, col)
  {
    if table in db && col !in db[table].schema.columns then Err(NoSuchColumn)
    else
      match Select(db, table, cond)
      case Ok(rows) => Ok(SortBy(rows, col))
      case Err(e) => Err(e)
  }

  /**
   * The ordered selection holds exactly the matching rows, each once per
   * occurrence, completed to all columns, and ascending in `col`.
   */
  lemma SelectOrderedExact(db: Database, table: string, cond: Condition, col: string)
    requires SelectOrdered(db, table, cond, col).Ok?
    ensures var rel := db[table];
      var r := SelectOrdered(db, table, cond, col).value;
      multiset(r) == multiset(CompleteAll(rel.schema, Filter(rel.rows, cond, true))) &&
      |r| == |Filter(rel.rows, cond, true)| &&
      SortedBy(r, col)
  {
  }

  // ---------------------------------------------------------------- INSERT OR REPLACE

  /** The rows whose primary key differs from k, in scan order. */
  function RemoveKey(s: TableSchema, t: Table, k: seq<Value>): (u: Table)
    ensures |u| <= |t|
    ensures forall x :: x in u <==> x in t && KeyOf(s, x) != k
  {
    if t == [] then []
    else
      assert t == t[..|t| - 1] + [t[|t| - 1]];
      RemoveKey(s, t[..|t| - 1], k) + (if KeyOf(s, t[|t| - 1]) == k then [] else [t[|t| - 1]])
  }

  /**
   * The effect of `INSERT OR REPLACE`: any row with the new row's primary key
   * is deleted and the new row is stored, so afterwards it is the only row
   * with that key and every row with another key is still there. An id-keyed
   * table keeps its rows in `id` order; any other table stores the row last.
   */
  function Upsert(s: TableSchema, t: Table, row: Row): (u: Table)
    ensures row in u && |u| == |RemoveKey(s, t, KeyOf(s, row))| + 1
    ensures forall x :: x in u <==> x == row || (x in t && KeyOf(s, x) != KeyOf(s, row))
    ensures !s.rowid ==> u[|u| - 1] == row && forall i :: 0 <= i < |u| - 1 ==> KeyOf(s, u[i]) != KeyOf(s, row)
  {
    var rest := RemoveKey(s, t, KeyOf(s, row));
    assert forall i :: 0 <= i < |rest| ==> rest[i] in rest;
    if s.rowid then
      var u := InsertSorted(rest, row, "id");
      assert forall x :: x in u <==> x in multiset(u);
      assert forall x :: x in rest <==> x in multiset(rest);
      u
    else rest + [row]
  }

  /** INSERT OR REPLACE keeps a table's primary keys unique. */
  lemma UpsertKeepsUnique(s: TableSchema, t: Table, row: Row)
    requires UniqueKeys(s, t)
    ensures UniqueKeys(s, Upsert(s, t, row))
  {
    var k := KeyOf(s, row);
    var rest := RemoveKey(s, t, k);
    RemoveKeyKeepsUnique(s, t, k);
    if s.rowid {
      InsertSortedKeepsUnique(s, rest, row, "id");
    } else {
      UniqueSnoc(s, rest, row);
    }
  }

  /** INSERT OR REPLACE keeps an id-keyed table in ascending `id` order. */
  lemma UpsertKeepsOrder(s: TableSchema, t: Table, row: Row)
    requires s.rowid && SortedBy(t, "id")
    ensures SortedBy(Upsert(s, t, row), "id")
  {
    var rest := RemoveKey(s, t, KeyOf(s, row));
    RemoveKeyKeepsSorted(s, t, KeyOf(s, row), "id");
    InsertSortedSorted(rest, row, "id");
  }

  lemma {:induction false} InsertSortedKeepsUnique(s: TableSchema, t: Table, r: Row, col: string)
    requires UniqueKeys(s, t) && forall x :: x in t ==> KeyOf(s, x) != KeyOf(s, r)
    ensures UniqueKeys(s, InsertSorted(t, r, col))
    decreases |t|
  {
    if t != [] {
      var last := t[|t| - 1];
      var init := t[..|t| - 1];
      assert t == init + [last];
      UniqueSnoc(s, init, last);
      if ValueLess(Get(r, col), Get(last, col)) {
        InsertSortedKeepsUnique(s, init, r, col);
        var v := InsertSorted(init, r, col);
        assert last in t;
        UniqueSnoc(s, v, last);
        assert InsertSorted(t, r, col) == v + [last];
      } else {
        UniqueSnoc(s, t, r);
      }
    }
  }

  /** A row that sorts no earlier than every row can be appended to a sorted table. */
  lemma SortedSnoc(t: Table, r: Row, col: string)
    requires SortedBy(t, col) && forall x :: x in t ==> !ValueLess(Get(r, col), Get(x, col))
    ensures SortedBy(t + [r], col)
  {
    var u := t + [r];
    forall i, j | 0 <= i < j < |u|
      ensures !ValueLess(Get(u[j], col), Get(u[i], col))
    {
      assert u[i] == t[i];
      if j < |t| {
        assert u[j] == t[j];
      } else {
        assert t[i] in t;
      }
    }
  }

  /** A row that sorts no later than every row can be put in front of a sorted table. */
  lemma SortedCons(r: Row, t: Table, col: string)
    requires SortedBy(t, col) && forall x :: x in t ==> !ValueLess(Get(x, col), Get(r, col))
    ensures SortedBy([r] + t, col)
  {
    var u := [r] + t;
    forall i, j | 0 <= i < j < |u|
      ensures !ValueLess(Get(u[j], col), Get(u[i], col))
    {
      assert u[j] == t[j - 1];
      if i > 0 {
        assert u[i] == t[i - 1];
      } else {
        assert t[j - 1] in t;
      }
    }
  }

  lemma {:induction false} RemoveKeyKeepsSorted(s: TableSchema, t: Table, k: seq<Value>, col: string)
    requires SortedBy(t, col)
    ensures SortedBy(RemoveKey(s, t, k), col)
    decreases |t|
  {
    if t != [] {
      var last := t[|t| - 1];
      var init := t[..|t| - 1];
      assert forall i, j :: 0 <= i < j < |init| ==> init[i] == t[i] && init[j] == t[j];
      RemoveKeyKeepsSorted(s, init, k, col);
      var v := RemoveKey(s, init, k);
      if KeyOf(s, last) != k {
        forall x | x in v
          ensures !ValueLess(Get(last, col), Get(x, col))
        {
          var m :| 0 <= m < |init| && init[m] == x;
          assert t[m] == x;
        }
        SortedSnoc(v, last, col);
      }
    }
  }

  lemma {:induction false} FilterKeepsSorted(t: Table, cond: Condition, keep: bool, col: string)
    requires SortedBy(t, col)
    ensures SortedBy(Filter(t, cond, keep), col)
    decreases |t|
  {
    if t != [] {
      var rest := t[1..];
      assert forall i, j :: 0 <= i < j < |rest| ==> rest[i] == t[i + 1] && rest[j] == t[j + 1];
      FilterKeepsSorted(rest, cond, keep, col);
      var v := Filter(rest, cond, keep);
      if Holds(cond, t[0]) == keep {
        forall x | x in v
          ensures !ValueLess(Get(x, col), Get(t[0], col))
        {
          var m :| 0 <= m < |rest| && rest[m] == x;
          assert t[m + 1] == x;
        }
        SortedCons(t[0], v, col);
        assert Filter(t, cond, keep) == [t[0]] + v;
      } else {
        assert Filter(t, cond, keep) == v;
      }
    }
  }

  /** The reason `INSERT OR REPLACE INTO table (data's columns)` fails, if it does. */
  function InsertError(db: Database, table: string, data: Row): (e: Option<SqlError>)
    ensures e.None? <==> data != map[] && table in db && Conforms(db[table].schema, data)
    ensures e == Some(SyntaxError) <==> data == map[]
    ensures e == Some(NoSuchTable(table)) <==> data != map[] && table !in db
    ensures e == Some(NoSuchColumn) <==>
      data != map[] && table in db && !(data.Keys <= db[table].schema.columns)
    ensures e == Some(DatatypeMismatch) <==>
      data != map[] && table in db && data.Keys <= db[table].schema.columns &&
      db[table].schema.rowid && Get(data, "id").Str?
    ensures e == Some(NotNullFailed) <==>
      data != map[] && table in db && data.Keys <= db[table].schema.columns &&
      !(db[table].schema.rowid && Get(data, "id").Str?) &&
      ((exists c :: c in db[table].schema.required && Get(data, c) == Null) ||
       (db[table].schema.rowid && Get(data, "id") == Null))
  {
    if data == map[] then Some(SyntaxError)
    else if table !in db then Some(NoSuchTable(table))
    else if !(data.Keys <= db[table].schema.columns) then Some(NoSuchColumn)
    // the rowid is made an integer before any NOT NULL constraint is checked
    else if db[table].schema.rowid && Get(data, "id").Str? then Some(DatatypeMismatch)
    // a NULL rowid is refused too, as fresh ids are not modelled
    else if (exists c :: c in db[table].schema.required && Get(data, c) == Null) ||
      (db[table].schema.rowid && Get(data, "id") == Null) then Some(NotNullFailed)
    else None
  }

  /** `INSERT OR REPLACE INTO table (cols) VALUES (...)` with data's columns and values. */
  function InsertOrReplace(db: Database, table: string, data: Row): (r: Result<Database, SqlError>)
    ensures r.Err? <==> InsertError(db, table, data).Some?
    ensures r.Err? ==> r.error == InsertError(db, table, data).value
    ensures r.Ok? ==> r.value.Keys == db.Keys && r.value[table].schema == db[table].schema
    ensures r.Ok? ==> forall t :: t in db && t != table ==> r.value[t] == db[t]
  {
    match InsertError(db, table, data)
    case Some(e) => Err(e)
    case None => Ok(db[table := db[table].(rows := Upsert(db[table].schema, db[table].rows, data))])
  }

  // ---------------------------------------------------------------- UPDATE / DELETE by id

  /** `id = v` in SQL: never true when v is NULL. */
  predicate HasId(r: Row, v: Value)
  {
    v != Null && Get(r, "id") == v
  }

  function UpdateWhereId(t: Table, v: Value, fields: Row): (u: Table)
    ensures |u| == |t|
  {
    seq(|t|, i requires 0 <= i < |t| => if HasId(t[i], v) then t[i] + fields else t[i])
  }

  /** Some row of t matches `WHERE id = v`. */
  predicate Matches(t: Table, v: Value)
  {
    exists i :: 0 <= i < |t| && HasId(t[i], v)
  }

  /** fields sets some NOT NULL column of s to NULL. */
  predicate NullsRequired(s: TableSchema, fields: Row)
  {
    exists c :: c in fields && c in s.required && fields[c] == Null
  }

  /**
   * The reason `UPDATE table SET <fields> WHERE id = v` fails, if it does: an
   * empty SET clause is a syntax error, an unknown table or column fails at
   * preparation, and NULL in a NOT NULL column fails only when a row matches.
   */
  function UpdateError(db: Database, table: string, fields: Row, v: Value): (e: Option<SqlError>)
    ensures e.None? <==>
      fields != map[] && table in db && "id" in db[table].schema.columns &&
      fields.Keys <= db[table].schema.columns &&
      !(Matches(db[table].rows, v) && NullsRequired(db[table].schema, fields))
    ensures e == Some(SyntaxError) <==> fields == map[]
    ensures e == Some(NoSuchTable(table)) <==> fields != map[] && table !in db
    ensures e == Some(NoSuchColumn) <==>
      fields != map[] && table in db &&
      ("id" !in db[table].schema.columns || !(fields.Keys <= db[table].schema.columns))
    ensures e == Some(NotNullFailed) <==>
      fields != map[] && table in db && "id" in db[table].schema.columns &&
      fields.Keys <= db[table].schema.columns &&
      Matches(db[table].rows, v) && NullsRequired(db[table].schema, fields)
  {
    if fields == map[] then Some(SyntaxError)
    else if table !in db then Some(NoSuchTable(table))
    else
      var rel := db[table];
      if "id" !in rel.schema.columns || !(fields.Keys <= rel.schema.columns) then Some(NoSuchColumn)
      else if Matches(rel.rows, v) && NullsRequired(rel.schema, fields) then Some(NotNullFailed)
      else None
  }

  /**
   * `UPDATE table SET k = ? ... WHERE id = ?` built from every field of data
   * except `id`, and data's `id` (NULL when absent) for the WHERE clause.
   */
  function UpdateById(db: Database, table: string, data: Row): (r: Result<Database, SqlError>)
    ensures r.Err? <==> UpdateError(db, table, data - {"id"}, Get(data, "id")).Some?
    ensures r.Ok? ==> r.value.Keys == db.Keys && r.value[table].schema == db[table].schema
    ensures r.Ok? ==> forall t :: t in db && t != table ==> r.value[t] == db[t]
    ensures r.Ok? ==> |r.value[table].rows| == |db[table].rows|
  {
    var fields := data - {"id"};
    var v := Get(data, "id");
    match UpdateError(db, table, fields, v)
    case Some(e) => Err(e)
    case None => Ok(db[table := db[table].(rows := UpdateWhereId(db[table].rows, v, fields))])
  }

  /** `DELETE FROM table WHERE id = v`. */
  function DeleteById(db: Database, table: string, v: Value): (r: Result<Database, SqlError>)
    ensures table !in db ==> r == Err(NoSuchTable(table))
    ensures table in db && "id" !in db[table].schema.columns ==> r == Err(NoSuchColumn)
    ensures table in db && "id" in db[table].schema.columns ==> r.Ok?
    ensures r.Ok? ==> r.value.Keys == db.Keys && r.value[table].schema == db[table].schema
    ensures r.Ok? ==> forall t :: t in db && t != table ==> r.value[t] == db[t]
    ensures r.Ok? ==> forall x :: x in r.value[table].rows <==> x in db[table].rows && !HasId(x, v)
  {
    if table !in db then Err(NoSuchTable(table))
    else if "id" !in db[table].schema.columns then Err(NoSuchColumn)
    else Ok(db[table := db[table].(rows := Filter(db[table].rows, ColumnEquals("id", v), false))])
  }

  // ---------------------------------------------------------------- invariants

  /** Keys stay unique when a row is put in front exactly when its key is not among the others. */
  lemma UniqueCons(s: TableSchema, r: Row, t: Table)
    ensures UniqueKeys(s, [r] + t) <==> UniqueKeys(s, t) && forall x :: x in t ==> KeyOf(s, x) != KeyOf(s, r)
  {
    if UniqueKeys(s, [r] + t) {
      UniqueConsSplits(s, r, t);
    }
    if UniqueKeys(s, t) && forall x :: x in t ==> KeyOf(s, x) != KeyOf(s, r) {
      forall k | 0 <= k < |t|
        ensures KeyOf(s, t[k]) != KeyOf(s, r)
      {
        assert t[k] in t;
      }
      UniqueConsJoins(s, r, t);
    }
  }

  lemma UniqueConsSplits(s: TableSchema, r: Row, t: Table)
    requires UniqueKeys(s, [r] + t)
    ensures UniqueKeys(s, t) && forall x :: x in t ==> KeyOf(s, x) != KeyOf(s, r)
  {
    var u := [r] + t;
    forall i, j | 0 <= i < j < |t|
      ensures KeyOf(s, t[i]) != KeyOf(s, t[j])
    {
      assert t[i] == u[i + 1] && t[j] == u[j + 1];
    }
    forall x | x in t
      ensures KeyOf(s, x) != KeyOf(s, r)
    {
      var m :| 0 <= m < |t| && t[m] == x;
      assert u[m + 1] == x && u[0] == r;
      assert KeyOf(s, u[0]) != KeyOf(s, u[m + 1]);
    }
  }

  lemma UniqueConsJoins(s: TableSchema, r: Row, t: Table)
    requires UniqueKeys(s, t) && forall k :: 0 <= k < |t| ==> KeyOf(s, t[k]) != KeyOf(s, r)
    ensures UniqueKeys(s, [r] + t)
  {
    var u := [r] + t;
    forall i, j | 0 <= i < j < |u|
      ensures KeyOf(s, u[i]) != KeyOf(s, u[j])
    {
      assert u[j] == t[j - 1];
      if i > 0 {
        assert u[i] == t[i - 1];
      }
    }
  }

  /** Keys stay unique when a row is put at the end exactly when its key is not among the others. */
  lemma UniqueSnoc(s: TableSchema, t: Table, r: Row)
    ensures UniqueKeys(s, t + [r]) <==> UniqueKeys(s, t) && forall x :: x in t ==> KeyOf(s, x) != KeyOf(s, r)
  {
    var u := t + [r];
    if UniqueKeys(s, u) {
      forall i, j | 0 <= i < j < |t|
        ensures KeyOf(s, t[i]) != KeyOf(s, t[j])
      {
        assert t[i] == u[i] && t[j] == u[j];
      }
      forall x | x in t
        ensures KeyOf(s, x) != KeyOf(s, r)
      {
        var m :| 0 <= m < |t| && t[m] == x;
        assert u[m] == x && u[|t|] == r;
        assert KeyOf(s, u[m]) != KeyOf(s, u[|t|]);
      }
    }
    if UniqueKeys(s, t) && forall x :: x in t ==> KeyOf(s, x) != KeyOf(s, r) {
      forall i, j | 0 <= i < j < |u|
        ensures KeyOf(s, u[i]) != KeyOf(s, u[j])
      {
        assert u[i] == t[i];
        if j < |t| {
          assert u[j] == t[j];
        } else {
          assert u[i] in t;
        }
      }
    }
  }

  lemma {:induction false} RemoveKeyKeepsUnique(s: TableSchema, t: Table, k: seq<Value>)
    requires UniqueKeys(s, t)
    ensures UniqueKeys(s, RemoveKey(s, t, k))
    decreases |t|
  {
    if t != [] {
      var init := t[..|t| - 1];
      var last := t[|t| - 1];
      assert t == init + [last];
      UniqueSnoc(s, init, last);
      RemoveKeyKeepsUnique(s, init, k);
      var rest := RemoveKey(s, init, k);
      if KeyOf(s, last) != k {
        UniqueSnoc(s, rest, last);
        assert RemoveKey(s, t, k) == rest + [last];
      } else {
        assert RemoveKey(s, t, k) == rest;
      }
    }
  }

  lemma {:induction false} FilterKeepsUnique(s: TableSchema, t: Table, cond: Condition, keep: bool)
    requires UniqueKeys(s, t)
    ensures UniqueKeys(s, Filter(t, cond, keep))
    decreases |t|
  {
    if t != [] {
      assert t == [t[0]] + t[1..];
      UniqueCons(s, t[0], t[1..]);
      FilterKeepsUnique(s, t[1..], cond, keep);
      var rest := Filter(t[1..], cond, keep);
      if Holds(cond, t[0]) == keep {
        UniqueCons(s, t[0], rest);
        assert Filter(t, cond, keep) == [t[0]] + rest;
      } else {
        assert Filter(t, cond, keep) == rest;
      }
    }
  }

  /** A successful INSERT OR REPLACE keeps every table well formed, its keys unique and its rows in order. */
  lemma InsertOrReplaceKeepsValid(db: Database, table: string, data: Row)
    requires ValidDatabase(db)
    requires InsertOrReplace(db, table, data).Ok?
    ensures ValidDatabase(InsertOrReplace(db, table, data).value)
  {
    var rel := db[table];
    var u := Upsert(rel.schema, rel.rows, data);
    assert Conforms(rel.schema, data);
    forall i | 0 <= i < |u|
      ensures Conforms(rel.schema, u[i])
    {
      assert u[i] in u;
    }
    UpsertKeepsUnique(rel.schema, rel.rows, data);
    if rel.schema.rowid {
      UpsertKeepsOrder(rel.schema, rel.rows, data);
    }
    assert ValidRelation(Relation(rel.schema, u));
  }

  lemma UpdatedKeyUnchanged(s: TableSchema, r: Row, fields: Row)
    requires s.WellFormed() && "id" in s.columns && "id" !in fields
    ensures KeyOf(s, r + fields) == KeyOf(s, r)
  {
  }

  /** A successful UPDATE by id keeps every table well formed, its keys unique and its rows in order. */
  lemma UpdateByIdKeepsValid(db: Database, table: string, data: Row)
    requires ValidDatabase(db)
    requires UpdateById(db, table, data).Ok?
    ensures ValidDatabase(UpdateById(db, table, data).value)
  {
    var rel := db[table];
    var fields := data - {"id"};
    var v := Get(data, "id");
    var u := UpdateWhereId(rel.rows, v, fields);
    forall i | 0 <= i < |u|
      ensures Conforms(rel.schema, u[i]) && KeyOf(rel.schema, u[i]) == KeyOf(rel.schema, rel.rows[i])
      ensures Get(u[i], "id") == Get(rel.rows[i], "id")
    {
      if HasId(rel.rows[i], v) {
        UpdatedKeyUnchanged(rel.schema, rel.rows[i], fields);
      }
    }
    assert SortedBy(rel.rows, "id") ==> SortedBy(u, "id");
    assert ValidRelation(Relation(rel.schema, u));
  }

  /** A successful DELETE by id keeps every table well formed, its keys unique and its rows in order. */
  lemma DeleteByIdKeepsValid(db: Database, table: string, v: Value)
    requires ValidDatabase(db)
    requires DeleteById(db, table, v).Ok?
    ensures ValidDatabase(DeleteById(db, table, v).value)
  {
    var rel := db[table];
    var u := Filter(rel.rows, ColumnEquals("id", v), false);
    FilterKeepsUnique(rel.schema, rel.rows, ColumnEquals("id", v), false);
    if rel.schema.rowid {
      FilterKeepsSorted(rel.rows, ColumnEquals("id", v), false, "id");
    }
    forall i | 0 <= i < |u|
      ensures Conforms(rel.schema, u[i])
    {
      assert u[i] in u;
    }
    assert ValidRelation(Relation(rel.schema, u));
  }

  // ---------------------------------------------------------------- replay

  lemma {:induction false} RemoveKeyAbsent(s: TableSchema, t: Table, k: seq<Value>)
    requires forall i :: 0 <= i < |t| ==> KeyOf(s, t[i]) != k
    ensures RemoveKey(s, t, k) == t
    decreases |t|
  {
    if t != [] {
      RemoveKeyAbsent(s, t[..|t| - 1], k);
      assert t == t[..|t| - 1] + [t[|t| - 1]];
    }
  }

  lemma RemoveKeySnoc(s: TableSchema, t: Table, x: Row, k: seq<Value>)
    ensures RemoveKey(s, t + [x], k) == RemoveKey(s, t, k) + (if KeyOf(s, x) == k then [] else [x])
  {
    assert (t + [x])[..|t|] == t;
  }

  /** Removing a key from a table where it has no row changes nothing, wherever a row is placed. */
  lemma {:induction false} RemoveKeyInsertSorted(s: TableSchema, t: Table, r: Row, col: string)
    requires forall i :: 0 <= i < |t| ==> KeyOf(s, t[i]) != KeyOf(s, r)
    ensures RemoveKey(s, InsertSorted(t, r, col), KeyOf(s, r)) == t
    decreases |t|
  {
    var k := KeyOf(s, r);
    if t == [] {
      RemoveKeySnoc(s, [], r, k);
    } else {
      var init := t[..|t| - 1];
      var last := t[|t| - 1];
      assert t == init + [last];
      if ValueLess(Get(r, col), Get(last, col)) {
        RemoveKeyInsertSorted(s, init, r, col);
        RemoveKeySnoc(s, InsertSorted(init, r, col), last, k);
      } else {
        RemoveKeySnoc(s, t, r, k);
        RemoveKeyAbsent(s, t, k);
      }
    }
  }

  /** Replaying an INSERT OR REPLACE leaves the table as the first application left it. */
  lemma UpsertIdempotent(s: TableSchema, t: Table, row: Row)
    ensures Upsert(s, Upsert(s, t, row), row) == Upsert(s, t, row)
  {
    var k := KeyOf(s, row);
    var u := Upsert(s, t, row);
    var rest := RemoveKey(s, t, k);
    forall i | 0 <= i < |rest|
      ensures KeyOf(s, rest[i]) != k
    {
      assert rest[i] in rest;
    }
    if s.rowid {
      RemoveKeyInsertSorted(s, rest, row, "id");
    } else {
      assert u[..|u| - 1] == rest;
      RemoveKeyAbsent(s, rest, k);
    }
    assert RemoveKey(s, u, k) == rest;
  }

  lemma InsertOrReplaceIdempotent(db: Database, table: string, data: Row)
    requires InsertOrReplace(db, table, data).Ok?
    ensures var once := InsertOrReplace(db, table, data).value;
      InsertOrReplace(once, table, data) == Ok(once)
  {
    var rel := db[table];
    var u := Upsert(rel.schema, rel.rows, data);
    var once := db[table := Relation(rel.schema, u)];
    InsertOrReplaceUnfold(db, table, data);
    InsertErrorBySchema(db, once, table, data);
    InsertOrReplaceUnfold(once, table, data);
    UpsertIdempotent(rel.schema, rel.rows, data);
    assert once[table := Relation(rel.schema, Upsert(rel.schema, u, data))] == once;
  }

  lemma InsertOrReplaceUnfold(db: Database, table: string, data: Row)
    requires InsertError(db, table, data).None?
    ensures InsertOrReplace(db, table, data) ==
      Ok(db[table := Relation(db[table].schema, Upsert(db[table].schema, db[table].rows, data))])
  {
  }

  /** Whether an INSERT fails depends only on the table's declaration. */
  lemma InsertErrorBySchema(db: Database, db2: Database, table: string, data: Row)
    requires table in db && table in db2 && db[table].schema == db2[table].schema
    ensures InsertError(db, table, data) == InsertError(db2, table, data)
  {
  }

  /** Replaying an UPDATE by id (or one that failed the first time) changes nothing more. */
  lemma UpdateByIdIdempotent(db: Database, table: string, data: Row)
    requires ValidDatabase(db)
    requires UpdateById(db, table, data).Ok?
    ensures var once := UpdateById(db, table, data).value;
      UpdateById(once, table, data) == Ok(once)
  {
    var rel := db[table];
    var fields := data - {"id"};
    var v := Get(data, "id");
    var once := UpdateById(db, table, data).value;
    var u := once[table].rows;
    assert u == UpdateWhereId(rel.rows, v, fields);
    forall i | 0 <= i < |u|
      ensures HasId(u[i], v) <==> HasId(rel.rows[i], v)
    {
    }
    var twice := UpdateWhereId(u, v, fields);
    forall i | 0 <= i < |u|
      ensures twice[i] == u[i]
    {
      if HasId(rel.rows[i], v) {
        assert u[i] + fields == u[i];
      }
    }
    assert twice == u;
    assert once[table := once[table].(rows := twice)] == once;
  }

  lemma DeleteByIdIdempotent(db: Database, table: string, v: Value)
    requires DeleteById(db, table, v).Ok?
    ensures var once := DeleteById(db, table, v).value;
      DeleteById(once, table, v) == Ok(once)
  {
    var t := db[table].rows;
    FilterIdempotent(t, ColumnEquals("id", v), false);
    var once := DeleteById(db, table, v).value;
    assert once[table].rows == Filter(t, ColumnEquals("id", v), false);
    assert once[table := once[table].(rows := Filter(once[table].rows, ColumnEquals("id", v), false))] == once;
  }

  /** Filtering twice by the same condition filters once. */
  lemma {:induction false} FilterIdempotent(t: Table, cond: Condition, keep: bool)
    ensures Filter(Filter(t, cond, keep), cond, keep) == Filter(t, cond, keep)
    decreases |t|
  {
    if t != [] {
      FilterIdempotent(t[1..], cond, keep);
      var once := Filter(t, cond, keep);
      if Holds(cond, t[0]) == keep {
        assert once == [t[0]] + Filter(t[1..], cond, keep);
        assert once[0] == t[0] && once[1..] == Filter(t[1..], cond, keep);
      } else {
        assert once == Filter(t[1..], cond, keep);
      }
    }
  }
}
