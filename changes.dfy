/**
 * Change records and what applying them does: the per-change statement of
 * `import_sync_package` and the best-effort loop that applies a package's
 * changes in order, counting successes and collecting conflicts.
 */
module Changes {
  import opened Wrappers
  import opened Store
  import Schema

  /** One entry of a package's `changes` list. */
  datatype ChangeRecord = ChangeRecord(table: string, operation: string, data: Row, timestamp: Value)

  /** A change that raised: its table, operation and data, and the error it raised. */
  datatype Conflict = Conflict(table: string, operation: string, error: SqlError, data: Row)

  /** What one change does: it changes the database, raises, or is not a known operation. */
  datatype Outcome = Done(db: Database) | Raised(error: SqlError) | Skipped

  predicate IsOperation(op: string)
  {
    op == "INSERT" || op == "UPDATE" || op == "DELETE"
  }

  function Lift(r: Result<Database, SqlError>): Outcome
  {
    match r
    case Ok(d) => Done(d)
    case Err(e) => Raised(e)
  }

  /**
   * The statement a change runs: INSERT OR REPLACE of its data, UPDATE of its
   * non-id fields where `id` matches, or DELETE where `id` matches.
   */
  function ApplyChange(db: Database, c: ChangeRecord): (o: Outcome)
    ensures o.Skipped? <==> !IsOperation(c.operation)
    ensures o.Done? ==> c.table in db && o.db.Keys == db.Keys && o.db[c.table].schema == db[c.table].schema
    ensures o.Done? ==> forall t :: t in db && t != c.table ==> o.db[t] == db[t]
  {
    if c.operation == "INSERT" then Lift(InsertOrReplace(db, c.table, c.data))
    else if c.operation == "UPDATE" then Lift(UpdateById(db, c.table, c.data))
    else if c.operation == "DELETE" then Lift(DeleteById(db, c.table, Get(c.data, "id")))
    else Skipped
  }

  /** The loop's variables: the database, `changes_applied` and `conflicts`. */
  datatype ApplyState = ApplyState(db: Database, applied: nat, conflicts: seq<Conflict>)

  function Step(s: ApplyState, c: ChangeRecord): ApplyState
  {
    match ApplyChange(s.db, c)
    case Done(d) => ApplyState(d, s.applied + 1, s.conflicts)
    case Raised(e) => ApplyState(s.db, s.applied, s.conflicts + [Conflict(c.table, c.operation, e, c.data)])
    case Skipped => s
  }

  /** The state after applying `changes` in order to `db`. */
  function ApplyAll(db: Database, changes: seq<ChangeRecord>): ApplyState
    decreases |changes|
  {
    if changes == [] then ApplyState(db, 0, [])
    else Step(ApplyAll(db, changes[..|changes| - 1]), changes[|changes| - 1])
  }

  // ---------------------------------------------------------------- the loop

  /**
   * Every change is counted at most once, as applied or as a conflict; when
   * every operation is INSERT, UPDATE or DELETE each is counted exactly once.
   */
  lemma {:induction false} ApplyAllAccounting(db: Database, changes: seq<ChangeRecord>)
    ensures var s := ApplyAll(db, changes); s.applied + |s.conflicts| <= |changes|
    ensures (forall i :: 0 <= i < |changes| ==> IsOperation(changes[i].operation)) ==>
      var s := ApplyAll(db, changes); s.applied + |s.conflicts| == |changes|
    decreases |changes|
  {
    if changes != [] {
      ApplyAllAccounting(db, changes[..|changes| - 1]);
    }
  }

  /** A package of unknown operations changes nothing and reports nothing. */
  lemma {:induction false} ApplyAllUnknownOperations(db: Database, changes: seq<ChangeRecord>)
    requires forall i :: 0 <= i < |changes| ==> !IsOperation(changes[i].operation)
    ensures ApplyAll(db, changes) == ApplyState(db, 0, [])
    decreases |changes|
  {
    if changes != [] {
      ApplyAllUnknownOperations(db, changes[..|changes| - 1]);
    }
  }

  /** A conflict names the table, operation and data of the change that raised it. */
  predicate Reports(cf: Conflict, c: ChangeRecord)
  {
    cf.table == c.table && cf.operation == c.operation && cf.data == c.data
  }

  /** Every conflict reports a change of the package. */
  lemma {:induction false} ConflictsComeFromChanges(db: Database, changes: seq<ChangeRecord>)
    ensures forall k :: 0 <= k < |ApplyAll(db, changes).conflicts| ==>
      exists i :: 0 <= i < |changes| && Reports(ApplyAll(db, changes).conflicts[k], changes[i])
    decreases |changes|
  {
    if changes != [] {
      var init := changes[..|changes| - 1];
      ConflictsComeFromChanges(db, init);
      var prev := ApplyAll(db, init);
      var s := ApplyAll(db, changes);
      forall k | 0 <= k < |ApplyAll(db, changes).conflicts|
        ensures exists i :: 0 <= i < |changes| && Reports(ApplyAll(db, changes).conflicts[k], changes[i])
      {
        if k < |prev.conflicts| {
          assert s.conflicts[k] == prev.conflicts[k];
          var i :| 0 <= i < |init| && Reports(prev.conflicts[k], init[i]);
          assert init[i] == changes[i];
        } else {
          assert Reports(s.conflicts[k], changes[|changes| - 1]);
        }
      }
    } else {
      assert ApplyAll(db, changes).conflicts == [];
    }
  }

  /** Applying a package keeps every table declared as before and every table's keys unique. */
  lemma {:induction false} ApplyAllKeepsValid(db: Database, changes: seq<ChangeRecord>)
    requires ValidDatabase(db)
    ensures ValidDatabase(ApplyAll(db, changes).db)
    ensures ApplyAll(db, changes).db.Keys == db.Keys
    ensures forall t :: t in db ==> ApplyAll(db, changes).db[t].schema == db[t].schema
    decreases |changes|
  {
    if changes != [] {
      var init := changes[..|changes| - 1];
      var c := changes[|changes| - 1];
      ApplyAllKeepsValid(db, init);
      ApplyChangeKeepsValid(ApplyAll(db, init).db, c);
    }
  }

  lemma ApplyChangeKeepsValid(db: Database, c: ChangeRecord)
    requires ValidDatabase(db)
    ensures ApplyChange(db, c).Done? ==> ValidDatabase(ApplyChange(db, c).db)
  {
    if ApplyChange(db, c).Done? {
      if c.operation == "INSERT" {
        InsertOrReplaceKeepsValid(db, c.table, c.data);
      } else if c.operation == "UPDATE" {
        UpdateByIdKeepsValid(db, c.table, c.data);
      } else {
        DeleteByIdKeepsValid(db, c.table, Get(c.data, "id"));
      }
    }
  }

  /** A table that no change of the package names is left exactly as it was. */
  lemma {:induction false} ApplyAllUntouchedTables(db: Database, changes: seq<ChangeRecord>, t: string)
    requires t in db
    requires forall i :: 0 <= i < |changes| ==> changes[i].table != t
    ensures t in ApplyAll(db, changes).db && ApplyAll(db, changes).db[t] == db[t]
    decreases |changes|
  {
    if changes != [] {
      ApplyAllUntouchedTables(db, changes[..|changes| - 1], t);
    }
  }

  // ---------------------------------------------------------------- single changes

  /** An UPDATE whose data holds nothing but `id` has an empty SET clause: a conflict. */
  lemma UpdateOfOnlyIdConflicts(db: Database, c: ChangeRecord)
    requires c.operation == "UPDATE" && c.data.Keys <= {"id"}
    ensures ApplyChange(db, c) == Raised(SyntaxError)
  {
    assert c.data - {"id"} == map[];
  }

  /** `items` is keyed by `item_code` and has no `id`: UPDATE and DELETE against it are conflicts. */
  lemma ItemsRejectIdStatements(db: Database, c: ChangeRecord)
    requires Schema.IsMirs(db) && c.table == "items"
    requires c.operation == "DELETE" || (c.operation == "UPDATE" && !(c.data.Keys <= {"id"}))
    ensures ApplyChange(db, c) == Raised(NoSuchColumn)
  {
    assert db["items"].schema == Schema.Items;
    if c.operation == "UPDATE" {
      var k :| k in c.data && k != "id";
      assert k in c.data - {"id"};
    }
  }

  /**
   * An applied INSERT leaves its data as the only row with that primary key
   * and keeps every row with another key.
   */
  lemma InsertChangeEffect(db: Database, c: ChangeRecord)
    requires c.operation == "INSERT" && ApplyChange(db, c).Done?
    ensures var rel := db[c.table]; var after := ApplyChange(db, c).db[c.table].rows;
      c.data in after &&
      (forall x :: x in after && KeyOf(rel.schema, x) == KeyOf(rel.schema, c.data) ==> x == c.data) &&
      (forall x :: x in rel.rows && KeyOf(rel.schema, x) != KeyOf(rel.schema, c.data) ==> x in after) &&
      (forall x :: x in after ==> x == c.data || x in rel.rows)
  {
  }

  /**
   * An applied UPDATE changes only the rows whose `id` equals the data's `id`:
   * in those, every non-id field of the data is set and every other column,
   * `id` included, keeps its value.
   */
  lemma UpdateChangeEffect(db: Database, c: ChangeRecord, i: int, col: string)
    requires c.operation == "UPDATE" && ApplyChange(db, c).Done?
    requires 0 <= i < |db[c.table].rows|
    ensures var before := db[c.table].rows; var after := ApplyChange(db, c).db[c.table].rows;
      |after| == |before| &&
      (!HasId(before[i], Get(c.data, "id")) ==> after[i] == before[i]) &&
      (HasId(before[i], Get(c.data, "id")) ==>
        Get(after[i], col) == if col in c.data && col != "id" then c.data[col] else Get(before[i], col))
  {
  }

  /** An applied DELETE removes exactly the rows whose `id` equals the data's `id`. */
  lemma DeleteChangeEffect(db: Database, c: ChangeRecord)
    requires c.operation == "DELETE" && ApplyChange(db, c).Done?
    ensures var after := ApplyChange(db, c).db[c.table].rows;
      forall x :: x in after <==> x in db[c.table].rows && !HasId(x, Get(c.data, "id"))
  {
  }

  /** Applying an applied change a second time leaves the database as the first time left it. */
  lemma ReplayChange(db: Database, c: ChangeRecord)
    requires ValidDatabase(db)
    requires ApplyChange(db, c).Done?
    ensures var once := ApplyChange(db, c).db; ApplyChange(once, c) == Done(once)
  {
    if c.operation == "INSERT" {
      InsertOrReplaceIdempotent(db, c.table, c.data);
    } else if c.operation == "UPDATE" {
      UpdateByIdIdempotent(db, c.table, c.data);
    } else {
      DeleteByIdIdempotent(db, c.table, Get(c.data, "id"));
    }
  }
}
