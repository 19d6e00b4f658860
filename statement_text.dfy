/**
 * The SQL text `import_sync_package` builds for a DELETE change, and what
 * SQLite makes of it. The code pastes the change's `table` into the
 * statement text unchecked, so a table name carrying SQL of its own changes
 * the statement. `Changes.ApplyChange` is the intended behaviour: a name
 * that is not a declared table is a conflict and touches nothing.
 */
module StatementText {
  import opened Wrappers
  import opened Store
  import opened Changes

  /** `f"DELETE FROM {table} WHERE id = ?"`. */
  function DeleteText(table: string): (text: string)
    ensures |text| == |table| + 25
    ensures text[..12] == "DELETE FROM " && text[12..12 + |table|] == table
    ensures text[12 + |table|..] == " WHERE id = ?"
  {
    "DELETE FROM " + table + " WHERE id = ?"
  }

  /** The two WHERE conditions the statements below use. */
  datatype Cond = IdIs | ParamIsNull

  function CondText(c: Cond): string
  {
    match c
    case IdIs => "id = ?"
    case ParamIsNull => "? IS NULL"
  }

  /** A DELETE statement as SQLite reads it: a table name and a condition on the one parameter. */
  datatype Delete = Delete(table: string, cond: Cond)

  predicate IdentChar(ch: char)
  {
    ('a' <= ch <= 'z') || ('A' <= ch <= 'Z') || ('0' <= ch <= '9') || ch == '_'
  }

  predicate Ident(name: string)
  {
    name != [] && forall i :: 0 <= i < |name| ==> IdentChar(name[i])
  }

  /**
   * SQLite reads `text` as the statement `st`: the text is
   * `DELETE FROM <name> WHERE <condition>`, for a plain identifier, and
   * anything after it is a `--` comment, which runs to the end of the line.
   */
  predicate ReadsAs(text: string, st: Delete)
  {
    var head := "DELETE FROM " + st.table + " WHERE " + CondText(st.cond);
    Ident(st.table) && |head| <= |text| && text[..|head|] == head &&
    (|text| == |head| || " --" <= text[|head|..])
  }

  /** Running `st` with its parameter bound to `v`. */
  function Run(db: Database, st: Delete, v: Value): (r: Result<Database, SqlError>)
    ensures st.cond == IdIs ==> r == DeleteById(db, st.table, v)
    ensures st.cond == ParamIsNull && st.table !in db ==> r == Err(NoSuchTable(st.table))
    ensures st.cond == ParamIsNull && st.table in db ==>
      r.Ok? && r.value.Keys == db.Keys && (forall t :: t in db && t != st.table ==> r.value[t] == db[t]) &&
      r.value[st.table].schema == db[st.table].schema &&
      (v == Null ==> r.value[st.table].rows == []) &&
      (v != Null ==> r.value[st.table] == db[st.table])
  {
    match st.cond
    case IdIs => DeleteById(db, st.table, v)
    case ParamIsNull =>
      if st.table !in db then Err(NoSuchTable(st.table))
      // `? IS NULL` holds of every row exactly when the parameter is NULL
      else if v == Null then Ok(db[st.table := db[st.table].(rows := [])])
      else Ok(db)
  }

  /** For a declared table with a plain name the text is the intended `DELETE ... WHERE id = ?`. */
  lemma PlainNameReadsAsDeleteById(table: string)
    requires Ident(table)
    ensures ReadsAs(DeleteText(table), Delete(table, IdIs))
  {
    assert DeleteText(table) == "DELETE FROM " + table + " WHERE " + CondText(IdIs);
  }

  /** The table name of the injecting change below. */
  const InjectedName := "inventory_events WHERE ? IS NULL --"

  /**
   * As written: a DELETE change naming `inventory_events WHERE ? IS NULL --`,
   * with no `id` in its data, runs `DELETE FROM inventory_events WHERE ? IS NULL`
   * with a NULL parameter and so empties `inventory_events`, and is counted as
   * applied; the model's `ApplyChange` reports it as a conflict and changes nothing.
   */
  lemma InjectedDeleteEmptiesTable(db: Database)
    requires "inventory_events" in db && InjectedName !in db
    ensures var c := ChangeRecord(InjectedName, "DELETE", map[], Null);
      var st := Delete("inventory_events", ParamIsNull);
      ReadsAs(DeleteText(c.table), st) &&
      Run(db, st, Get(c.data, "id")) == Ok(db["inventory_events" := db["inventory_events"].(rows := [])]) &&
      ApplyChange(db, c) == Raised(NoSuchTable(InjectedName))
  {
    InjectedText();
  }

  /** The injected name turns the DELETE text into another table's `WHERE ? IS NULL` and a comment. */
  lemma InjectedText()
    ensures ReadsAs(DeleteText(InjectedName), Delete("inventory_events", ParamIsNull))
  {
    var name := "inventory_events";
    var head := "DELETE FROM " + name + " WHERE " + CondText(ParamIsNull);
    var tail := " -- WHERE id = ?";
    assert InjectedName == name + (" WHERE " + "? IS NULL" + " --");
    assert DeleteText(InjectedName) == head + tail by {
      Assoc5("DELETE FROM ", name, " WHERE " + "? IS NULL", " --", " WHERE id = ?");
    }
    assert (head + tail)[..|head|] == head;
    assert (head + tail)[|head|..] == tail;
    assert " --" <= tail;
    assert Ident(name) by {
      forall i | 0 <= i < |name| ensures IdentChar(name[i]) { }
    }
  }

  lemma Assoc5(a: string, b: string, c: string, d: string, e: string)
    ensures a + (b + (c + d)) + e == (a + b + c) + (d + e)
  {
  }

  /**
   * Intended: a change whose table is not declared is a conflict that leaves
   * every table as it was, whatever SQL its name holds.
   */
  lemma UndeclaredTableConflicts(db: Database, c: ChangeRecord)
    requires IsOperation(c.operation) && c.table !in db
    ensures ApplyChange(db, c).Raised?
    ensures c.operation == "DELETE" ==> ApplyChange(db, c).error == NoSuchTable(c.table)
    ensures forall s: ApplyState :: s.db == db ==>
      Step(s, c).db == db && Step(s, c).applied == s.applied && |Step(s, c).conflicts| == |s.conflicts| + 1
  {
  }
}
