/**
 * Importing a package twice. Every change a station generates is an INSERT,
 * run as INSERT OR REPLACE, so a package of such changes applied a second
 * time leaves every table as the first import left it and reports the same
 * count and the same conflicts.
 */
module Replay {
  import opened Wrappers
  import opened Store
  import opened Changes
  import Clock
  import Extraction

  // ---------------------------------------------------------------- a run of INSERT OR REPLACE

  /** INSERT OR REPLACE of each row in turn. */
  function UpsertAll(s: TableSchema, t: Table, rows: seq<Row>): Table
    decreases |rows|
  {
    if rows == [] then t
    else Upsert(s, UpsertAll(s, t, rows[..|rows| - 1]), rows[|rows| - 1])
  }

  /** The primary keys of rows. */
  function KeySet(s: TableSchema, rows: seq<Row>): set<seq<Value>>
  {
    set r | r in rows :: KeyOf(s, r)
  }

  /** The rows of t whose key is not in ks, in their order. */
  function Untouched(s: TableSchema, t: Table, ks: set<seq<Value>>): Table
    decreases |t|
  {
    if t == [] then []
    else Untouched(s, t[..|t| - 1], ks) + (if KeyOf(s, t[|t| - 1]) in ks then [] else [t[|t| - 1]])
  }

  lemma {:induction false} UntouchedElements(s: TableSchema, t: Table, ks: set<seq<Value>>)
    ensures forall x :: x in Untouched(s, t, ks) <==> x in t && KeyOf(s, x) !in ks
    decreases |t|
  {
    if t != [] {
      UntouchedElements(s, t[..|t| - 1], ks);
      assert t == t[..|t| - 1] + [t[|t| - 1]];
    }
  }

  lemma KeySetSnoc(s: TableSchema, rows: seq<Row>, r: Row)
    ensures KeySet(s, rows + [r]) == KeySet(s, rows) + {KeyOf(s, r)}
  {
    assert forall x :: x in rows + [r] <==> x in rows || x == r;
  }

  /** Every row a run stores into an empty table is one of the run's rows. */
  lemma {:induction false} UpsertAllFromRows(s: TableSchema, rows: seq<Row>)
    ensures forall x :: x in UpsertAll(s, [], rows) ==> x in rows
    decreases |rows|
  {
    if rows != [] {
      var init := rows[..|rows| - 1];
      UpsertAllFromRows(s, init);
      assert rows == init + [rows[|rows| - 1]];
    }
  }

  /**
   * After a run, a table holds its old rows whose key the run did not write
   * and the rows the run would leave in an empty table.
   */
  lemma {:induction false} UpsertAllElements(s: TableSchema, t: Table, rows: seq<Row>)
    ensures forall x :: x in UpsertAll(s, t, rows) <==>
      (x in t && KeyOf(s, x) !in KeySet(s, rows)) || x in UpsertAll(s, [], rows)
    decreases |rows|
  {
    if rows != [] {
      var init := rows[..|rows| - 1];
      var r := rows[|rows| - 1];
      UpsertAllElements(s, t, init);
      assert rows == init + [r];
      KeySetSnoc(s, init, r);
    }
  }

  lemma {:induction false} RemoveKeyAppend(s: TableSchema, a: Table, b: Table, k: seq<Value>)
    ensures RemoveKey(s, a + b, k) == RemoveKey(s, a, k) + RemoveKey(s, b, k)
    decreases |b|
  {
    if b == [] {
      assert a + b == a;
    } else {
      var init := b[..|b| - 1];
      var x := b[|b| - 1];
      var tail := if KeyOf(s, x) == k then [] else [x];
      assert b == init + [x];
      calc {
        RemoveKey(s, a + b, k);
        { assert a + b == (a + init) + [x]; }
        RemoveKey(s, (a + init) + [x], k);
        { RemoveKeySnoc(s, a + init, x, k); }
        RemoveKey(s, a + init, k) + tail;
        { RemoveKeyAppend(s, a, init, k); }
        RemoveKey(s, a, k) + RemoveKey(s, init, k) + tail;
        { RemoveKeySnoc(s, init, x, k); }
        RemoveKey(s, a, k) + RemoveKey(s, b, k);
      }
    }
  }

  lemma {:induction false} RemoveKeyUntouched(s: TableSchema, t: Table, ks: set<seq<Value>>, k: seq<Value>)
    ensures RemoveKey(s, Untouched(s, t, ks), k) == Untouched(s, t, ks + {k})
    decreases |t|
  {
    if t != [] {
      var init := t[..|t| - 1];
      var x := t[|t| - 1];
      var kx := KeyOf(s, x);
      assert t == init + [x];
      UntouchedSnoc(s, init, x, ks);
      UntouchedSnoc(s, init, x, ks + {k});
      if kx in ks {
        assert Untouched(s, init, ks) + [] == Untouched(s, init, ks);
        assert Untouched(s, init, ks + {k}) + [] == Untouched(s, init, ks + {k});
        RemoveKeyUntouched(s, init, ks, k);
      } else {
        var tail := if kx == k then [] else [x];
        calc {
          RemoveKey(s, Untouched(s, t, ks), k);
          RemoveKey(s, Untouched(s, init, ks) + [x], k);
          { RemoveKeySnoc(s, Untouched(s, init, ks), x, k); }
          RemoveKey(s, Untouched(s, init, ks), k) + tail;
          { RemoveKeyUntouched(s, init, ks, k); }
          Untouched(s, init, ks + {k}) + tail;
          Untouched(s, t, ks + {k});
        }
      }
    }
  }

  lemma UntouchedSnoc(s: TableSchema, t: Table, x: Row, ks: set<seq<Value>>)
    ensures Untouched(s, t + [x], ks) == Untouched(s, t, ks) + (if KeyOf(s, x) in ks then [] else [x])
  {
    assert (t + [x])[..|t|] == t;
  }

  lemma {:induction false} UntouchedAppend(s: TableSchema, a: Table, b: Table, ks: set<seq<Value>>)
    ensures Untouched(s, a + b, ks) == Untouched(s, a, ks) + Untouched(s, b, ks)
    decreases |b|
  {
    if b == [] {
      assert a + b == a;
    } else {
      var init := b[..|b| - 1];
      var x := b[|b| - 1];
      var tail := if KeyOf(s, x) in ks then [] else [x];
      assert b == init + [x];
      calc {
        Untouched(s, a + b, ks);
        { assert a + b == (a + init) + [x]; }
        Untouched(s, (a + init) + [x], ks);
        { UntouchedSnoc(s, a + init, x, ks); }
        Untouched(s, a + init, ks) + tail;
        { UntouchedAppend(s, a, init, ks); }
        Untouched(s, a, ks) + Untouched(s, init, ks) + tail;
        { UntouchedSnoc(s, init, x, ks); }
        Untouched(s, a, ks) + Untouched(s, b, ks);
      }
    }
  }

  lemma {:induction false} UntouchedNone(s: TableSchema, t: Table, ks: set<seq<Value>>)
    requires forall x :: x in t ==> KeyOf(s, x) !in ks
    ensures Untouched(s, t, ks) == t
    decreases |t|
  {
    if t != [] {
      var init := t[..|t| - 1];
      assert t == init + [t[|t| - 1]];
      UntouchedNone(s, init, ks);
    }
  }

  /** INSERT OR REPLACE in a table not keyed by `id INTEGER PRIMARY KEY`: remove the key, then append. */
  lemma UpsertAppends(s: TableSchema, t: Table, row: Row)
    requires !s.rowid
    ensures Upsert(s, t, row) == RemoveKey(s, t, KeyOf(s, row)) + [row]
  {
  }

  lemma UpsertAllSnoc(s: TableSchema, t: Table, rows: seq<Row>, r: Row)
    ensures UpsertAll(s, t, rows + [r]) == Upsert(s, UpsertAll(s, t, rows), r)
  {
    assert (rows + [r])[..|rows|] == rows;
  }

  lemma AppendsRun(s: TableSchema, t: Table, init: seq<Row>, r: Row)
    requires !s.rowid
    requires UpsertAll(s, t, init) == Untouched(s, t, KeySet(s, init)) + UpsertAll(s, [], init)
    ensures UpsertAll(s, t, init + [r]) ==
      RemoveKey(s, Untouched(s, t, KeySet(s, init)) + UpsertAll(s, [], init), KeyOf(s, r)) + [r]
  {
    UpsertAllSnoc(s, t, init, r);
    UpsertAppends(s, Untouched(s, t, KeySet(s, init)) + UpsertAll(s, [], init), r);
  }

  lemma AppendsFresh(s: TableSchema, init: seq<Row>, r: Row)
    requires !s.rowid
    ensures UpsertAll(s, [], init + [r]) == RemoveKey(s, UpsertAll(s, [], init), KeyOf(s, r)) + [r]
  {
    UpsertAllSnoc(s, [], init, r);
    UpsertAppends(s, UpsertAll(s, [], init), r);
  }

  lemma AppendsKept(s: TableSchema, t: Table, init: seq<Row>, r: Row)
    ensures RemoveKey(s, Untouched(s, t, KeySet(s, init)) + UpsertAll(s, [], init), KeyOf(s, r)) ==
      Untouched(s, t, KeySet(s, init + [r])) + RemoveKey(s, UpsertAll(s, [], init), KeyOf(s, r))
  {
    KeySetSnoc(s, init, r);
    RemoveKeyAppend(s, Untouched(s, t, KeySet(s, init)), UpsertAll(s, [], init), KeyOf(s, r));
    RemoveKeyUntouched(s, t, KeySet(s, init), KeyOf(s, r));
  }

  lemma AppendsStep(s: TableSchema, t: Table, init: seq<Row>, r: Row)
    requires !s.rowid
    requires UpsertAll(s, t, init) == Untouched(s, t, KeySet(s, init)) + UpsertAll(s, [], init)
    ensures UpsertAll(s, t, init + [r]) == Untouched(s, t, KeySet(s, init + [r])) + UpsertAll(s, [], init + [r])
  {
    AppendsRun(s, t, init, r);
    AppendsFresh(s, init, r);
    AppendsKept(s, t, init, r);
    AppendAssoc(Untouched(s, t, KeySet(s, init + [r])), RemoveKey(s, UpsertAll(s, [], init), KeyOf(s, r)), [r]);
  }

  lemma AppendAssoc<T>(a: seq<T>, b: seq<T>, c: seq<T>)
    ensures (a + b) + c == a + (b + c)
  {
  }

  lemma NoElements<T>(xs: seq<T>)
    requires forall x :: x !in xs
    ensures xs == []
  {
    if xs != [] {
      FirstElement(xs);
    }
  }

  lemma FirstElement<T>(xs: seq<T>)
    requires xs != []
    ensures xs[0] in xs
  {
  }

  lemma SplitLast<T>(xs: seq<T>)
    requires xs != []
    ensures xs == xs[..|xs| - 1] + [xs[|xs| - 1]]
  {
  }

  /**
   * In a table not keyed by `id INTEGER PRIMARY KEY`, a run keeps the rows whose key it did not
   * write, in their order, followed by the rows it stores.
   */
  lemma {:induction false} UpsertAllAppends(s: TableSchema, t: Table, rows: seq<Row>)
    requires !s.rowid
    ensures UpsertAll(s, t, rows) == Untouched(s, t, KeySet(s, rows)) + UpsertAll(s, [], rows)
    decreases |rows|
  {
    if rows == [] {
      assert KeySet(s, rows) == {};
      UntouchedNone(s, t, {});
      assert t + [] == t;
    } else {
      var init := rows[..|rows| - 1];
      var r := rows[|rows| - 1];
      SplitLast(rows);
      UpsertAllAppends(s, t, init);
      AppendsStep(s, t, init, r);
    }
  }

  /** A run keeps a table's keys unique and an id-keyed table in `id` order. */
  lemma {:induction false} UpsertAllKeepsOrder(s: TableSchema, t: Table, rows: seq<Row>)
    requires UniqueKeys(s, t) && (s.rowid ==> SortedBy(t, "id"))
    ensures UniqueKeys(s, UpsertAll(s, t, rows)) && (s.rowid ==> SortedBy(UpsertAll(s, t, rows), "id"))
    decreases |rows|
  {
    if rows != [] {
      var init := rows[..|rows| - 1];
      UpsertAllKeepsOrder(s, t, init);
      UpsertKeepsUnique(s, UpsertAll(s, t, init), rows[|rows| - 1]);
      if s.rowid {
        UpsertKeepsOrder(s, UpsertAll(s, t, init), rows[|rows| - 1]);
      }
    }
  }

  lemma KeyOfId(s: TableSchema, x: Row, y: Row)
    requires s.key == ["id"]
    ensures KeyOf(s, x) == KeyOf(s, y) <==> Get(x, "id") == Get(y, "id")
  {
    var kx := KeyOf(s, x);
    var ky := KeyOf(s, y);
    assert kx == [Get(x, "id")] && ky == [Get(y, "id")];
  }

  /** In a table sorted by `id` with unique ids, a row before another has the smaller id. */
  lemma SortedUniqueBefore(s: TableSchema, a: Table, i: int, j: int)
    requires s.key == ["id"] && SortedBy(a, "id") && UniqueKeys(s, a) && 0 <= i < j < |a|
    ensures ValueLess(Get(a[i], "id"), Get(a[j], "id"))
  {
    KeyOfId(s, a[i], a[j]);
    ValueLessTotal(Get(a[i], "id"), Get(a[j], "id"));
  }

  /** The last row of a table sorted by `id` with unique ids is the one with the largest id. */
  lemma SameLast(s: TableSchema, a: Table, b: Table)
    requires s.key == ["id"] && a != []
    requires SortedBy(a, "id") && UniqueKeys(s, a) && SortedBy(b, "id") && UniqueKeys(s, b)
    requires forall x :: x in a <==> x in b
    ensures b != [] && a[|a| - 1] == b[|b| - 1]
  {
    var la := a[|a| - 1];
    assert la in a;
    var lb := b[|b| - 1];
    assert lb in b;
    if la != lb {
      var m :| 0 <= m < |b| && b[m] == la;
      var n :| 0 <= n < |a| && a[n] == lb;
      SortedUniqueBefore(s, b, m, |b| - 1);
      SortedUniqueBefore(s, a, n, |a| - 1);
      ValueLessTransitive(Get(la, "id"), Get(lb, "id"), Get(la, "id"));
      ValueLessIrreflexive(Get(la, "id"));
    }
  }

  /** With unique keys, the rows before the last are all the rows but the last. */
  lemma InitElements(s: TableSchema, a: Table)
    requires UniqueKeys(s, a) && a != []
    ensures forall x :: x in a[..|a| - 1] <==> x in a && x != a[|a| - 1]
  {
    var init := a[..|a| - 1];
    forall x | x in a && x != a[|a| - 1]
      ensures x in init
    {
      var i :| 0 <= i < |a| && a[i] == x;
      assert init[i] == x;
    }
    forall x | x in init
      ensures x in a && x != a[|a| - 1]
    {
      var i :| 0 <= i < |init| && init[i] == x;
      assert a[i] == x;
    }
  }

  lemma InitOrdered(s: TableSchema, a: Table)
    requires SortedBy(a, "id") && UniqueKeys(s, a) && a != []
    ensures SortedBy(a[..|a| - 1], "id") && UniqueKeys(s, a[..|a| - 1])
  {
    var init := a[..|a| - 1];
    assert forall i, j :: 0 <= i < j < |init| ==> init[i] == a[i] && init[j] == a[j];
  }

  /** A table sorted by `id` with unique ids is fixed by the rows it holds. */
  lemma {:induction false} SortedUniqueEqual(s: TableSchema, a: Table, b: Table)
    requires s.key == ["id"]
    requires SortedBy(a, "id") && UniqueKeys(s, a) && SortedBy(b, "id") && UniqueKeys(s, b)
    requires forall x :: x in a <==> x in b
    ensures a == b
    decreases |a|
  {
    if a == [] {
      NoElements(b);
    } else {
      SameLast(s, a, b);
      InitElements(s, a);
      InitElements(s, b);
      InitOrdered(s, a);
      InitOrdered(s, b);
      var a', b' := a[..|a| - 1], b[..|b| - 1];
      forall x
        ensures x in a' <==> x in b'
      {
        assert x in a <==> x in b;
      }
      SortedUniqueEqual(s, a', b');
      SplitLast(a);
      SplitLast(b);
    }
  }

  /** Every row a run stores has a key the run wrote. */
  lemma FreshKeys(s: TableSchema, rows: seq<Row>)
    ensures forall x :: x in UpsertAll(s, [], rows) ==> KeyOf(s, x) in KeySet(s, rows)
  {
    UpsertAllFromRows(s, rows);
  }

  /** Running the same statements again leaves the same rows in the table. */
  lemma RunTwiceElements(s: TableSchema, t: Table, rows: seq<Row>)
    ensures forall x :: x in UpsertAll(s, UpsertAll(s, t, rows), rows) <==> x in UpsertAll(s, t, rows)
  {
    FreshKeys(s, rows);
    UpsertAllElements(s, t, rows);
    UpsertAllElements(s, UpsertAll(s, t, rows), rows);
  }

  lemma RunTwiceRowid(s: TableSchema, t: Table, rows: seq<Row>)
    requires s.key == ["id"] && s.rowid && UniqueKeys(s, t) && SortedBy(t, "id")
    ensures UpsertAll(s, UpsertAll(s, t, rows), rows) == UpsertAll(s, t, rows)
  {
    var once := UpsertAll(s, t, rows);
    UpsertAllKeepsOrder(s, t, rows);
    UpsertAllKeepsOrder(s, once, rows);
    RunTwiceElements(s, t, rows);
    SortedUniqueEqual(s, UpsertAll(s, once, rows), once);
  }

  lemma RunTwiceAppends(s: TableSchema, t: Table, rows: seq<Row>)
    requires !s.rowid
    ensures UpsertAll(s, UpsertAll(s, t, rows), rows) == UpsertAll(s, t, rows)
  {
    var ks := KeySet(s, rows);
    var d := UpsertAll(s, [], rows);
    var kept := Untouched(s, t, ks);
    UpsertAllAppends(s, t, rows);
    UpsertAllAppends(s, kept + d, rows);
    UntouchedAppend(s, kept, d, ks);
    UntouchedElements(s, t, ks);
    UntouchedNone(s, kept, ks);
    FreshKeys(s, rows);
    UntouchedElements(s, d, ks);
    NoElements(Untouched(s, d, ks));
    assert kept + [] == kept;
  }

  /** Running the same INSERT OR REPLACE statements a second time changes nothing. */
  lemma UpsertAllIdempotent(s: TableSchema, t: Table, rows: seq<Row>)
    requires s.WellFormed() && UniqueKeys(s, t) && (s.rowid ==> SortedBy(t, "id"))
    ensures UpsertAll(s, UpsertAll(s, t, rows), rows) == UpsertAll(s, t, rows)
  {
    if s.rowid {
      RunTwiceRowid(s, t, rows);
    } else {
      RunTwiceAppends(s, t, rows);
    }
  }

  // ---------------------------------------------------------------- packages of INSERTs

  predicate AllInserts(cs: seq<ChangeRecord>)
  {
    forall i :: 0 <= i < |cs| ==> cs[i].operation == "INSERT"
  }

  /** The rows a package's INSERTs store into table `name`, declared by s: those INSERT OR REPLACE accepts. */
  function Inserted(s: TableSchema, name: string, cs: seq<ChangeRecord>): seq<Row>
    decreases |cs|
  {
    if cs == [] then []
    else
      var c := cs[|cs| - 1];
      Inserted(s, name, cs[..|cs| - 1]) +
        (if c.table == name && c.data != map[] && Conforms(s, c.data) then [c.data] else [])
  }

  lemma AllInsertsPrefix(cs: seq<ChangeRecord>)
    requires AllInserts(cs) && cs != []
    ensures AllInserts(cs[..|cs| - 1]) && cs[|cs| - 1].operation == "INSERT"
  {
    var init := cs[..|cs| - 1];
    forall i | 0 <= i < |init|
      ensures init[i].operation == "INSERT"
    {
      assert init[i] == cs[i];
    }
  }

  /** One INSERT change stores its data into its table when INSERT OR REPLACE accepts it. */
  lemma InsertStep(st: ApplyState, c: ChangeRecord, n: string)
    requires c.operation == "INSERT" && n in st.db
    ensures var s := st.db[n].schema;
      Step(st, c).db[n] == Relation(s, if c.table == n && c.data != map[] && Conforms(s, c.data)
                                       then Upsert(s, st.db[n].rows, c.data) else st.db[n].rows)
  {
    if InsertError(st.db, c.table, c.data).None? {
      InsertOrReplaceUnfold(st.db, c.table, c.data);
    }
  }

  lemma StepKeys(st: ApplyState, c: ChangeRecord)
    ensures Step(st, c).db.Keys == st.db.Keys
  {
  }

  /**
   * A package of INSERTs leaves every table declared as before, holding what
   * INSERT OR REPLACE of the rows it accepts, in package order, leaves.
   */
  lemma {:induction false} ApplyAllInserts(db: Database, cs: seq<ChangeRecord>)
    requires AllInserts(cs)
    ensures ApplyAll(db, cs).db.Keys == db.Keys
    ensures forall n :: n in db ==>
      ApplyAll(db, cs).db[n] == Relation(db[n].schema, UpsertAll(db[n].schema, db[n].rows, Inserted(db[n].schema, n, cs)))
    decreases |cs|
  {
    if cs == [] {
      assert ApplyAll(db, cs).db == db;
    } else {
      var init := cs[..|cs| - 1];
      var c := cs[|cs| - 1];
      AllInsertsPrefix(cs);
      ApplyAllInserts(db, init);
      var st := ApplyAll(db, init);
      assert ApplyAll(db, cs) == Step(st, c);
      forall n | n in db
        ensures Step(st, c).db[n] ==
          Relation(db[n].schema, UpsertAll(db[n].schema, db[n].rows, Inserted(db[n].schema, n, cs)))
      {
        InsertStep(st, c, n);
        var s := db[n].schema;
        var prev := Inserted(s, n, init);
        if c.table == n && c.data != map[] && Conforms(s, c.data) {
          assert Inserted(s, n, cs) == prev + [c.data];
          assert (prev + [c.data])[..|prev|] == prev;
        } else {
          assert Inserted(s, n, cs) == prev;
        }
      }
      StepKeys(st, c);
    }
  }

  /** For a package of INSERTs, the count and the conflicts depend only on the tables' declarations. */
  lemma {:induction false} ApplyAllInsertsReport(db: Database, db2: Database, cs: seq<ChangeRecord>)
    requires AllInserts(cs)
    requires db.Keys == db2.Keys && forall n :: n in db ==> db[n].schema == db2[n].schema
    ensures ApplyAll(db, cs).applied == ApplyAll(db2, cs).applied
    ensures ApplyAll(db, cs).conflicts == ApplyAll(db2, cs).conflicts
    decreases |cs|
  {
    if cs != [] {
      var init := cs[..|cs| - 1];
      var c := cs[|cs| - 1];
      AllInsertsPrefix(cs);
      ApplyAllInsertsReport(db, db2, init);
      ApplyAllInserts(db, init);
      ApplyAllInserts(db2, init);
      var p := ApplyAll(db, init).db;
      var p2 := ApplyAll(db2, init).db;
      if c.table in p {
        InsertErrorBySchema(p, p2, c.table, c.data);
      }
    }
  }

  /**
   * Importing a package of INSERTs into the database its first import left
   * changes no table and reports the same count and the same conflicts.
   */
  lemma ApplyAllIdempotent(db: Database, cs: seq<ChangeRecord>)
    requires ValidDatabase(db) && AllInserts(cs)
    ensures ApplyAll(ApplyAll(db, cs).db, cs) == ApplyAll(db, cs)
  {
    var once := ApplyAll(db, cs);
    var twice := ApplyAll(once.db, cs);
    ApplyAllInserts(db, cs);
    ApplyAllInserts(once.db, cs);
    forall n | n in db
      ensures twice.db[n] == once.db[n]
    {
      UpsertAllIdempotent(db[n].schema, db[n].rows, Inserted(db[n].schema, n, cs));
    }
    assert twice.db == once.db;
    ApplyAllInsertsReport(db, once.db, cs);
  }

  /** Every change of a generated package is an INSERT. */
  lemma GeneratedInserts(src: Database, station: string, syncType: string, since: Option<string>,
                         now: Clock.DateTime)
    requires Extraction.PackageChanges(src, station, syncType, since, now).Ok?
    ensures AllInserts(Extraction.PackageChanges(src, station, syncType, since, now).value)
  {
    var delta := Extraction.IsDelta(syncType, since);
    var srcs := Extraction.SourcesFor(delta);
    Extraction.ExtractShape(src, srcs, delta, station, if delta then since.value else "", now);
    var cs := Extraction.PackageChanges(src, station, syncType, since, now).value;
    forall i | 0 <= i < |cs|
      ensures cs[i].operation == "INSERT"
    {
      assert Extraction.FromSources(src, srcs, delta, now, cs[i]);
      var k :| 0 <= k < |srcs| && Extraction.Produced(src, srcs[k], delta, now, cs[i]);
    }
  }

  /** A package one station generated, imported twice anywhere, has the effect of one import. */
  lemma GeneratedPackageReplays(src: Database, station: string, syncType: string, since: Option<string>,
                                now: Clock.DateTime, db: Database)
    requires Extraction.PackageChanges(src, station, syncType, since, now).Ok?
    requires ValidDatabase(db)
    ensures var cs := Extraction.PackageChanges(src, station, syncType, since, now).value;
      ApplyAll(ApplyAll(db, cs).db, cs) == ApplyAll(db, cs)
  {
    GeneratedInserts(src, station, syncType, since, now);
    ApplyAllIdempotent(db, Extraction.PackageChanges(src, station, syncType, since, now).value);
  }
}
