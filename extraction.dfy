/**
 * What `generate_sync_package` reads: the tables it scans, the query it runs
 * on each, and the change record it makes of each row returned.
 */
module Extraction {
  import opened Wrappers
  import opened Store
  import Clock
  import Schema
  import opened Changes

  /** A scanned table: whether it is filtered by station, and its timestamp column. */
  datatype Source = Source(table: string, byStation: bool, tsCol: string)

  const DeltaSources: seq<Source> := [
    Source("inventory_events", true, "timestamp"),
    Source("blood_events", true, "timestamp"),
    Source("equipment_checks", true, "timestamp"),
    Source("surgery_records", true, "created_at"),
    Source("emergency_blood_bags", true, "created_at")]

  const FullSources: seq<Source> := [
    Source("items", false, "updated_at"),
    Source("inventory_events", true, "timestamp"),
    Source("blood_events", true, "timestamp"),
    Source("equipment_checks", true, "timestamp"),
    Source("surgery_records", true, "created_at")]

  /** The incremental branch runs only for DELTA with a non-empty since-timestamp. */
  predicate IsDelta(syncType: string, since: Option<string>)
  {
    syncType == "DELTA" && since.Some? && since.value != ""
  }

  function SourcesFor(delta: bool): seq<Source>
  {
    if delta then DeltaSources else FullSources
  }

  /** `station_id = ? AND ts > ?` */
  function DeltaCondition(s: Source, station: string, since: string): Condition
  {
    Both(ColumnEquals("station_id", Str(station)), ColumnAfter(s.tsCol, Str(since)))
  }

  /** `station_id = ?`, or no WHERE clause for `items`. */
  function FullCondition(s: Source, station: string): Condition
  {
    if s.byStation then ColumnEquals("station_id", Str(station)) else Always
  }

  /** The rows the query on one table returns. */
  function Query(db: Database, s: Source, delta: bool, station: string, since: string): Result<Table, SqlError>
  {
    if delta then SelectOrdered(db, s.table, DeltaCondition(s, station, since), s.tsCol)
    else Select(db, s.table, FullCondition(s, station))
  }

  /**
   * The change made of one row: an INSERT of the whole row, stamped with the
   * row's timestamp column, or in a full scan with the generation time
   * (`isoformat` of the local clock) when the row has no such column.
   */
  function ToChange(s: Source, row: Row, delta: bool, now: Clock.DateTime): ChangeRecord
  {
    ChangeRecord(s.table, "INSERT", row,
      if delta || s.tsCol in row then Get(row, s.tsCol) else Str(Clock.Iso(now)))
  }

  function ToChanges(s: Source, rows: Table, delta: bool, now: Clock.DateTime): (cs: seq<ChangeRecord>)
    ensures |cs| == |rows|
  {
    seq(|rows|, i requires 0 <= i < |rows| => ToChange(s, rows[i], delta, now))
  }

  /** The changes collected from `srcs` in order; the first failing query aborts. */
  function Extract(db: Database, srcs: seq<Source>, delta: bool, station: string, since: string,
                   now: Clock.DateTime): Result<seq<ChangeRecord>, SqlError>
    decreases |srcs|
  {
    if srcs == [] then Ok([])
    else
      match Extract(db, srcs[..|srcs| - 1], delta, station, since, now)
      case Err(e) => Err(e)
      case Ok(prev) =>
        match Query(db, srcs[|srcs| - 1], delta, station, since)
        case Err(e) => Err(e)
        case Ok(rows) => Ok(prev + ToChanges(srcs[|srcs| - 1], rows, delta, now))
  }

  /** The change list of a package requested with this sync type and since-timestamp. */
  function PackageChanges(db: Database, station: string, syncType: string, since: Option<string>,
                          now: Clock.DateTime): Result<seq<ChangeRecord>, SqlError>
  {
    var delta := IsDelta(syncType, since);
    Extract(db, SourcesFor(delta), delta, station, if delta then since.value else "", now)
  }

  // ---------------------------------------------------------------- lemmas

  /** Once a query has failed, the whole extraction fails with that error. */
  lemma {:induction false} ExtractErrorStops(db: Database, srcs: seq<Source>, j: nat, delta: bool, station: string,
                                             since: string, now: Clock.DateTime)
    requires j <= |srcs|
    requires Extract(db, srcs[..j], delta, station, since, now).Err?
    ensures Extract(db, srcs, delta, station, since, now) == Extract(db, srcs[..j], delta, station, since, now)
    decreases |srcs|
  {
    if j < |srcs| {
      var init := srcs[..|srcs| - 1];
      assert init[..j] == srcs[..j];
      ExtractErrorStops(db, init, j, delta, station, since, now);
    } else {
      assert srcs[..j] == srcs;
    }
  }

  /** A successful extraction is the previous tables' changes followed by the last table's. */
  lemma ExtractUnfold(db: Database, srcs: seq<Source>, delta: bool, station: string, since: string,
                      now: Clock.DateTime)
    requires srcs != [] && Extract(db, srcs, delta, station, since, now).Ok?
    ensures Extract(db, srcs[..|srcs| - 1], delta, station, since, now).Ok?
    ensures Query(db, srcs[|srcs| - 1], delta, station, since).Ok?
    ensures Extract(db, srcs, delta, station, since, now).value ==
      Extract(db, srcs[..|srcs| - 1], delta, station, since, now).value +
      ToChanges(srcs[|srcs| - 1], Query(db, srcs[|srcs| - 1], delta, station, since).value, delta, now)
  {
  }

  /** c was produced from one of the sources `srcs`. */
  predicate FromSources(db: Database, srcs: seq<Source>, delta: bool, now: Clock.DateTime, c: ChangeRecord)
  {
    exists k :: 0 <= k < |srcs| && Produced(db, srcs[k], delta, now, c)
  }

  /**
   * Every collected change is an INSERT of a complete row (every declared
   * column present) of one of the scanned tables, made as `ToChange` makes it.
   */
  lemma {:induction false} ExtractShape(db: Database, srcs: seq<Source>, delta: bool, station: string, since: string,
                                        now: Clock.DateTime)
    requires Extract(db, srcs, delta, station, since, now).Ok?
    ensures var cs := Extract(db, srcs, delta, station, since, now).value;
      forall i :: 0 <= i < |cs| ==> FromSources(db, srcs, delta, now, cs[i])
    decreases |srcs|
  {
    if srcs != [] {
      var init := srcs[..|srcs| - 1];
      var last := srcs[|srcs| - 1];
      ExtractUnfold(db, srcs, delta, station, since, now);
      ExtractShape(db, init, delta, station, since, now);
      var prev := Extract(db, init, delta, station, since, now).value;
      var rows := Query(db, last, delta, station, since).value;
      var added := ToChanges(last, rows, delta, now);
      assert Extract(db, srcs, delta, station, since, now).value == prev + added;
      forall j | 0 <= j < |added|
        ensures Produced(db, last, delta, now, added[j])
      {
        ProducedByLast(db, last, delta, station, since, now, j);
      }
      forall i | 0 <= i < |prev + added|
        ensures FromSources(db, srcs, delta, now, (prev + added)[i])
      {
        FromAppended(db, srcs, delta, now, prev, added, i);
      }
    }
  }

  lemma FromAppended(db: Database, srcs: seq<Source>, delta: bool, now: Clock.DateTime, prev: seq<ChangeRecord>,
                     added: seq<ChangeRecord>, i: nat)
    requires srcs != []
    requires forall k :: 0 <= k < |prev| ==> FromSources(db, srcs[..|srcs| - 1], delta, now, prev[k])
    requires forall j :: 0 <= j < |added| ==> Produced(db, srcs[|srcs| - 1], delta, now, added[j])
    requires i < |prev + added|
    ensures FromSources(db, srcs, delta, now, (prev + added)[i])
  {
    if i < |prev| {
      assert (prev + added)[i] == prev[i];
      FromEarlierSources(db, srcs, delta, now, prev[i]);
    } else {
      assert (prev + added)[i] == added[i - |prev|];
      assert Produced(db, srcs[|srcs| - 1], delta, now, (prev + added)[i]);
    }
  }

  lemma FromEarlierSources(db: Database, srcs: seq<Source>, delta: bool, now: Clock.DateTime, c: ChangeRecord)
    requires srcs != [] && FromSources(db, srcs[..|srcs| - 1], delta, now, c)
    ensures FromSources(db, srcs, delta, now, c)
  {
    var init := srcs[..|srcs| - 1];
    var k :| 0 <= k < |init| && Produced(db, init[k], delta, now, c);
    assert srcs[k] == init[k];
  }

  lemma ProducedByLast(db: Database, s: Source, delta: bool, station: string, since: string, now: Clock.DateTime,
                       j: nat)
    requires Query(db, s, delta, station, since).Ok? && j < |Query(db, s, delta, station, since).value|
    ensures Produced(db, s, delta, now, ToChanges(s, Query(db, s, delta, station, since).value, delta, now)[j])
  {
    var rows := Query(db, s, delta, station, since).value;
    assert rows[j] in rows;
    QueryRowsComplete(db, s, delta, station, since, rows[j]);
  }

  /** c is the change `ToChange` makes of a complete row of s's table. */
  predicate Produced(db: Database, s: Source, delta: bool, now: Clock.DateTime, c: ChangeRecord)
  {
    s.table in db && c == ToChange(s, c.data, delta, now) && c.data.Keys == db[s.table].schema.columns
  }

  lemma QueryRowsComplete(db: Database, s: Source, delta: bool, station: string, since: string, r: Row)
    requires Query(db, s, delta, station, since).Ok?
    requires r in Query(db, s, delta, station, since).value
    ensures s.table in db && r.Keys == db[s.table].schema.columns
  {
    var rel := db[s.table];
    var cond := if delta then DeltaCondition(s, station, since) else FullCondition(s, station);
    var full := CompleteAll(rel.schema, Filter(rel.rows, cond, true));
    if delta {
      assert r in multiset(full);
    }
    assert r in full;
  }

  /** The changes of `cs` that came from table t, in order. */
  function OfTable(cs: seq<ChangeRecord>, t: string): (u: seq<ChangeRecord>)
    ensures |u| <= |cs|
  {
    if cs == [] then []
    else (if cs[0].table == t then [cs[0]] else []) + OfTable(cs[1..], t)
  }

  lemma {:induction false} OfTableAppend(a: seq<ChangeRecord>, b: seq<ChangeRecord>, t: string)
    ensures OfTable(a + b, t) == OfTable(a, t) + OfTable(b, t)
    decreases |a|
  {
    if a == [] {
      assert a + b == b;
    } else {
      var ab := a + b;
      OfTableAppend(a[1..], b, t);
      assert ab[0] == a[0] && ab[1..] == a[1..] + b;
      var head := if a[0].table == t then [a[0]] else [];
      assert OfTable(ab, t) == head + OfTable(a[1..] + b, t);
      assert OfTable(a, t) == head + OfTable(a[1..], t);
    }
  }

  lemma {:induction false} OfTableAll(cs: seq<ChangeRecord>, t: string)
    requires forall i :: 0 <= i < |cs| ==> cs[i].table == t
    ensures OfTable(cs, t) == cs
    decreases |cs|
  {
    if cs != [] {
      OfTableAll(cs[1..], t);
    }
  }

  lemma {:induction false} OfTableNone(cs: seq<ChangeRecord>, t: string)
    requires forall i :: 0 <= i < |cs| ==> cs[i].table != t
    ensures OfTable(cs, t) == []
    decreases |cs|
  {
    if cs != [] {
      OfTableNone(cs[1..], t);
    }
  }

  predicate DistinctTables(srcs: seq<Source>)
  {
    forall i, j :: 0 <= i < j < |srcs| ==> srcs[i].table != srcs[j].table
  }

  /**
   * When the scanned tables are distinct, the changes from each table are
   * exactly one change per row its query returned, in the query's order.
   */
  lemma {:induction false} ExtractPerTable(db: Database, srcs: seq<Source>, delta: bool, station: string,
                                           since: string, now: Clock.DateTime, k: nat)
    requires DistinctTables(srcs) && k < |srcs|
    requires Extract(db, srcs, delta, station, since, now).Ok?
    ensures Query(db, srcs[k], delta, station, since).Ok?
    ensures OfTable(Extract(db, srcs, delta, station, since, now).value, srcs[k].table) ==
            ToChanges(srcs[k], Query(db, srcs[k], delta, station, since).value, delta, now)
    decreases |srcs|
  {
    var init := srcs[..|srcs| - 1];
    var last := srcs[|srcs| - 1];
    ExtractUnfold(db, srcs, delta, station, since, now);
    var prev := Extract(db, init, delta, station, since, now).value;
    var added := ToChanges(last, Query(db, last, delta, station, since).value, delta, now);
    var t := srcs[k].table;
    assert Extract(db, srcs, delta, station, since, now).value == prev + added;
    OfTableAppend(prev, added, t);
    if k == |srcs| - 1 {
      LastTableOnly(db, srcs, delta, station, since, now);
    } else {
      assert init[k] == srcs[k];
      assert DistinctTables(init);
      ExtractPerTable(db, init, delta, station, since, now, k);
      OfTableNone(added, t);
    }
  }

  /** With distinct tables, the last table's changes are exactly those its query produced. */
  lemma LastTableOnly(db: Database, srcs: seq<Source>, delta: bool, station: string, since: string,
                      now: Clock.DateTime)
    requires DistinctTables(srcs) && srcs != []
    requires Extract(db, srcs[..|srcs| - 1], delta, station, since, now).Ok?
    requires Query(db, srcs[|srcs| - 1], delta, station, since).Ok?
    ensures var last := srcs[|srcs| - 1];
      var prev := Extract(db, srcs[..|srcs| - 1], delta, station, since, now).value;
      var added := ToChanges(last, Query(db, last, delta, station, since).value, delta, now);
      OfTable(prev, last.table) + OfTable(added, last.table) == added
  {
    var last := srcs[|srcs| - 1];
    var prev := Extract(db, srcs[..|srcs| - 1], delta, station, since, now).value;
    var added := ToChanges(last, Query(db, last, delta, station, since).value, delta, now);
    EarlierTablesDiffer(db, srcs, delta, station, since, now);
    OfTableNone(prev, last.table);
    OfTableAll(added, last.table);
  }

  /** With distinct tables, no change taken before the last table comes from the last table. */
  lemma EarlierTablesDiffer(db: Database, srcs: seq<Source>, delta: bool, station: string, since: string,
                            now: Clock.DateTime)
    requires DistinctTables(srcs) && srcs != []
    requires Extract(db, srcs[..|srcs| - 1], delta, station, since, now).Ok?
    ensures var prev := Extract(db, srcs[..|srcs| - 1], delta, station, since, now).value;
      forall i :: 0 <= i < |prev| ==> prev[i].table != srcs[|srcs| - 1].table
  {
    var init := srcs[..|srcs| - 1];
    var prev := Extract(db, init, delta, station, since, now).value;
    ExtractShape(db, init, delta, station, since, now);
    forall i | 0 <= i < |prev|
      ensures prev[i].table != srcs[|srcs| - 1].table
    {
      assert FromSources(db, init, delta, now, prev[i]);
      var m :| 0 <= m < |init| && Produced(db, init[m], delta, now, prev[i]);
      assert init[m] == srcs[m];
    }
  }

  lemma SourcesDistinct()
    ensures DistinctTables(DeltaSources) && DistinctTables(FullSources)
  {
  }

  /**
   * A DELTA package holds, for each of its five tables, one INSERT per row of
   * this station whose timestamp column is after `since`: the rows completed
   * to all columns, each as often as it is stored, in ascending timestamp
   * order, each change stamped with its row's timestamp.
   */
  lemma DeltaPackageExact(db: Database, station: string, since: string, now: Clock.DateTime, k: nat)
    requires since != "" && k < |DeltaSources|
    requires PackageChanges(db, station, "DELTA", Some(since), now).Ok?
    ensures var s := DeltaSources[k];
      s.table in db &&
      var cs := OfTable(PackageChanges(db, station, "DELTA", Some(since), now).value, s.table);
      var matching := Filter(db[s.table].rows, DeltaCondition(s, station, since), true);
      |cs| == |matching| &&
      (exists rows: Table ::
        multiset(rows) == multiset(CompleteAll(db[s.table].schema, matching)) &&
        SortedBy(rows, s.tsCol) && cs == ToChanges(s, rows, true, now)) &&
      forall i :: 0 <= i < |cs| ==> cs[i].operation == "INSERT" && cs[i].timestamp == Get(cs[i].data, s.tsCol)
  {
    var s := DeltaSources[k];
    SourcesDistinct();
    ExtractPerTable(db, DeltaSources, true, station, since, now, k);
    SelectOrderedExact(db, s.table, DeltaCondition(s, station, since), s.tsCol);
    var rows := Query(db, s, true, station, since).value;
    var cs := OfTable(PackageChanges(db, station, "DELTA", Some(since), now).value, s.table);
    assert cs == ToChanges(s, rows, true, now);
  }

  /**
   * A package requested without a since-timestamp (DELTA or FULL) holds one
   * INSERT per row of `items` and one per row of this station's
   * inventory, blood and equipment events and surgery records, in scan order.
   */
  lemma FullPackageExact(db: Database, station: string, syncType: string, since: Option<string>,
                         now: Clock.DateTime, k: nat)
    requires !IsDelta(syncType, since) && k < |FullSources|
    requires PackageChanges(db, station, syncType, since, now).Ok?
    ensures var s := FullSources[k];
      s.table in db &&
      OfTable(PackageChanges(db, station, syncType, since, now).value, s.table) ==
        ToChanges(s, CompleteAll(db[s.table].schema, Filter(db[s.table].rows, FullCondition(s, station), true)), false, now)
  {
    SourcesDistinct();
    ExtractPerTable(db, FullSources, false, station, "", now, k);
  }

  /** A package without a since-timestamp carries no emergency blood bags; a DELTA package may. */
  lemma FullPackageOmitsEmergencyBags(db: Database, station: string, syncType: string, since: Option<string>,
                                      now: Clock.DateTime)
    requires !IsDelta(syncType, since)
    requires PackageChanges(db, station, syncType, since, now).Ok?
    ensures var cs := PackageChanges(db, station, syncType, since, now).value;
      forall i :: 0 <= i < |cs| ==> cs[i].table != "emergency_blood_bags" && cs[i].operation == "INSERT"
  {
    ExtractShape(db, FullSources, false, station, "", now);
    var cs := PackageChanges(db, station, syncType, since, now).value;
    forall i | 0 <= i < |cs|
      ensures cs[i].table != "emergency_blood_bags" && cs[i].operation == "INSERT"
    {
      assert FromSources(db, FullSources, false, now, cs[i]);
      var k :| 0 <= k < |FullSources| && Produced(db, FullSources[k], false, now, cs[i]);
    }
  }

  /** c came from s's table and carries that table's timestamp column as its timestamp. */
  predicate OwnTimestamp(c: ChangeRecord, s: Source)
  {
    c.table == s.table && c.timestamp == Get(c.data, s.tsCol)
  }

  /**
   * Against the MIRS tables every change of a full package is stamped with its
   * row's own timestamp column, since each scanned table declares it.
   */
  lemma MirsFullTimestamps(db: Database, station: string, syncType: string, since: Option<string>,
                           now: Clock.DateTime)
    requires Schema.IsMirs(db) && !IsDelta(syncType, since)
    requires PackageChanges(db, station, syncType, since, now).Ok?
    ensures var cs := PackageChanges(db, station, syncType, since, now).value;
      forall i :: 0 <= i < |cs| ==> exists k :: 0 <= k < |FullSources| && OwnTimestamp(cs[i], FullSources[k])
  {
    ExtractShape(db, FullSources, false, station, "", now);
    var cs := PackageChanges(db, station, syncType, since, now).value;
    forall i | 0 <= i < |cs|
      ensures exists k :: 0 <= k < |FullSources| && OwnTimestamp(cs[i], FullSources[k])
    {
      assert FromSources(db, FullSources, false, now, cs[i]);
      var k :| 0 <= k < |FullSources| && Produced(db, FullSources[k], false, now, cs[i]);
      FullSourcesDeclareTimestamps(db, k);
      assert OwnTimestamp(cs[i], FullSources[k]);
    }
  }

  lemma FullSourcesDeclareTimestamps(db: Database, k: nat)
    requires Schema.IsMirs(db) && k < |FullSources|
    ensures FullSources[k].table in db && FullSources[k].tsCol in db[FullSources[k].table].schema.columns
  {
    var t := FullSources[k].table;
    assert t in Schema.Catalog;
    assert db[t].schema == Schema.Catalog[t];
  }
}
