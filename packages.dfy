/**
 * The station database's sync-package operations: generating a package from
 * local tables, importing one (checksum gate, then best-effort apply, then the
 * registry row), and the hospital-side upload that imports and marks the
 * sending station synced. Each call is one transaction: a raised error leaves
 * every table as the call found it.
 */
module Packages {
  import opened Wrappers
  import opened Store
  import Text
  import Clock
  import Registry
  import opened Changes
  import opened Extraction

  /** The reply of a generation. */
  datatype Generated = Generated(
    packageId: string,
    packageType: string,
    packageSize: nat,
    checksum: string,
    changesCount: nat,
    changes: seq<ChangeRecord>)

  /** The reply of an import: a refused package, or the tally of the apply loop. */
  datatype ImportReply =
    | ChecksumMismatch(expected: string, actual: string)
    | Imported(packageId: string, changesApplied: nat, conflictsDetected: nat, conflicts: seq<Conflict>)
  {
    predicate Success()
    {
      Imported?
    }
  }

  /** The reply of an upload: a refused package, or the import's reply with the station added. */
  datatype UploadReply =
    | UploadRejected(expected: string, actual: string)
    | Forwarded(reply: ImportReply, stationId: string, responsePackageId: string)

  /** An exception that ends the call, after the transaction is rolled back. */
  datatype Fatal =
    | QueryFailed(error: SqlError)
    | PackageTypeRejected(packageType: string)   // the registry's CHECK on package_type
    | DuplicatePackage(packageId: string)          // the registry's primary key

  /** `"PKG-" + now.strftime('%Y%m%d-%H%M%S') + "-" + station`. */
  function PackageId(now: Clock.DateTime, station: string): (id: string)
    requires now.Valid()
    ensures |id| == 4 + 15 + 1 + |station| && id[..4] == "PKG-" && id[19] == '-' && id[20..] == station
  {
    "PKG-" + Clock.Compact(now) + "-" + station
  }

  /** The PENDING row a generation registers. */
  function PendingRecord(syncType: string, station: string, hospital: string, size: nat, checksum: string,
                         count: nat, createdAt: Clock.DateTime): Registry.PackageRecord
  {
    Registry.PackageRecord(syncType, Registry.Station, station, Registry.Hospital, hospital, hospital,
      Registry.Manual, Some(size), checksum, count, Registry.Pending, Clock.SqlTimestamp(createdAt), None)
  }

  /** The APPLIED row an import registers; its size is left NULL. */
  function AppliedRecord(packageType: string, checksum: string, count: nat,
                         processedAt: Clock.DateTime): Registry.PackageRecord
  {
    Registry.PackageRecord(packageType, Registry.Station, "UNKNOWN", Registry.Hospital, "LOCAL", "HOSP-001",
      Registry.Usb, None, checksum, count, Registry.Applied, Clock.SqlTimestamp(processedAt),
      Some(Clock.SqlTimestamp(processedAt)))
  }

  /** `UPDATE stations SET last_sync_at = CURRENT_TIMESTAMP, sync_status = 'SYNCED' WHERE station_id = ?` */
  function MarkSynced(stations: map<string, Registry.StationSync>, station: string,
                      at: Clock.DateTime): map<string, Registry.StationSync>
  {
    if station in stations
    then stations[station := Registry.StationSync(Registry.StationSynced, Some(Clock.SqlTimestamp(at)))]
    else stations
  }

  /** The nested collection loops: each table's query, then one change per returned row. */
  method CollectChanges(db: Database, sources: seq<Source>, delta: bool, station: string, since: string,
                        now: Clock.DateTime) returns (r: Result<seq<ChangeRecord>, SqlError>)
    ensures r == Extract(db, sources, delta, station, since, now)
  {
    var changes: seq<ChangeRecord> := [];
    var k := 0;
    while k < |sources|
      invariant 0 <= k <= |sources|
      invariant Extract(db, sources[..k], delta, station, since, now) == Ok(changes)
    {
      var rows := Query(db, sources[k], delta, station, since);
      assert sources[..k + 1][..k] == sources[..k];
      if rows.Err? {
        ExtractErrorStops(db, sources, k + 1, delta, station, since, now);
        return Err(rows.error);
      }
      changes := AppendChanges(changes, sources[k], rows.value, delta, now);
      k := k + 1;
    }
    assert sources[..k] == sources;
    r := Ok(changes);
  }

  /** The inner loop: one INSERT change per row, appended in row order. */
  method AppendChanges(changes: seq<ChangeRecord>, s: Source, rows: Table, delta: bool, now: Clock.DateTime)
    returns (out: seq<ChangeRecord>)
    ensures out == changes + ToChanges(s, rows, delta, now)
  {
    out := changes;
    var j := 0;
    while j < |rows|
      invariant 0 <= j <= |rows|
      invariant out == changes + ToChanges(s, rows[..j], delta, now)
    {
      assert ToChanges(s, rows[..j + 1], delta, now) == ToChanges(s, rows[..j], delta, now) + [ToChange(s, rows[j], delta, now)];
      out := out + [ToChange(s, rows[j], delta, now)];
      j := j + 1;
    }
    assert rows[..j] == rows;
  }

  class SyncDatabase {
    /** The local tables. */
    var db: Database
    /** `sync_packages`, keyed by `package_id`. */
    var packages: Registry.Registry
    /** The sync columns of `stations`, keyed by `station_id`. */
    var stations: map<string, Registry.StationSync>
    /** `json.dumps(changes, ensure_ascii=False, sort_keys=True)`. */
    const canonicalJson: seq<ChangeRecord> -> string
    /** `hashlib.sha256(text.encode('utf-8')).hexdigest()`. */
    const sha256Hex: string -> string

    constructor (db0: Database, stations0: map<string, Registry.StationSync>,
                 canonicalJson: seq<ChangeRecord> -> string, sha256Hex: string -> string)
      ensures db == db0 && packages == map[] && stations == stations0
      ensures this.canonicalJson == canonicalJson && this.sha256Hex == sha256Hex
    {
      db := db0;
      packages := map[];
      stations := stations0;
      this.canonicalJson := canonicalJson;
      this.sha256Hex := sha256Hex;
    }

    /** The checksum of a change list. */
    function Checksum(changes: seq<ChangeRecord>): string
    {
      sha256Hex(canonicalJson(changes))
    }

    /**
     * Tables well formed with unique keys, the registry kept apart from them,
     * and every registry row admitted by its CHECK.
     */
    predicate Valid()
      reads this
    {
      ValidDatabase(db) && "sync_packages" !in db && "stations" !in db && Registry.RegistryValid(packages)
    }

    /**
     * `generate_sync_package`: collect the changes, hash their canonical JSON,
     * and register one PENDING package. The tables are only read.
     */
    method GenerateSyncPackage(stationId: string, hospitalId: string, syncType: string, since: Option<string>,
                               now: Clock.Instant) returns (r: Result<Generated, Fatal>)
      requires now.local.Valid()
      modifies this
      ensures db == old(db) && stations == old(stations)
      ensures var cs := PackageChanges(old(db), stationId, syncType, since, now.local);
        var id := PackageId(now.local, stationId);
        if cs.Err? then r == Err(QueryFailed(cs.error)) && packages == old(packages)
        else if !Registry.ValidPackageType(syncType) then
          r == Err(PackageTypeRejected(syncType)) && packages == old(packages)
        else if id in old(packages) then r == Err(DuplicatePackage(id)) && packages == old(packages)
        else
          var json := canonicalJson(cs.value);
          r == Ok(Generated(id, syncType, Text.Utf8Length(json), sha256Hex(json), |cs.value|, cs.value)) &&
          packages == old(packages)[id := PendingRecord(syncType, stationId, hospitalId, Text.Utf8Length(json),
                                                        sha256Hex(json), |cs.value|, now.utc)]
      ensures old(Valid()) ==> Valid()
    {
      var delta := IsDelta(syncType, since);
      var collected := CollectChanges(db, SourcesFor(delta), delta, stationId, if delta then since.value else "",
                                      now.local);
      if collected.Err? {
        return Err(QueryFailed(collected.error));
      }
      var changes := collected.value;
      var json := canonicalJson(changes);
      var checksum := sha256Hex(json);
      var size := Text.Utf8Length(json);
      var id := PackageId(now.local, stationId);
      if !Registry.ValidPackageType(syncType) {
        return Err(PackageTypeRejected(syncType));
      }
      if id in packages {
        return Err(DuplicatePackage(id));
      }
      packages := packages[id := PendingRecord(syncType, stationId, hospitalId, size, checksum, |changes|, now.utc)];
      r := Ok(Generated(id, syncType, size, checksum, |changes|, changes));
    }

    /**
     * `import_sync_package`: refuse a package whose checksum does not match its
     * changes; otherwise apply the changes in order, collect the conflicts, and
     * register the package as APPLIED, replacing any earlier row for that id.
     */
    method ImportSyncPackage(packageId: string, changes: seq<ChangeRecord>, checksum: string, packageType: string,
                             now: Clock.Instant) returns (r: Result<ImportReply, Fatal>)
      modifies this
      ensures stations == old(stations)
      ensures Checksum(changes) != checksum ==>
        r == Ok(ChecksumMismatch(checksum, Checksum(changes))) && db == old(db) && packages == old(packages)
      ensures Checksum(changes) == checksum && !Registry.ValidPackageType(packageType) ==>
        r == Err(PackageTypeRejected(packageType)) && db == old(db) && packages == old(packages)
      ensures Checksum(changes) == checksum && Registry.ValidPackageType(packageType) ==>
        var a := ApplyAll(old(db), changes);
        r == Ok(Imported(packageId, a.applied, |a.conflicts|, a.conflicts)) && db == a.db &&
        packages == old(packages)[packageId := AppliedRecord(packageType, checksum, |changes|, now.utc)]
      ensures old(Valid()) ==> Valid()
    {
      var actual := sha256Hex(canonicalJson(changes));
      if actual != checksum {
        return Ok(ChecksumMismatch(checksum, actual));
      }
      var snapshot := db;
      var applied := 0;
      var conflicts: seq<Conflict> := [];
      var i := 0;
      while i < |changes|
        invariant 0 <= i <= |changes|
        invariant ApplyAll(snapshot, changes[..i]) == ApplyState(db, applied, conflicts)
        invariant packages == old(packages) && stations == old(stations)
      {
        var c := changes[i];
        assert changes[..i + 1][..i] == changes[..i];
        if c.operation == "INSERT" || c.operation == "UPDATE" || c.operation == "DELETE" {
          var res: Result<Database, SqlError>;
          if c.operation == "INSERT" {
            res := InsertOrReplace(db, c.table, c.data);
          } else if c.operation == "UPDATE" {
            res := UpdateById(db, c.table, c.data);
          } else {
            res := DeleteById(db, c.table, Get(c.data, "id"));
          }
          match res {
            case Ok(d) =>
              db := d;
              applied := applied + 1;
            case Err(e) =>
              conflicts := conflicts + [Conflict(c.table, c.operation, e, c.data)];
          }
        }
        i := i + 1;
      }
      assert changes[..i] == changes;
      if old(Valid()) {
        ApplyAllKeepsValid(snapshot, changes);
      }
      if !Registry.ValidPackageType(packageType) {
        db := snapshot;
        return Err(PackageTypeRejected(packageType));
      }
      packages := packages[packageId := AppliedRecord(packageType, checksum, |changes|, now.utc)];
      r := Ok(Imported(packageId, applied, |conflicts|, conflicts));
    }

    /**
     * `upload_sync_package`: refuse a package whose checksum does not match;
     * otherwise import it and, when the import succeeds, mark the sending
     * station SYNCED. The reply adds the station and the response package id.
     */
    method UploadSyncPackage(stationId: string, packageId: string, changes: seq<ChangeRecord>, checksum: string,
                             packageType: string, now: Clock.Instant, later: Clock.Instant)
      returns (r: Result<UploadReply, Fatal>)
      modifies this
      ensures Checksum(changes) != checksum ==>
        r == Ok(UploadRejected(checksum, Checksum(changes))) &&
        db == old(db) && packages == old(packages) && stations == old(stations)
      ensures Checksum(changes) == checksum && !Registry.ValidPackageType(packageType) ==>
        r == Err(PackageTypeRejected(packageType)) &&
        db == old(db) && packages == old(packages) && stations == old(stations)
      ensures Checksum(changes) == checksum && Registry.ValidPackageType(packageType) ==>
        var a := ApplyAll(old(db), changes);
        r == Ok(Forwarded(Imported(packageId, a.applied, |a.conflicts|, a.conflicts), stationId,
                          "PKG-RESPONSE-" + packageId)) &&
        db == a.db &&
        packages == old(packages)[packageId := AppliedRecord(packageType, checksum, |changes|, now.utc)] &&
        stations == MarkSynced(old(stations), stationId, later.utc)
      ensures old(Valid()) ==> Valid()
    {
      var actual := sha256Hex(canonicalJson(changes));
      if actual != checksum {
        return Ok(UploadRejected(checksum, actual));
      }
      var result := ImportSyncPackage(packageId, changes, checksum, packageType, now);
      if result.Err? {
        return Err(result.error);
      }
      var reply := result.value;
      if reply.Success() {
        stations := MarkSynced(stations, stationId, later.utc);
      }
      r := Ok(Forwarded(reply, stationId, "PKG-RESPONSE-" + packageId));
    }
  }
}
