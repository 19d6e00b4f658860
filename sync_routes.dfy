/**
 * The HTTP handlers in front of the sync operations: they validate the request
 * body, answer 400 for a malformed one, delegate to the station database, and
 * answer 500 for an exception it raises.
 */
module SyncRoutes {
  import opened Wrappers
  import Clock
  import Registry
  import opened Changes
  import opened Extraction
  import opened Packages

  /** Body of `POST /api/station/sync/generate`. */
  datatype GenerateRequest = GenerateRequest(stationId: string, hospitalId: string, syncType: string,
                                             sinceTimestamp: Option<string>)

  /** Body of the import and upload routes; `packageType` defaults to "FULL" in the request model. */
  datatype UploadRequest = UploadRequest(stationId: string, packageId: string, packageType: string,
                                         changes: seq<ChangeRecord>, checksum: string)

  /** Why a request is refused with 400. */
  datatype RequestError = InvalidSyncType(syncType: string) | EmptyChanges | MissingStationId | MissingPackageId
                        | MissingChecksum

  datatype RouteError = BadRequest(reason: RequestError) | ServerError(fatal: Fatal)

  /** The generate route accepts exactly the sync types DELTA and FULL. */
  function GenerateRequestError(req: GenerateRequest): (e: Option<RequestError>)
    ensures e.None? <==> req.syncType in {"DELTA", "FULL"}
    ensures e.Some? ==> e == Some(InvalidSyncType(req.syncType))
  {
    if req.syncType != "DELTA" && req.syncType != "FULL" then Some(InvalidSyncType(req.syncType)) else None
  }

  /** The import route's checks, in order: changes, then package id, then checksum. */
  function ImportRequestError(req: UploadRequest): (e: Option<RequestError>)
    ensures e.None? <==> req.changes != [] && req.packageId != "" && req.checksum != ""
  {
    if req.changes == [] then Some(EmptyChanges)
    else if req.packageId == "" then Some(MissingPackageId)
    else if req.checksum == "" then Some(MissingChecksum)
    else None
  }

  /** The upload route's checks, in order: changes, station id, package id, checksum. */
  function UploadRequestError(req: UploadRequest): (e: Option<RequestError>)
    ensures e.None? <==> req.changes != [] && req.stationId != "" && req.packageId != "" && req.checksum != ""
  {
    if req.changes == [] then Some(EmptyChanges)
    else if req.stationId == "" then Some(MissingStationId)
    else if req.packageId == "" then Some(MissingPackageId)
    else if req.checksum == "" then Some(MissingChecksum)
    else None
  }

  /**
   * The upload route checks exactly what the import route checks plus the
   * station id, placed second: every body it accepts the import route accepts,
   * and apart from a missing station id it reports the import route's reason.
   */
  lemma UploadChecksRefineImportChecks(req: UploadRequest)
    ensures UploadRequestError(req).None? <==> ImportRequestError(req).None? && req.stationId != ""
    ensures UploadRequestError(req) ==
      if req.changes != [] && req.stationId == "" then Some(MissingStationId) else ImportRequestError(req)
  {
  }

  /**
   * A body produced from a generated package (non-empty changes, its id and
   * checksum) passes the import route's checks.
   */
  lemma GeneratedPackagePassesImportChecks(g: Generated, stationId: string, packageType: string)
    requires g.changes != [] && g.packageId != "" && g.checksum != ""
    ensures ImportRequestError(UploadRequest(stationId, g.packageId, packageType, g.changes, g.checksum)).None?
  {
  }

  method GenerateRoute(store: SyncDatabase, req: GenerateRequest, now: Clock.Instant)
    returns (r: Result<Generated, RouteError>)
    requires now.local.Valid()
    modifies store
    ensures GenerateRequestError(req).Some? ==>
      r == Err(BadRequest(GenerateRequestError(req).value)) && store.packages == old(store.packages)
    ensures store.db == old(store.db) && store.stations == old(store.stations)
    ensures GenerateRequestError(req).None? ==>
      var cs := PackageChanges(old(store.db), req.stationId, req.syncType, req.sinceTimestamp, now.local);
      var id := PackageId(now.local, req.stationId);
      if cs.Err? then r == Err(ServerError(QueryFailed(cs.error)))
      else if id in old(store.packages) then r == Err(ServerError(DuplicatePackage(id)))
      else r.Ok? && r.value.packageId == id && r.value.changes == cs.value &&
           r.value.checksum == store.Checksum(cs.value) && r.value.packageType == req.syncType &&
           id in store.packages && store.packages[id].status == Registry.Pending
  {
    var invalid := GenerateRequestError(req);
    if invalid.Some? {
      return Err(BadRequest(invalid.value));
    }
    var result := store.GenerateSyncPackage(req.stationId, req.hospitalId, req.syncType, req.sinceTimestamp, now);
    match result {
      case Ok(g) => r := Ok(g);
      case Err(f) => r := Err(ServerError(f));
    }
  }

  method ImportRoute(store: SyncDatabase, req: UploadRequest, now: Clock.Instant)
    returns (r: Result<ImportReply, RouteError>)
    modifies store
    ensures store.stations == old(store.stations)
    ensures ImportRequestError(req).Some? ==>
      r == Err(BadRequest(ImportRequestError(req).value)) &&
      store.db == old(store.db) && store.packages == old(store.packages)
    ensures ImportRequestError(req).None? && store.Checksum(req.changes) != req.checksum ==>
      r == Ok(ChecksumMismatch(req.checksum, store.Checksum(req.changes))) &&
      store.db == old(store.db) && store.packages == old(store.packages)
    ensures ImportRequestError(req).None? && store.Checksum(req.changes) == req.checksum &&
            !Registry.ValidPackageType(req.packageType) ==>
      r == Err(ServerError(PackageTypeRejected(req.packageType))) &&
      store.db == old(store.db) && store.packages == old(store.packages)
    ensures ImportRequestError(req).None? && store.Checksum(req.changes) == req.checksum &&
            Registry.ValidPackageType(req.packageType) ==>
      var a := ApplyAll(old(store.db), req.changes);
      r == Ok(Imported(req.packageId, a.applied, |a.conflicts|, a.conflicts)) && store.db == a.db &&
      store.packages == old(store.packages)[req.packageId := AppliedRecord(req.packageType, req.checksum,
                                                                          |req.changes|, now.utc)]
  {
    var invalid := ImportRequestError(req);
    if invalid.Some? {
      return Err(BadRequest(invalid.value));
    }
    var result := store.ImportSyncPackage(req.packageId, req.changes, req.checksum, req.packageType, now);
    match result {
      case Ok(reply) => r := Ok(reply);
      case Err(f) => r := Err(ServerError(f));
    }
  }

  method UploadRoute(store: SyncDatabase, req: UploadRequest, now: Clock.Instant, later: Clock.Instant)
    returns (r: Result<UploadReply, RouteError>)
    modifies store
    ensures UploadRequestError(req).Some? ==>
      r == Err(BadRequest(UploadRequestError(req).value)) &&
      store.db == old(store.db) && store.packages == old(store.packages) && store.stations == old(store.stations)
    ensures UploadRequestError(req).None? && store.Checksum(req.changes) != req.checksum ==>
      r == Ok(UploadRejected(req.checksum, store.Checksum(req.changes))) &&
      store.db == old(store.db) && store.packages == old(store.packages) && store.stations == old(store.stations)
    ensures UploadRequestError(req).None? && store.Checksum(req.changes) == req.checksum &&
            !Registry.ValidPackageType(req.packageType) ==>
      r == Err(ServerError(PackageTypeRejected(req.packageType))) &&
      store.db == old(store.db) && store.packages == old(store.packages) && store.stations == old(store.stations)
    ensures UploadRequestError(req).None? && store.Checksum(req.changes) == req.checksum &&
            Registry.ValidPackageType(req.packageType) ==>
      var a := ApplyAll(old(store.db), req.changes);
      r == Ok(Forwarded(Imported(req.packageId, a.applied, |a.conflicts|, a.conflicts), req.stationId,
                        "PKG-RESPONSE-" + req.packageId)) &&
      store.db == a.db && store.stations == MarkSynced(old(store.stations), req.stationId, later.utc)
  {
    var invalid := UploadRequestError(req);
    if invalid.Some? {
      return Err(BadRequest(invalid.value));
    }
    var result := store.UploadSyncPackage(req.stationId, req.packageId, req.changes, req.checksum,
                                          req.packageType, now, later);
    match result {
      case Ok(reply) => r := Ok(reply);
      case Err(f) => r := Err(ServerError(f));
    }
  }
}
