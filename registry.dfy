/**
 * The `sync_packages` registry row and the sync columns of `stations`, with
 * the CHECK constraints their CREATE TABLE statements declare.
 */
module Registry {
  import opened Wrappers

  /** `status` of a sync package. */
  datatype PackageStatus = Pending | Uploaded | Processing | Applied | Failed

  /** `source_type` and `destination_type`. */
  datatype Endpoint = Station | Hospital | Central

  /** `transfer_method`. */
  datatype TransferMethod = Network | Usb | Manual | Drone

  /** `package_type` is free text in the row; the CHECK constraint admits three values. */
  predicate ValidPackageType(t: string)
  {
    t == "DELTA" || t == "FULL" || t == "REPORT"
  }

  /** One `sync_packages` row, keyed by `package_id` in the registry map. */
  datatype PackageRecord = PackageRecord(
    packageType: string,
    sourceType: Endpoint,
    sourceId: string,
    destinationType: Endpoint,
    destinationId: string,
    hospitalId: string,
    transferMethod: TransferMethod,
    packageSize: Option<nat>,
    checksum: string,
    changesCount: nat,
    status: PackageStatus,
    createdAt: string,
    processedAt: Option<string>)

  /** `sync_status` of a station. */
  datatype StationSyncStatus = StationPending | StationSyncing | StationSynced | StationFailed

  /** The sync columns of one `stations` row, keyed by `station_id`. */
  datatype StationSync = StationSync(syncStatus: StationSyncStatus, lastSyncAt: Option<string>)

  type Registry = map<string, PackageRecord>

  /** Every registry row satisfies the table's CHECK on `package_type`. */
  predicate RegistryValid(packages: Registry)
  {
    forall id :: id in packages ==> ValidPackageType(packages[id].packageType)
  }
}
