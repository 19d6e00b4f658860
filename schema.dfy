/**
 * The declarations of the MIRS tables that sync packages read and write,
 * as `init_database` creates them: columns, primary key, and the NOT NULL
 * columns that have no default.
 */
module Schema {
  import opened Store

  const Items := TableSchema(
    ["item_code"],
    {"item_code", "item_name", "item_category", "category", "unit", "min_stock", "created_at", "updated_at"},
    {"item_code", "item_name"},
    false)

  const Medicines := TableSchema(
    ["medicine_code"],
    {"medicine_code", "generic_name", "brand_name", "unit", "min_stock", "current_stock", "is_controlled_drug",
     "controlled_level", "is_active", "station_id", "created_at", "updated_at"},
    {"medicine_code", "generic_name"},
    false)

  const InventoryEvents := TableSchema(
    ["id"],
    {"id", "event_type", "item_code", "quantity", "batch_number", "expiry_date", "remarks", "station_id",
     "operator", "timestamp"},
    {"id", "event_type", "item_code", "quantity", "station_id"},
    true)

  const BloodInventory := TableSchema(
    ["blood_type", "station_id"],
    {"blood_type", "quantity", "station_id", "last_updated"},
    {"blood_type", "station_id"},
    false)

  /** Note the absence of a `remarks` column. */
  const BloodEvents := TableSchema(
    ["id"],
    {"id", "event_type", "blood_type", "quantity", "station_id", "operator", "timestamp"},
    {"id", "event_type", "blood_type", "quantity", "station_id"},
    true)

  const EmergencyBloodBags := TableSchema(
    ["id"],
    {"id", "blood_bag_code", "blood_type", "product_type", "collection_date", "expiry_date", "volume_ml",
     "status", "station_id", "operator", "patient_name", "usage_timestamp", "remarks", "created_at"},
    {"id", "blood_bag_code", "blood_type", "product_type", "collection_date", "expiry_date", "station_id",
     "operator"},
    true)

  /** Keyed by a TEXT `id`, so not an id-keyed table. */
  const Equipment := TableSchema(
    ["id"],
    {"id", "name", "category", "quantity", "status", "last_check", "power_level", "remarks", "created_at",
     "updated_at"},
    {"id", "name"},
    false)

  const EquipmentChecks := TableSchema(
    ["id"],
    {"id", "equipment_id", "status", "power_level", "remarks", "station_id", "operator", "timestamp"},
    {"id", "equipment_id", "status", "station_id"},
    true)

  const SurgeryRecords := TableSchema(
    ["id"],
    {"id", "record_number", "record_date", "patient_name", "surgery_sequence", "surgery_type", "surgeon_name",
     "anesthesia_type", "duration_minutes", "remarks", "station_id", "status", "patient_outcome", "archived_at",
     "archived_by", "created_at", "updated_at"},
    {"id", "record_number", "record_date", "patient_name", "surgery_sequence", "surgery_type", "surgeon_name",
     "station_id"},
    true)

  const SurgeryConsumptions := TableSchema(
    ["id"],
    {"id", "surgery_id", "item_code", "item_name", "quantity", "unit"},
    {"id", "surgery_id", "item_code", "item_name", "quantity", "unit"},
    true)

  const DispenseRecords := TableSchema(
    ["id"],
    {"id", "medicine_code", "medicine_name", "quantity", "unit", "dispensed_by", "approved_by", "status",
     "emergency_reason", "patient_ref_id", "patient_name", "station_code", "storage_location", "batch_number",
     "lot_number", "expiry_date", "prescription_id", "approved_at", "pharmacist_notes", "created_at",
     "updated_at", "unit_cost"},
    {"id", "medicine_code", "medicine_name", "quantity", "dispensed_by"},
    true)

  const StationMergeHistory := TableSchema(
    ["id"],
    {"id", "source_station_id", "target_station_id", "merge_type", "items_merged", "blood_merged",
     "equipment_merged", "surgery_records_merged", "merge_notes", "merged_by", "merged_at"},
    {"id", "source_station_id", "target_station_id", "merge_type", "merged_by"},
    true)

  const InventoryAudit := TableSchema(
    ["id"],
    {"id", "audit_number", "audit_type", "status", "station_id", "started_by", "started_at", "completed_by",
     "completed_at", "total_items", "discrepancies", "notes"},
    {"id", "audit_number", "audit_type", "station_id", "started_by"},
    true)

  const InventoryAuditDetails := TableSchema(
    ["id"],
    {"id", "audit_id", "item_code", "item_name", "system_quantity", "actual_quantity", "discrepancy", "remarks",
     "audited_by", "audited_at"},
    {"id", "audit_id", "item_code", "item_name", "system_quantity", "actual_quantity", "discrepancy",
     "audited_by"},
    true)

  const Hospitals := TableSchema(
    ["hospital_id"],
    {"hospital_id", "hospital_name", "hospital_type", "command_level", "latitude", "longitude", "contact_info",
     "network_access", "total_stations", "operational_status", "created_at", "updated_at"},
    {"hospital_id", "hospital_name"},
    false)

  const HospitalDailyReports := TableSchema(
    ["report_id"],
    {"report_id", "hospital_id", "report_date", "total_stations", "operational_stations", "offline_stations",
     "total_patients_treated", "critical_patients", "surgeries_performed", "blood_inventory_json",
     "critical_shortages_json", "equipment_status_json", "alerts_json", "submitted_by", "submitted_at",
     "received_by_central", "received_at"},
    {"report_id", "hospital_id", "report_date", "total_stations", "operational_stations", "offline_stations",
     "submitted_by"},
    false)

  /**
   * Every table `init_database` creates except `stations` and
   * `sync_packages`, whose rows are the package registry and the station
   * list that the sync database keeps beside its tables.
   */
  const Catalog: map<string, TableSchema> := map[
    "items" := Items,
    "medicines" := Medicines,
    "inventory_events" := InventoryEvents,
    "blood_inventory" := BloodInventory,
    "blood_events" := BloodEvents,
    "emergency_blood_bags" := EmergencyBloodBags,
    "equipment" := Equipment,
    "equipment_checks" := EquipmentChecks,
    "surgery_records" := SurgeryRecords,
    "surgery_consumptions" := SurgeryConsumptions,
    "dispense_records" := DispenseRecords,
    "station_merge_history" := StationMergeHistory,
    "inventory_audit" := InventoryAudit,
    "inventory_audit_details" := InventoryAuditDetails,
    "hospitals" := Hospitals,
    "hospital_daily_reports" := HospitalDailyReports]

  /** A database with the MIRS tables, all empty; the registry tables are not among them. */
  function Fresh(): (db: Database)
    ensures db.Keys == Catalog.Keys && ValidDatabase(db)
    ensures "stations" !in db && "sync_packages" !in db
  {
    CatalogWellFormed();
    map t | t in Catalog :: Relation(Catalog[t], [])
  }

  /** A database whose tables are declared as `init_database` declares them. */
  predicate IsMirs(db: Database)
  {
    forall t :: t in Catalog ==> t in db && db[t].schema == Catalog[t]
  }

  lemma CatalogWellFormed()
    ensures forall t :: t in Catalog ==> Catalog[t].WellFormed()
  {
  }
}
