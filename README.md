# MIRS station sync, blood ledger and station identity in Dafny

This project models the core of MIRS, a medical inventory system for field medical stations, and proves properties of that model. MIRS is a FastAPI service over one SQLite database per station.

It models:

- **Federated sync.** A station collects changes from its local tables into a *sync package*, a list of `INSERT` change records. The package carries a SHA-256 checksum of its canonical JSON and is registered in `sync_packages` as PENDING.
  - Another station, or the hospital tier, *imports* a package. It refuses one whose checksum does not match. Otherwise it applies every change best-effort, in order. A change that raises becomes a *conflict* rather than an abort. The package is then registered as APPLIED.
  - The hospital's *upload* imports the package and then marks the sending station SYNCED.
  - The three HTTP routes validate the request body before delegating.
- **The blood ledger.** This covers `blood_inventory` rows keyed by (blood type, station), and the `blood_events` log.
  - Receiving adds units or creates the row.
  - Consuming checks the stock first.
  - A transfer between stations subtracts from the source, adds to the target and logs TRANSFER_OUT and TRANSFER_IN.
- **Station identity.** Ids have the form `TYPE-ORG-YYMMDD-UUID`, with a legacy form `TYPE-ORG-NUMBER`. The model covers generating, parsing, validating and display names.
- **Smaller operations.**
  - Consuming an item against its event-sourced stock.
  - A pharmacist approving a dispense record.
  - Using an emergency blood bag.
  - Archiving a surgery record.
  - The three code generators: item codes, emergency blood-bag codes and surgery record numbers.

Module layout:

| module | file | what it holds |
|---|---|---|
| `Wrappers` | wrappers.dfy | `Option`, `Result` |
| `Text` | text.dfy | Python's `split`/`join`, `str(n)`, `f"{n:03d}"`, `int()` on digit strings, string order, ASCII lower-casing, UTF-8 length |
| `Clock` | clock.dfy | a `datetime` value and the `strftime`/`isoformat`/`CURRENT_TIMESTAMP` renderings the code uses |
| `Store` | store.dfy | the relational store: tables as row sequences in scan order, and the SQL statements sync issues, with their errors |
| `Schema` | schema.dfy | the declarations of the tables sync reads and writes |
| `Registry` | registry.dfy | `sync_packages` rows and the sync columns of `stations` |
| `Changes` | changes.dfy | change records, the per-change statement, and the best-effort apply loop as a function |
| `Replay` | replay.dfy | replaying a package of INSERTs: runs of INSERT OR REPLACE and their idempotence |
| `StatementText` | statement_text.dfy | the DELETE text the import builds from a change, and what SQLite reads in it |
| `Extraction` | extraction.dfy | the tables a package scans, their queries, and the change made of each row |
| `Packages` | packages.dfy | class `SyncDatabase` with generate / import / upload as methods over its state |
| `SyncRoutes` | sync_routes.dfy | the three sync routes |
| `Blood` | blood.dfy | the ledger as a value with `Process`/`Transfer`, and class `BloodBank` whose methods follow them |
| `StationIdentity` | station_identity.dfy | `StationIdentity` |
| `Codes` | codes.dfy | item codes, blood-bag codes, surgery record numbers |
| `Inventory`, `Pharmacy`, `EmergencyBags`, `Surgery` | inventory.dfy, pharmacy.dfy, emergency_bags.dfy, surgery.dfy | the smaller operations, as transitions on values |

Modelling choices:

- **Parameters.** Clock readings, the fresh UUID and the `CURRENT_TIMESTAMP` text are parameters.
- **Checksum and canonical JSON.** `json.dumps(..., sort_keys=True)` and SHA-256 are two function-valued constants of `SyncDatabase`, so nothing is assumed about them. The package size is `Text.Utf8Length` of that JSON.
- **Transactions.** Every operation that raises leaves its tables as they were: the model returns the old state with the error.

- **Row order.** A table whose key is `id INTEGER PRIMARY KEY` is *id-keyed*: its `id` is the rowid, so the table is kept and scanned in ascending `id` order, and INSERT OR REPLACE puts a row at its `id`'s place. Every other table (those keyed by text columns, `equipment`'s TEXT `id` included) gets a fresh, largest rowid for each stored row, so INSERT OR REPLACE puts the row last.
- **Registry tables.** `sync_packages` and `stations` are the fields `packages` and `stations` of `SyncDatabase`, kept apart from the tables in `db`; `SyncDatabase.Valid` says `db` holds neither name.

An UPDATE change carrying only `id` is a conflict, not a no-op: the code builds `UPDATE t SET  WHERE id = ?`, SQLite rejects the empty SET clause, and the change is counted as a conflict (`Changes.UpdateOfOnlyIdConflicts`).

## Model

| member | source | states |
|---|---|---|
| Store.Select | main.py:2179-2186 | `SELECT * FROM t WHERE c` fails on a missing table or an undeclared column; otherwise it returns at most the table's rows |
| Store.SelectOrdered | main.py:2135-2141 | `... ORDER BY col` fails when the table, a WHERE column or `col` is missing; its result is sorted ascending in `col` |
| Store.SelectOrderedExact | main.py:2135-2141 | the ordered selection holds exactly the matching rows, each as often as stored, completed to all columns, and is sorted |
| Store.SortBy | main.py:2138 | ORDER BY yields a permutation of its input that is ascending in the column |
| Store.InsertSortedSorted | main.py:2138 | inserting a row into a sorted table keeps it sorted |
| Store.NotLessTransitive | main.py:2138 | SQLite's value order (NULL < integers < text) makes "not after" transitive, so ordering is consistent |
| Store.Filter | main.py:2137 | a WHERE keeps exactly the rows it holds for (NULL never matches) |
| Store.FilterCount | main.py:2137 | a WHERE keeps each kept row as many times as it occurs |
| Store.Upsert | main.py:2309-2310 | after INSERT OR REPLACE the new row is the only row with its primary key, and every row with another key remains; a table not keyed by `id INTEGER PRIMARY KEY` stores it last |
| Store.UpsertKeepsUnique | main.py:2309-2310 | INSERT OR REPLACE keeps primary keys unique |
| Store.UpsertKeepsOrder | main.py:2309-2310 | INSERT OR REPLACE keeps an id-keyed table in ascending `id` order |
| Store.InsertSortedKeepsUnique | main.py:2309-2310 | placing a row with a new key by its `id` keeps keys unique |
| Store.RemoveKeyKeepsSorted | main.py:2309 | REPLACE's delete keeps an id-keyed table in `id` order |
| Store.FilterKeepsSorted | main.py:2323 | deleting rows keeps a table's order |
| Store.RemoveKeyInsertSorted | main.py:2309-2310 | deleting the key of a row just placed by `id` in a table without that key gives the table back |
| Store.InsertOrReplace | main.py:2305-2311 | INSERT OR REPLACE fails exactly when the data is empty, the table is missing, a column is undeclared, a NOT NULL column is NULL, or an id-keyed table's `id` is not an integer, with that error; otherwise only that table changes |
| Store.InsertError | main.py:2309-2310 | an INSERT is accepted exactly when the data is non-empty, the table exists and the row conforms to its declaration; each failing case raises its own error, in the order SQLite checks them: syntax error, no such table, no such column, datatype mismatch for a text `id` of an id-keyed table (the rowid is made an integer first), NOT NULL |
| Store.UpdateById | main.py:2313-2319 | UPDATE by id fails exactly when its error check says so; otherwise only that table changes and it keeps its row count |
| Store.UpdateError | main.py:2315-2318 | an UPDATE by id is accepted exactly when the SET clause is non-empty, the table exists, declares `id` and every SET column, and it does not set a NOT NULL column to NULL in a matching row; otherwise it raises a syntax error for an empty SET clause, no such table, no such column for an undeclared `id` or SET column, or NOT NULL only when some row matches |
| Store.DeleteById | main.py:2321-2324 | DELETE by id fails on a missing table or an `id`-less table; otherwise it keeps exactly the rows whose id differs |
| Store.InsertOrReplaceKeepsValid | main.py:2309-2310 | INSERT OR REPLACE keeps every table's rows conforming, its primary keys unique and an id-keyed table in `id` order |
| Store.UpdateByIdKeepsValid | main.py:2316-2318 | UPDATE by id keeps rows conforming, keys unique and `id` order (it never changes `id`) |
| Store.DeleteByIdKeepsValid | main.py:2323 | DELETE by id keeps rows conforming, keys unique and `id` order |
| Store.UniqueCons | main.py:2323 | keys stay unique after putting a row in front exactly when its key is new |
| Store.UniqueSnoc | main.py:2309-2310 | keys stay unique after appending a row exactly when its key is new |
| Store.RemoveKey | main.py:2309 | the rows left by REPLACE's delete are exactly those with another key |
| Store.RemoveKeyKeepsUnique | main.py:2309 | REPLACE's delete keeps keys unique |
| Store.FilterKeepsUnique | main.py:2323 | deleting rows keeps keys unique |
| Store.UpsertIdempotent | main.py:2309-2310 | replaying INSERT OR REPLACE leaves the table as the first time left it |
| Store.InsertOrReplaceIdempotent | main.py:2309-2310 | replaying an applied INSERT OR REPLACE is a no-op on the database |
| Store.UpdateByIdIdempotent | main.py:2316-2318 | replaying an applied UPDATE by id is a no-op |
| Store.DeleteByIdIdempotent | main.py:2323 | replaying an applied DELETE by id is a no-op |
| Store.FilterIdempotent | main.py:2323 | filtering twice by the same condition filters once |
| Schema.Fresh | main.py:407-893 | the empty MIRS database declares exactly the sixteen tables `init_database` creates besides `stations` and `sync_packages`, which it lacks, and is valid |
| Schema.CatalogWellFormed | main.py:416-893 | every catalogued declaration is well formed (the key is required, `id` tables are keyed by `id`) |
| Changes.ApplyChange | main.py:2299-2324 | a change is skipped exactly when its operation is unknown; an applied change alters only its own table and keeps its declaration |
| Changes.ApplyAllAccounting | main.py:2296-2332 | each change is counted at most once as applied or conflict, and exactly once when all operations are known |
| Changes.ApplyAllUnknownOperations | main.py:2299-2324 | a package of unknown operations changes nothing and reports nothing |
| Changes.ConflictsComeFromChanges | main.py:2326-2332 | every conflict reports the table, operation and data of some change of the package |
| Changes.ApplyAllKeepsValid | main.py:2299-2332 | applying a package keeps the table set, every declaration, and unique keys |
| Changes.ApplyChangeKeepsValid | main.py:2304-2324 | one applied change keeps the database valid |
| Changes.ApplyAllUntouchedTables | main.py:2299-2324 | a table that no change names is left exactly as it was |
| Changes.UpdateOfOnlyIdConflicts | main.py:2313-2318 | an UPDATE whose data is only `id` raises a syntax error and becomes a conflict |
| Changes.ItemsRejectIdStatements | main.py:2313-2323 | UPDATE and DELETE against `items`, which has no `id`, always raise |
| Changes.InsertChangeEffect | main.py:2305-2311 | an applied INSERT leaves its data as the only row with its key, keeps rows with other keys, adds nothing else |
| Changes.UpdateChangeEffect | main.py:2313-2319 | an applied UPDATE sets every non-id field in rows whose id matches and changes no other row or column |
| Changes.DeleteChangeEffect | main.py:2321-2324 | an applied DELETE removes exactly the rows whose id matches |
| Changes.ReplayChange | main.py:2299-2324 | applying an applied change again changes nothing |
| StatementText.DeleteText | main.py:2323 | the DELETE text is `DELETE FROM `, the table name as given, then ` WHERE id = ?`, and nothing else |
| StatementText.Run | main.py:2323 | `WHERE id = ?` deletes as `DELETE ... WHERE id = v` does; `WHERE ? IS NULL` empties the table when the parameter is NULL and keeps it otherwise; a missing table raises |
| StatementText.PlainNameReadsAsDeleteById | main.py:2323 | for a plain identifier the text is read as the DELETE by id it is meant to be |
| StatementText.InjectedDeleteEmptiesTable | main.py:2299-2324 | the DELETE change named `inventory_events WHERE ? IS NULL --` with no `id` is read as `DELETE FROM inventory_events WHERE ? IS NULL` with a NULL parameter, which empties that table, while the model reports it as a no-such-table conflict |
| StatementText.UndeclaredTableConflicts | main.py:2299-2333 | a change naming an undeclared table is a conflict, no such table for a DELETE, and leaves the database and the applied count as they were |
| Replay.UpsertAllElements | main.py:2305-2310 | after a run of INSERT OR REPLACE a table holds its rows whose key the run did not write and the rows the run leaves in an empty table |
| Replay.UpsertAllAppends | main.py:2305-2310 | in a table not keyed by `id INTEGER PRIMARY KEY`, a run keeps the untouched rows in order, followed by the rows it stores |
| Replay.UpsertAllKeepsOrder | main.py:2305-2310 | a run keeps keys unique and an id-keyed table in `id` order |
| Replay.SortedUniqueEqual | main.py:2309-2310 | two id-keyed tables in `id` order with unique ids holding the same rows are equal |
| Replay.UpsertAllIdempotent | main.py:2305-2310 | running the same INSERT OR REPLACE statements again leaves the table unchanged |
| Replay.ApplyAllInserts | main.py:2299-2310 | a package of INSERTs keeps every declaration and leaves each table as the run of its accepted rows, in package order, leaves it |
| Replay.ApplyAllInsertsReport | main.py:2299-2332 | for a package of INSERTs, the count and the conflicts depend only on the declarations |
| Replay.ApplyAllIdempotent | main.py:2296-2332 | importing a package of INSERTs a second time changes no table and reports the same count and conflicts |
| Replay.GeneratedInserts | main.py:2144-2151 | every change of a generated package is an INSERT |
| Replay.GeneratedPackageReplays | main.py:2144-2332 | a generated package imported twice into any valid database has the effect and report of one import |
| Extraction.ToChanges | main.py:2144-2153 | one change per row returned |
| Extraction.ExtractErrorStops | main.py:2159-2161 | once a table's query fails, the whole collection fails with that error |
| Extraction.ExtractUnfold | main.py:2133-2153 | a successful collection is the earlier tables' changes followed by the last table's |
| Extraction.ExtractShape | main.py:2144-2201 | every collected change is an INSERT of a complete row of one of the scanned tables |
| Extraction.QueryRowsComplete | main.py:2136 | `SELECT *` returns rows holding every declared column |
| Extraction.OfTableAppend | main.py:2153 | the changes of one table in a concatenation are those of each part, in order |
| Extraction.ExtractPerTable | main.py:2133-2209 | with distinct tables, a table's changes are exactly one per row its query returned, in order |
| Extraction.DeltaPackageExact | main.py:2123-2161 | a DELTA package holds, per table, one INSERT per stored row of the station after `since`, each as often as stored, ascending in the timestamp column, stamped with it |
| Extraction.FullPackageExact | main.py:2163-2209 | a package without a since-timestamp holds all of `items` and the station's rows of four tables, in scan order |
| Extraction.FullPackageOmitsEmergencyBags | main.py:2168-2174 | a full package never carries `emergency_blood_bags` and holds only INSERTs |
| Extraction.MirsFullTimestamps | main.py:2193 | against the MIRS tables every change of a full package carries its row's own timestamp column |
| Extraction.SourcesDistinct | main.py:2125-2174 | each package kind scans each table once |
| Packages.PackageId | main.py:2118 | the id is `PKG-`, fifteen characters of compact time, `-`, then the station |
| Packages.CollectChanges | main.py:2121-2209 | the nested collection loops compute exactly the specified extraction, including its first failure |
| Packages.AppendChanges | main.py:2144-2153 | the inner loop appends one change per row, in row order |
| Packages.SyncDatabase.constructor | main.py:396-399 | a station database with its tables and an empty registry |
| Packages.SyncDatabase.GenerateSyncPackage | main.py:2106-2272 | tables unchanged; a failed query, a rejected package type or a duplicate id raise with nothing registered; otherwise one PENDING row with the JSON's size, its checksum and the change count, returned with the changes; validity kept |
| Packages.SyncDatabase.ImportSyncPackage | main.py:2274-2365 | a checksum mismatch changes nothing; a rejected package type rolls back; otherwise the database is the apply loop's, the reply carries its counts and conflicts, and one APPLIED row replaces any earlier row for the id; validity kept |
| Packages.SyncDatabase.UploadSyncPackage | main.py:2367-2408 | a mismatch changes nothing; otherwise the import's effect, the sending station marked SYNCED, and the response package id `PKG-RESPONSE-<id>` |
| SyncRoutes.GenerateRequestError | main.py:4523-4525 | the generate route accepts exactly DELTA and FULL |
| SyncRoutes.ImportRequestError | main.py:4568-4578 | the import route accepts exactly non-empty changes, package id and checksum |
| SyncRoutes.UploadRequestError | main.py:4648-4662 | the upload route accepts exactly non-empty changes, station id, package id and checksum |
| SyncRoutes.UploadChecksRefineImportChecks | main.py:4648-4662 | upload checks what import checks plus the station id, placed second |
| SyncRoutes.GeneratedPackagePassesImportChecks | main.py:4568-4578 | a body built from a generated package with changes passes the import checks |
| SyncRoutes.GenerateRoute | main.py:4499-4544 | 400 for a bad sync type; a raised error becomes a 500; otherwise the generated package with the specified changes and checksum, registered PENDING |
| SyncRoutes.ImportRoute | main.py:4547-4624 | 400 for a malformed body; otherwise the import's reply or its error as a 500, with the import's effect on the state |
| SyncRoutes.UploadRoute | main.py:4627-4709 | 400 for a malformed body; otherwise the upload's reply or its error as a 500, with its effect on the state |
| Blood.ReceiveAdds | main.py:1604-1620 | receiving adds the units to the row (or creates it), returns the new quantity, and logs one RECEIVE by SYSTEM |
| Blood.ConsumeChecksStock | main.py:1621-1638 | consuming fails with 404 exactly when the row is missing and with 400 exactly when it is short; otherwise it subtracts, never below zero, and logs one CONSUME |
| Blood.ProcessTouchesOneRow | main.py:1598-1644 | receiving and consuming leave every other (blood type, station) row unchanged |
| Blood.ConsumeUndoesReceive | main.py:1604-1638 | consuming what was just received restores every row's units |
| Blood.ProcessKeepsNonNegative | main.py:1592-1663 | with positive quantities no row's units become negative |
| Blood.TransferChecksSource | main.py:3201-3221 | a transfer is refused with nothing written when the source row is missing or short, and succeeds otherwise when the log has the columns it writes |
| Blood.TransferConserves | main.py:3223-3264 | a successful transfer keeps the source and target's total, takes the quantity from the source, changes no other row, and logs TRANSFER_OUT then TRANSFER_IN of that quantity |
| Blood.TransferKeepsNonNegative | main.py:3194-3288 | with positive quantities a transfer leaves no row negative |
| Blood.TransferAsDeclaredNeverSucceeds | main.py:3232-3242 | with `blood_events` as declared, no transfer succeeds, and one that passes the stock checks fails on the missing column |
| Blood.TransferWithRemarksSucceeds | main.py:3201-3266 | with a `remarks` column, a transfer succeeds exactly when the source row exists and holds enough units |
| Blood.BloodBank.constructor | main.py:477-497 | an empty ledger over the given event columns |
| Blood.BloodBank.ProcessBlood | main.py:1592-1663 | the ledger becomes that of `Process`, or is unchanged when it fails, and the method returns its result |
| Blood.BloodBank.TransferBlood | main.py:3194-3288 | the ledger becomes that of `Transfer`, or is unchanged when it fails, and the method returns its result |
| StationIdentity.PrefixTableInvertsTypes | config/station_identity.py:24-57 | the prefix table is the exact inverse of the type table's prefixes |
| StationIdentity.TypeInfoOf | config/station_identity.py:148-159 | a profile has type information exactly when it is in the table |
| StationIdentity.ShortUuid | config/station_identity.py:98-100 | the unique id is the first four characters of the UUID text |
| StationIdentity.Generate | config/station_identity.py:59-103 | generation fails exactly for an unknown station type or an empty organisation code |
| StationIdentity.ProfileOf | config/station_identity.py:132 | a prefix maps to a known profile exactly when it is in the prefix table |
| StationIdentity.ParseAcceptsTwoOrThreeSeparators | config/station_identity.py:123-146 | an id parses exactly when it has two or three `-`; three give timestamp and uuid, two give a number |
| StationIdentity.ParsedPartsRebuildId | config/station_identity.py:123-144 | the parsed parts joined with `-` are the id |
| StationIdentity.ParseGenerated | config/station_identity.py:85-144 | parsing a generated id with dash-free parts recovers them and the profile, and the id is valid |
| StationIdentity.ParseGeneratedDefaults | config/station_identity.py:94-103 | an id from today's date and a fresh UUID (of which only the first four characters, which hold no `-`, are kept) parses back to them and is valid |
| StationIdentity.ShortUuidOfUuidText | config/station_identity.py:100 | the first four characters of a UUID's text are four characters without `-` |
| StationIdentity.ParseGeneratedFromUuid | config/station_identity.py:94-103 | an id generated from today's date and the text of any UUID is valid and parses back to its prefix, organisation, date and the UUID's first four characters |
| StationIdentity.ValidateIff | config/station_identity.py:161-176 | an id is valid exactly when it has two or three `-` and its first piece is a known prefix |
| StationIdentity.LegacyIdIsValid | config/station_identity.py:243 | the legacy id `BORP-VGH-01` is valid |
| StationIdentity.TwoPieceIdIsInvalid | config/station_identity.py:244 | `INVALID-ID` is not valid |
| StationIdentity.DisplayNameCases | config/station_identity.py:178-208 | the display name is the bare id when it does not parse, else the id and the custom name, the type's name, or 醫療站 |
| Codes.PrefixFor | main.py:1010-1019 | every category numbers under a non-empty, dash-free prefix, OTHER by default |
| Codes.Matching | main.py:1024-1029 | the query selects exactly the codes starting with the prefix and `-`, ignoring ASCII case |
| Codes.Greatest | main.py:1027-1028 | `ORDER BY item_code DESC LIMIT 1` picks a matching code that no other code sorts after, and none when there are none |
| Codes.AsWrittenRepeatsCode | main.py:1033-1043 | with `SURG-999` and `SURG-1000` stored, the code handed out is `SURG-1000`, already in use |
| Codes.MaxNumber | main.py:1036 | bounds every number a code carries |
| Codes.ItemCodeNumber | main.py:1043 | an item code parses back to its number and matches its prefix |
| Codes.NextItemCodeIsFresh | main.py:1008-1045 | the corrected numbering never hands out a stored code and exceeds every number in use |
| Codes.NumberingsAgreeBelowOverflow | main.py:1024-1043 | as written and corrected agree while the greatest code also carries the greatest number |
| Codes.CountBags | main.py:1712-1718 | the count never exceeds the bags |
| Codes.CountBagsAppend | main.py:1712-1719 | registering a bag of this type and date raises the count by one, any other by none |
| Codes.BloodCodesDistinct | main.py:1695-1701 | known blood types have distinct codes, none of them XX |
| Codes.BloodBagCodeAdvances | main.py:1692-1723 | registering a bag of the same type and date changes the next code, so consecutive codes differ |
| Codes.RemoveDashes | main.py:1099 | the date without dashes holds no `-` |
| Codes.SurgeryRecordNumberParts | main.py:1093-1101 | a record number with a dash-free name splits back into date, name and sequence |
| Inventory.CurrentStockAppend | main.py:1546-1555 | one more event changes the stock by its signed quantity; other items are unaffected |
| Inventory.ConsumeItemChecks | main.py:1541-1561 | consuming fails with 404 exactly for an unknown item and succeeds exactly when stock covers the request |
| Inventory.ConsumeItemLowersStock | main.py:1557-1575 | a consumption lowers that item's stock by the quantity, never below zero, and no other item's |
| Inventory.WithdrawalStockAppend | main.py:3718-3723 | one more event changes the approval's stock formula by its signed quantity |
| Inventory.StockFormulasAgree | main.py:3719 | the approval's formula and the consume formula agree on items whose events are all RECEIVE or CONSUME |
| Pharmacy.ApproveTransitions | main.py:3676-3758 | 401 for a wrong PIN, 404 for a missing record, 400 for an approved one; success exactly for EMERGENCY or a covered PENDING; the record becomes APPROVED by the approver at the statement time with the request's notes and updated then, keeps its medicine and quantity, and no other record changes |
| Pharmacy.ApproveOnce | main.py:3700-3701 | an approved record cannot be approved again |
| Pharmacy.ApprovePendingWithdraws | main.py:3704-3747 | approving a PENDING record lowers the checked stock by its quantity, never below zero, and logs one CONSUME |
| Pharmacy.ApproveEmergencyKeepsStock | main.py:3679-3680 | confirming an EMERGENCY record withdraws nothing |
| EmergencyBags.UseBagTransition | main.py:1819-1847 | a bag can be used exactly when it exists and is AVAILABLE; it becomes USED for the patient at that time, keeps its type; no other bag changes |
| EmergencyBags.UseBagOnce | main.py:1835-1836 | a used bag cannot be used again |
| EmergencyBags.UseBagMovesOne | main.py:1839-1845 | using a bag moves one bag from AVAILABLE to USED |
| Surgery.ArchiveTransition | main.py:1316-1368 | archiving succeeds exactly for an existing, unarchived record and an admitted outcome; the record is ARCHIVED with outcome, time and archiver, its remarks become the archive remarks of the old remarks and the notes, it is updated at that time, keeps its patient; no other record changes |
| Surgery.ArchiveOnce | main.py:1333-1334 | an archived record cannot be archived again |
| Surgery.ArchivedRemarksKeepHistory | main.py:1343-1346 | archiving keeps earlier remarks as a prefix, followed by ` \| ` and the notes |
| Surgery.OutcomeTextsDistinct | main.py:1354-1358 | each admitted outcome has its own text |
| Text.Split | config/station_identity.py:123 | `split('-')` yields at least one piece, none containing the separator |
| Text.SplitCount | config/station_identity.py:123-125 | there is one more piece than separators |
| Text.JoinSplit | config/station_identity.py:123 | joining the pieces gives the string back |
| Text.SplitJoin | config/station_identity.py:103 | splitting a join of separator-free pieces gives the pieces |
| Text.PadParses | main.py:1043 | `int(f"{n:03d}") == n` |
| Text.Pad | main.py:1722 | `f"{n:0wd}"` is all digits, as long as the width or as the number's own digits, whichever is longer |
| Text.Digits | main.py:1100 | `str(n)` is a non-empty digit string, one character long exactly below ten |
| Text.DigitsValueOfDigits | main.py:1100 | `int(str(n)) == n` |
| Text.ParseNat | main.py:1036 | `int()` succeeds exactly on non-empty digit strings |
| Text.LessTransitive | main.py:1027 | string order is transitive |
| Text.LessTotal | main.py:1027 | string order is total |
| Text.Utf8Length | main.py:2230 | the UTF-8 size is between one and four bytes per character, and the length for ASCII |
| Clock.Compact | main.py:2118 | `%Y%m%d-%H%M%S` has fifteen characters with `-` at index 8 and digits elsewhere |
| Clock.ShortDate | config/station_identity.py:96 | `%y%m%d` is six digits |

## Left out

- Name resolution. Table and column names are compared as exact strings. SQLite ignores case in names and accepts a schema prefix, so a change into `Inventory_Events` or `main.items` is applied by the code and is a no-such-table conflict in the model, and an UPDATE whose data key is `ID` is applied by the code (its `WHERE id = NULL` matches nothing) and is a no-such-column conflict in the model.
- The SQL text of INSERT and UPDATE changes: only the DELETE text is built (`StatementText`). A table or column name holding SQL of its own makes the code run another statement; the model reports any undeclared name as a conflict. `Changes.ApplyAllUntouchedTables` therefore holds of the model, not of the code, for such names (see "## Findings").
- Floating point, the REAL and BLOB SQL types, SQLite type affinity, column defaults, UNIQUE and FOREIGN KEY constraints, and AUTOINCREMENT. A NULL `id` on INSERT is therefore a NOT NULL conflict, not a fresh id, and a text `id` such as `'12'` for an INTEGER PRIMARY KEY is a datatype mismatch, not coerced to 12.
- A UNIQUE column other than the key (`blood_bag_code`, `record_number`, `audit_number`, `(hospital_id, report_date)`): INSERT OR REPLACE also deletes a row that clashes on it. The model replaces by primary key only.
- A NOT NULL column with a default (`medicines.station_id`, `dispense_records.status` and others) is not required: INSERT OR REPLACE stores the default for a NULL there, which the model does not track, and a plain UPDATE setting it to NULL, which SQLite refuses, is accepted by the model.
- A TEXT PRIMARY KEY column may hold NULL in SQLite; the model requires a value in every key column.
- `Replay.ApplyAllIdempotent`: replay is proved for packages of INSERTs only, the only kind a station generates. For a package with UPDATE or DELETE changes no package-level replay property is stated. Its second report can differ from the first: an UPDATE that sets a NOT NULL column to NULL, on an id a later INSERT of the package creates, matches no row on the first run and is a NOT NULL conflict on the second.
- The registry tables `stations` and `sync_packages` are not tables of `SyncDatabase.db`: a change naming either table is a "no such table" conflict in the model, while the code would write the registry row.
- The indexes `init_database` creates. None is on `station_id`, so the full-sync scans read the rows in rowid order, as modelled. The order of rows tied under ORDER BY depends on SQLite's query plan (an index on the timestamp column, say); the model places tied rows in scan order, and its lemmas claim only the ascending order and the multiset of rows.
- CHECK constraints are modelled only where the core relies on them: `sync_packages.package_type` and `surgery_records.patient_outcome` (`Surgery.OutcomeRejected`).
- Logging, HTTP status codes beyond the error constructors' comments, and `conn.close()`.
- The SQL error texts, so a conflict carries the error kind, not SQLite's message.
- SHA-256 and `json.dumps` are opaque functions. Nothing is proved about collisions or about the JSON text.
- Pydantic validation of change records happens before the model's inputs exist: `table`, `operation` and `timestamp` must be strings and `data` a dict, or FastAPI answers 422. The model's `ChangeRecord.timestamp` is any `Value`, so a change with a NULL timestamp reaches `SyncRoutes.ImportRoute` and `UploadRoute` in the model, where the code refuses the body; in particular a full package built from a row whose timestamp cell is NULL passes `SyncRoutes.GeneratedPackagePassesImportChecks` but would be refused by the real route. So does the route's ValueError for a change missing a field, and the `gt=0` quantity checks. The model takes quantities as `int` and states the non-negativity lemmas for positive quantities.
- `Clock.ShortDate` and `Codes.BloodBagCode`: `strptime` on a non-canonical or invalid collection date (and its ValueError) is not modelled. The date is a valid `DateTime` and the stored date string is its `YYYY-MM-DD` rendering.
- `Text.ParseNat`: Python's `int()` also accepts surrounding whitespace, a sign, underscores and non-ASCII digits. Only ASCII digit strings are modelled, so `NumberOf` is None on those other forms.
- `Codes.SurgeryRecordNumber`: the sequence is a `nat`. The code's sequence is a daily count plus one. `get_daily_surgery_sequence` and `create_surgery_record` are not part of this model.
- `EmergencyBags.UseBag`: the operator is accepted but never stored, as in the code.
- The smaller operations (consume, approve, use bag, archive) are modelled as transitions on values rather than as classes. Each is one atomic statement sequence whose state is its return value.
- `Pharmacy.Approve`: a `medicines.current_stock` of NULL is read as 0 for the check. The later `current_stock - q` (NULL in SQL) is modelled as `0 - q`. The EMERGENCY dispense and normal dispense routes that create records are not part of this model.
- `Blood.Transfer`: the code raises 400 for a missing source row, while `process_blood` raises 404. Both are the `Missing` error. Without commit or rollback after an exception, the open transfer transaction is discarded when the connection is dropped. The model returns the ledger unchanged.
- `Packages.SyncDatabase.UploadSyncPackage`: a failure of the `stations` update is logged and swallowed by the code. The model's `MarkSynced` cannot fail, and an unknown station leaves `stations` unchanged, as an UPDATE matching no row does.
- `Packages.SyncDatabase.GenerateSyncPackage`: full syncs stamp rows lacking the timestamp column with `now.isoformat()` from the local clock. The registry's `created_at` is the UTC `CURRENT_TIMESTAMP`. Both readings are parameters (`Clock.Instant`).
- Modules `equipment`, `setup`, exports, labels and reports are not part of this model.

## Findings

| source | as written | input that shows it | evidently intended | confidence | as-written member | corrected member |
|---|---|---|---|---|---|---|
| main.py:3232-3242 | the TRANSFER_OUT and TRANSFER_IN inserts name a `remarks` column that the `blood_events` CREATE TABLE (main.py:488-496) does not declare | any transfer whose source row holds enough units: the first insert raises "no such column", nothing commits, the route answers 500 | `blood_events` declares `remarks TEXT`, and a covered transfer moves the units | not executed | Blood.TransferAsDeclaredNeverSucceeds | Blood.TransferWithRemarksSucceeds |
| main.py:1024-1043 | the next item code is one more than the number in the *lexicographically* greatest code (`ORDER BY item_code DESC`) | category 手術耗材 with codes `SURG-999` and `SURG-1000`: `SURG-999` sorts last, so the code handed out is `SURG-1000`, which already exists | one more than the greatest number in use, so codes stay unique past 999 | not executed | Codes.AsWrittenRepeatsCode | Codes.NextItemCodeIsFresh |
| main.py:2299-2324 | the change's `table` is pasted into `f"DELETE FROM {table} WHERE id = ?"` unchecked, and the package's checksum is computed over the caller's own changes | a DELETE change with table `inventory_events WHERE ? IS NULL --` and data `{}`: SQLite runs `DELETE FROM inventory_events WHERE ? IS NULL` with a NULL parameter, every row of `inventory_events` is deleted and the change counts as applied | a change whose table is not a declared table is a conflict and touches nothing | not executed | StatementText.InjectedDeleteEmptiesTable | StatementText.UndeclaredTableConflicts |
