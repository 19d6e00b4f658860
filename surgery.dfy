/** Surgery records, keyed by their unique record number, and their archiving. */
module Surgery {
  import opened Wrappers

  datatype SurgeryRecord = SurgeryRecord(patientName: string, status: string, remarks: Option<string>,
                                         patientOutcome: Option<string>, archivedAt: Option<string>,
                                         archivedBy: Option<string>, updatedAt: string)

  /** The outcomes the table's CHECK admits. */
  const Outcomes: set<string> := {"DISCHARGED", "TRANSFERRED", "DECEASED"}

  datatype ArchiveError =
    | RecordMissing(recordNumber: string) // 404
    | AlreadyArchived                     // 400
    | OutcomeRejected(outcome: string)    // 500: the CHECK on patient_outcome fails and the update is rolled back

  datatype ArchiveReply = ArchiveReply(recordNumber: string, patientName: string, patientOutcome: string,
                                       outcomeText: string)

  /** The outcome as shown to staff; an unlisted outcome is shown as it is. */
  function OutcomeText(outcome: string): string
  {
    if outcome == "DISCHARGED" then "康復出院"
    else if outcome == "TRANSFERRED" then "轉院"
    else if outcome == "DECEASED" then "死亡"
    else outcome
  }

  /** The remarks after archiving: the notes alone when there were none, else appended after " | ". */
  function ArchivedRemarks(remarks: Option<string>, notes: Option<string>): string
  {
    var n := notes.GetOr("");
    if remarks.None? || remarks.value == "" then n else remarks.value + " | " + n
  }

  /** `archive_surgery_record`. `at` is the statement time CURRENT_TIMESTAMP reads. */
  function Archive(records: map<string, SurgeryRecord>, recordNumber: string, outcome: string, archivedBy: string,
                   notes: Option<string>, at: string): Result<(map<string, SurgeryRecord>, ArchiveReply), ArchiveError>
  {
    if recordNumber !in records then Err(RecordMissing(recordNumber))
    else
      var r := records[recordNumber];
      if r.status == "ARCHIVED" then Err(AlreadyArchived)
      else if outcome !in Outcomes then Err(OutcomeRejected(outcome))
      else
        var archived := r.(status := "ARCHIVED", patientOutcome := Some(outcome), archivedAt := Some(at),
                           archivedBy := Some(archivedBy), remarks := Some(ArchivedRemarks(r.remarks, notes)),
                           updatedAt := at);
        Ok((records[recordNumber := archived],
            ArchiveReply(recordNumber, r.patientName, outcome, OutcomeText(outcome))))
  }

  // ---------------------------------------------------------------- lemmas

  /**
   * Archiving succeeds exactly for an existing, unarchived record and an
   * admitted outcome; the record is then ARCHIVED with that outcome, time and
   * archiver, its remarks carry the archive note, it keeps its patient, and
   * no other record changes.
   */
  lemma ArchiveTransition(records: map<string, SurgeryRecord>, recordNumber: string, outcome: string,
                          archivedBy: string, notes: Option<string>, at: string)
    ensures var r := Archive(records, recordNumber, outcome, archivedBy, notes, at);
      (recordNumber !in records <==> r == Err(RecordMissing(recordNumber))) &&
      (r.Ok? <==> recordNumber in records && records[recordNumber].status != "ARCHIVED" && outcome in Outcomes) &&
      (r.Ok? ==> (var after := r.value.0;
        after.Keys == records.Keys &&
        after[recordNumber].status == "ARCHIVED" && after[recordNumber].patientOutcome == Some(outcome) &&
        after[recordNumber].archivedAt == Some(at) && after[recordNumber].archivedBy == Some(archivedBy) &&
        after[recordNumber].remarks == Some(ArchivedRemarks(records[recordNumber].remarks, notes)) &&
        after[recordNumber].updatedAt == at &&
        after[recordNumber].patientName == records[recordNumber].patientName &&
        r.value.1.patientName == records[recordNumber].patientName &&
        forall other :: other in records && other != recordNumber ==> after[other] == records[other]))
  {
  }

  /** An archived record cannot be archived again. */
  lemma ArchiveOnce(records: map<string, SurgeryRecord>, recordNumber: string, outcome: string, archivedBy: string,
                    notes: Option<string>, at: string, outcome2: string, by2: string, notes2: Option<string>,
                    at2: string)
    requires Archive(records, recordNumber, outcome, archivedBy, notes, at).Ok?
    ensures Archive(Archive(records, recordNumber, outcome, archivedBy, notes, at).value.0, recordNumber, outcome2,
                    by2, notes2, at2) == Err(AlreadyArchived)
  {
  }

  /** Archiving never loses earlier remarks: non-empty remarks stay as the prefix, followed by " | " and the notes. */
  lemma ArchivedRemarksKeepHistory(remarks: Option<string>, notes: Option<string>)
    ensures remarks.Some? && remarks.value != "" ==>
      ArchivedRemarks(remarks, notes)[..|remarks.value|] == remarks.value &&
      ArchivedRemarks(remarks, notes)[|remarks.value|..] == " | " + notes.GetOr("")
    ensures remarks.None? || remarks.value == "" ==> ArchivedRemarks(remarks, notes) == notes.GetOr("")
  {
  }

  /** Every outcome an archived record can carry has its own text. */
  lemma OutcomeTextsDistinct(a: string, b: string)
    requires a in Outcomes && b in Outcomes && a != b
    ensures OutcomeText(a) != OutcomeText(b) && OutcomeText(a) != a
  {
  }
}
