/**
 * Pharmacist approval of dispense records. A PENDING record is checked
 * against stock, which is then withdrawn; an EMERGENCY record was withdrawn
 * when it was dispensed and is only confirmed; an APPROVED record is final.
 */
module Pharmacy {
  import opened Wrappers
  import opened Inventory

  /** The statuses the `dispense_records` table admits. */
  datatype DispenseStatus = Pending | Approved | Emergency

  datatype Dispense = Dispense(medicineCode: string, quantity: int, stationCode: string, status: DispenseStatus,
                               approvedBy: Option<string>, approvedAt: Option<string>,
                               pharmacistNotes: Option<string>, updatedAt: string)

  /** A `medicines` row: its `current_stock` (NULL read as 0) and whether it is active. */
  datatype Medicine = Medicine(currentStock: int, isActive: bool)

  datatype Store = Store(records: map<int, Dispense>, medicines: map<string, Medicine>, events: seq<ItemEvent>)

  datatype ApprovalRequest = ApprovalRequest(dispenseId: int, approvedBy: string, pharmacistNotes: Option<string>,
                                             pinCode: string)

  datatype PharmacyError =
    | WrongPin                 // 401
    | DispenseMissing(id: int) // 404
    | AlreadyApproved          // 400
    | ShortStock(current: int) // 400

  /** The pharmacist PIN the approval compares against. */
  const PharmacistPin: string := "1234"

  const ApprovalRemark: string := "正常領用 (藥師審核)"

  /** Whether the code names an active row of `medicines`. */
  predicate IsActiveMedicine(s: Store, code: string)
  {
    code in s.medicines && s.medicines[code].isActive
  }

  /** The stock the approval checks: an active medicine's `current_stock`, else the item's event stock. */
  function AvailableStock(s: Store, code: string): int
  {
    if IsActiveMedicine(s, code) then s.medicines[code].currentStock else WithdrawalStock(s.events, code)
  }

  /** `approve_dispense`. `at` is the statement time CURRENT_TIMESTAMP reads. */
  function Approve(s: Store, req: ApprovalRequest, at: string): Result<Store, PharmacyError>
  {
    if req.pinCode != PharmacistPin then Err(WrongPin)
    else if req.dispenseId !in s.records then Err(DispenseMissing(req.dispenseId))
    else
      var d := s.records[req.dispenseId];
      var approved := d.(status := Approved, approvedBy := Some(req.approvedBy), approvedAt := Some(at),
                         pharmacistNotes := req.pharmacistNotes, updatedAt := at);
      if d.status == Approved then Err(AlreadyApproved)
      else if d.status == Emergency then Ok(s.(records := s.records[req.dispenseId := approved]))
      else
        var stock := AvailableStock(s, d.medicineCode);
        if stock < d.quantity then Err(ShortStock(stock))
        else
          var e := ItemEvent("CONSUME", d.medicineCode, d.quantity, ApprovalRemark, d.stationCode, req.approvedBy);
          var medicines := if IsActiveMedicine(s, d.medicineCode)
                           then s.medicines[d.medicineCode := s.medicines[d.medicineCode].(
                                  currentStock := s.medicines[d.medicineCode].currentStock - d.quantity)]
                           else s.medicines;
          Ok(Store(s.records[req.dispenseId := approved], medicines, s.events + [e]))
  }

  // ---------------------------------------------------------------- lemmas

  /**
   * Approval is refused for a wrong PIN, a missing record, an approved one,
   * or a pending one whose stock is short; otherwise the record becomes
   * APPROVED with the approver, time and notes, and no other record changes.
   */
  lemma ApproveTransitions(s: Store, req: ApprovalRequest, at: string)
    ensures var r := Approve(s, req, at);
      (req.pinCode != PharmacistPin ==> r == Err(WrongPin)) &&
      (req.pinCode == PharmacistPin && req.dispenseId !in s.records ==> r == Err(DispenseMissing(req.dispenseId))) &&
      (req.pinCode == PharmacistPin && req.dispenseId in s.records && s.records[req.dispenseId].status == Approved ==>
        r == Err(AlreadyApproved)) &&
      (r.Ok? <==> (req.pinCode == PharmacistPin && req.dispenseId in s.records &&
                   (s.records[req.dispenseId].status == Emergency ||
                    (s.records[req.dispenseId].status == Pending &&
                     AvailableStock(s, s.records[req.dispenseId].medicineCode) >= s.records[req.dispenseId].quantity))))
    ensures Approve(s, req, at).Ok? ==>
      var after := Approve(s, req, at).value;
      after.records.Keys == s.records.Keys &&
      after.records[req.dispenseId].status == Approved &&
      after.records[req.dispenseId].approvedBy == Some(req.approvedBy) &&
      after.records[req.dispenseId].approvedAt == Some(at) &&
      after.records[req.dispenseId].pharmacistNotes == req.pharmacistNotes &&
      after.records[req.dispenseId].updatedAt == at &&
      after.records[req.dispenseId].medicineCode == s.records[req.dispenseId].medicineCode &&
      after.records[req.dispenseId].quantity == s.records[req.dispenseId].quantity &&
      forall id :: id in s.records && id != req.dispenseId ==> after.records[id] == s.records[id]
  {
  }

  /** An approved record cannot be approved again. */
  lemma ApproveOnce(s: Store, req: ApprovalRequest, at: string, req2: ApprovalRequest, at2: string)
    requires Approve(s, req, at).Ok? && req2.dispenseId == req.dispenseId
    ensures Approve(Approve(s, req, at).value, req2, at2).Err?
  {
  }

  /** Approving a pending record withdraws exactly its quantity from the stock the approval checks, never below zero. */
  lemma ApprovePendingWithdraws(s: Store, req: ApprovalRequest, at: string)
    requires Approve(s, req, at).Ok?
    requires s.records[req.dispenseId].status == Pending
    ensures var d := s.records[req.dispenseId]; var after := Approve(s, req, at).value;
      AvailableStock(after, d.medicineCode) == AvailableStock(s, d.medicineCode) - d.quantity &&
      AvailableStock(after, d.medicineCode) >= 0 &&
      |after.events| == |s.events| + 1 && after.events[|s.events|].eventType == "CONSUME"
  {
    var d := s.records[req.dispenseId];
    var e := ItemEvent("CONSUME", d.medicineCode, d.quantity, ApprovalRemark, d.stationCode, req.approvedBy);
    WithdrawalStockAppend(s.events, e, d.medicineCode);
  }

  /** Confirming an emergency record withdraws nothing: medicines and events are unchanged. */
  lemma ApproveEmergencyKeepsStock(s: Store, req: ApprovalRequest, at: string)
    requires Approve(s, req, at).Ok?
    requires s.records[req.dispenseId].status == Emergency
    ensures Approve(s, req, at).value.medicines == s.medicines
    ensures Approve(s, req, at).value.events == s.events
  {
  }
}
