/**
 * The blood ledger: units on hand per (blood type, station), and the
 * `blood_events` log. Receiving adds units (creating the row), consuming
 * checks and subtracts, and a transfer moves units between two stations.
 */
module Blood {
  import opened Wrappers
  import Store
  import Schema

  /** The blood types a request may name. */
  const BloodTypes: seq<string> := ["A+", "A-", "B+", "B-", "O+", "O-", "AB+", "AB-"]

  /** The primary key of `blood_inventory`. */
  datatype BloodKey = BloodKey(bloodType: string, stationId: string)

  /** A `blood_inventory` row's other columns. */
  datatype Stock = Stock(quantity: int, lastUpdated: string)

  /** One `blood_events` row as a statement writes it. */
  datatype BloodEvent = BloodEvent(eventType: string, bloodType: string, quantity: int, stationId: string,
                                   operator: string, remarks: Option<string>, timestamp: string)

  datatype Ledger = Ledger(inventory: map<BloodKey, Stock>, events: seq<BloodEvent>)

  /** Why a ledger operation is refused or fails; nothing is written in any of these cases. */
  datatype BloodError =
    | Missing(key: BloodKey)                        // 404 for consume, 400 for a transfer's source
    | Insufficient(available: int, requested: int)  // 400
    | Storage(error: Store.SqlError)                // 500

  /** The request body of a transfer. */
  datatype TransferRequest = TransferRequest(bloodType: string, quantity: int, sourceStationId: string,
                                             targetStationId: string, operator: string, remarks: Option<string>)

  /** Units on hand, reading a missing row as none. */
  function OnHand(l: Ledger, k: BloodKey): int
  {
    if k in l.inventory then l.inventory[k].quantity else 0
  }

  /**
   * `process_blood`: for action "receive" add the units (inserting the row if
   * missing); for any other action check the row exists and holds enough, then
   * subtract. Either way log the event and return the new quantity. `at` is
   * the statement time CURRENT_TIMESTAMP reads.
   */
  function Process(l: Ledger, action: string, bloodType: string, quantity: int, station: string,
                   at: string): Result<(Ledger, int), BloodError>
  {
    var k := BloodKey(bloodType, station);
    var eventType := if action == "receive" then "RECEIVE" else "CONSUME";
    var event := BloodEvent(eventType, bloodType, quantity, station, "SYSTEM", None, at);
    if action == "receive" then
      var q := if k in l.inventory then l.inventory[k].quantity + quantity else quantity;
      Ok((Ledger(l.inventory[k := Stock(q, at)], l.events + [event]), q))
    else if k !in l.inventory then Err(Missing(k))
    else if l.inventory[k].quantity < quantity then Err(Insufficient(l.inventory[k].quantity, quantity))
    else
      var q := l.inventory[k].quantity - quantity;
      Ok((Ledger(l.inventory[k := Stock(q, at)], l.events + [event]), q))
  }

  /**
   * `transfer_blood`: check the source row exists and holds enough, subtract,
   * log TRANSFER_OUT, add to the target (inserting its row if missing), log
   * TRANSFER_IN. `eventColumns` are the columns `blood_events` declares: the
   * event inserts name `operator` and `remarks`, and fail when the table lacks one.
   */
  function Transfer(l: Ledger, eventColumns: set<string>, req: TransferRequest, at: string): Result<Ledger, BloodError>
  {
    var src := BloodKey(req.bloodType, req.sourceStationId);
    var tgt := BloodKey(req.bloodType, req.targetStationId);
    var note := req.remarks.GetOr("");
    if src !in l.inventory then Err(Missing(src))
    else if l.inventory[src].quantity < req.quantity then Err(Insufficient(l.inventory[src].quantity, req.quantity))
    else if !({"operator", "remarks"} <= eventColumns) then Err(Storage(Store.NoSuchColumn))
    else
      var afterOut := l.inventory[src := Stock(l.inventory[src].quantity - req.quantity, at)];
      var out := BloodEvent("TRANSFER_OUT", req.bloodType, req.quantity, req.sourceStationId, req.operator,
                            Some("轉移至 " + req.targetStationId + ". " + note), at);
      var afterIn := afterOut[tgt := Stock(if tgt in afterOut then afterOut[tgt].quantity + req.quantity
                                           else req.quantity, at)];
      var into := BloodEvent("TRANSFER_IN", req.bloodType, req.quantity, req.targetStationId, req.operator,
                             Some("來自 " + req.sourceStationId + ". " + note), at);
      Ok(Ledger(afterIn, l.events + [out, into]))
  }

  // ---------------------------------------------------------------- lemmas

  /** Receiving adds the units to the row, or creates the row with them, and logs one RECEIVE. */
  lemma ReceiveAdds(l: Ledger, bloodType: string, quantity: int, station: string, at: string)
    ensures var k := BloodKey(bloodType, station);
      var r := Process(l, "receive", bloodType, quantity, station, at);
      r.Ok? && r.value.1 == OnHand(l, k) + quantity && OnHand(r.value.0, k) == r.value.1 &&
      r.value.0.events == l.events + [BloodEvent("RECEIVE", bloodType, quantity, station, "SYSTEM", None, at)]
  {
  }

  /**
   * Consuming fails exactly when the row is missing (Missing) or holds fewer
   * units than requested (Insufficient); otherwise it subtracts and logs one CONSUME.
   */
  lemma ConsumeChecksStock(l: Ledger, bloodType: string, quantity: int, station: string, at: string)
    ensures var k := BloodKey(bloodType, station);
      var r := Process(l, "consume", bloodType, quantity, station, at);
      (k !in l.inventory <==> r == Err(Missing(k))) &&
      (k in l.inventory && l.inventory[k].quantity < quantity <==>
        r == Err(Insufficient(OnHand(l, k), quantity))) &&
      (r.Ok? ==> (r.value.1 == OnHand(l, k) - quantity && r.value.1 >= 0 && OnHand(r.value.0, k) == r.value.1 &&
                  r.value.0.events == l.events + [BloodEvent("CONSUME", bloodType, quantity, station, "SYSTEM", None, at)]))
  {
  }

  /** Receiving and consuming touch only their own (blood type, station) row. */
  lemma ProcessTouchesOneRow(l: Ledger, action: string, bloodType: string, quantity: int, station: string,
                             at: string, other: BloodKey)
    requires other != BloodKey(bloodType, station)
    requires Process(l, action, bloodType, quantity, station, at).Ok?
    ensures var l' := Process(l, action, bloodType, quantity, station, at).value.0;
      (other in l'.inventory <==> other in l.inventory) &&
      (other in l.inventory ==> l'.inventory[other] == l.inventory[other])
  {
  }

  /** Consuming what was just received gives back the units on hand before. */
  lemma ConsumeUndoesReceive(l: Ledger, bloodType: string, quantity: int, station: string, at: string, at2: string)
    requires OnHand(l, BloodKey(bloodType, station)) >= 0
    ensures var k := BloodKey(bloodType, station);
      var received := Process(l, "receive", bloodType, quantity, station, at).value.0;
      var r := Process(received, "consume", bloodType, quantity, station, at2);
      r.Ok? && r.value.1 == OnHand(l, k) &&
      forall other :: other != k ==> OnHand(r.value.0, other) == OnHand(l, other)
  {
    var k := BloodKey(bloodType, station);
    var received := Process(l, "receive", bloodType, quantity, station, at).value.0;
    assert k in received.inventory;
  }

  /** No units on hand are ever negative, as long as each request asks for a positive quantity. */
  predicate NonNegative(l: Ledger)
  {
    forall k :: k in l.inventory ==> l.inventory[k].quantity >= 0
  }

  lemma ProcessKeepsNonNegative(l: Ledger, action: string, bloodType: string, quantity: int, station: string,
                                at: string)
    requires NonNegative(l) && quantity > 0
    requires Process(l, action, bloodType, quantity, station, at).Ok?
    ensures NonNegative(Process(l, action, bloodType, quantity, station, at).value.0)
  {
  }

  lemma TransferKeepsNonNegative(l: Ledger, eventColumns: set<string>, req: TransferRequest, at: string)
    requires NonNegative(l) && req.quantity > 0
    requires Transfer(l, eventColumns, req, at).Ok?
    ensures NonNegative(Transfer(l, eventColumns, req, at).value)
  {
  }

  /**
   * A successful transfer moves the units: the source and target together
   * hold what they held before (a missing target counting as none), the
   * source loses exactly the requested units, every other row is unchanged,
   * and one TRANSFER_OUT and one TRANSFER_IN of that quantity are logged.
   */
  lemma TransferConserves(l: Ledger, eventColumns: set<string>, req: TransferRequest, at: string)
    requires Transfer(l, eventColumns, req, at).Ok?
    ensures var l' := Transfer(l, eventColumns, req, at).value;
      var src := BloodKey(req.bloodType, req.sourceStationId);
      var tgt := BloodKey(req.bloodType, req.targetStationId);
      (src != tgt ==>
        OnHand(l', src) + OnHand(l', tgt) == OnHand(l, src) + OnHand(l, tgt) &&
        OnHand(l', src) == OnHand(l, src) - req.quantity) &&
      (src == tgt ==> OnHand(l', src) == OnHand(l, src)) &&
      (forall k :: k != src && k != tgt ==> OnHand(l', k) == OnHand(l, k)) &&
      |l'.events| == |l.events| + 2 && l'.events[..|l.events|] == l.events &&
      l'.events[|l.events|].eventType == "TRANSFER_OUT" && l'.events[|l.events| + 1].eventType == "TRANSFER_IN" &&
      l'.events[|l.events|].quantity == req.quantity == l'.events[|l.events| + 1].quantity
  {
  }

  /** A transfer is refused, with nothing written, when the source row is missing or short. */
  lemma TransferChecksSource(l: Ledger, eventColumns: set<string>, req: TransferRequest, at: string)
    ensures var src := BloodKey(req.bloodType, req.sourceStationId);
      var r := Transfer(l, eventColumns, req, at);
      (src !in l.inventory ==> r == Err(Missing(src))) &&
      (src in l.inventory && l.inventory[src].quantity < req.quantity ==>
        r == Err(Insufficient(l.inventory[src].quantity, req.quantity))) &&
      (src in l.inventory && l.inventory[src].quantity >= req.quantity && {"operator", "remarks"} <= eventColumns ==>
        r.Ok?)
  {
  }

  /**
   * As declared, `blood_events` has no `remarks` column, so every transfer
   * that passes the stock checks fails when it logs TRANSFER_OUT, and the
   * transaction is never committed: no transfer ever takes effect.
   */
  lemma TransferAsDeclaredNeverSucceeds(l: Ledger, req: TransferRequest, at: string)
    ensures var src := BloodKey(req.bloodType, req.sourceStationId);
      var r := Transfer(l, Schema.BloodEvents.columns, req, at);
      r.Err? &&
      (src in l.inventory && l.inventory[src].quantity >= req.quantity ==> r == Err(Storage(Store.NoSuchColumn)))
  {
    assert "remarks" !in Schema.BloodEvents.columns;
  }

  /** The cells of `blood_events` with the `remarks` column the transfer statements expect. */
  const BloodEventsWithRemarks: set<string> := Schema.BloodEvents.columns + {"remarks"}

  /** With a `remarks` column, every transfer that passes the stock checks succeeds. */
  lemma TransferWithRemarksSucceeds(l: Ledger, req: TransferRequest, at: string)
    ensures var src := BloodKey(req.bloodType, req.sourceStationId);
      src in l.inventory && l.inventory[src].quantity >= req.quantity <==>
        Transfer(l, BloodEventsWithRemarks, req, at).Ok?
  {
  }

  /** The ledger as a mutable object: the two tables the blood operations write. */
  class BloodBank {
    var inventory: map<BloodKey, Stock>
    var events: seq<BloodEvent>
    /** The columns `blood_events` declares. */
    const eventColumns: set<string>

    constructor (eventColumns: set<string>)
      ensures inventory == map[] && events == [] && this.eventColumns == eventColumns
    {
      inventory := map[];
      events := [];
      this.eventColumns := eventColumns;
    }

    function Contents(): Ledger
      reads this
    {
      Ledger(inventory, events)
    }

    method ProcessBlood(action: string, bloodType: string, quantity: int, station: string, at: string)
      returns (r: Result<int, BloodError>)
      modifies this
      ensures var spec := Process(old(Contents()), action, bloodType, quantity, station, at);
        if spec.Ok? then r == Ok(spec.value.1) && Contents() == spec.value.0
        else r == Err(spec.error) && Contents() == old(Contents())
    {
      var k := BloodKey(bloodType, station);
      var newQuantity: int;
      var eventType: string;
      if action == "receive" {
        if k !in inventory {
          newQuantity := quantity;
        } else {
          newQuantity := inventory[k].quantity + quantity;
        }
        inventory := inventory[k := Stock(newQuantity, at)];
        eventType := "RECEIVE";
      } else {
        if k !in inventory {
          return Err(Missing(k));
        }
        var current := inventory[k].quantity;
        if current < quantity {
          return Err(Insufficient(current, quantity));
        }
        newQuantity := current - quantity;
        inventory := inventory[k := Stock(newQuantity, at)];
        eventType := "CONSUME";
      }
      events := events + [BloodEvent(eventType, bloodType, quantity, station, "SYSTEM", None, at)];
      r := Ok(newQuantity);
    }

    method TransferBlood(req: TransferRequest, at: string) returns (r: Result<(), BloodError>)
      modifies this
      ensures var spec := Transfer(old(Contents()), eventColumns, req, at);
        if spec.Ok? then r.Ok? && Contents() == spec.value
        else r == Err(spec.error) && Contents() == old(Contents())
    {
      var src := BloodKey(req.bloodType, req.sourceStationId);
      var tgt := BloodKey(req.bloodType, req.targetStationId);
      if src !in inventory {
        return Err(Missing(src));
      }
      var available := inventory[src].quantity;
      if available < req.quantity {
        return Err(Insufficient(available, req.quantity));
      }
      var snapshot := inventory;
      inventory := inventory[src := Stock(available - req.quantity, at)];
      if !({"operator", "remarks"} <= eventColumns) {
        inventory := snapshot;
        return Err(Storage(Store.NoSuchColumn));
      }
      var note := req.remarks.GetOr("");
      events := events + [BloodEvent("TRANSFER_OUT", req.bloodType, req.quantity, req.sourceStationId, req.operator,
                                     Some("轉移至 " + req.targetStationId + ". " + note), at)];
      if tgt in inventory {
        inventory := inventory[tgt := Stock(inventory[tgt].quantity + req.quantity, at)];
      } else {
        inventory := inventory[tgt := Stock(req.quantity, at)];
      }
      events := events + [BloodEvent("TRANSFER_IN", req.bloodType, req.quantity, req.targetStationId, req.operator,
                                     Some("來自 " + req.sourceStationId + ". " + note), at)];
      r := Ok(());
    }
  }
}
