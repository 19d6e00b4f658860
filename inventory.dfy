/**
 * Item stock as the `inventory_events` log defines it: the sum of the
 * received quantities minus the consumed ones. Consuming an item checks
 * that stock and logs a CONSUME event.
 */
module Inventory {
  import opened Wrappers

  /** One `inventory_events` row, as the consuming statements write it. */
  datatype ItemEvent = ItemEvent(eventType: string, itemCode: string, quantity: int, remarks: string,
                                 stationId: string, operator: string)

  /** The body of a consume request. */
  datatype ConsumeRequest = ConsumeRequest(itemCode: string, quantity: int, purpose: string, stationId: string)

  datatype InventoryError =
    | ItemMissing(itemCode: string)                  // 404
    | Insufficient(available: int, requested: int)   // 400

  /** `SUM(CASE RECEIVE THEN q WHEN CONSUME THEN -q ELSE 0)` over the item's events, 0 when there are none. */
  function CurrentStock(events: seq<ItemEvent>, code: string): int
  {
    if events == [] then 0
    else
      var e := events[|events| - 1];
      var delta := if e.itemCode != code then 0
                   else if e.eventType == "RECEIVE" then e.quantity
                   else if e.eventType == "CONSUME" then -e.quantity
                   else 0;
      CurrentStock(events[..|events| - 1], code) + delta
  }

  /** The operator a consume event is logged with when the statement names none. */
  const DefaultOperator: string := "SYSTEM"

  /**
   * `consume_item`: the item must exist in `items` (`itemCodes`) and its
   * stock must cover the request; then one CONSUME event is logged.
   */
  function ConsumeItem(itemCodes: set<string>, events: seq<ItemEvent>, req: ConsumeRequest)
    : Result<seq<ItemEvent>, InventoryError>
  {
    if req.itemCode !in itemCodes then Err(ItemMissing(req.itemCode))
    else
      var stock := CurrentStock(events, req.itemCode);
      if stock < req.quantity then Err(Insufficient(stock, req.quantity))
      else Ok(events + [ItemEvent("CONSUME", req.itemCode, req.quantity, req.purpose, req.stationId, DefaultOperator)])
  }

  // ---------------------------------------------------------------- lemmas

  lemma CurrentStockAppend(events: seq<ItemEvent>, e: ItemEvent, code: string)
    ensures CurrentStock(events + [e], code) == CurrentStock(events, code) +
      (if e.itemCode != code then 0
       else if e.eventType == "RECEIVE" then e.quantity
       else if e.eventType == "CONSUME" then -e.quantity
       else 0)
  {
    assert (events + [e])[..|events|] == events;
  }

  /** Consuming is refused exactly when the item is unknown or its stock is short. */
  lemma ConsumeItemChecks(itemCodes: set<string>, events: seq<ItemEvent>, req: ConsumeRequest)
    ensures ConsumeItem(itemCodes, events, req) == Err(ItemMissing(req.itemCode)) <==> req.itemCode !in itemCodes
    ensures ConsumeItem(itemCodes, events, req).Ok? <==>
      req.itemCode in itemCodes && CurrentStock(events, req.itemCode) >= req.quantity
  {
  }

  /**
   * A consumption lowers the item's stock by exactly the requested
   * quantity, never below zero, and leaves every other item's stock as it was.
   */
  lemma ConsumeItemLowersStock(itemCodes: set<string>, events: seq<ItemEvent>, req: ConsumeRequest, other: string)
    requires ConsumeItem(itemCodes, events, req).Ok?
    ensures var after := ConsumeItem(itemCodes, events, req).value;
      CurrentStock(after, req.itemCode) == CurrentStock(events, req.itemCode) - req.quantity &&
      CurrentStock(after, req.itemCode) >= 0 &&
      (other != req.itemCode ==> CurrentStock(after, other) == CurrentStock(events, other))
  {
    var e := ItemEvent("CONSUME", req.itemCode, req.quantity, req.purpose, req.stationId, DefaultOperator);
    CurrentStockAppend(events, e, req.itemCode);
    CurrentStockAppend(events, e, other);
  }

  /**
   * `SUM(CASE RECEIVE THEN q ELSE -q)`: the stock the dispense approval reads,
   * which counts every event other than RECEIVE as a withdrawal.
   */
  function WithdrawalStock(events: seq<ItemEvent>, code: string): int
  {
    if events == [] then 0
    else
      var e := events[|events| - 1];
      var delta := if e.itemCode != code then 0 else if e.eventType == "RECEIVE" then e.quantity else -e.quantity;
      WithdrawalStock(events[..|events| - 1], code) + delta
  }

  lemma WithdrawalStockAppend(events: seq<ItemEvent>, e: ItemEvent, code: string)
    ensures WithdrawalStock(events + [e], code) == WithdrawalStock(events, code) +
      (if e.itemCode != code then 0 else if e.eventType == "RECEIVE" then e.quantity else -e.quantity)
  {
    assert (events + [e])[..|events|] == events;
  }

  /** The two stock formulas agree on every item whose events are all RECEIVE or CONSUME. */
  lemma {:induction false} StockFormulasAgree(events: seq<ItemEvent>, code: string)
    requires forall i :: 0 <= i < |events| && events[i].itemCode == code ==>
      events[i].eventType == "RECEIVE" || events[i].eventType == "CONSUME"
    ensures WithdrawalStock(events, code) == CurrentStock(events, code)
    decreases |events|
  {
    if events != [] {
      StockFormulasAgree(events[..|events| - 1], code);
    }
  }
}
