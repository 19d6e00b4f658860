/** Emergency blood bags, keyed by their unique bag code: a bag is used once, from AVAILABLE to USED. */
module EmergencyBags {
  import opened Wrappers

  datatype Bag = Bag(bloodType: string, status: string, patientName: Option<string>, usageTimestamp: Option<string>)

  datatype BagError =
    | BagMissing(code: string)     // 404
    | NotAvailable(status: string) // 400

  /**
   * `use_emergency_blood_bag`: an AVAILABLE bag becomes USED for the
   * patient at time `at`. The operator is accepted but not stored.
   */
  function UseBag(bags: map<string, Bag>, code: string, patientName: string, operator: string, at: string)
    : Result<map<string, Bag>, BagError>
  {
    if code !in bags then Err(BagMissing(code))
    else if bags[code].status != "AVAILABLE" then Err(NotAvailable(bags[code].status))
    else Ok(bags[code := bags[code].(status := "USED", patientName := Some(patientName), usageTimestamp := Some(at))])
  }

  /**
   * A bag can be used exactly when it exists and is AVAILABLE; using it
   * records the patient and time, keeps its blood type, and touches no other bag.
   */
  lemma UseBagTransition(bags: map<string, Bag>, code: string, patientName: string, operator: string, at: string)
    ensures var r := UseBag(bags, code, patientName, operator, at);
      (code !in bags <==> r == Err(BagMissing(code))) &&
      (r.Ok? <==> code in bags && bags[code].status == "AVAILABLE") &&
      (r.Ok? ==> r.value.Keys == bags.Keys &&
                 r.value[code] == Bag(bags[code].bloodType, "USED", Some(patientName), Some(at)) &&
                 forall other :: other in bags && other != code ==> r.value[other] == bags[other])
  {
  }

  /** A used bag cannot be used again: the second use reports its USED status. */
  lemma UseBagOnce(bags: map<string, Bag>, code: string, p1: string, o1: string, at1: string,
                   p2: string, o2: string, at2: string)
    requires UseBag(bags, code, p1, o1, at1).Ok?
    ensures UseBag(UseBag(bags, code, p1, o1, at1).value, code, p2, o2, at2) == Err(NotAvailable("USED"))
  {
  }

  /** The number of bags of a status. */
  function CountStatus(bags: map<string, Bag>, status: string): nat
  {
    |set c | c in bags && bags[c].status == status|
  }

  /** Using a bag moves one bag from AVAILABLE to USED. */
  lemma UseBagMovesOne(bags: map<string, Bag>, code: string, patientName: string, operator: string, at: string)
    requires UseBag(bags, code, patientName, operator, at).Ok?
    ensures var after := UseBag(bags, code, patientName, operator, at).value;
      CountStatus(after, "AVAILABLE") == CountStatus(bags, "AVAILABLE") - 1 &&
      CountStatus(after, "USED") == CountStatus(bags, "USED") + 1
  {
    var after := UseBag(bags, code, patientName, operator, at).value;
    var availBefore := set c | c in bags && bags[c].status == "AVAILABLE";
    var availAfter := set c | c in after && after[c].status == "AVAILABLE";
    var usedBefore := set c | c in bags && bags[c].status == "USED";
    var usedAfter := set c | c in after && after[c].status == "USED";
    assert availAfter == availBefore - {code};
    assert usedAfter == usedBefore + {code};
  }
}
