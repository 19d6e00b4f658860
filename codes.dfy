/**
 * The human-readable codes the system hands out: item codes `PREFIX-NNN`
 * numbered after the last code of the category, emergency blood-bag codes
 * `ORG-YYMMDD-TYPE-SEQ`, and surgery record numbers `YYYYMMDD-PATIENT-N`.
 */
module Codes {
  import opened Wrappers
  import Text
  import Clock

  // ---------------------------------------------------------------- item codes

  /** Item-code prefixes by category; any other category numbers under OTHER. */
  const CategoryPrefixes: map<string, string> := map[
    "手術耗材" := "SURG",
    "急救物資" := "EMER",
    "藥品" := "MED",
    "防護用品" := "PPE",
    "醫療設備" := "EQUIP",
    "其他" := "OTHER"]

  function PrefixFor(category: string): (p: string)
    ensures '-' !in p && p != ""
  {
    if category in CategoryPrefixes then CategoryPrefixes[category] else "OTHER"
  }

  /** `code LIKE prefix || '-%'`: SQLite's LIKE ignores ASCII case. */
  predicate LikePrefix(code: string, prefix: string)
  {
    |code| > |prefix| && Text.Lower(code[..|prefix| + 1]) == Text.Lower(prefix + "-")
  }

  /** The codes of the `items` table that the numbering query selects, in table order. */
  function Matching(codes: seq<string>, prefix: string): (m: seq<string>)
    ensures forall c :: c in m <==> c in codes && LikePrefix(c, prefix)
  {
    if codes == [] then []
    else
      var init := Matching(codes[..|codes| - 1], prefix);
      var last := codes[|codes| - 1];
      assert codes == codes[..|codes| - 1] + [last];
      if LikePrefix(last, prefix) then init + [last] else init
  }

  /** `ORDER BY item_code DESC LIMIT 1`: the greatest code under the BINARY collation. */
  function Greatest(codes: seq<string>): (r: Option<string>)
    ensures r.None? <==> codes == []
    ensures r.Some? ==> r.value in codes && forall c :: c in codes ==> !Text.Less(r.value, c)
  {
    if codes == [] then None
    else
      var init := codes[..|codes| - 1];
      var last := codes[|codes| - 1];
      assert codes == init + [last];
      match Greatest(init)
      case None => Text.LessIrreflexive(last); Some(last)
      case Some(g) =>
        GreatestStep(g, last, init);
        if Text.Less(g, last) then Some(last) else Some(g)
  }

  lemma GreatestStep(g: string, last: string, init: seq<string>)
    requires forall c :: c in init ==> !Text.Less(g, c)
    ensures Text.Less(g, last) ==> forall c :: c in init + [last] ==> !Text.Less(last, c)
    ensures !Text.Less(g, last) ==> forall c :: c in init + [last] ==> !Text.Less(g, c)
  {
    Text.LessIrreflexive(last);
    if Text.Less(g, last) {
      forall c | c in init + [last]
        ensures !Text.Less(last, c)
      {
        if c != last && Text.Less(last, c) {
          Text.LessTransitive(g, last, c);
        }
      }
    }
  }

  /** `int(code.split('-')[1])`: None where Python raises IndexError or ValueError. */
  function NumberOf(code: string): Option<nat>
  {
    var parts := Text.Split(code, '-');
    if |parts| < 2 then None else Text.ParseNat(parts[1])
  }

  /** The code `PREFIX-NNN`, the number zero-padded to at least three digits. */
  function ItemCode(prefix: string, n: nat): string
  {
    prefix + "-" + Text.Pad(n, 3)
  }

  /**
   * `generate_item_code` as written: one more than the number of the
   * lexicographically greatest matching code, or 1 when there is none or
   * its number does not parse.
   */
  function NextItemCodeAsWritten(codes: seq<string>, category: string): string
  {
    var prefix := PrefixFor(category);
    match Greatest(Matching(codes, prefix))
    case None => ItemCode(prefix, 1)
    case Some(last) =>
      match NumberOf(last)
      case None => ItemCode(prefix, 1)
      case Some(n) => ItemCode(prefix, n + 1)
  }

  /**
   * Once the numbers pass 999, "SURG-999" sorts after "SURG-1000", so the
   * code handed out is one the table already holds.
   */
  lemma AsWrittenRepeatsCode()
    ensures var codes := ["SURG-999", "SURG-1000"];
      NextItemCodeAsWritten(codes, "手術耗材") == "SURG-1000" && "SURG-1000" in codes
  {
    ExampleAsWritten();
    ExampleCode();
  }

  lemma ExampleAsWritten()
    ensures NextItemCodeAsWritten(["SURG-999", "SURG-1000"], "手術耗材") == ItemCode("SURG", 1000)
  {
    assert PrefixFor("手術耗材") == "SURG";
    ExampleGreatest();
    ExampleNumber();
  }

  lemma ExampleGreatest()
    ensures Greatest(Matching(["SURG-999", "SURG-1000"], "SURG")) == Some("SURG-999")
  {
    var codes := ["SURG-999", "SURG-1000"];
    assert LikePrefix("SURG-999", "SURG") && LikePrefix("SURG-1000", "SURG");
    assert codes[..1] == ["SURG-999"];
    assert Matching(codes[..1], "SURG") == ["SURG-999"];
    assert Matching(codes, "SURG") == codes;
    assert !Text.Less("SURG-999", "SURG-1000") by {
      assert "SURG-999"[1..][1..][1..][1..][1..] == "999";
      assert "SURG-1000"[1..][1..][1..][1..][1..] == "1000";
    }
    assert Greatest(codes[..1]) == Some("SURG-999");
  }

  lemma ExampleNumber()
    ensures NumberOf("SURG-999") == Some(999)
  {
    ExampleSplit();
    ExampleValue();
  }

  lemma ExampleSplit()
    ensures Text.Split("SURG-999", '-') == ["SURG", "999"]
  {
    Text.SplitSepFree("999", '-');
    Text.SplitAfterPiece("SURG", '-', "999");
    assert "SURG-999" == "SURG" + ['-'] + "999";
  }

  lemma ExampleValue()
    ensures Text.AllDigits("999") && Text.DigitsValue("999") == 999
  {
    assert "999"[..2] == "99" && "99"[..1] == "9";
  }

  lemma ExampleCode()
    ensures ItemCode("SURG", 1000) == "SURG-1000"
  {
    ExampleDigits();
  }

  lemma ExampleDigits()
    ensures Text.Pad(1000, 3) == "1000"
  {
    assert Text.Digits(1) == "1";
    assert Text.Digits(10) == "10";
    assert Text.Digits(100) == "100";
    assert Text.Digits(1000) == "1000";
  }

  /** The greatest number any matching code carries (0 when none does). */
  function MaxNumber(codes: seq<string>): (m: nat)
    ensures forall c :: c in codes && NumberOf(c).Some? ==> NumberOf(c).value <= m
  {
    if codes == [] then 0
    else
      var init := codes[..|codes| - 1];
      var last := codes[|codes| - 1];
      assert codes == init + [last];
      var n := NumberOf(last).GetOr(0);
      var m := MaxNumber(init);
      if n > m then n else m
  }

  /** The numbering the function evidently intends: one more than the greatest number in use. */
  function NextItemCode(codes: seq<string>, category: string): string
  {
    var prefix := PrefixFor(category);
    ItemCode(prefix, MaxNumber(Matching(codes, prefix)) + 1)
  }

  /** An item code parses back to its number. */
  lemma ItemCodeNumber(prefix: string, n: nat)
    requires '-' !in prefix
    ensures NumberOf(ItemCode(prefix, n)) == Some(n)
    ensures LikePrefix(ItemCode(prefix, n), prefix)
  {
    var pad := Text.Pad(n, 3);
    assert '-' !in pad by {
      assert forall i :: 0 <= i < |pad| ==> Text.IsDigit(pad[i]);
    }
    Text.SplitSepFree(pad, '-');
    Text.SplitAfterPiece(prefix, '-', pad);
    assert ItemCode(prefix, n) == prefix + ['-'] + pad;
    Text.PadParses(n, 3);
    assert ItemCode(prefix, n)[..|prefix| + 1] == prefix + "-";
  }

  /**
   * The corrected numbering never hands out a code the table holds, and its
   * number exceeds every number a code of the category carries.
   */
  lemma NextItemCodeIsFresh(codes: seq<string>, category: string)
    ensures NextItemCode(codes, category) !in codes
    ensures var prefix := PrefixFor(category); var n := NumberOf(NextItemCode(codes, category));
      n.Some? && forall c :: c in codes && LikePrefix(c, prefix) && NumberOf(c).Some? ==> NumberOf(c).value < n.value
  {
    var prefix := PrefixFor(category);
    var m := MaxNumber(Matching(codes, prefix));
    ItemCodeNumber(prefix, m + 1);
  }

  /** Both numberings agree while the greatest matching code also carries the greatest number. */
  lemma NumberingsAgreeBelowOverflow(codes: seq<string>, category: string)
    requires var prefix := PrefixFor(category); var g := Greatest(Matching(codes, prefix));
      g.Some? && NumberOf(g.value) == Some(MaxNumber(Matching(codes, prefix)))
    ensures NextItemCodeAsWritten(codes, category) == NextItemCode(codes, category)
  {
  }

  // ---------------------------------------------------------------- blood-bag codes

  /** Blood-type codes of the bag numbering; an unknown type is XX. */
  const BloodTypeCodes: map<string, string> := map[
    "A+" := "AP", "A-" := "AN",
    "B+" := "BP", "B-" := "BN",
    "O+" := "OP", "O-" := "ON",
    "AB+" := "ABP", "AB-" := "ABN"]

  function BloodCodeOf(bloodType: string): string
  {
    if bloodType in BloodTypeCodes then BloodTypeCodes[bloodType] else "XX"
  }

  /** The blood type and collection date of one `emergency_blood_bags` row. */
  datatype BagStamp = BagStamp(bloodType: string, collectionDate: string)

  /** `COUNT(*)` of the bags of this blood type collected on this date. */
  function CountBags(bags: seq<BagStamp>, bloodType: string, collectionDate: string): (n: nat)
    ensures n <= |bags|
  {
    if bags == [] then 0
    else (if bags[0] == BagStamp(bloodType, collectionDate) then 1 else 0) + CountBags(bags[1..], bloodType, collectionDate)
  }

  /**
   * `generate_emergency_blood_code`: the organisation, the collection date as
   * YYMMDD, the blood-type code and a three-digit sequence one past the count
   * of bags of that type and date. The date string is the canonical
   * `YYYY-MM-DD` rendering of `date`.
   */
  function BloodBagCode(bags: seq<BagStamp>, bloodType: string, date: Clock.DateTime, orgCode: string): (code: string)
    requires date.Valid()
  {
    var seqNo := CountBags(bags, bloodType, Clock.DashedDate(date)) + 1;
    orgCode + "-" + Clock.ShortDate(date) + "-" + BloodCodeOf(bloodType) + "-" + Text.Pad(seqNo, 3)
  }

  /** The known blood types have distinct codes, and none is the unknown type's XX. */
  lemma BloodCodesDistinct(a: string, b: string)
    requires a in BloodTypeCodes && b in BloodTypeCodes && a != b
    ensures BloodCodeOf(a) != BloodCodeOf(b) && BloodCodeOf(a) != "XX"
  {
  }

  lemma CountBagsAppend(bags: seq<BagStamp>, b: BagStamp, bloodType: string, collectionDate: string)
    ensures CountBags(bags + [b], bloodType, collectionDate) ==
      CountBags(bags, bloodType, collectionDate) + (if b == BagStamp(bloodType, collectionDate) then 1 else 0)
    decreases |bags|
  {
    if bags != [] {
      assert (bags + [b])[1..] == bags[1..] + [b];
      CountBagsAppend(bags[1..], b, bloodType, collectionDate);
    }
  }

  /**
   * Registering a bag of the same type and date moves the sequence on by
   * one, so consecutive registrations get distinct codes.
   */
  lemma BloodBagCodeAdvances(bags: seq<BagStamp>, bloodType: string, date: Clock.DateTime, orgCode: string)
    requires date.Valid()
    ensures var added := bags + [BagStamp(bloodType, Clock.DashedDate(date))];
      BloodBagCode(added, bloodType, date, orgCode) != BloodBagCode(bags, bloodType, date, orgCode)
  {
    var stamp := BagStamp(bloodType, Clock.DashedDate(date));
    CountBagsAppend(bags, stamp, bloodType, Clock.DashedDate(date));
    var n := CountBags(bags, bloodType, Clock.DashedDate(date)) + 1;
    var head := orgCode + "-" + Clock.ShortDate(date) + "-" + BloodCodeOf(bloodType) + "-";
    Text.PadParses(n, 3);
    Text.PadParses(n + 1, 3);
    assert BloodBagCode(bags, bloodType, date, orgCode) == head + Text.Pad(n, 3);
    assert BloodBagCode(bags + [stamp], bloodType, date, orgCode) == head + Text.Pad(n + 1, 3);
    SameHead(head, Text.Pad(n, 3), Text.Pad(n + 1, 3));
  }

  lemma SameHead(head: string, a: string, b: string)
    ensures head + a == head + b <==> a == b
  {
    if head + a == head + b {
      assert (head + a)[|head|..] == a && (head + b)[|head|..] == b;
    }
  }

  // ---------------------------------------------------------------- surgery record numbers

  /** `s.replace('-', '')`. */
  function RemoveDashes(s: string): (r: string)
    ensures '-' !in r && |r| <= |s|
  {
    if s == [] then [] else (if s[0] == '-' then [] else [s[0]]) + RemoveDashes(s[1..])
  }

  /** `generate_surgery_record_number`: the date without dashes, the patient's name and the sequence. */
  function SurgeryRecordNumber(recordDate: string, patientName: string, sequence: nat): string
  {
    RemoveDashes(recordDate) + "-" + patientName + "-" + Text.Digits(sequence)
  }

  /**
   * When the patient's name holds no '-', the record number splits back into
   * the dash-free date, the name and the sequence.
   */
  lemma SurgeryRecordNumberParts(recordDate: string, patientName: string, sequence: nat)
    requires '-' !in patientName
    ensures var parts := Text.Split(SurgeryRecordNumber(recordDate, patientName, sequence), '-');
      parts == [RemoveDashes(recordDate), patientName, Text.Digits(sequence)] &&
      Text.ParseNat(parts[2]) == Some(sequence)
  {
    var d := Text.Digits(sequence);
    assert '-' !in d by {
      assert forall i :: 0 <= i < |d| ==> Text.IsDigit(d[i]);
    }
    Text.SplitSepFree(d, '-');
    Text.SplitAfterPiece(patientName, '-', d);
    Text.SplitAfterPiece(RemoveDashes(recordDate), '-', patientName + "-" + d);
    assert SurgeryRecordNumber(recordDate, patientName, sequence) ==
           RemoveDashes(recordDate) + ['-'] + (patientName + ['-'] + d);
    Text.DigitsValueOfDigits(sequence);
  }
}
