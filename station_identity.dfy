/**
 * Globally unique station ids `TYPE-ORG-YYMMDD-UUID` (and the legacy
 * three-part `TYPE-ORG-NUMBER`): the table of station types, the reverse
 * prefix table, and generating, parsing, validating and naming ids.
 */
module StationIdentity {
  import opened Wrappers
  import Text
  import Clock

  /** One entry of the station-type table. */
  datatype TypeInfo = TypeInfo(prefix: string, name: string, nameEn: string, category: string)

  /** Station types by profile name. */
  const StationTypes: map<string, TypeInfo> := map[
    "health_center" := TypeInfo("HC", "衛生所", "Health Center", "HEALTH_CENTER"),
    "surgical_station" := TypeInfo("BORP", "備援手術室", "Backup Operating Room Point", "SURGICAL_STATION"),
    "logistics_hub" := TypeInfo("LOG", "物資中心", "Logistics Hub", "LOGISTICS_HUB"),
    "hospital_custom" := TypeInfo("HOSP", "醫院站", "Hospital Custom", "HOSPITAL")]

  /** Profile names by id prefix. */
  const PrefixToProfile: map<string, string> := map[
    "HC" := "health_center",
    "BORP" := "surgical_station",
    "LOG" := "logistics_hub",
    "HOSP" := "hospital_custom"]

  /** The name shown for a station whose profile is not in the table. */
  const DefaultName: string := "醫療站"

  /** The ValueErrors generating or parsing an id raises. */
  datatype IdentityError = InvalidStationType(stationType: string) | OrgCodeRequired | InvalidFormat(stationId: string)

  /**
   * A parsed id. The four-part form has a timestamp and a uuid and no number;
   * the legacy three-part form has a number and neither of the others.
   */
  datatype ParsedId = ParsedId(prefix: string, org: string, number: Option<string>, timestamp: Option<string>,
                               uuid: Option<string>, profile: string)

  /** The prefix table is the inverse of the type table's prefixes, in both directions. */
  lemma PrefixTableInvertsTypes()
    ensures forall p :: p in StationTypes ==>
      StationTypes[p].prefix in PrefixToProfile && PrefixToProfile[StationTypes[p].prefix] == p
    ensures forall x :: x in PrefixToProfile ==>
      PrefixToProfile[x] in StationTypes && StationTypes[PrefixToProfile[x]].prefix == x
  {
  }

  /** `str(uuid4)[:4]`: the first four characters, or all of a shorter string. */
  function ShortUuid(uuid4: string): (s: string)
    ensures |s| == if |uuid4| < 4 then |uuid4| else 4
    ensures s <= uuid4
  {
    if |uuid4| < 4 then uuid4 else uuid4[..4]
  }

  /**
   * `generate_station_id`. A missing timestamp is `today` as YYMMDD and a
   * missing unique id the first four characters of `uuid4`, a fresh UUID's text.
   */
  function Generate(stationType: string, orgCode: string, timestamp: Option<string>, uniqueId: Option<string>,
                    today: Clock.DateTime, uuid4: string): (r: Result<string, IdentityError>)
    requires timestamp.None? ==> today.Valid()
    ensures r.Err? <==> stationType !in StationTypes || orgCode == ""
    ensures stationType !in StationTypes ==> r == Err(InvalidStationType(stationType))
  {
    if stationType !in StationTypes then Err(InvalidStationType(stationType))
    else if orgCode == "" then Err(OrgCodeRequired)
    else
      var ts := if timestamp.None? then Clock.ShortDate(today) else timestamp.value;
      var uid := if uniqueId.None? then ShortUuid(uuid4) else uniqueId.value;
      Ok(StationTypes[stationType].prefix + "-" + orgCode + "-" + ts + "-" + uid)
  }

  /** `get_station_type_info`: the profile's entry, or None (the empty dict) for an unknown profile. */
  function TypeInfoOf(profile: string): (t: Option<TypeInfo>)
    ensures t.Some? <==> profile in StationTypes
    ensures t.Some? ==> t.value.prefix in PrefixToProfile && PrefixToProfile[t.value.prefix] == profile
  {
    PrefixTableInvertsTypes();
    if profile in StationTypes then Some(StationTypes[profile]) else None
  }

  /** `PREFIX_TO_PROFILE.get(prefix, 'unknown')`. */
  function ProfileOf(prefix: string): (p: string)
    ensures prefix in PrefixToProfile <==> p in StationTypes
  {
    if prefix in PrefixToProfile then PrefixToProfile[prefix] else "unknown"
  }

  /** `parse_station_id`: split on '-'; four parts or three parts, anything else raises. */
  function Parse(stationId: string): (r: Result<ParsedId, IdentityError>)
  {
    var parts := Text.Split(stationId, '-');
    if |parts| == 4 then
      Ok(ParsedId(parts[0], parts[1], None, Some(parts[2]), Some(parts[3]), ProfileOf(parts[0])))
    else if |parts| == 3 then
      Ok(ParsedId(parts[0], parts[1], Some(parts[2]), None, None, ProfileOf(parts[0])))
    else Err(InvalidFormat(stationId))
  }

  /** `validate_station_id`: the id parses and its prefix is a known station type's. */
  predicate Validate(stationId: string)
  {
    Parse(stationId).Ok? && Parse(stationId).value.prefix in PrefixToProfile
  }

  /**
   * `generate_display_name`: the id and a space, then the custom name when one
   * is given (non-empty), else the type's name; the bare id when it does not parse.
   */
  function DisplayName(stationId: string, customName: Option<string>): string
  {
    match Parse(stationId)
    case Err(_) => stationId
    case Ok(parsed) =>
      if customName.Some? && customName.value != "" then stationId + " " + customName.value
      else
        var name := if parsed.profile in StationTypes then StationTypes[parsed.profile].name else DefaultName;
        stationId + " " + name
  }

  // ---------------------------------------------------------------- lemmas

  /** An id parses exactly when it has two or three '-' separators. */
  lemma ParseAcceptsTwoOrThreeSeparators(stationId: string)
    ensures Parse(stationId).Ok? <==> Text.Count('-', stationId) == 2 || Text.Count('-', stationId) == 3
    ensures Parse(stationId).Ok? ==>
      (Parse(stationId).value.timestamp.Some? <==> Text.Count('-', stationId) == 3) &&
      (Parse(stationId).value.number.Some? <==> Text.Count('-', stationId) == 2)
    ensures Parse(stationId).Err? ==> Parse(stationId) == Err(InvalidFormat(stationId))
  {
    Text.SplitCount(stationId, '-');
  }

  /** Parsing loses nothing: the parts of a parsed id, joined with '-', give the id back. */
  lemma ParsedPartsRebuildId(stationId: string)
    requires Parse(stationId).Ok?
    ensures var p := Parse(stationId).value;
      if p.timestamp.Some? then stationId == p.prefix + "-" + p.org + "-" + p.timestamp.value + "-" + p.uuid.value
      else p.number.Some? && stationId == p.prefix + "-" + p.org + "-" + p.number.value
  {
    var parts := Text.Split(stationId, '-');
    Text.JoinSplit(stationId, '-');
    if |parts| == 4 {
      JoinFour(parts);
    } else {
      JoinThree(parts);
    }
  }

  lemma JoinFour(parts: seq<string>)
    requires |parts| == 4
    ensures Text.Join(parts, '-') == parts[0] + "-" + parts[1] + "-" + parts[2] + "-" + parts[3]
  {
    var rest := parts[1..][1..];
    assert Text.Join(rest, '-') == parts[2] + "-" + parts[3];
    assert Text.Join(parts[1..], '-') == parts[1] + "-" + Text.Join(rest, '-');
  }

  lemma JoinThree(parts: seq<string>)
    requires |parts| == 3
    ensures Text.Join(parts, '-') == parts[0] + "-" + parts[1] + "-" + parts[2]
  {
    assert Text.Join(parts[1..], '-') == parts[1] + "-" + parts[2];
  }

  /** No prefix in the type table contains '-'. */
  lemma PrefixesHaveNoSeparator(stationType: string)
    requires stationType in StationTypes
    ensures '-' !in StationTypes[stationType].prefix
  {
  }

  /**
   * Parsing a generated id recovers its parts, and the profile it was
   * generated for, when the organisation code, timestamp and unique id
   * contain no '-'; such an id is valid.
   */
  lemma ParseGenerated(stationType: string, orgCode: string, timestamp: string, uniqueId: string,
                       today: Clock.DateTime, uuid4: string)
    requires '-' !in orgCode && '-' !in timestamp && '-' !in uniqueId
    requires Generate(stationType, orgCode, Some(timestamp), Some(uniqueId), today, uuid4).Ok?
    ensures var id := Generate(stationType, orgCode, Some(timestamp), Some(uniqueId), today, uuid4).value;
      Parse(id) == Ok(ParsedId(StationTypes[stationType].prefix, orgCode, None, Some(timestamp), Some(uniqueId),
                               stationType)) &&
      Validate(id)
  {
    var prefix := StationTypes[stationType].prefix;
    var parts := [prefix, orgCode, timestamp, uniqueId];
    PrefixesHaveNoSeparator(stationType);
    JoinFour(parts);
    Text.SplitJoin(parts, '-');
    PrefixTableInvertsTypes();
  }

  /** The text of a UUID: 36 characters, `-` exactly at 8, 13, 18 and 23, hexadecimal digits elsewhere. */
  predicate UuidText(u: string)
  {
    |u| == 36 &&
    forall i :: 0 <= i < 36 ==>
      (u[i] == '-' <==> i == 8 || i == 13 || i == 18 || i == 23) &&
      (u[i] != '-' ==> ('0' <= u[i] <= '9' || 'a' <= u[i] <= 'f'))
  }

  /** The four characters kept of a UUID's text are hexadecimal digits, so they hold no `-`. */
  lemma ShortUuidOfUuidText(u: string)
    requires UuidText(u)
    ensures |ShortUuid(u)| == 4 && '-' !in ShortUuid(u)
  {
    var s := ShortUuid(u);
    forall i | 0 <= i < 4 ensures s[i] != '-' {
      assert s[i] == u[i];
    }
  }

  /** The defaults lemma below applies to every id generated from a real UUID. */
  lemma ParseGeneratedFromUuid(stationType: string, orgCode: string, today: Clock.DateTime, uuid4: string)
    requires today.Valid() && '-' !in orgCode && UuidText(uuid4)
    requires Generate(stationType, orgCode, None, None, today, uuid4).Ok?
    ensures Validate(Generate(stationType, orgCode, None, None, today, uuid4).value)
    ensures Parse(Generate(stationType, orgCode, None, None, today, uuid4).value) ==
      Ok(ParsedId(StationTypes[stationType].prefix, orgCode, None, Some(Clock.ShortDate(today)),
                  Some(uuid4[..4]), stationType))
  {
    ShortUuidOfUuidText(uuid4);
    ParseGeneratedDefaults(stationType, orgCode, today, uuid4);
  }

  /**
   * An id generated with today's date and a fresh UUID parses back to its parts when the
   * organisation code has no '-'. Only the UUID's first four characters are kept, and
   * `str(uuid4())` has its first '-' at index 8, so they never hold one.
   */
  lemma ParseGeneratedDefaults(stationType: string, orgCode: string, today: Clock.DateTime, uuid4: string)
    requires today.Valid() && '-' !in orgCode && '-' !in ShortUuid(uuid4)
    requires Generate(stationType, orgCode, None, None, today, uuid4).Ok?
    ensures var id := Generate(stationType, orgCode, None, None, today, uuid4).value;
      Parse(id) == Ok(ParsedId(StationTypes[stationType].prefix, orgCode, None, Some(Clock.ShortDate(today)),
                               Some(ShortUuid(uuid4)), stationType)) &&
      Validate(id)
  {
    var ts := Clock.ShortDate(today);
    assert forall i :: 0 <= i < |ts| ==> Text.IsDigit(ts[i]);
    assert '-' !in ts;
    var uid := ShortUuid(uuid4);
    assert '-' !in uid;
    assert Generate(stationType, orgCode, None, None, today, uuid4) ==
           Generate(stationType, orgCode, Some(ts), Some(uid), today, uuid4);
    ParseGenerated(stationType, orgCode, ts, uid, today, uuid4);
  }

  /** An id is valid exactly when it has two or three '-' and its first piece is a known prefix. */
  lemma ValidateIff(stationId: string)
    ensures Validate(stationId) <==>
      (Text.Count('-', stationId) == 2 || Text.Count('-', stationId) == 3) &&
      Text.Split(stationId, '-')[0] in PrefixToProfile
  {
    Text.SplitCount(stationId, '-');
  }

  /** A legacy three-part id with a known prefix is valid: "BORP-VGH-01". */
  lemma LegacyIdIsValid()
    ensures Validate("BORP-VGH-01")
  {
    var parts := ["BORP", "VGH", "01"];
    var id := Text.Join(parts, '-');
    Text.SplitJoin(parts, '-');
    assert Parse(id).value.prefix == "BORP";
    assert Validate(id);
    JoinThree(parts);
    assert id == "BORP-VGH-01";
  }

  /** An id of two pieces is not valid: "INVALID-ID". */
  lemma TwoPieceIdIsInvalid()
    ensures !Validate("INVALID-ID")
  {
    var parts := ["INVALID", "ID"];
    assert Text.Join(parts, '-') == "INVALID-ID";
    Text.SplitJoin(parts, '-');
    assert Text.Split("INVALID-ID", '-') == parts;
  }

  /**
   * The display name is the id and a space followed by the custom name, or
   * the type's name, or the default name for an unknown prefix; an id that
   * does not parse is shown bare.
   */
  lemma DisplayNameCases(stationId: string, customName: Option<string>)
    ensures Parse(stationId).Err? ==> DisplayName(stationId, customName) == stationId
    ensures Parse(stationId).Ok? && customName.Some? && customName.value != "" ==>
      DisplayName(stationId, customName) == stationId + " " + customName.value
    ensures Parse(stationId).Ok? && (customName.None? || customName.value == "") ==>
      var prefix := Text.Split(stationId, '-')[0];
      DisplayName(stationId, customName) ==
        stationId + " " + (if prefix in PrefixToProfile then StationTypes[PrefixToProfile[prefix]].name else DefaultName)
  {
    PrefixTableInvertsTypes();
  }
}
