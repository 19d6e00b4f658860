/**
 * Readings of the wall clock, which the system takes from `datetime.now()`
 * (local time) and from SQLite's `CURRENT_TIMESTAMP` (UTC), and the text
 * forms it writes them in.
 */
module Clock {
  import Text

  datatype DateTime = DateTime(year: nat, month: nat, day: nat, hour: nat, minute: nat, second: nat, microsecond: nat)
  {
    /** The ranges Python's `datetime` enforces. */
    predicate Valid()
    {
      1 <= year <= 9999 && 1 <= month <= 12 && 1 <= day <= 31 &&
      hour < 24 && minute < 60 && second < 60 && microsecond < 1000000
    }
  }

  /** One instant as the two clocks the code consults report it. */
  datatype Instant = Instant(local: DateTime, utc: DateTime)

  function DateDigits(t: DateTime): string
  {
    Text.Pad(t.year, 4) + Text.Pad(t.month, 2) + Text.Pad(t.day, 2)
  }

  function TimeDigits(t: DateTime): string
  {
    Text.Pad(t.hour, 2) + Text.Pad(t.minute, 2) + Text.Pad(t.second, 2)
  }

  /** `strftime('%Y%m%d-%H%M%S')`: fifteen characters, a '-' at index 8 and digits elsewhere. */
  function Compact(t: DateTime): (s: string)
    requires t.Valid()
    ensures |s| == 15 && s[8] == '-'
    ensures forall i :: 0 <= i < 15 && i != 8 ==> Text.IsDigit(s[i])
  {
    Text.DigitsLength(t.year, 4);
    Text.DigitsLength(t.month, 2);
    Text.DigitsLength(t.day, 2);
    Text.DigitsLength(t.hour, 2);
    Text.DigitsLength(t.minute, 2);
    Text.DigitsLength(t.second, 2);
    DateDigits(t) + "-" + TimeDigits(t)
  }

  /** `strftime('%y%m%d')`: the year modulo 100, month and day, two digits each. */
  function ShortDate(t: DateTime): (s: string)
    requires t.Valid()
    ensures |s| == 6 && Text.AllDigits(s)
  {
    Text.DigitsLength(t.year % 100, 2);
    Text.DigitsLength(t.month, 2);
    Text.DigitsLength(t.day, 2);
    Text.Pad(t.year % 100, 2) + Text.Pad(t.month, 2) + Text.Pad(t.day, 2)
  }

  function DashedDate(t: DateTime): string
  {
    Text.Pad(t.year, 4) + "-" + Text.Pad(t.month, 2) + "-" + Text.Pad(t.day, 2)
  }

  function ColonTime(t: DateTime): string
  {
    Text.Pad(t.hour, 2) + ":" + Text.Pad(t.minute, 2) + ":" + Text.Pad(t.second, 2)
  }

  /** `datetime.isoformat()`: the fraction of a second is written only when nonzero. */
  function Iso(t: DateTime): string
  {
    DashedDate(t) + "T" + ColonTime(t) + (if t.microsecond == 0 then "" else "." + Text.Pad(t.microsecond, 6))
  }

  /** The text SQLite stores for `CURRENT_TIMESTAMP`: 'YYYY-MM-DD HH:MM:SS'. */
  function SqlTimestamp(t: DateTime): string
  {
    DashedDate(t) + " " + ColonTime(t)
  }
}
