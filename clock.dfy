/**
 * JavaScript Date values as integer milliseconds since the epoch, and
 * Date.prototype.toISOString. The wall clock itself is never read by the
 * model: every operation that calls `Date.now()` or `new Date()` takes `now`.
 */
module Clock {
  import opened Text

  /** The largest magnitude of a valid time value (section 21.4.1.1 of ECMA-262). */
  const MaxTimeValue: int := 8_640_000_000_000_000

  const MsPerSecond: int := 1000
  const MsPerMinute: int := 60 * 1000
  const MsPerHour: int := 60 * 60 * 1000
  const MsPerDay: int := 24 * 60 * 60 * 1000

  /** A time value a Date can hold; any other makes toISOString throw a RangeError. */
  predicate ValidTime(t: int)
  {
    -MaxTimeValue <= t <= MaxTimeValue
  }

  /** (year, month, day) of the proleptic Gregorian calendar for a day number counted from 1970-01-01. */
  function CivilFromDays(days: int): (int, int, int)
  {
    var z := days + 719468;
    var era := z / 146097;
    var doe := z - era * 146097;
    var yoe := (doe - doe / 1460 + doe / 36524 - doe / 146096) / 365;
    var doy := doe - (365 * yoe + yoe / 4 - yoe / 100);
    var mp := (5 * doy + 2) / 153;
    var day := doy - (153 * mp + 2) / 5 + 1;
    var month := if mp < 10 then mp + 3 else mp - 9;
    var year := yoe + era * 400;
    (if month <= 2 then year + 1 else year, month, day)
  }

  function Pad(n: int, width: nat): string
  {
    ZeroPad(DecimalString(n), width)
  }

  /** Years 0..9999 take four digits; any other year is signed and six digits wide. */
  function YearText(y: int): string
  {
    if 0 <= y <= 9999 then Pad(y, 4)
    else if y < 0 then "-" + Pad(-y, 6)
    else "+" + Pad(y, 6)
  }

  /** Date.prototype.toISOString of a valid time value: YYYY-MM-DDTHH:mm:ss.sssZ. */
  function IsoString(t: int): string
  {
    var days := t / MsPerDay;
    var inDay := t % MsPerDay;
    var (y, m, d) := CivilFromDays(days);
    YearText(y) + "-" + Pad(m, 2) + "-" + Pad(d, 2)
    + "T" + Pad(inDay / MsPerHour, 2) + ":" + Pad(inDay / MsPerMinute % 60, 2)
    + ":" + Pad(inDay / MsPerSecond % 60, 2) + "." + Pad(inDay % MsPerSecond, 3) + "Z"
  }
}
