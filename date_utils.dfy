/** `formatRelativeDate` (ui/src/utils/dateUtils.ts): how long ago a date was, in the
    largest whole unit that fits. Parsing the text and reading the clock are inputs: a
    parser from text to epoch milliseconds (None for an invalid date) and the current
    time in epoch milliseconds. */
module RelativeDate {
  import opened Wrappers
  import opened Text

  const SecondMs := 1000
  const MinuteMs := 60 * SecondMs
  const HourMs := 60 * MinuteMs
  const DayMs := 24 * HourMs
  /** A month is thirty days. */
  const MonthMs := 30 * DayMs
  /** A year is twelve such months: 360 days. */
  const YearMs := 12 * MonthMs

  /** The chain of floor divisions and guarded returns, for a difference of `diffMs`
      milliseconds. Division by a positive number rounds down here as `Math.floor` does,
      also for the negative difference of a future date. */
  function Bucket(diffMs: int): string {
    var diffSec := diffMs / 1000;
    var diffMin := diffSec / 60;
    var diffHour := diffMin / 60;
    var diffDay := diffHour / 24;
    var diffMonth := diffDay / 30;
    var diffYear := diffMonth / 12;
    if diffYear > 0 then IntToString(diffYear) + "y"
    else if diffMonth > 0 then IntToString(diffMonth) + "mo"
    else if diffDay > 0 then IntToString(diffDay) + "d"
    else if diffHour > 0 then IntToString(diffHour) + "h"
    else if diffMin > 0 then IntToString(diffMin) + "m"
    else "just now"
  }

  /** `formatRelativeDate(dateString)` at time `nowMs`. */
  function FormatRelativeDate(dateString: Option<string>, parse: string -> Option<int>, nowMs: int): string {
    if dateString.None? || dateString.value == "" then ""
    else
      match parse(dateString.value)
      case None => ""
      case Some(t) => Bucket(nowMs - t)
  }

  /** No text, empty text or an invalid date gives the empty string; a valid date gives
      the bucket of its distance from now, which is never empty. */
  lemma FormatRelativeDateSpec(dateString: Option<string>, parse: string -> Option<int>, nowMs: int)
    ensures dateString.None? || dateString == Some("") ==> FormatRelativeDate(dateString, parse, nowMs) == ""
    ensures dateString.Some? && parse(dateString.value).None? ==> FormatRelativeDate(dateString, parse, nowMs) == ""
    ensures dateString.Some? && dateString.value != "" && parse(dateString.value).Some? ==>
      && FormatRelativeDate(dateString, parse, nowMs) == Bucket(nowMs - parse(dateString.value).value)
      && FormatRelativeDate(dateString, parse, nowMs) != ""
  {
    if dateString.Some? && dateString.value != "" && parse(dateString.value).Some? {
      BucketNonEmpty(nowMs - parse(dateString.value).value);
    }
  }

  lemma BucketNonEmpty(diffMs: int)
    ensures Bucket(diffMs) != ""
  {
  }

  /** Exactly one unit is reported: the largest whose whole count is positive, with that
      count. Anything under a minute, a future date included, is "just now"; "Ny" starts
      at 360 days. */
  lemma BucketSpec(diffMs: int)
    ensures diffMs < MinuteMs ==> Bucket(diffMs) == "just now"
    ensures MinuteMs <= diffMs < HourMs ==>
      Bucket(diffMs) == IntToString(diffMs / MinuteMs) + "m" && 1 <= diffMs / MinuteMs < 60
    ensures HourMs <= diffMs < DayMs ==>
      Bucket(diffMs) == IntToString(diffMs / HourMs) + "h" && 1 <= diffMs / HourMs < 24
    ensures DayMs <= diffMs < MonthMs ==>
      Bucket(diffMs) == IntToString(diffMs / DayMs) + "d" && 1 <= diffMs / DayMs < 30
    ensures MonthMs <= diffMs < YearMs ==>
      Bucket(diffMs) == IntToString(diffMs / MonthMs) + "mo" && 1 <= diffMs / MonthMs < 12
    ensures YearMs <= diffMs ==>
      Bucket(diffMs) == IntToString(diffMs / YearMs) + "y" && diffMs / YearMs >= 1
  {
    var diffSec := diffMs / 1000;
    var diffMin := diffSec / 60;
    var diffHour := diffMin / 60;
    var diffDay := diffHour / 24;
    var diffMonth := diffDay / 30;
    var diffYear := diffMonth / 12;
    assert diffMin == diffMs / MinuteMs;
    assert diffHour == diffMs / HourMs;
    assert diffDay == diffMs / DayMs;
    assert diffMonth == diffMs / MonthMs;
    assert diffYear == diffMs / YearMs;
  }

  /** "just now" is reported exactly for differences under a minute. */
  lemma JustNowIff(diffMs: int)
    ensures Bucket(diffMs) == "just now" <==> diffMs < MinuteMs
  {
    BucketSpec(diffMs);
    if diffMs >= MinuteMs {
      assert Bucket(diffMs) != "just now" by {
        var b := Bucket(diffMs);
        assert b[|b| - 1] in "ymdh" || b[|b| - 2..] == "mo";
      }
    }
  }
}
