/** The relative age formatTimestamp prints under a request card. Each
    count is `Math.floor(diff / unit)` for a positive unit, which for Dafny's
    Euclidean division is `diff / unit` for negative differences too. */
module TimeFormat {
  import opened Wrappers
  import opened Decimal

  const MinuteMs: int := 60000
  const HourMs: int := 3600000
  const DayMs: int := 86400000

  /** The bucket an age falls in; OnDate is the locale-formatted absolute date
      of the timestamp, which is not modelled. */
  datatype Age = JustNow | MinutesAgo(minutes: int) | HoursAgo(hours: int) | DaysAgo(days: int) | OnDate(timestamp: int)

  function FormatTimestamp(timestamp: int, now: int): (a: Age)
    ensures a == JustNow <==> now - timestamp < MinuteMs
    ensures a.MinutesAgo? <==> MinuteMs <= now - timestamp < HourMs
    ensures a.HoursAgo? <==> HourMs <= now - timestamp < DayMs
    ensures a.DaysAgo? <==> DayMs <= now - timestamp < 7 * DayMs
    ensures a.OnDate? <==> 7 * DayMs <= now - timestamp
    ensures a.MinutesAgo? ==>
      1 <= a.minutes <= 59 && a.minutes * MinuteMs <= now - timestamp < (a.minutes + 1) * MinuteMs
    ensures a.HoursAgo? ==>
      1 <= a.hours <= 23 && a.hours * HourMs <= now - timestamp < (a.hours + 1) * HourMs
    ensures a.DaysAgo? ==>
      1 <= a.days <= 6 && a.days * DayMs <= now - timestamp < (a.days + 1) * DayMs
    ensures a.OnDate? ==> a.timestamp == timestamp
  {
    var diffMs := now - timestamp;
    var diffMins := diffMs / MinuteMs;
    var diffHours := diffMs / HourMs;
    var diffDays := diffMs / DayMs;
    if diffMins < 1 then JustNow
    else if diffMins < 60 then MinutesAgo(diffMins)
    else if diffHours < 24 then HoursAgo(diffHours)
    else if diffDays < 7 then DaysAgo(diffDays)
    else OnDate(timestamp)
  }

  /** The printed label; None where the source prints a locale date. */
  function AgeText(a: Age): (text: Option<string>)
    ensures text.None? <==> a.OnDate?
    ensures text == Some("Just now") <==> a.JustNow?
  {
    match a
    case JustNow => Some("Just now")
    case MinutesAgo(n) => Some(IntToDecimal(n) + " min ago")
    case HoursAgo(n) => Some(IntToDecimal(n) + " hour" + (if n > 1 then "s" else "") + " ago")
    case DaysAgo(n) => Some(IntToDecimal(n) + " day" + (if n > 1 then "s" else "") + " ago")
    case OnDate(_) => None
  }

  /** Order of the buckets from youngest to oldest. */
  function Stage(a: Age): nat {
    match a
    case JustNow => 0
    case MinutesAgo(_) => 1
    case HoursAgo(_) => 2
    case DaysAgo(_) => 3
    case OnDate(_) => 4
  }

  /** As time passes a request's label only ever gets older: it moves to a
      later bucket or keeps its bucket with a count that does not go down. */
  lemma AgeMonotonic(timestamp: int, now1: int, now2: int)
    requires now1 <= now2
    ensures Stage(FormatTimestamp(timestamp, now1)) <= Stage(FormatTimestamp(timestamp, now2))
    ensures FormatTimestamp(timestamp, now1).MinutesAgo? && FormatTimestamp(timestamp, now2).MinutesAgo? ==>
      FormatTimestamp(timestamp, now1).minutes <= FormatTimestamp(timestamp, now2).minutes
    ensures FormatTimestamp(timestamp, now1).HoursAgo? && FormatTimestamp(timestamp, now2).HoursAgo? ==>
      FormatTimestamp(timestamp, now1).hours <= FormatTimestamp(timestamp, now2).hours
    ensures FormatTimestamp(timestamp, now1).DaysAgo? && FormatTimestamp(timestamp, now2).DaysAgo? ==>
      FormatTimestamp(timestamp, now1).days <= FormatTimestamp(timestamp, now2).days
  {
  }

  /** The plural suffix appears exactly when the count exceeds one. */
  lemma PluralSuffix(timestamp: int, now: int)
    ensures FormatTimestamp(timestamp, now).HoursAgo? ==>
      var n := FormatTimestamp(timestamp, now).hours;
      AgeText(FormatTimestamp(timestamp, now)) ==
        Some(IntToDecimal(n) + (if n == 1 then " hour ago" else " hours ago"))
    ensures FormatTimestamp(timestamp, now).DaysAgo? ==>
      var n := FormatTimestamp(timestamp, now).days;
      AgeText(FormatTimestamp(timestamp, now)) ==
        Some(IntToDecimal(n) + (if n == 1 then " day ago" else " days ago"))
  {
    var a := FormatTimestamp(timestamp, now);
    if a.HoursAgo? {
      assert " hour" + "s" + " ago" == " hours ago";
      assert " hour" + "" + " ago" == " hour ago";
      assert IntToDecimal(a.hours) + " hour" + (if a.hours > 1 then "s" else "") + " ago" ==
        IntToDecimal(a.hours) + (" hour" + (if a.hours > 1 then "s" else "") + " ago");
    }
    if a.DaysAgo? {
      assert " day" + "s" + " ago" == " days ago";
      assert " day" + "" + " ago" == " day ago";
      assert IntToDecimal(a.days) + " day" + (if a.days > 1 then "s" else "") + " ago" ==
        IntToDecimal(a.days) + (" day" + (if a.days > 1 then "s" else "") + " ago");
    }
  }

  /** A clock behind the timestamp (a negative difference) reads as just now. */
  lemma FutureIsJustNow(timestamp: int, now: int)
    requires now < timestamp
    ensures AgeText(FormatTimestamp(timestamp, now)) == Some("Just now")
  {
  }
}
