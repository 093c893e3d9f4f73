/** The log's ISO 8601 timestamps (benchmarks/usb-bench-rs/src/csv.rs, iso_timestamp). */
module LogTimestamp {
  import opened UsbBase
  import opened CivilCalendar
  import opened DecimalText

  /** The date of a second of the epoch. */
  function DateOf(secs: nat): (d: Date)
    ensures ValidDate(d) && d.year >= 1970 && DayNumber(d) == secs / 86400
  {
    var days := secs / 86400;
    YmdInvertsDayNumber(days);
    YearFromEpoch(EpochDaysToYmd(days));
    EpochDaysToYmd(days)
  }

  lemma YearFromEpoch(d: Date)
    requires ValidDate(d) && DayNumber(d) >= 0
    ensures d.year >= 1970
  {
    DayWithinYear(d);
    if d.year < 1970 {
      YearsOrdered(d.year, 1970);
    }
  }

  function Tail(month: string, day: string, hour: string, minute: string, second: string): string {
    "-" + month + "-" + day + "T" + hour + ":" + minute + ":" + second + "Z"
  }

  function Timestamp(date: Date, hour: nat, minute: nat, second: nat): string
    requires ValidDate(date) && date.year >= 0
  {
    Padded(date.year, 4)
    + Tail(Padded(date.month, 2), Padded(date.day, 2), Padded(hour, 2), Padded(minute, 2), Padded(second, 2))
  }

  function IsoTimestamp(secs: nat): string {
    var rem := secs % 86400;
    Timestamp(DateOf(secs), rem / 3600, rem % 3600 / 60, rem % 60)
  }

  // ----- a reader -----

  /** The second the six fields stand for, by the calendar's day count. */
  function SecondOf(year: nat, month: nat, day: nat, hour: nat, minute: nat, second: nat): Option<nat> {
    var date := Date(year, month, day);
    if !ValidDate(date) || DayNumber(date) < 0 || hour >= 24 || minute >= 60 || second >= 60 then None
    else Some(86400 * DayNumber(date) + 3600 * hour + 60 * minute + second)
  }

  function ReadFields(year: string, month: string, day: string, hour: string, minute: string, second: string)
    : Option<nat>
  {
    match (ReadNumber(year), ReadNumber(month), ReadNumber(day), ReadNumber(hour), ReadNumber(minute), ReadNumber(second))
    case (Some(y), Some(mo), Some(d), Some(h), Some(mi), Some(s)) => SecondOf(y, mo, d, h, mi, s)
    case _ => None
  }

  /** The year may have more than four digits. */
  function ReadIso(t: string): Option<nat> {
    if |t| < 17 then None
    else
      var year, tail := t[..|t| - 16], t[|t| - 16..];
      var month, day := tail[1..3], tail[4..6];
      var hour, minute, second := tail[7..9], tail[10..12], tail[13..15];
      if tail[0] != '-' || tail[3] != '-' || tail[6] != 'T' || tail[9] != ':' || tail[12] != ':' || tail[15] != 'Z' then None
      else ReadFields(year, month, day, hour, minute, second)
  }

  lemma TailSplits(month: string, day: string, hour: string, minute: string, second: string)
    requires |month| == 2 && |day| == 2 && |hour| == 2 && |minute| == 2 && |second| == 2
    ensures var t := Tail(month, day, hour, minute, second);
            && |t| == 16 && t[1..3] == month && t[4..6] == day
            && t[7..9] == hour && t[10..12] == minute && t[13..15] == second
            && t[0] == '-' && t[3] == '-' && t[6] == 'T' && t[9] == ':' && t[12] == ':' && t[15] == 'Z'
  {}

  lemma TwoDigitsReadBack(n: nat)
    requires n < 100
    ensures |Padded(n, 2)| == 2 && ReadNumber(Padded(n, 2)) == Some(n)
  {
    TwoDigits(n);
    PaddedReadsBack(n, 2);
  }

  lemma TimeOfDay(rem: nat)
    requires rem < 86400
    ensures rem / 3600 < 24 && rem % 3600 / 60 < 60 && rem % 60 < 60
    ensures rem == 3600 * (rem / 3600) + 60 * (rem % 3600 / 60) + rem % 60
  {
    var hour, inHour := rem / 3600, rem % 3600;
    assert rem == 3600 * hour + inHour;
    assert rem % 60 == inHour % 60;
  }

  lemma SplitReads(year: string, month: string, day: string, hour: string, minute: string, second: string)
    requires year != "" && |month| == 2 && |day| == 2 && |hour| == 2 && |minute| == 2 && |second| == 2
    ensures ReadIso(year + Tail(month, day, hour, minute, second))
         == ReadFields(year, month, day, hour, minute, second)
  {
    TailSplits(month, day, hour, minute, second);
    var tail := Tail(month, day, hour, minute, second);
    assert (year + tail)[|year|..] == tail && (year + tail)[..|year|] == year;
  }

  lemma FieldsReadBack(year: nat, month: nat, day: nat, hour: nat, minute: nat, second: nat)
    requires month < 100 && day < 100 && hour < 100 && minute < 100 && second < 100
    ensures ReadIso(Padded(year, 4) + Tail(Padded(month, 2), Padded(day, 2),
                                           Padded(hour, 2), Padded(minute, 2), Padded(second, 2)))
         == SecondOf(year, month, day, hour, minute, second)
  {
    PaddedReadsBack(year, 4);
    TwoDigitsReadBack(month);
    TwoDigitsReadBack(day);
    TwoDigitsReadBack(hour);
    TwoDigitsReadBack(minute);
    TwoDigitsReadBack(second);
    SplitReads(Padded(year, 4), Padded(month, 2), Padded(day, 2),
               Padded(hour, 2), Padded(minute, 2), Padded(second, 2));
  }

  lemma TimestampReadsBack(date: Date, hour: nat, minute: nat, second: nat)
    requires ValidDate(date) && date.year >= 0 && hour < 24 && minute < 60 && second < 60
    ensures ReadIso(Timestamp(date, hour, minute, second))
         == SecondOf(date.year, date.month, date.day, hour, minute, second)
  {
    FieldsReadBack(date.year, date.month, date.day, hour, minute, second);
  }

  lemma SecondOfDate(date: Date, secs: nat)
    requires ValidDate(date) && date.year >= 0 && DayNumber(date) == secs / 86400
    ensures var rem := secs % 86400;
            && rem / 3600 < 24 && rem % 3600 / 60 < 60 && rem % 60 < 60
            && SecondOf(date.year, date.month, date.day, rem / 3600, rem % 3600 / 60, rem % 60) == Some(secs)
  {
    TimeOfDay(secs % 86400);
  }

  lemma DatedReadsBack(date: Date, secs: nat)
    requires ValidDate(date) && date.year >= 0 && DayNumber(date) == secs / 86400
    ensures var rem := secs % 86400;
            ReadIso(Timestamp(date, rem / 3600, rem % 3600 / 60, rem % 60)) == Some(secs)
  {
    var rem := secs % 86400;
    var hour, minute, second := rem / 3600, rem % 3600 / 60, rem % 60;
    SecondOfDate(date, secs);
    TimestampReadsBack(date, hour, minute, second);
    calc {
      ReadIso(Timestamp(date, hour, minute, second));
      SecondOf(date.year, date.month, date.day, hour, minute, second);
      Some(secs);
    }
  }

  /** Every second from the epoch on is recovered from its timestamp. */
  lemma IsoReadsBack(secs: nat)
    ensures ReadIso(IsoTimestamp(secs)) == Some(secs)
  {
    DatedReadsBack(DateOf(secs), secs);
  }

  /** The form of ISO 8601, from the end: YYYY-MM-DDThh:mm:ssZ, and the numbers in it. */
  predicate IsoForm(t: string, d: Date, hour: nat, minute: nat, second: nat) {
    var n := |t|;
    && n >= 20 && t[n - 16] == '-' && t[n - 13] == '-' && t[n - 10] == 'T'
    && t[n - 7] == ':' && t[n - 4] == ':' && t[n - 1] == 'Z'
    && d.year >= 0 && d.month >= 0 && d.day >= 0 && ReadNumber(t[..n - 16]) == Some(d.year)
    && ReadNumber(t[n - 15..n - 13]) == Some(d.month) && ReadNumber(t[n - 12..n - 10]) == Some(d.day)
    && ReadNumber(t[n - 9..n - 7]) == Some(hour) && ReadNumber(t[n - 6..n - 4]) == Some(minute)
    && ReadNumber(t[n - 3..n - 1]) == Some(second)
  }

  lemma FormReads(year: string, month: string, day: string, hour: string, minute: string, second: string,
                  d: Date, h: nat, mi: nat, s: nat)
    requires |year| >= 4 && |month| == 2 && |day| == 2 && |hour| == 2 && |minute| == 2 && |second| == 2
    requires d.year >= 0 && d.month >= 0 && d.day >= 0 && ReadNumber(year) == Some(d.year)
    requires ReadNumber(month) == Some(d.month) && ReadNumber(day) == Some(d.day) && ReadNumber(hour) == Some(h)
    requires ReadNumber(minute) == Some(mi) && ReadNumber(second) == Some(s)
    ensures IsoForm(year + Tail(month, day, hour, minute, second), d, h, mi, s)
  {
    FormSplits(year, month, day, hour, minute, second);
  }

  lemma PaddedForm(d: Date, hour: nat, minute: nat, second: nat)
    requires d.year >= 0 && 0 <= d.month < 100 && 0 <= d.day < 100 && hour < 100 && minute < 100 && second < 100
    ensures IsoForm(Padded(d.year, 4) + Tail(Padded(d.month, 2), Padded(d.day, 2),
                                             Padded(hour, 2), Padded(minute, 2), Padded(second, 2)),
                    d, hour, minute, second)
  {
    PaddedReadsBack(d.year, 4);
    TwoDigitsReadBack(d.month);
    TwoDigitsReadBack(d.day);
    TwoDigitsReadBack(hour);
    TwoDigitsReadBack(minute);
    TwoDigitsReadBack(second);
    FormReads(Padded(d.year, 4), Padded(d.month, 2), Padded(d.day, 2),
              Padded(hour, 2), Padded(minute, 2), Padded(second, 2), d, hour, minute, second);
  }

  /** Every timestamp has that form, with the date of its day and the time in its day. */
  lemma IsoTimestampForm(secs: nat)
    ensures IsoForm(IsoTimestamp(secs), EpochDaysToYmd(secs / 86400),
                    secs % 86400 / 3600, secs % 86400 % 3600 / 60, secs % 86400 % 60)
  {
    TimeOfDay(secs % 86400);
    PaddedForm(DateOf(secs), secs % 86400 / 3600, secs % 86400 % 3600 / 60, secs % 86400 % 60);
  }

  lemma FormSplits(year: string, month: string, day: string, hour: string, minute: string, second: string)
    requires |month| == 2 && |day| == 2 && |hour| == 2 && |minute| == 2 && |second| == 2
    ensures var t := year + Tail(month, day, hour, minute, second);
            var n := |t|;
            && n == |year| + 16 && t[..n - 16] == year && t[n - 15..n - 13] == month && t[n - 12..n - 10] == day
            && t[n - 9..n - 7] == hour && t[n - 6..n - 4] == minute && t[n - 3..n - 1] == second
            && t[n - 16] == '-' && t[n - 13] == '-' && t[n - 10] == 'T' && t[n - 7] == ':' && t[n - 4] == ':' && t[n - 1] == 'Z'
  {}

  /** No two seconds share a timestamp. */
  lemma TimestampsDistinct(a: nat, b: nat)
    requires IsoTimestamp(a) == IsoTimestamp(b)
    ensures a == b
  {
    IsoReadsBack(a);
    IsoReadsBack(b);
  }
}
