/**
 * The names given to new recordings and synthesized clips:
 * `datetime.now().strftime("%Y%m%d-%I%M%S%p") + '.wav'` (main.py, both the
 * upload and the text-to-speech handler). The clock reading is an input.
 */
module TimestampNames {
  import opened Wrappers
  import opened Decimal
  import opened StringOrder
  import Uploads

  /** A clock reading at second granularity, with a 24-hour `hour`. */
  datatype DateTime = DateTime(year: nat, month: nat, day: nat, hour: nat, minute: nat, second: nat)

  predicate IsLeapYear(y: nat) {
    y % 4 == 0 && (y % 100 != 0 || y % 400 == 0)
  }

  function DaysInMonth(y: nat, m: nat): nat
    requires 1 <= m <= 12
  {
    if m == 2 then (if IsLeapYear(y) then 29 else 28)
    else if m == 4 || m == 6 || m == 9 || m == 11 then 30
    else 31
  }

  /** Every field fits the width it is written in. */
  predicate InRange(t: DateTime) {
    t.year <= 9999 && t.month <= 12 && t.day <= 31 && t.hour < 24 && t.minute < 60 && t.second < 60
  }

  /** The readings Python's `datetime` can hold (years 1 to 9999, no leap second). */
  predicate Valid(t: DateTime) {
    InRange(t) && 1 <= t.year && 1 <= t.month && 1 <= t.day <= DaysInMonth(t.year, t.month)
  }

  /** `%I`: the hour on a 12-hour clock, 12 for midnight and noon. */
  function Hour12(hour: nat): nat {
    if hour % 12 == 0 then 12 else hour % 12
  }

  /** `%p` in the C locale. */
  function Meridiem(hour: nat): string {
    if hour < 12 then "AM" else "PM"
  }

  /** `strftime("%Y%m%d-%I%M%S%p")`. */
  function Stamp(t: DateTime): string {
    Padded(t.year, 4) + Padded(t.month, 2) + Padded(t.day, 2) + "-"
    + Padded(Hour12(t.hour), 2) + Padded(t.minute, 2) + Padded(t.second, 2) + Meridiem(t.hour)
  }

  function TimestampName(t: DateTime): string {
    Stamp(t) + ".wav"
  }

  /** The shape of a generated name: digit fields, the dash, `AM` or `PM`, and `.wav`. */
  predicate Shaped(s: string) {
    |s| == 21 && s[8] == '-' && s[17..] == ".wav" && (s[15..17] == "AM" || s[15..17] == "PM")
    && AllDigits(s[..4]) && AllDigits(s[4..6]) && AllDigits(s[6..8])
    && AllDigits(s[9..11]) && AllDigits(s[11..13]) && AllDigits(s[13..15])
  }

  /** The reading a well-shaped name spells, turning the 12-hour clock back into 24 hours. */
  function Reading(s: string): DateTime
    requires Shaped(s)
  {
    var hour := Value(s[9..11]) % 12 + (if s[15..17] == "PM" then 12 else 0);
    DateTime(Value(s[..4]), Value(s[4..6]), Value(s[6..8]), hour, Value(s[11..13]), Value(s[13..15]))
  }

  /** The inverse of `TimestampName`: the reading a stored name was made at, if it is such a name. */
  function ParseTimestampName(s: string): Option<DateTime> {
    if Shaped(s) && 1 <= Value(s[9..11]) <= 12 && Valid(Reading(s)) then Some(Reading(s)) else None
  }

  /** Where each field of a generated name sits. */
  predicate HasFields(r: string, t: DateTime) {
    |r| == 21
    && r[..4] == Padded(t.year, 4) && r[4..6] == Padded(t.month, 2) && r[6..8] == Padded(t.day, 2)
    && r[8] == '-' && r[9..11] == Padded(Hour12(t.hour), 2)
    && r[11..13] == Padded(t.minute, 2) && r[13..15] == Padded(t.second, 2)
    && r[15..17] == Meridiem(t.hour) && r[17..] == ".wav"
  }

  lemma NameFields(t: DateTime)
    ensures HasFields(TimestampName(t), t)
  {
    var y, mo, d := Padded(t.year, 4), Padded(t.month, 2), Padded(t.day, 2);
    var h, mi, se := Padded(Hour12(t.hour), 2), Padded(t.minute, 2), Padded(t.second, 2);
    var r := TimestampName(t);
    assert r == y + mo + d + "-" + h + mi + se + Meridiem(t.hour) + ".wav";
  }

  /** The fields determine the whole name. */
  lemma FieldsDetermineName(r: string, t: DateTime)
    requires HasFields(r, t)
    ensures r == TimestampName(t)
  {
    var n := TimestampName(t);
    NameFields(t);
    assert r == r[..4] + r[4..6] + r[6..8] + [r[8]] + r[9..11] + r[11..13] + r[13..15] + r[15..17] + r[17..];
    assert n == n[..4] + n[4..6] + n[6..8] + [n[8]] + n[9..11] + n[11..13] + n[13..15] + n[15..17] + n[17..];
  }

  /**
   * A generated name is 21 characters: eight date digits, a dash, the hour
   * 01..12, minutes and seconds below 60, `AM` for hours 0-11 and `PM` for
   * 12-23, then `.wav`; and the fields read back as the clock reading.
   */
  lemma TimestampNameLayout(t: DateTime)
    requires Valid(t)
    ensures var r := TimestampName(t);
      |r| == 21 && AllDigits(r[..8]) && r[8] == '-' && AllDigits(r[9..15])
      && Value(r[..4]) == t.year && Value(r[4..6]) == t.month && Value(r[6..8]) == t.day
      && 1 <= Value(r[9..11]) <= 12 && Value(r[9..11]) % 12 == t.hour % 12
      && Value(r[11..13]) == t.minute < 60 && Value(r[13..15]) == t.second < 60
      && (r[15..17] == "AM" <==> t.hour < 12) && (r[15..17] == "PM" <==> t.hour >= 12)
      && r[17..] == ".wav"
  {
    NameFields(t);
    LayoutOfFields(TimestampName(t), t);
  }

  lemma LayoutOfFields(r: string, t: DateTime)
    requires InRange(t) && HasFields(r, t)
    ensures |r| == 21 && AllDigits(r[..8]) && r[8] == '-' && AllDigits(r[9..15])
    ensures Value(r[..4]) == t.year && Value(r[4..6]) == t.month && Value(r[6..8]) == t.day
    ensures 1 <= Value(r[9..11]) <= 12 && Value(r[9..11]) % 12 == t.hour % 12
    ensures Value(r[11..13]) == t.minute < 60 && Value(r[13..15]) == t.second < 60
    ensures (r[15..17] == "AM" <==> t.hour < 12) && (r[15..17] == "PM" <==> t.hour >= 12)
    ensures r[17..] == ".wav"
  {
    DigitRuns(r, t);
    FieldValues(t);
    MeridiemField(r, t);
  }

  lemma MeridiemField(r: string, t: DateTime)
    requires HasFields(r, t)
    ensures 1 <= Hour12(t.hour) <= 12 && Hour12(t.hour) % 12 == t.hour % 12
    ensures (r[15..17] == "AM" <==> t.hour < 12) && (r[15..17] == "PM" <==> t.hour >= 12)
  {
    assert "AM" != "PM" by { assert "AM"[0] != "PM"[0]; }
  }

  lemma DigitRuns(r: string, t: DateTime)
    requires HasFields(r, t)
    ensures AllDigits(r[..8]) && AllDigits(r[9..15])
  {
    assert r[..8] == r[..4] + r[4..6] + r[6..8];
    assert r[9..15] == r[9..11] + r[11..13] + r[13..15];
  }

  lemma FieldValues(t: DateTime)
    requires InRange(t)
    ensures Value(Padded(t.year, 4)) == t.year && Value(Padded(t.month, 2)) == t.month
    ensures Value(Padded(t.day, 2)) == t.day && Value(Padded(Hour12(t.hour), 2)) == Hour12(t.hour)
    ensures Value(Padded(t.minute, 2)) == t.minute && Value(Padded(t.second, 2)) == t.second
  {
    ValuePadded(t.year, 4);
    ValuePadded(t.month, 2);
    ValuePadded(t.day, 2);
    ValuePadded(Hour12(t.hour), 2);
    ValuePadded(t.minute, 2);
    ValuePadded(t.second, 2);
  }

  /** Midnight is written `12…AM`, one in the afternoon `01…PM`. */
  lemma TwelveHourClockExamples(t: DateTime)
    ensures t.hour == 0 ==> TimestampName(t)[9..11] == "12" && TimestampName(t)[15..17] == "AM"
    ensures t.hour == 12 ==> TimestampName(t)[9..11] == "12" && TimestampName(t)[15..17] == "PM"
    ensures t.hour == 13 ==> TimestampName(t)[9..11] == "01" && TimestampName(t)[15..17] == "PM"
  {
    NameFields(t);
    assert Padded(12, 2) == "12" && Padded(1, 2) == "01";
  }

  /** Generated names pass the upload filter; their transcripts do not. */
  lemma TimestampNameAccepted(t: DateTime)
    ensures Uploads.AllowedFile(TimestampName(t))
    ensures !Uploads.AllowedFile(TimestampName(t) + ".txt")
  {
    NameFields(t);
    Uploads.EndsInWavAccepted(TimestampName(t));
    Uploads.TranscriptNameRejected(TimestampName(t));
  }

  /** Parsing a generated name gives back the reading it was made from. */
  lemma ParseTimestampNameRoundTrip(t: DateTime)
    requires Valid(t)
    ensures ParseTimestampName(TimestampName(t)) == Some(t)
  {
    NameFields(t);
    ParseFields(TimestampName(t), t);
  }

  lemma ParseFields(r: string, t: DateTime)
    requires Valid(t) && HasFields(r, t)
    ensures ParseTimestampName(r) == Some(t)
  {
    FieldValues(t);
    ShapedOfFields(r, t);
    ReadingOfFields(r, t);
  }

  lemma ShapedOfFields(r: string, t: DateTime)
    requires HasFields(r, t)
    ensures Shaped(r)
  {
  }

  lemma ReadingOfFields(r: string, t: DateTime)
    requires InRange(t) && HasFields(r, t)
    ensures Shaped(r) && Value(r[9..11]) == Hour12(t.hour) && Reading(r) == t
  {
    FieldValues(t);
    HourRoundTrip(t.hour);
    var hour := Value(r[9..11]) % 12 + (if r[15..17] == "PM" then 12 else 0);
    assert hour == t.hour;
  }

  /** The 24-hour clock is recovered from the 12-hour hour and the meridiem. */
  lemma HourRoundTrip(hour: nat)
    requires hour < 24
    ensures 1 <= Hour12(hour) <= 12
    ensures Hour12(hour) % 12 + (if Meridiem(hour) == "PM" then 12 else 0) == hour
  {
  }

  /** Only generated names parse, and a parsed name is regenerated exactly. */
  lemma ParseTimestampNameSound(s: string, t: DateTime)
    requires ParseTimestampName(s) == Some(t)
    ensures Valid(t) && TimestampName(t) == s
  {
    ParsedFields(s, t);
    FieldsDetermineName(s, t);
  }

  lemma ParsedFields(s: string, t: DateTime)
    requires ParseTimestampName(s) == Some(t)
    ensures Valid(t) && HasFields(s, t)
  {
    DateFieldsOfReading(s);
    TimeFieldsOfReading(s);
  }

  lemma DateFieldsOfReading(s: string)
    requires Shaped(s)
    ensures var t := Reading(s);
      s[..4] == Padded(t.year, 4) && s[4..6] == Padded(t.month, 2) && s[6..8] == Padded(t.day, 2)
  {
    PaddedValue(s[..4]);
    PaddedValue(s[4..6]);
    PaddedValue(s[6..8]);
  }

  lemma TimeFieldsOfReading(s: string)
    requires Shaped(s) && 1 <= Value(s[9..11]) <= 12
    ensures var t := Reading(s);
      s[9..11] == Padded(Hour12(t.hour), 2) && s[11..13] == Padded(t.minute, 2)
      && s[13..15] == Padded(t.second, 2) && s[15..17] == Meridiem(t.hour)
  {
    PaddedValue(s[9..11]);
    PaddedValue(s[11..13]);
    PaddedValue(s[13..15]);
    assert Hour12(Reading(s).hour) == Value(s[9..11]);
  }

  /**
   * Two readings get the same name only when they are the same second: the
   * same-second overwrite is the only collision.
   */
  lemma TimestampNameInjective(t1: DateTime, t2: DateTime)
    requires Valid(t1) && Valid(t2) && TimestampName(t1) == TimestampName(t2)
    ensures t1 == t2
  {
    ParseTimestampNameRoundTrip(t1);
    ParseTimestampNameRoundTrip(t2);
  }

  /** Zero-padded numbers of one width sort as the numbers do. */
  lemma {:induction false} PaddedOrder(a: nat, b: nat, w: nat)
    requires a < b < Pow10(w)
    ensures Below(Padded(a, w), Padded(b, w))
  {
    assert w > 0;
    if a / 10 < b / 10 {
      PaddedOrder(a / 10, b / 10, w - 1);
      BelowExtend(Padded(a / 10, w - 1), Padded(b / 10, w - 1), [DigitChar(a % 10)], [DigitChar(b % 10)]);
    } else {
      assert a / 10 == b / 10 && a % 10 < b % 10;
      assert Below([DigitChar(a % 10)], [DigitChar(b % 10)]);
      BelowCommonPrefix(Padded(a / 10, w - 1), [DigitChar(a % 10)], [DigitChar(b % 10)]);
    }
  }

  /** Calendar order of the dates of two readings. */
  predicate EarlierDay(t1: DateTime, t2: DateTime) {
    t1.year < t2.year
    || (t1.year == t2.year && t1.month < t2.month)
    || (t1.year == t2.year && t1.month == t2.month && t1.day < t2.day)
  }

  /** A recording from an earlier day always has the smaller name, so it is listed after. */
  lemma EarlierDayNameBelow(t1: DateTime, t2: DateTime)
    requires Valid(t1) && Valid(t2) && EarlierDay(t1, t2)
    ensures Below(TimestampName(t1), TimestampName(t2))
  {
    NameFields(t1);
    NameFields(t2);
    EarlierDayFieldsBelow(TimestampName(t1), TimestampName(t2), t1, t2);
  }

  lemma EarlierDayFieldsBelow(n1: string, n2: string, t1: DateTime, t2: DateTime)
    requires InRange(t1) && InRange(t2) && EarlierDay(t1, t2)
    requires HasFields(n1, t1) && HasFields(n2, t2)
    ensures Below(n1, n2)
  {
    var y1, y2 := n1[..4], n2[..4];
    var m1, m2 := n1[4..6], n2[4..6];
    var d1, d2 := n1[6..8], n2[6..8];
    var r1, r2 := n1[8..], n2[8..];
    assert n1 == y1 + (m1 + (d1 + r1)) && n2 == y2 + (m2 + (d2 + r2));
    if t1.year < t2.year {
      PaddedOrder(t1.year, t2.year, 4);
      BelowExtend(y1, y2, m1 + (d1 + r1), m2 + (d2 + r2));
    } else if t1.month < t2.month {
      PaddedOrder(t1.month, t2.month, 2);
      BelowExtend(m1, m2, d1 + r1, d2 + r2);
      BelowCommonPrefix(y1, m1 + (d1 + r1), m2 + (d2 + r2));
    } else {
      PaddedOrder(t1.day, t2.day, 2);
      BelowExtend(d1, d2, r1, r2);
      BelowCommonPrefix(y1, m1 + (d1 + r1), m1 + (d2 + r2));
      BelowCommonPrefix(m1, d1 + r1, d2 + r2);
    }
  }

  /**
   * Recordings from different days are listed newest day first, for example
   * `20240102-020000PM.wav` before `20240101-010000AM.wav`.
   */
  lemma ListingNewerDayFirst(older: DateTime, newer: DateTime, listing: seq<string>)
    requires Valid(older) && Valid(newer) && EarlierDay(older, newer)
    requires Uploads.IsListing([TimestampName(older), TimestampName(newer)], None, listing)
    ensures listing == [TimestampName(newer), TimestampName(older)]
  {
    var o, n := TimestampName(older), TimestampName(newer);
    EarlierDayNameBelow(older, newer);
    TimestampNameAccepted(older);
    TimestampNameAccepted(newer);
    Uploads.TwoAccepted(o, n);
    Uploads.TwoNamesListing(o, n);
    Uploads.ListingUnique([o, n], None, listing, [n, o]);
  }

  /**
   * On one day, a later reading can get the smaller name: 13:00 is written
   * `01…PM` and 11:00 `11…AM`, and `0` is below `1`.
   */
  lemma LaterReadingSmallerName(t1: DateTime, t2: DateTime)
    requires Valid(t1) && Valid(t2)
    requires t1.year == t2.year && t1.month == t2.month && t1.day == t2.day
    requires Hour12(t2.hour) < Hour12(t1.hour)
    ensures Below(TimestampName(t2), TimestampName(t1))
  {
    NameFields(t1);
    NameFields(t2);
    HourFieldBelow(TimestampName(t2), TimestampName(t1), t2, t1);
  }

  lemma HourFieldBelow(n1: string, n2: string, t1: DateTime, t2: DateTime)
    requires InRange(t1) && InRange(t2) && HasFields(n1, t1) && HasFields(n2, t2)
    requires t1.year == t2.year && t1.month == t2.month && t1.day == t2.day
    requires Hour12(t1.hour) < Hour12(t2.hour)
    ensures Below(n1, n2)
  {
    var p := n1[..9];
    assert n2[..9] == p by {
      assert n1[..9] == n1[..4] + n1[4..6] + n1[6..8] + [n1[8]];
      assert n2[..9] == n2[..4] + n2[4..6] + n2[6..8] + [n2[8]];
    }
    assert n1 == p + (n1[9..11] + n1[11..]) && n2 == p + (n2[9..11] + n2[11..]);
    PaddedOrder(Hour12(t1.hour), Hour12(t2.hour), 2);
    BelowExtend(n1[9..11], n2[9..11], n1[11..], n2[11..]);
    BelowCommonPrefix(p, n1[9..11] + n1[11..], n2[9..11] + n2[11..]);
  }

  /**
   * The listing order is by name, not by time: of two recordings made on
   * one day at 11:00 and at 13:00, the earlier one is listed first, as if
   * it were the newer.
   */
  lemma ListingNotChronological(morning: DateTime, afternoon: DateTime, listing: seq<string>)
    requires Valid(morning) && Valid(afternoon)
    requires morning.year == afternoon.year && morning.month == afternoon.month && morning.day == afternoon.day
    requires morning.hour == 11 && afternoon.hour == 13
    requires Uploads.IsListing([TimestampName(afternoon), TimestampName(morning)], None, listing)
    ensures listing == [TimestampName(morning), TimestampName(afternoon)]
  {
    var m, a := TimestampName(morning), TimestampName(afternoon);
    LaterReadingSmallerName(morning, afternoon);
    TimestampNameAccepted(morning);
    TimestampNameAccepted(afternoon);
    Uploads.TwoAccepted(a, m);
    Uploads.TwoNamesListing(a, m);
    Uploads.ListingUnique([a, m], None, listing, [m, a]);
  }
}
