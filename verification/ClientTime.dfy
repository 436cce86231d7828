/** The client's timestamp text: which moments it can express, and how to read it back. */
module ClientTime {
  import opened Text
  import opened Timestamp
  import opened Calendar

  /** `{n:0width}` for a signed number; the sign counts toward the width. */
  function Padded(n: int, width: nat): Bytes
    requires width >= 1
  {
    if n >= 0 then ZeroPad(Decimal(n), width) else ['-'] + ZeroPad(Decimal(-n), width - 1)
  }

  function Compose(y: Bytes, mo: Bytes, d: Bytes, h: Bytes, mi: Bytes, s: Bytes): Bytes {
    y + "-" + mo + "-" + d + "T" + h + ":" + mi + ":" + s + "Z"
  }

  /** `epoch_secs_to_rfc3339`. */
  function EpochSecsToRfc3339(secs: nat): Bytes
    requires secs < 0x1_0000_0000_0000_0000
  {
    var rem := secs % 86_400;
    var date := CivilFromDays(secs / 86_400);
    Compose(Padded(date.year, 4), Padded(date.month, 2), Padded(date.day, 2),
            Padded(rem / 3_600, 2), Padded(rem % 3_600 / 60, 2), Padded(rem % 60, 2))
  }

  lemma TwoDigitsValue(p: Bytes)
    requires |p| == 2 && AllDigits(p)
    ensures TwoDigits(p) == DecimalValue(p)
  {
    var a := p[..1];
    assert a[..0] == [] && DecimalValue(a) == DigitValue(p[0]);
  }

  lemma TwoDigitsPadded(n: nat)
    requires n < 100
    ensures var p := Padded(n, 2);
            |p| == 2 && AllDigits(p) && TwoDigits(p) == n
  {
    ZeroPadValue(Decimal(n), 2);
    assert Pow10(2) == 100;
    DecimalLength(n, 2);
    TwoDigitsValue(Padded(n, 2));
  }

  lemma {:induction false} FewDigits(s: Bytes, k: nat)
    requires AllDigits(s) && |s| <= k
    ensures DecimalValue(s) < Pow10(k)
    decreases k
  {
    if s != [] {
      FewDigits(s[..|s| - 1], k - 1);
    }
  }

  lemma FourDigitsPadded(n: nat)
    ensures var p := Padded(n, 4);
            |p| >= 4 && AllDigits(p) && DecimalValue(p) == n && (|p| == 4 <==> n < 10_000)
  {
    ZeroPadValue(Decimal(n), 4);
    assert Pow10(4) == 10_000;
    if n < 10_000 {
      DecimalLength(n, 4);
    }
    if |Decimal(n)| <= 4 {
      FewDigits(Decimal(n), 4);
    }
  }

  lemma ComposeFields(y: Bytes, mo: Bytes, d: Bytes, h: Bytes, mi: Bytes, s: Bytes)
    requires |y| == 4 && |mo| == 2 && |d| == 2 && |h| == 2 && |mi| == 2 && |s| == 2
    ensures var t := Compose(y, mo, d, h, mi, s);
            && |t| == 20 && t[..10] == y + "-" + mo + "-" + d && t[10] == 'T'
            && t[11..19] == h + ":" + mi + ":" + s && t[19..] == "Z"
  {
  }

  lemma ComposeAccepted(y: Bytes, mo: Bytes, d: Bytes, h: Bytes, mi: Bytes, s: Bytes)
    requires |y| == 4 && AllDigits(y) && TwoDigitsIn(mo, 1, 12) && TwoDigitsIn(d, 1, 31)
    requires TwoDigitsIn(h, 0, 23) && TwoDigitsIn(mi, 0, 59) && TwoDigitsIn(s, 0, 59)
    ensures IsTimestamp(Compose(y, mo, d, h, mi, s))
  {
    var t := Compose(y, mo, d, h, mi, s);
    ComposeFields(y, mo, d, h, mi, s);
    var date, time := t[..10], t[11..19];
    assert date[..4] == y && date[5..7] == mo && date[8..] == d;
    assert time[..2] == h && time[3..5] == mi && time[6..] == s;
    assert t[19..19] == [];
    assert SplitsAt(t, 0);
  }

  /** Five digits, or a sign, where the year should be rule the text out. */
  lemma ComposeRejected(y: Bytes, mo: Bytes, d: Bytes, h: Bytes, mi: Bytes, s: Bytes)
    requires |y| >= 1 && (y[0] == '-' || (|y| > 4 && AllDigits(y)))
    ensures !IsTimestamp(Compose(y, mo, d, h, mi, s))
  {
    var t := Compose(y, mo, d, h, mi, s);
    assert |t| >= 1 && t[0] == y[0];
    assert |y| > 4 ==> t[4] == y[4];
    assert forall k: nat :: k <= 7 && SplitsAt(t, k) ==> t[..10][..4][0] == t[0] && t[..10][4] == t[4];
  }

  lemma YearUpTo9999(days: nat)
    ensures DateAfter(days).year <= 9_999 <==> days < 2_932_897
  {
    hide DateAfter, Civil;
    CivilFalls(3_652_364, 24, 146_036, 399, 305, 9_999);
    CivilFalls(3_652_365, 24, 146_037, 399, 306, 9_999);
    var last: nat :| last == 2_932_896;
    CivilIsDateAfter(last);
    CivilIsDateAfter(last + 1);
    YearUpTo(days, last, 9_999);
  }

  lemma YearFrom1970(days: nat)
    ensures 1970 <= DateAfter(days).year
  {
    if days > 0 {
      DatesIncrease(0, days);
    }
  }

  lemma TimeSplit(rem: nat)
    requires rem < 86_400
    ensures rem / 3_600 <= 23 && rem % 3_600 / 60 <= 59
    ensures rem / 3_600 * 3_600 + rem % 3_600 / 60 * 60 + rem % 60 == rem
  {
    assert rem % 3_600 % 60 == rem % 60 by {
      assert rem == 60 * (60 * (rem / 3_600)) + rem % 3_600;
    }
  }

  lemma TimeFields(rem: nat) returns (h: Bytes, mi: Bytes, s: Bytes)
    requires rem < 86_400
    ensures h == Padded(rem / 3_600, 2) && mi == Padded(rem % 3_600 / 60, 2) && s == Padded(rem % 60, 2)
    ensures TwoDigitsIn(h, 0, 23) && TwoDigitsIn(mi, 0, 59) && TwoDigitsIn(s, 0, 59)
    ensures TwoDigits(h) * 3_600 + TwoDigits(mi) * 60 + TwoDigits(s) == rem
  {
    hide Padded, TwoDigits;
    h, mi, s := Padded(rem / 3_600, 2), Padded(rem % 3_600 / 60, 2), Padded(rem % 60, 2);
    TimeSplit(rem);
    TwoDigitsPadded(rem / 3_600);
    TwoDigitsPadded(rem % 3_600 / 60);
    TwoDigitsPadded(rem % 60);
  }

  lemma DateFields(days: nat) returns (mo: Bytes, d: Bytes)
    requires days < 0x7000_0000_0000_0000
    ensures var date := CivilFromDays(days);
            && mo == Padded(date.month, 2) && d == Padded(date.day, 2)
            && TwoDigitsIn(mo, 1, 12) && TwoDigitsIn(d, 1, 31)
            && TwoDigits(mo) == date.month && TwoDigits(d) == date.day
  {
    hide DateAfter, Padded, TwoDigits, CivilFromDays;
    CastsOnlyYear(days);
    DatePlace(days);
    var date := CivilFromDays(days);
    TwoDigitsPadded(date.month);
    TwoDigitsPadded(date.day);
    mo, d := Padded(date.month, 2), Padded(date.day, 2);
  }

  /** The six fields of the text and what they say. */
  lemma Fields(secs: nat) returns (y: Bytes, mo: Bytes, d: Bytes, h: Bytes, mi: Bytes, s: Bytes)
    requires secs < 0x1_0000_0000_0000_0000
    ensures EpochSecsToRfc3339(secs) == Compose(y, mo, d, h, mi, s)
    ensures y == Padded(CivilFromDays(secs / 86_400).year, 4)
    ensures TwoDigitsIn(mo, 1, 12) && TwoDigitsIn(d, 1, 31)
    ensures TwoDigitsIn(h, 0, 23) && TwoDigitsIn(mi, 0, 59) && TwoDigitsIn(s, 0, 59)
    ensures var date := CivilFromDays(secs / 86_400);
            TwoDigits(mo) == date.month && TwoDigits(d) == date.day
    ensures TwoDigits(h) * 3_600 + TwoDigits(mi) * 60 + TwoDigits(s) == secs % 86_400
  {
    hide CivilFromDays, Padded, Compose, TwoDigits;
    y := Padded(CivilFromDays(secs / 86_400).year, 4);
    mo, d := DateFields(secs / 86_400);
    h, mi, s := TimeFields(secs % 86_400);
  }

  lemma YearShown(days: nat)
    requires days < 0x7000_0000_0000_0000
    ensures 0 <= CivilFromDays(days).year <= 9_999 <==> DateAfter(days).year % 0x1_0000_0000 <= 9_999
  {
    hide CivilFromDays, DateAfter;
    CastsOnlyYear(days);
  }

  /** For every number of seconds, the text is an RFC 5424 TIMESTAMP if and only if the year it
      shows, which has been cast to 32 bits, has at most four digits and no sign; that is, if and
      only if the year of the moment itself is at most 9999 modulo 2^32. */
  lemma TimestampAccepted(secs: nat)
    requires secs < 0x1_0000_0000_0000_0000
    ensures IsTimestamp(EpochSecsToRfc3339(secs)) <==> 0 <= CivilFromDays(secs / 86_400).year <= 9_999
    ensures IsTimestamp(EpochSecsToRfc3339(secs)) <==> DateAfter(secs / 86_400).year % 0x1_0000_0000 <= 9_999
  {
    hide CivilFromDays, EpochSecsToRfc3339, Compose, IsTimestamp, TwoDigits, DateAfter;
    YearShown(secs / 86_400);
    var year := CivilFromDays(secs / 86_400).year;
    var y, mo, d, h, mi, s := Fields(secs);
    if year >= 0 {
      FourDigitsPadded(year);
    }
    if 0 <= year <= 9_999 {
      ComposeAccepted(y, mo, d, h, mi, s);
    } else {
      ComposeRejected(y, mo, d, h, mi, s);
    }
  }

  /** Up to the last second whose year fits 32 bits, that is: exactly through the year 9999. */
  lemma TimestampThrough9999(secs: nat)
    requires secs < 67_767_976_233_532_800
    ensures IsTimestamp(EpochSecsToRfc3339(secs)) <==> secs < 253_402_300_800
  {
    hide CivilFromDays, EpochSecsToRfc3339, IsTimestamp, DateAfter;
    TimestampAccepted(secs);
    CalendarCorrect(secs / 86_400);
    YearUpTo9999(secs / 86_400);
    YearFrom1970(secs / 86_400);
  }

  /** Beyond it the cast year can come back into range: the start of the year 1970 + 2^32 is
      written as the start of 1970. */
  lemma WrappedTimestamp(secs: nat)
    requires secs == 135_536_076_801_504_000
    ensures DateAfter(secs / 86_400).year == 4_294_969_266
    ensures IsTimestamp(EpochSecsToRfc3339(secs)) && EpochSecsToRfc3339(secs) == EpochSecsToRfc3339(0)
  {
    hide CivilFromDays, IsTimestamp, DateAfter;
    YearWraps(secs / 86_400);
    TimestampAccepted(secs);
    CalendarCorrect(0);
    assert CivilFromDays(0) == Date(1970, 1, 1) by {
      Epoch();
      CivilIsDateAfter(0);
    }
  }

  /** Twenty bytes whose digit fields spell this date and this second of the day. */
  predicate ReadsAs(t: Bytes, date: Date, secondOfDay: nat) {
    && |t| == 20 && AllDigits(t[..4]) && AllDigits(t[5..7]) && AllDigits(t[8..10])
    && AllDigits(t[11..13]) && AllDigits(t[14..16]) && AllDigits(t[17..19])
    && Date(DecimalValue(t[..4]), TwoDigits(t[5..7]), TwoDigits(t[8..10])) == date
    && TwoDigits(t[11..13]) * 3_600 + TwoDigits(t[14..16]) * 60 + TwoDigits(t[17..19]) == secondOfDay
  }

  lemma ComposeSlices(y: Bytes, mo: Bytes, d: Bytes, h: Bytes, mi: Bytes, s: Bytes)
    requires |y| == 4 && |mo| == 2 && |d| == 2 && |h| == 2 && |mi| == 2 && |s| == 2
    ensures var t := Compose(y, mo, d, h, mi, s);
            && |t| == 20 && t[..4] == y && t[5..7] == mo && t[8..10] == d
            && t[11..13] == h && t[14..16] == mi && t[17..19] == s
  {
  }

  /** Up to then the moment can be read back from the text: its date is the one reached by
      whole days from 1970-01-01, and its time of day is the seconds left over. */
  lemma TimestampReadsBack(secs: nat)
    requires secs < 253_402_300_800
    ensures ReadsAs(EpochSecsToRfc3339(secs), DateAfter(secs / 86_400), secs % 86_400)
  {
    hide DateAfter, EpochSecsToRfc3339, Compose, TwoDigits, DecimalValue, CivilFromDays;
    var days := secs / 86_400;
    YearUpTo9999(days);
    YearFrom1970(days);
    CalendarCorrect(days);
    FourDigitsPadded(DateAfter(days).year);
    var y, mo, d, h, mi, s := Fields(secs);
    ComposeSlices(y, mo, d, h, mi, s);
  }
}
