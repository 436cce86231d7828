/** The client's timestamp arithmetic: days since 1970-01-01 to a civil date in closed form,
    proved against a calendar that steps one day at a time. */
module Calendar {
  // ── A naive Gregorian calendar ─────────────────────────────────────────────

  datatype Date = Date(year: int, month: int, day: int)

  predicate IsLeap(y: int) {
    y % 4 == 0 && (y % 100 != 0 || y % 400 == 0)
  }

  function DaysIn(y: int, m: int): int {
    if m == 2 then (if IsLeap(y) then 29 else 28)
    else if m == 4 || m == 6 || m == 9 || m == 11 then 30
    else 31
  }

  function NextDay(d: Date): Date {
    if d.day < DaysIn(d.year, d.month) then Date(d.year, d.month, d.day + 1)
    else if d.month < 12 then Date(d.year, d.month + 1, 1)
    else Date(d.year + 1, 1, 1)
  }

  /** The date reached by `n` single-day steps from 1970-01-01. */
  function DateAfter(n: nat): Date {
    if n == 0 then Date(1970, 1, 1) else NextDay(DateAfter(n - 1))
  }

  predicate IsDate(d: Date) {
    1 <= d.month <= 12 && 1 <= d.day <= DaysIn(d.year, d.month)
  }

  predicate Before(a: Date, b: Date) {
    || a.year < b.year
    || (a.year == b.year && (a.month < b.month || (a.month == b.month && a.day < b.day)))
  }

  // ── The closed form ────────────────────────────────────────────────────────

  /** Casts between machine integers keep the value modulo the width. */
  function AsI64(n: int): (r: int)
    ensures -0x8000_0000_0000_0000 <= r < 0x8000_0000_0000_0000
    ensures -0x8000_0000_0000_0000 <= n < 0x8000_0000_0000_0000 ==> r == n
  {
    (n + 0x8000_0000_0000_0000) % 0x1_0000_0000_0000_0000 - 0x8000_0000_0000_0000
  }

  function AsI32(n: int): (r: int)
    ensures -0x8000_0000 <= r < 0x8000_0000
    ensures -0x8000_0000 <= n < 0x8000_0000 ==> r == n
  {
    (n + 0x8000_0000) % 0x1_0000_0000 - 0x8000_0000
  }

  /** Rust's division truncates toward zero. */
  function TruncDiv(a: int, b: int): int
    requires b > 0
  {
    if a >= 0 then a / b else -((-a) / b)
  }

  function YearOfEra(doe: int): int {
    (doe - doe / 1_460 + doe / 36_524 - doe / 146_096) / 365
  }

  /** Days of an era before its year `yoe`; years start in March. */
  function YearStart(yoe: int): int {
    365 * yoe + yoe / 4 - yoe / 100
  }

  /** Month, day and January-based year of day `doy` of the March-based year `y`. */
  function MarchDate(y: int, doy: int): Date {
    var mp := (5 * doy + 2) / 153;
    var d := doy - (153 * mp + 2) / 5 + 1;
    var m := if mp < 10 then mp + 3 else mp - 9;
    Date(if m <= 2 then y + 1 else y, m, d)
  }

  /** The arithmetic of `civil_from_days` from its shifted day number on. */
  function Civil(z: int): Date {
    var era := TruncDiv(if z >= 0 then z else z - 146_096, 146_097);
    var doe := z - era * 146_097;
    var yoe := YearOfEra(doe);
    var y := yoe + era * 400;
    var doy := doe - YearStart(yoe);
    MarchDate(y, doy)
  }

  /** `civil_from_days`, with the casts it makes on the way in and out. */
  function CivilFromDays(days: nat): (r: Date)
    requires days < 0x1_0000_0000_0000_0000
    ensures r.year < 0x8000_0000
  {
    var c := Civil(AsI64(AsI64(days) + 719_468));
    Date(AsI32(c.year), c.month, c.day)
  }

  // ── Years of an era ────────────────────────────────────────────────────────

  function MarchYearLength(y: int): int {
    if IsLeap(y + 1) then 366 else 365
  }

  /** Day `t` of year `k` of quad `q` of century `c`. */
  predicate InEra(c: int, q: int, k: int, t: int) {
    && 0 <= c <= 3 && 0 <= q <= 24 && 0 <= k <= 3
    && 0 <= t && (t <= 364 || (t == 365 && k == 3 && (q < 24 || c == 3)))
  }

  lemma YearOfEraIs(c: int, q: int, k: int, t: int)
    requires InEra(c, q, k, t)
    ensures YearOfEra(36_524 * c + 1_461 * q + 365 * k + t) == 100 * c + 4 * q + k
  {
    var doe := 36_524 * c + 1_461 * q + 365 * k + t;
    var r := 24 * c + q + 365 * k + t;
    assert doe == 1_460 * (25 * c + q) + r;
    assert doe / 1_460 == 25 * c + q + (if r >= 1_460 then 1 else 0);
    assert doe / 36_524 - doe / 146_096 == c;
  }

  lemma YearStartIs(c: int, q: int, k: int)
    requires 0 <= c <= 3 && 0 <= q <= 24 && 0 <= k <= 3
    ensures YearStart(100 * c + 4 * q + k) == 36_524 * c + 1_461 * q + 365 * k
    ensures MarchYearLength(100 * c + 4 * q + k) == if k == 3 && (q < 24 || c == 3) then 366 else 365
  {
  }

  /** Every day of an era lies in exactly the year the closed form gives. */
  lemma DayInYear(doe: int)
    requires 0 <= doe < 146_097
    ensures var y := YearOfEra(doe);
            0 <= y <= 399 && YearStart(y) <= doe < YearStart(y) + MarchYearLength(y)
  {
    var c := if doe == 146_096 then 3 else doe / 36_524;
    var r := doe - 36_524 * c;
    var q := r / 1_461;
    var s := r - 1_461 * q;
    var k := if s == 1_460 then 3 else s / 365;
    var t := s - 365 * k;
    assert InEra(c, q, k, t);
    YearOfEraIs(c, q, k, t);
    YearStartIs(c, q, k);
  }

  lemma YearsInOrder(y: int)
    requires 0 <= y <= 399
    ensures YearStart(y) + MarchYearLength(y) == if y == 399 then 146_097 else YearStart(y + 1)
  {
    hide YearStart, MarchYearLength;
    var c, q, k := y / 100, y % 100 / 4, y % 4;
    assert y == 100 * c + 4 * q + k;
    YearStartIs(c, q, k);
    if k < 3 {
      YearStartIs(c, q, k + 1);
    } else if q < 24 {
      YearStartIs(c, q + 1, 0);
    } else if c < 3 {
      YearStartIs(c + 1, 0, 0);
    }
  }

  lemma YearsApart(x: int, y: int)
    requires 0 <= x < y <= 399
    ensures YearStart(x) + MarchYearLength(x) <= YearStart(y)
  {
    hide IsLeap;
    YearsInOrder(x);
  }

  lemma YearIsUnique(doe: int, y: int)
    requires 0 <= y <= 399 && YearStart(y) <= doe < YearStart(y) + MarchYearLength(y)
    requires 0 <= doe < 146_097
    ensures YearOfEra(doe) == y
  {
    hide YearOfEra, YearStart, MarchYearLength;
    DayInYear(doe);
    var x := YearOfEra(doe);
    if x < y {
      YearsApart(x, y);
    } else if y < x {
      YearsApart(y, x);
    }
  }

  // ── Months of a March-based year ───────────────────────────────────────────

  lemma DayInMonth(doy: int)
    requires 0 <= doy <= 365
    ensures var mp := (5 * doy + 2) / 153;
            0 <= mp <= 11 && (153 * mp + 2) / 5 <= doy < (153 * (mp + 1) + 2) / 5
  {
  }

  lemma MonthLength(mp: int)
    requires 0 <= mp <= 11
    ensures (153 * (mp + 1) + 2) / 5 - (153 * mp + 2) / 5
         == if mp == 1 || mp == 3 || mp == 6 || mp == 8 || mp == 11 then 30 else 31
  {
  }

  lemma NextMonthDay(doy: int)
    requires 0 <= doy < 365
    ensures var mp, mp' := (5 * doy + 2) / 153, (5 * (doy + 1) + 2) / 153;
            if doy + 1 < (153 * (mp + 1) + 2) / 5 then mp' == mp
            else mp' == mp + 1 <= 11 && doy + 1 == (153 * mp' + 2) / 5
  {
    DayInMonth(doy);
    DayInMonth(doy + 1);
  }

  lemma NextDayInYear(y: int, doy: int)
    requires 0 <= doy && doy + 1 < MarchYearLength(y)
    ensures MarchDate(y, doy + 1) == NextDay(MarchDate(y, doy))
  {
    DayInMonth(doy);
    NextMonthDay(doy);
    MonthLength((5 * doy + 2) / 153);
  }

  lemma NextDayInNextYear(y: int)
    ensures MarchDate(y + 1, 0) == NextDay(MarchDate(y, MarchYearLength(y) - 1))
  {
  }

  lemma MarchDateIsDate(y: int, doy: int)
    requires 0 <= doy < MarchYearLength(y)
    ensures IsDate(MarchDate(y, doy)) && y <= MarchDate(y, doy).year <= y + 1
  {
    DayInMonth(doy);
    MonthLength((5 * doy + 2) / 153);
  }

  // ── The closed form steps like the calendar ────────────────────────────────

  /** Day `doe` of era `era` is day `doy` of the March-based year `400 * era + yoe`. */
  predicate Falls(era: int, doe: int, yoe: int, doy: int) {
    && 0 <= doe < 146_097 && 0 <= yoe <= 399
    && doe == YearStart(yoe) + doy && 0 <= doy < MarchYearLength(yoe)
  }

  lemma ModShift(a: int, n: int, k: int)
    requires n == 4 || n == 100 || n == 400
    ensures (a + n * k) % n == a % n
  {
  }

  lemma LeapByEra(y: int, era: int)
    ensures MarchYearLength(y + era * 400) == MarchYearLength(y)
  {
    var a, b := y + 1, y + era * 400 + 1;
    ModShift(a, 4, 100 * era);
    ModShift(a, 100, 4 * era);
    ModShift(a, 400, era);
    assert b == a + 4 * (100 * era) == a + 100 * (4 * era) == a + 400 * era;
  }

  lemma CivilFalls(z: nat, era: nat, doe: int, yoe: int, doy: int, y: int)
    requires z == era * 146_097 + doe && Falls(era, doe, yoe, doy) && y == yoe + era * 400
    ensures Civil(z) == MarchDate(y, doy)
    ensures MarchYearLength(y) == MarchYearLength(yoe)
  {
    YearIsUnique(doe, yoe);
    assert z / 146_097 == era;
    LeapByEra(yoe, era);
  }

  lemma Place(z: nat) returns (era: nat, doe: int, yoe: int, doy: int)
    ensures z == era * 146_097 + doe && Falls(era, doe, yoe, doy)
  {
    era, doe := z / 146_097, z % 146_097;
    DayInYear(doe);
    yoe := YearOfEra(doe);
    doy := doe - YearStart(yoe);
  }

  lemma NextPlace(era: nat, doe: int, yoe: int, doy: int) returns (era': nat, doe': int, yoe': int, doy': int)
    requires Falls(era, doe, yoe, doy)
    ensures era * 146_097 + doe + 1 == era' * 146_097 + doe' && Falls(era', doe', yoe', doy')
    ensures if doy + 1 < MarchYearLength(yoe)
            then yoe' + era' * 400 == yoe + era * 400 && doy' == doy + 1
            else yoe' + era' * 400 == yoe + era * 400 + 1 && doy' == 0
  {
    YearsInOrder(yoe);
    if doy + 1 < MarchYearLength(yoe) {
      if yoe < 399 {
        YearsApart(yoe, 399);
        YearsInOrder(399);
      }
      era', doe', yoe', doy' := era, doe + 1, yoe, doy + 1;
    } else if yoe < 399 {
      YearsInOrder(yoe + 1);
      YearsInOrder(399);
      era', doe', yoe', doy' := era, doe + 1, yoe + 1, 0;
    } else {
      era', doe', yoe', doy' := era + 1, 0, 0, 0;
    }
  }

  lemma MarchStep(y: int, doy: int, y': int, doy': int)
    requires 0 <= doy < MarchYearLength(y)
    requires if doy + 1 < MarchYearLength(y) then y' == y && doy' == doy + 1 else y' == y + 1 && doy' == 0
    ensures MarchDate(y', doy') == NextDay(MarchDate(y, doy))
  {
    hide MarchDate, NextDay, IsLeap;
    if doy + 1 < MarchYearLength(y) {
      NextDayInYear(y, doy);
    } else {
      NextDayInNextYear(y);
    }
  }

  lemma CivilPlace(z: nat) returns (y: int, doy: int)
    ensures Civil(z) == MarchDate(y, doy) && 0 <= doy < MarchYearLength(y) && y >= z / 146_097 * 400
  {
    hide Civil, MarchDate, MarchYearLength;
    var era, doe, yoe;
    era, doe, yoe, doy := Place(z);
    y := yoe + era * 400;
    CivilFalls(z, era, doe, yoe, doy, y);
  }

  lemma CivilPlaces(z: nat) returns (y: int, doy: int, y': int, doy': int)
    ensures Civil(z) == MarchDate(y, doy) && Civil(z + 1) == MarchDate(y', doy')
    ensures 0 <= doy < MarchYearLength(y)
    ensures if doy + 1 < MarchYearLength(y) then y' == y && doy' == doy + 1 else y' == y + 1 && doy' == 0
  {
    hide Civil, MarchDate, MarchYearLength;
    var era, doe, yoe, era', doe', yoe';
    era, doe, yoe, doy := Place(z);
    era', doe', yoe', doy' := NextPlace(era, doe, yoe, doy);
    y, y' := yoe + era * 400, yoe' + era' * 400;
    CivilFalls(z, era, doe, yoe, doy, y);
    CivilFalls(z + 1, era', doe', yoe', doy', y');
  }

  lemma CivilStep(z: nat)
    ensures Civil(z + 1) == NextDay(Civil(z))
  {
    hide Civil, NextDay, MarchDate, MarchYearLength;
    var y, doy, y', doy' := CivilPlaces(z);
    MarchStep(y, doy, y', doy');
  }

  lemma Epoch()
    ensures Civil(719_468) == Date(1970, 1, 1)
  {
  }

  lemma {:induction false} CivilIsDateAfter(n: nat)
    ensures Civil(n + 719_468) == DateAfter(n)
  {
    hide Civil, NextDay;
    if n == 0 {
      Epoch();
    } else {
      CivilIsDateAfter(n - 1);
      CivilStep(n - 1 + 719_468);
    }
  }

  // ── Main results ───────────────────────────────────────────────────────────

  /** The casts change nothing but the year, and that only beyond 32 signed bits. */
  lemma CastsOnlyYear(days: nat)
    requires days < 0x7000_0000_0000_0000
    ensures CivilFromDays(days) == DateAfter(days).(year := AsI32(DateAfter(days).year))
  {
    hide Civil, DateAfter;
    CivilIsDateAfter(days);
  }

  lemma DatePlace(n: nat)
    ensures IsDate(DateAfter(n)) && DateAfter(n).year >= n / 146_097 * 400
  {
    hide Civil, MarchDate, MarchYearLength, DateAfter, IsDate;
    var y, doy := CivilPlace(n + 719_468);
    CivilIsDateAfter(n);
    MarchDateIsDate(y, doy);
  }

  lemma {:induction false} DatesIncrease(a: nat, b: nat)
    requires a < b
    ensures Before(DateAfter(a), DateAfter(b))
    decreases b
  {
    DatePlace(b - 1);
    if a < b - 1 {
      DatesIncrease(a, b - 1);
    }
  }

  /** The days up to the last one of a year are those whose year is at most that year. */
  lemma YearUpTo(days: nat, last: nat, year: int)
    requires DateAfter(last) == Date(year, 12, 31) && DateAfter(last + 1) == Date(year + 1, 1, 1)
    ensures DateAfter(days).year <= year <==> days <= last
  {
    hide DateAfter;
    if days > last + 1 {
      DatesIncrease(last + 1, days);
    } else if days < last {
      DatesIncrease(days, last);
    }
  }

  lemma LastYearThatFits(days: nat)
    ensures DateAfter(days).year < 0x8000_0000 <==> days <= 784_351_576_776
  {
    hide DateAfter, Civil;
    CivilFalls(784_352_296_244, 5_368_709, 17_471, 47, 305, 2_147_483_647);
    CivilFalls(784_352_296_245, 5_368_709, 17_472, 47, 306, 2_147_483_647);
    var last: nat :| last == 784_351_576_776;
    CivilIsDateAfter(last);
    CivilIsDateAfter(last + 1);
    YearUpTo(days, last, 2_147_483_647);
  }

  /** `civil_from_days` gives the date reached by single-day steps, for every 64-bit day
      count, if and only if the day is at most the last one of the year 2^31 - 1. */
  lemma CalendarCorrect(days: nat)
    requires days < 0x1_0000_0000_0000_0000
    ensures CivilFromDays(days) == DateAfter(days) <==> days <= 784_351_576_776
  {
    hide Civil, DateAfter, IsDate;
    LastYearThatFits(days);
    DatePlace(days);
    if days < 0x7000_0000_0000_0000 {
      CastsOnlyYear(days);
    }
  }

  /** Beyond that the year wraps: on the first day of the year 1970 + 2^32 the closed form
      gives the first day of 1970. */
  lemma YearWraps(days: nat)
    requires days == 1_568_704_592_610
    ensures CivilFromDays(days) == Date(1970, 1, 1) && DateAfter(days) == Date(4_294_969_266, 1, 1)
  {
    hide DateAfter, Civil;
    CivilFalls(1_568_705_312_078, 10_737_423, 24_047, 65, 306, 4_294_969_265);
    CivilIsDateAfter(days);
    CastsOnlyYear(days);
  }

  /** Up to that day the dates are valid, and later days give later dates. */
  lemma CalendarInjective(a: nat, b: nat)
    requires a < b <= 784_351_576_776
    ensures IsDate(CivilFromDays(a)) && IsDate(CivilFromDays(b))
    ensures Before(CivilFromDays(a), CivilFromDays(b))
  {
    hide Civil, DateAfter, IsDate, CivilFromDays, Before;
    DatesIncrease(a, b);
    CalendarCorrect(a);
    CalendarCorrect(b);
    DatePlace(a);
    DatePlace(b);
  }
}
