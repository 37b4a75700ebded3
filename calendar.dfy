/**
  Dates and times as the blood bank uses them.

  A stored date (a DATE column, or a `java.util.Date` read back from one) is a
  day number: days since 1970-01-01 in the proleptic Gregorian calendar.  The
  current instant (`new Date()`) is a count of milliseconds since the same
  epoch.  Time zones and daylight saving are not modelled: a day is exactly
  86 400 000 ms, starting at a multiple of that.
*/
module Calendar {

  const MsPerDay: int := 24 * 60 * 60 * 1000

  /** The day that contains the instant `ms` (what CURDATE() yields at that instant). */
  function DayOf(ms: int): int {
    ms / MsPerDay
  }

  /** The instant at which `day` begins: what parsing "yyyy-MM-dd" yields. */
  function StartOfDay(day: int): int {
    day * MsPerDay
  }

  /**
    `Date.after(now)` on a date parsed from a form is a comparison of days:
    midnight of `day` lies after the instant `nowMs` exactly when `day` is
    later than the day containing `nowMs`.
  */
  lemma {:induction false} AfterNowIffLaterDay(day: int, nowMs: int)
    ensures StartOfDay(day) > nowMs <==> day > DayOf(nowMs)
  {
    var today := DayOf(nowMs);
    assert today * MsPerDay <= nowMs < (today + 1) * MsPerDay;
    if day > today {
      MulMonotone(today + 1, day);
    } else {
      MulMonotone(day, today);
    }
  }

  lemma MulMonotone(a: int, b: int)
    requires a <= b
    ensures a * MsPerDay <= b * MsPerDay
  {
  }

  // ---------------------------------------------------------------------
  // Civil (year, month, day) dates, used by `Calendar.add(Calendar.YEAR, 1)`.
  // ---------------------------------------------------------------------

  datatype CivilDate = CivilDate(year: int, month: int, day: int)

  predicate IsLeapYear(y: int) {
    y % 4 == 0 && (y % 100 != 0 || y % 400 == 0)
  }

  function DaysInMonth(y: int, m: int): int {
    if m == 2 then (if IsLeapYear(y) then 29 else 28)
    else if m == 4 || m == 6 || m == 9 || m == 11 then 30
    else 31
  }

  predicate IsValidCivil(c: CivilDate) {
    1 <= c.month <= 12 && 1 <= c.day <= DaysInMonth(c.year, c.month)
  }

  /**
    Day number of 1 March of year `y`.  Counting years from March puts the
    leap day at the end of the year, so the days before a given year are
    365 per year plus one per leap day.
  */
  function MarchFirst(y: int): int {
    365 * y + y / 4 - y / 100 + y / 400 - 719468
  }

  lemma {:induction false} MarchFirstStep(y: int)
    ensures MarchFirst(y + 1) - MarchFirst(y) == if IsLeapYear(y + 1) then 366 else 365
  {
    var z := y + 1;
    assert z / 4 - y / 4 == (if z % 4 == 0 then 1 else 0);
    assert z / 100 - y / 100 == (if z % 100 == 0 then 1 else 0);
    assert z / 400 - y / 400 == (if z % 400 == 0 then 1 else 0);
    assert z % 100 == 0 ==> z % 4 == 0;
    assert z % 400 == 0 ==> z % 100 == 0;
  }

  /** Index of a month in a year that starts in March: March is 0, February 11. */
  function MarchMonth(m: int): int {
    (m + 9) % 12
  }

  /** Days from 1 March to the first day of the month with March-based index `mp`. */
  function MonthOffset(mp: int): int {
    (153 * mp + 2) / 5
  }

  /** Day number of a civil date. */
  function FromCivil(c: CivilDate): int {
    var y := if c.month <= 2 then c.year - 1 else c.year;
    MarchFirst(y) + MonthOffset(MarchMonth(c.month)) + c.day - 1
  }

  /** The year (counted from March) whose days contain `day`. */
  function MarchYear(day: int): (r: int)
    ensures MarchFirst(r) <= day < MarchFirst(r + 1)
  {
    if day < MarchFirst(1970) then YearDownFrom(day, 1969) else YearUpFrom(day, 1970)
  }

  /** The March-based year containing `day`, searched downwards from `y`. */
  function YearDownFrom(day: int, y: int): (r: int)
    requires day < MarchFirst(y + 1)
    ensures MarchFirst(r) <= day < MarchFirst(r + 1)
    decreases MarchFirst(y + 1) - day
  {
    MarchFirstStep(y);
    if day >= MarchFirst(y) then y else YearDownFrom(day, y - 1)
  }

  /** The March-based year containing `day`, searched upwards from `y`. */
  function YearUpFrom(day: int, y: int): (r: int)
    requires MarchFirst(y) <= day
    ensures MarchFirst(r) <= day < MarchFirst(r + 1)
    decreases day - MarchFirst(y)
  {
    MarchFirstStep(y);
    if day < MarchFirst(y + 1) then y else YearUpFrom(day, y + 1)
  }

  /** Civil date of a day number. */
  function ToCivil(day: int): CivilDate {
    var y := MarchYear(day);
    CivilInYear(y, day - MarchFirst(y))
  }

  /** Civil date of the day `doy` days after 1 March of year `y`. */
  function CivilInYear(y: int, doy: int): CivilDate {
    var mp := (5 * doy + 2) / 153;
    var d := doy - MonthOffset(mp) + 1;
    var m := if mp < 10 then mp + 3 else mp - 9;
    CivilDate(if m <= 2 then y + 1 else y, m, d)
  }

  /** Within one March-based year, the month index and day found by ToCivil fit together. */
  lemma {:induction false} MonthSplit(doy: int, leap: bool)
    requires 0 <= doy < (if leap then 366 else 365)
    ensures var mp := (5 * doy + 2) / 153;
            && 0 <= mp <= 11
            && MonthOffset(mp) <= doy
            && doy - MonthOffset(mp) < (if mp == 11 then (if leap then 29 else 28)
                                        else if mp == 1 || mp == 3 || mp == 6 || mp == 8 then 30
                                        else 31)
  {
    var mp := (5 * doy + 2) / 153;
    assert 153 * mp <= 5 * doy + 2 < 153 * mp + 153;
    assert 0 <= mp <= 11;
    if mp == 0 { } else if mp == 1 { } else if mp == 2 { } else if mp == 3 { }
    else if mp == 4 { } else if mp == 5 { } else if mp == 6 { } else if mp == 7 { }
    else if mp == 8 { } else if mp == 9 { } else if mp == 10 { } else { }
  }

  /** Within one March-based year, CivilInYear yields a valid date that FromCivil takes back. */
  lemma {:induction false} CivilInYearRoundTrip(y: int, doy: int)
    requires 0 <= doy < MarchFirst(y + 1) - MarchFirst(y)
    ensures IsValidCivil(CivilInYear(y, doy))
    ensures FromCivil(CivilInYear(y, doy)) == MarchFirst(y) + doy
  {
    MarchFirstStep(y);
    MonthSplit(doy, IsLeapYear(y + 1));
    var mp := (5 * doy + 2) / 153;
    var m := if mp < 10 then mp + 3 else mp - 9;
    assert MarchMonth(m) == mp;
    var c := CivilInYear(y, doy);
    assert c.month == m;
    assert (if c.month <= 2 then c.year - 1 else c.year) == y;
  }

  /** ToCivil yields a valid civil date, and FromCivil takes it back to the same day. */
  lemma {:induction false} CivilRoundTrip(day: int)
    ensures IsValidCivil(ToCivil(day))
    ensures FromCivil(ToCivil(day)) == day
  {
    var y := MarchYear(day);
    var doy := day - MarchFirst(y);
    assert ToCivil(day) == CivilInYear(y, doy);
    CivilInYearRoundTrip(y, doy);
  }

  /**
    `Calendar.add(Calendar.YEAR, 1)`: the same month and day one year later,
    with 29 February becoming 28 February when the next year is not a leap year.
  */
  function AddOneYear(day: int): int {
    NextYear(ToCivil(day))
  }

  function NextYear(c: CivilDate): int {
    var d := if c.day <= DaysInMonth(c.year + 1, c.month) then c.day
             else DaysInMonth(c.year + 1, c.month);
    FromCivil(CivilDate(c.year + 1, c.month, d))
  }

  /** On a valid civil date, a year later is 365 or 366 days later. */
  lemma {:induction false} NextYearLength(c: CivilDate)
    requires IsValidCivil(c)
    ensures NextYear(c) - FromCivil(c) == 365 || NextYear(c) - FromCivil(c) == 366
  {
    var y := if c.month <= 2 then c.year - 1 else c.year;
    MarchFirstStep(y);
    var d := if c.day <= DaysInMonth(c.year + 1, c.month) then c.day
             else DaysInMonth(c.year + 1, c.month);
    assert NextYear(c) - FromCivil(c) == MarchFirst(y + 1) - MarchFirst(y) + d - c.day;
    if d != c.day {
      assert c.month == 2 && c.day == 29 && IsLeapYear(c.year);
      assert y + 1 == c.year;
    }
  }

  /** One calendar year is 365 or 366 days, so it always moves a date forward. */
  lemma {:induction false} AddOneYearLength(day: int)
    ensures AddOneYear(day) - day == 365 || AddOneYear(day) - day == 366
    ensures AddOneYear(day) > day
  {
    CivilRoundTrip(day);
    NextYearLength(ToCivil(day));
  }
}
