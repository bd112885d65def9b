/**
 * The proleptic Gregorian calendar as Python's `datetime` implements it:
 * which (year, month, day, hour, minute) fields form a date, the day
 * ordinal (0001-01-01 is day 1) and the weekday (Monday is 0).
 */
module Calendar {

  predicate IsLeap(y: int)
  {
    y % 4 == 0 && (y % 100 != 0 || y % 400 == 0)
  }

  function DaysInYear(y: int): int
  {
    if IsLeap(y) then 366 else 365
  }

  function DaysInMonth(y: int, m: int): (n: int)
    requires 1 <= m <= 12
    ensures 28 <= n <= 31
    ensures n == 29 <==> m == 2 && IsLeap(y)
  {
    if m == 2 then (if IsLeap(y) then 29 else 28)
    else if m == 4 || m == 6 || m == 9 || m == 11 then 30
    else 31
  }

  /** Days of year `y` before the first day of month `m` (m == 13: the whole year). */
  function DaysBeforeMonth(y: int, m: int): nat
    requires 1 <= m <= 13
  {
    if m == 1 then 0 else DaysBeforeMonth(y, m - 1) + DaysInMonth(y, m - 1)
  }

  /** Days in the years before year `y`, in closed form. */
  function DaysBeforeYear(y: int): int
    requires y >= 1
  {
    var p := y - 1;
    p * 365 + p / 4 - p / 100 + p / 400
  }

  /** The twelve months add up to the length of the year. */
  lemma MonthsFillYear(y: int)
    ensures DaysBeforeMonth(y, 13) == DaysInYear(y)
  {
    assert DaysBeforeMonth(y, 2) == 31;
    assert DaysBeforeMonth(y, 3) == 31 + DaysInMonth(y, 2);
    assert DaysBeforeMonth(y, 4) == DaysBeforeMonth(y, 3) + 31;
    assert DaysBeforeMonth(y, 5) == DaysBeforeMonth(y, 3) + 61;
    assert DaysBeforeMonth(y, 6) == DaysBeforeMonth(y, 3) + 92;
    assert DaysBeforeMonth(y, 7) == DaysBeforeMonth(y, 3) + 122;
    assert DaysBeforeMonth(y, 8) == DaysBeforeMonth(y, 3) + 153;
    assert DaysBeforeMonth(y, 9) == DaysBeforeMonth(y, 3) + 184;
    assert DaysBeforeMonth(y, 10) == DaysBeforeMonth(y, 3) + 214;
    assert DaysBeforeMonth(y, 11) == DaysBeforeMonth(y, 3) + 245;
    assert DaysBeforeMonth(y, 12) == DaysBeforeMonth(y, 3) + 275;
    assert DaysBeforeMonth(y, 13) == DaysBeforeMonth(y, 3) + 306;
  }

  /** Counting the multiples of 4, 100 and 400 up to `p + 1` adds one exactly at a multiple. */
  lemma MultiplesStep(p: int)
    requires p >= 0
    ensures (p + 1) / 4 == p / 4 + (if (p + 1) % 4 == 0 then 1 else 0)
    ensures (p + 1) / 100 == p / 100 + (if (p + 1) % 100 == 0 then 1 else 0)
    ensures (p + 1) / 400 == p / 400 + (if (p + 1) % 400 == 0 then 1 else 0)
  {
  }

  lemma Multiple400Is100(y: int)
    requires y % 400 == 0
    ensures y % 100 == 0
  {
    var k := y / 400;
    assert y == 100 * (4 * k);
  }

  lemma Multiple100Is4(y: int)
    requires y % 100 == 0
    ensures y % 4 == 0
  {
    var k := y / 100;
    assert y == 4 * (25 * k);
  }

  /** The closed form counts one year of DaysInYear days per year. */
  lemma DaysBeforeYearStep(y: int)
    requires y >= 1
    ensures DaysBeforeYear(y + 1) == DaysBeforeYear(y) + DaysInYear(y)
  {
    MultiplesStep(y - 1);
    if y % 400 == 0 {
      Multiple400Is100(y);
    }
    if y % 100 == 0 {
      Multiple100Is4(y);
    }
  }

  predicate ValidDate(y: int, m: int, d: int)
  {
    1 <= y <= 9999 && 1 <= m <= 12 && 1 <= d <= DaysInMonth(y, m)
  }

  /** The fields `datetime(year, month, day, hour, minute)` accepts without a ValueError. */
  predicate ValidDateTime(y: int, m: int, d: int, hh: int, mm: int)
  {
    ValidDate(y, m, d) && 0 <= hh < 24 && 0 <= mm < 60
  }

  /** `date.toordinal()`. */
  function Ordinal(y: int, m: int, d: int): (n: int)
    requires ValidDate(y, m, d)
    ensures n >= 1
  {
    DaysBeforeYear(y) + DaysBeforeMonth(y, m) + d
  }

  /** `date.weekday()`: 0 is Monday, 6 is Sunday. */
  function Weekday(y: int, m: int, d: int): (w: int)
    requires ValidDate(y, m, d)
    ensures 0 <= w < 7
  {
    (Ordinal(y, m, d) + 6) % 7
  }

  /** The calendar's successor of a date, by incrementing the day and carrying. */
  function NextDay(y: int, m: int, d: int): (int, int, int)
    requires ValidDate(y, m, d)
  {
    if d < DaysInMonth(y, m) then (y, m, d + 1)
    else if m < 12 then (y, m + 1, 1)
    else (y + 1, 1, 1)
  }

  /** Day 1 is 0001-01-01, a Monday. */
  lemma FirstDayIsMonday()
    ensures ValidDate(1, 1, 1)
    ensures Weekday(1, 1, 1) == 0
    ensures Ordinal(1, 1, 1) == 1
  {
    assert DaysInMonth(1, 1) == 31;
    assert Ordinal(1, 1, 1) == DaysBeforeYear(1) + DaysBeforeMonth(1, 1) + 1;
    assert DaysBeforeYear(1) == 0;
    assert DaysBeforeMonth(1, 1) == 0;
  }

  /** The ordinal counts days: the next date has the next ordinal. */
  lemma OrdinalNextDay(y: int, m: int, d: int)
    requires ValidDate(y, m, d) && (y, m, d) != (9999, 12, 31)
    ensures var (y', m', d') := NextDay(y, m, d);
            ValidDate(y', m', d') && Ordinal(y', m', d') == Ordinal(y, m, d) + 1
  {
    if d == DaysInMonth(y, m) && m == 12 {
      MonthsFillYear(y);
      DaysBeforeYearStep(y);
    }
  }

  /** Consecutive dates fall on consecutive weekdays. */
  lemma WeekdayNextDay(y: int, m: int, d: int)
    requires ValidDate(y, m, d) && (y, m, d) != (9999, 12, 31)
    ensures var (y', m', d') := NextDay(y, m, d);
            ValidDate(y', m', d') && Weekday(y', m', d') == (Weekday(y, m, d) + 1) % 7
  {
    OrdinalNextDay(y, m, d);
    SuccessorMod7(Ordinal(y, m, d) + 6);
  }

  lemma SuccessorMod7(o: int)
    ensures (o + 1) % 7 == (o % 7 + 1) % 7
  {
  }

  /** A date lies within its year: its ordinal is after the year's start and at most its end. */
  lemma OrdinalWithinYear(y: int, m: int, d: int)
    requires ValidDate(y, m, d)
    ensures DaysBeforeYear(y) < Ordinal(y, m, d) <= DaysBeforeYear(y) + DaysInYear(y)
  {
    DaysBeforeMonthMonotone(y, m + 1, 13);
    MonthsFillYear(y);
  }

  lemma {:induction false} DaysBeforeMonthMonotone(y: int, m1: int, m2: int)
    requires 1 <= m1 <= m2 <= 13
    ensures DaysBeforeMonth(y, m1) <= DaysBeforeMonth(y, m2)
  {
    if m1 < m2 {
      DaysBeforeMonthMonotone(y, m1, m2 - 1);
    }
  }

  lemma {:induction false} DaysBeforeYearMonotone(y1: int, y2: int)
    requires 1 <= y1 <= y2
    ensures DaysBeforeYear(y1) + (if y1 < y2 then DaysInYear(y1) else 0) <= DaysBeforeYear(y2)
  {
    if y1 < y2 {
      DaysBeforeYearStep(y2 - 1);
      if y1 < y2 - 1 {
        DaysBeforeYearMonotone(y1, y2 - 1);
      }
    }
  }

  /** Dates earlier in the calendar (compared field by field) have smaller ordinals. */
  lemma OrdinalOrder(y1: int, m1: int, d1: int, y2: int, m2: int, d2: int)
    requires ValidDate(y1, m1, d1) && ValidDate(y2, m2, d2)
    requires y1 < y2 || (y1 == y2 && (m1 < m2 || (m1 == m2 && d1 < d2)))
    ensures Ordinal(y1, m1, d1) < Ordinal(y2, m2, d2)
  {
    if y1 < y2 {
      OrdinalWithinYear(y1, m1, d1);
      OrdinalWithinYear(y2, m2, d2);
      DaysBeforeYearMonotone(y1, y2);
    } else if m1 < m2 {
      DaysBeforeMonthMonotone(y1, m1 + 1, m2);
    }
  }

  const MicrosPerMinute: int := 60_000_000

  /**
   * The instant of a date and time, in microseconds since 0001-01-01 00:00;
   * comparing instants is comparing Python datetimes.
   */
  function Instant(y: int, m: int, d: int, hh: int, mm: int): (t: int)
    requires ValidDateTime(y, m, d, hh, mm)
    ensures t >= 0
  {
    ((Ordinal(y, m, d) - 1) * 1440 + hh * 60 + mm) * MicrosPerMinute
  }

  /** Instants follow the field-by-field order of datetimes. */
  lemma InstantOrder(y1: int, m1: int, d1: int, hh1: int, mm1: int,
                     y2: int, m2: int, d2: int, hh2: int, mm2: int)
    requires ValidDateTime(y1, m1, d1, hh1, mm1) && ValidDateTime(y2, m2, d2, hh2, mm2)
    requires y1 < y2 || (y1 == y2 && (m1 < m2 || (m1 == m2 && (d1 < d2 ||
             (d1 == d2 && (hh1 < hh2 || (hh1 == hh2 && mm1 < mm2)))))))
    ensures Instant(y1, m1, d1, hh1, mm1) < Instant(y2, m2, d2, hh2, mm2)
  {
    var o1, o2 := Ordinal(y1, m1, d1), Ordinal(y2, m2, d2);
    var t1, t2 := hh1 * 60 + mm1, hh2 * 60 + mm2;
    if (y1, m1, d1) != (y2, m2, d2) {
      OrdinalOrder(y1, m1, d1, y2, m2, d2);
      assert (o1 - 1) * 1440 + t1 < (o2 - 1) * 1440 + t2;
    }
    assert (o1 - 1) * 1440 + t1 < (o2 - 1) * 1440 + t2;
  }
}
