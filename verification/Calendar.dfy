/**
 `chrono_ish` of `src/latency.rs`: seconds since 1970 to a calendar date and time, by subtracting
 years and then months (the proleptic Gregorian calendar of Appendix C of RFC 3339).
 */
module Calendar {
  import Arith

  predicate IsLeap(y: int) { (y % 4 == 0 && y % 100 != 0) || y % 400 == 0 }

  function YearLength(y: int): (n: nat)
    ensures 365 <= n <= 366
  {
    if IsLeap(y) then 366 else 365
  }

  /** Days in the months of a year, January first. */
  function MonthLengths(leap: bool): (ms: seq<nat>)
    ensures |ms| == 12 && forall i :: 0 <= i < 12 ==> 28 <= ms[i] <= 31
  {
    [31, if leap then 29 else 28, 31, 30, 31, 30, 31, 31, 30, 31, 30, 31]
  }

  datatype Stamp = Stamp(year: int, month: nat, day: nat, hour: nat, minute: nat, second: nat)

  /** Sections 5.6 and 5.7 of RFC 3339, without leap seconds, from 1970 on. */
  ghost predicate Valid(s: Stamp) {
    && s.year >= 1970 && 1 <= s.month <= 12
    && 1 <= s.day <= MonthLengths(IsLeap(s.year))[s.month - 1]
    && s.hour < 24 && s.minute < 60 && s.second < 60
  }

  /* ---------- the reference: days and seconds from the fields ---------- */

  /** Days from 1 January 1970 to 1 January of a year. */
  function DaysBeforeYear(y: int): nat
    requires y >= 1970
    decreases y
  {
    if y == 1970 then 0 else DaysBeforeYear(y - 1) + YearLength(y - 1)
  }

  function DaysBeforeMonth(leap: bool, m: nat): nat
    requires m <= 12
  {
    if m == 0 then 0 else DaysBeforeMonth(leap, m - 1) + MonthLengths(leap)[m - 1]
  }

  function DayNumber(s: Stamp): nat
    requires Valid(s)
  {
    DaysBeforeYear(s.year) + DaysBeforeMonth(IsLeap(s.year), s.month - 1) + (s.day - 1)
  }

  function SecondsOf(s: Stamp): nat
    requires Valid(s)
  {
    86400 * DayNumber(s) + 3600 * s.hour + 60 * s.minute + s.second
  }

  lemma {:induction false} MonthsFillTheYear(leap: bool)
    ensures DaysBeforeMonth(leap, 12) == if leap then 366 else 365
  {
    var ms := MonthLengths(leap);
    assert DaysBeforeMonth(leap, 1) == 31;
    assert DaysBeforeMonth(leap, 2) == 31 + ms[1];
    assert DaysBeforeMonth(leap, 3) == 62 + ms[1];
    assert DaysBeforeMonth(leap, 4) == 92 + ms[1];
    assert DaysBeforeMonth(leap, 5) == 123 + ms[1];
    assert DaysBeforeMonth(leap, 6) == 153 + ms[1];
    assert DaysBeforeMonth(leap, 7) == 184 + ms[1];
    assert DaysBeforeMonth(leap, 8) == 215 + ms[1];
    assert DaysBeforeMonth(leap, 9) == 245 + ms[1];
    assert DaysBeforeMonth(leap, 10) == 276 + ms[1];
    assert DaysBeforeMonth(leap, 11) == 306 + ms[1];
  }

  lemma {:induction false} MonthsGrow(leap: bool, a: nat, b: nat)
    requires a < b <= 12
    ensures DaysBeforeMonth(leap, a) + MonthLengths(leap)[a] <= DaysBeforeMonth(leap, b)
    decreases b
  {
    if a < b - 1 {
      MonthsGrow(leap, a, b - 1);
    }
  }

  lemma {:induction false} YearsGrow(a: int, b: int)
    requires 1970 <= a < b
    ensures DaysBeforeYear(a) + YearLength(a) <= DaysBeforeYear(b)
    decreases b
  {
    if a < b - 1 {
      YearsGrow(a, b - 1);
    }
  }

  /* ---------- the loop ---------- */

  /** `chrono_ish` up to its final formatting. */
  method ChronoIsh(secs: nat) returns (s: Stamp)
    ensures Valid(s) && SecondsOf(s) == secs
    ensures 86400 * CivilDay(s.year, s.month, s.day) + 3600 * s.hour + 60 * s.minute + s.second == secs
  {
    var y, days := 1970, secs / 86400;
    while true
      invariant y >= 1970 && days >= 0
      invariant DaysBeforeYear(y) + days == secs / 86400
      decreases days
    {
      var len := if IsLeap(y) then 366 else 365;
      if days < len {
        break;
      }
      days := days - len;
      y := y + 1;
    }
    var months := MonthLengths(IsLeap(y));
    var m := 0;
    MonthsFillTheYear(IsLeap(y));
    while m < 12 && days >= months[m]
      invariant 0 <= m <= 12 && days >= 0
      invariant DaysBeforeYear(y) + DaysBeforeMonth(IsLeap(y), m) + days == secs / 86400
      invariant DaysBeforeMonth(IsLeap(y), m) + days < YearLength(y)
    {
      days := days - months[m];
      m := m + 1;
    }
    s := Stamp(y, m + 1, days + 1, (secs / 3600) % 24, (secs / 60) % 60, secs % 60);
    ClockFields(secs);
    DayIsCivil(s);
  }

  /** The three clock fields carry exactly the seconds of the day. */
  lemma ClockFields(secs: nat)
    ensures 86400 * (secs / 86400) + 3600 * ((secs / 3600) % 24) + 60 * ((secs / 60) % 60) + secs % 60 == secs
  {
    var mins, hours := secs / 60, secs / 3600;
    Arith.DivUnique(mins, 60, hours, mins - 60 * hours);
    Arith.DivUnique(hours, 24, secs / 86400, hours - 24 * (secs / 86400));
  }

  /* ---------- the fields order as time does ---------- */

  predicate Earlier(a: Stamp, b: Stamp) {
    a.year < b.year
    || (a.year == b.year && (a.month < b.month
    || (a.month == b.month && (a.day < b.day
    || (a.day == b.day && (a.hour < b.hour
    || (a.hour == b.hour && (a.minute < b.minute
    || (a.minute == b.minute && a.second < b.second)))))))))
  }

  lemma DayInYear(s: Stamp)
    requires Valid(s)
    ensures DaysBeforeYear(s.year) <= DayNumber(s) < DaysBeforeYear(s.year) + YearLength(s.year)
  {
    var leap := IsLeap(s.year);
    MonthsFillTheYear(leap);
    MonthsGrow(leap, s.month - 1, 12);
  }

  lemma DayOrder(a: Stamp, b: Stamp)
    requires Valid(a) && Valid(b)
    requires a.year < b.year || (a.year == b.year && (a.month < b.month || (a.month == b.month && a.day < b.day)))
    ensures DayNumber(a) < DayNumber(b)
  {
    if a.year < b.year {
      DayInYear(a);
      DayInYear(b);
      YearsGrow(a.year, b.year);
    } else if a.month < b.month {
      MonthsGrow(IsLeap(a.year), a.month - 1, b.month - 1);
    }
  }

  lemma EarlierIsLess(a: Stamp, b: Stamp)
    requires Valid(a) && Valid(b) && Earlier(a, b)
    ensures SecondsOf(a) < SecondsOf(b)
  {
    if !(a.year == b.year && a.month == b.month && a.day == b.day) {
      DayOrder(a, b);
    }
  }

  /** Fields compare as the times they stand for, so the stamp of a second count is unique. */
  lemma FieldsOrderAsTime(a: Stamp, b: Stamp)
    requires Valid(a) && Valid(b)
    ensures Earlier(a, b) <==> SecondsOf(a) < SecondsOf(b)
    ensures a == b <==> SecondsOf(a) == SecondsOf(b)
  {
    if Earlier(a, b) {
      EarlierIsLess(a, b);
    } else if Earlier(b, a) {
      EarlierIsLess(b, a);
    } else {
      assert a == b;
    }
  }

  /* ---------- the closed form ---------- */

  /** Leap years before a year, by the divisor rule. */
  function LeapsBefore(y: int): int
    requires y >= 1
  {
    (y - 1) / 4 - (y - 1) / 100 + (y - 1) / 400
  }

  lemma DivStep(n: nat, d: nat)
    requires d > 0 && n > 0
    ensures n / d == (n - 1) / d + if n % d == 0 then 1 else 0
  {
    var q, r := (n - 1) / d, (n - 1) % d;
    if r + 1 < d {
      Arith.DivUnique(n, d, q, r + 1);
    } else {
      assert d * (q + 1) == d * q + d;
      Arith.DivUnique(n, d, q + 1, 0);
    }
  }

  lemma DivisorsNest(y: nat)
    ensures y % 400 == 0 ==> y % 100 == 0
    ensures y % 100 == 0 ==> y % 4 == 0
  {
    if y % 400 == 0 {
      Arith.DivUnique(y, 100, 4 * (y / 400), 0);
    }
    if y % 100 == 0 {
      Arith.DivUnique(y, 4, 25 * (y / 100), 0);
    }
  }

  lemma LeapsStep(y: nat)
    requires y >= 1
    ensures LeapsBefore(y + 1) == LeapsBefore(y) + if IsLeap(y) then 1 else 0
  {
    DivStep(y, 4);
    DivStep(y, 100);
    DivStep(y, 400);
    DivisorsNest(y);
  }

  /** The loop's year count agrees with the closed-form leap count for every year. */
  lemma {:induction false} YearsClosedForm(y: int)
    requires y >= 1970
    ensures DaysBeforeYear(y) == 365 * (y - 1970) + LeapsBefore(y) - LeapsBefore(1970)
    decreases y
  {
    if y > 1970 {
      YearsClosedForm(y - 1);
      LeapsStep(y - 1);
    }
  }

  /** Days from 1 January of a year to the first of a month after `m` whole months; no table of lengths. */
  function MonthStart(leap: bool, m: nat): nat {
    if m < 2 then 31 * m else (153 * (m - 2) + 2) / 5 + 59 + if leap then 1 else 0
  }

  lemma {:induction false} MonthsClosedForm(leap: bool, m: nat)
    requires m < 12
    ensures DaysBeforeMonth(leap, m) == MonthStart(leap, m)
  {
    if m > 0 {
      MonthsClosedForm(leap, m - 1);
    }
  }

  /** Days from 1 January 1970 to a day of the Gregorian calendar, by arithmetic alone. */
  function CivilDay(y: int, month: nat, day: nat): int
    requires y >= 1970 && 1 <= month
  {
    var leap := (y % 4 == 0 && y % 100 != 0) || y % 400 == 0;
    365 * (y - 1970) + (y - 1) / 4 - (y - 1) / 100 + (y - 1) / 400 - 477 + MonthStart(leap, month - 1) + day - 1
  }

  lemma YearIsCivil(y: int)
    requires y >= 1970
    ensures CivilDay(y, 1, 1) == DaysBeforeYear(y)
  {
    YearsClosedForm(y);
  }

  lemma MonthIsCivil(y: int, month: nat, day: nat)
    requires y >= 1970 && 1 <= month <= 12
    ensures CivilDay(y, month, day) == DaysBeforeYear(y) + DaysBeforeMonth(IsLeap(y), month - 1) + day - 1
  {
    YearIsCivil(y);
    MonthsClosedForm(IsLeap(y), month - 1);
  }

  /** The day a stamp names is the one this arithmetic gives. */
  lemma DayIsCivil(s: Stamp)
    requires Valid(s)
    ensures DayNumber(s) == CivilDay(s.year, s.month, s.day)
  {
    MonthIsCivil(s.year, s.month, s.day);
  }

  /** And the days of a month are exactly those before the start of the next: the table is the calendar's. */
  lemma ValidIffBeforeTheNextMonth(s: Stamp)
    requires s.year >= 1970 && 1 <= s.month <= 12 && 1 <= s.day && s.hour < 24 && s.minute < 60 && s.second < 60
    ensures var next := if s.month < 12 then CivilDay(s.year, s.month + 1, 1) else CivilDay(s.year + 1, 1, 1);
            Valid(s) <==> CivilDay(s.year, s.month, s.day) < next
  {
    MonthIsCivil(s.year, s.month, s.day);
    MonthsFillTheYear(IsLeap(s.year));
    if s.month < 12 {
      MonthIsCivil(s.year, s.month + 1, 1);
    } else {
      YearIsCivil(s.year + 1);
    }
  }
}
