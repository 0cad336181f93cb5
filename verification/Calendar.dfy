/** The Gregorian calendar, defined by its next-day step. This is the reference
    that the conversions of unixtime.c are compared with. */
module Calendar {
  import opened Words

  datatype Date = Date(year: nat, month: nat, day: nat)

  predicate IsLeap(y: nat) {
    (y % 4 == 0 && y % 100 != 0) || y % 400 == 0
  }

  function MonthLength(leap: bool, m: nat): nat {
    if m == 2 then (if leap then 29 else 28)
    else if m in {4, 6, 9, 11} then 30
    else 31
  }

  predicate Valid(d: Date) {
    1 <= d.month <= 12 && 1 <= d.day <= MonthLength(IsLeap(d.year), d.month)
  }

  function NextDay(d: Date): (r: Date)
    requires Valid(d)
    ensures Valid(r)
  {
    if d.day < MonthLength(IsLeap(d.year), d.month) then d.(day := d.day + 1)
    else if d.month < 12 then Date(d.year, d.month + 1, 1)
    else Date(d.year + 1, 1, 1)
  }

  const EPOCH: Date := Date(1970, 1, 1)

  /** The date `n` days after 1970-01-01. */
  function DateAfter(n: nat): (d: Date)
    ensures Valid(d) && d.year >= 1970
  {
    if n == 0 then EPOCH else NextDay(DateAfter(n - 1))
  }

  /** Chronological order of dates. */
  predicate Earlier(a: Date, b: Date) {
    a.year < b.year ||
    (a.year == b.year && (a.month < b.month || (a.month == b.month && a.day < b.day)))
  }

  lemma {:induction false} LaterIsLater(m: nat, n: nat)
    requires m < n
    ensures Earlier(DateAfter(m), DateAfter(n))
  {
    if m < n - 1 {
      LaterIsLater(m, n - 1);
    }
  }

  /** Leap years in [1970, y). */
  function LeapsBefore(y: nat): nat {
    if y <= 1970 then 0 else LeapsBefore(y - 1) + if IsLeap(y - 1) then 1 else 0
  }

  lemma {:induction false} LeapsClosedForm(y: nat)
    requires y >= 1970
    ensures LeapsBefore(y) == (y - 1) / 4 - (y - 1) / 100 + (y - 1) / 400 - 477
  {
    if y > 1970 {
      LeapsClosedForm(y - 1);
      LeapQuotients(y - 1);
    }
  }

  /** Passing a year moves the three quotients by exactly its leap day. */
  lemma LeapQuotients(y: nat)
    requires y > 0
    ensures y / 4 - y / 100 + y / 400 ==
            (y - 1) / 4 - (y - 1) / 100 + (y - 1) / 400 + if IsLeap(y) then 1 else 0
  {
    QuotientStep(y, 4);
    QuotientStep(y, 100);
    QuotientStep(y, 400);
    Nested(y, 25, 4, 100);
    Nested(y, 4, 100, 400);
  }

  lemma {:induction false} Nested(y: nat, q: nat, k: nat, l: nat)
    requires k > 0 && l == q * k && l > 0
    ensures y % l == 0 ==> y % k == 0
  {
    if y % l == 0 {
      var m := y / l;
      assert y == m * q * k by {
        assert y == m * l;
        assert m * (q * k) == m * q * k;
      }
      DivModUnique(y, m * q, k, 0);
    }
  }

  lemma QuotientStep(y: nat, k: nat)
    requires y > 0 && k in {4, 100, 400}
    ensures y / k == (y - 1) / k + if y % k == 0 then 1 else 0
  {
  }

  /** Days of the year before month `m`; month 13 is the end of the year. */
  function DaysBefore(leap: bool, m: nat): nat
    requires 1 <= m <= 13
  {
    var leapDay := if leap && m > 2 then 1 else 0;
    leapDay + match m
      case 1 => 0 case 2 => 31 case 3 => 59 case 4 => 90 case 5 => 120 case 6 => 151 case 7 => 181
      case 8 => 212 case 9 => 243 case 10 => 273 case 11 => 304 case 12 => 334 case _ => 365
  }

  /** The table adds up the month lengths. */
  lemma DaysBeforeStep(leap: bool, m: nat)
    requires 1 <= m <= 12
    ensures DaysBefore(leap, m + 1) == DaysBefore(leap, m) + MonthLength(leap, m)
  {
  }

  lemma DaysBeforeMonotone(leap: bool, m: nat, n: nat)
    requires 1 <= m <= n <= 13
    ensures DaysBefore(leap, m) <= DaysBefore(leap, n)
  {
  }

  /** The 0-based day of the year. */
  function DayOfYear(d: Date): nat
    requires Valid(d)
  {
    DaysBefore(IsLeap(d.year), d.month) + d.day - 1
  }

  function YearLength(leap: bool): nat {
    if leap then 366 else 365
  }

  /** The day number of a date, counted by year and day of year. */
  function Ordinal(d: Date): int
    requires Valid(d)
  {
    365 * (d.year - 1970) + LeapsBefore(d.year) + DayOfYear(d)
  }

  lemma OrdinalStep(d: Date)
    requires Valid(d) && d.year >= 1970
    ensures Ordinal(NextDay(d)) == Ordinal(d) + 1
  {
    DaysBeforeStep(IsLeap(d.year), d.month);
    DaysBeforeMonotone(IsLeap(d.year), d.month + 1, 13);
  }

  lemma {:induction false} OrdinalOfDateAfter(n: nat)
    ensures Ordinal(DateAfter(n)) == n
  {
    if n > 0 {
      OrdinalOfDateAfter(n - 1);
      OrdinalStep(DateAfter(n - 1));
    }
  }

  lemma DayOfYearBound(d: Date)
    requires Valid(d)
    ensures DayOfYear(d) < YearLength(IsLeap(d.year))
  {
    DaysBeforeStep(IsLeap(d.year), d.month);
    DaysBeforeMonotone(IsLeap(d.year), d.month + 1, 13);
  }

  /** Day numbers follow the calendar order. */
  lemma {:induction false} OrdinalMonotone(a: Date, b: Date)
    requires Valid(a) && Valid(b) && 1970 <= a.year && Earlier(a, b)
    ensures Ordinal(a) < Ordinal(b)
  {
    if a.year == b.year {
      if a.month < b.month {
        DaysBeforeStep(IsLeap(a.year), a.month);
        DaysBeforeMonotone(IsLeap(a.year), a.month + 1, b.month);
      }
    } else {
      DayOfYearBound(a);
      YearStarts(a.year, b.year);
    }
  }

  lemma {:induction false} YearStarts(y: nat, z: nat)
    requires 1970 <= y < z
    ensures 365 * y + LeapsBefore(y) + YearLength(IsLeap(y)) <= 365 * z + LeapsBefore(z)
  {
    if y < z - 1 {
      YearStarts(y, z - 1);
    }
  }

  /** Every valid date from 1970 on is reached by next-day steps, after Ordinal(d) of them. */
  lemma {:induction false} EveryDateReached(d: Date)
    requires Valid(d) && d.year >= 1970
    ensures Ordinal(d) >= 0
    ensures DateAfter(Ordinal(d)) == d
  {
    var n := Ordinal(d);
    assert n >= 0;
    OrdinalOfDateAfter(n);
    var e := DateAfter(n);
    if Earlier(d, e) {
      OrdinalMonotone(d, e);
    } else if Earlier(e, d) {
      OrdinalMonotone(e, d);
    }
  }
}
