/** hal/rhs_hal_rtc/unixtime/unixtime.c: seconds to a calendar date by guessing
    the year and correcting it, and a date to seconds by a closed formula, both
    in the C code's unsigned arithmetic. */
module UnixTime {
  import opened Words
  import opened Calendar

  /** The fields of datetime_t that the conversions read or write. */
  datatype DateTime = DateTime(
    year: Uint32, month: Uint32, day: Uint32,
    hours: Uint32, minutes: Uint32, seconds: Uint32,
    weekday: Uint32)
  {
    function CalendarDate(): Date {
      Date(year, month, day)
    }

    /** A valid civil date and time of day. */
    predicate IsCivil() {
      Valid(CalendarDate()) && hours < 24 && minutes < 60 && seconds < 60
    }

    function SecondOfDay(): nat {
      3600 * hours + 60 * minutes + seconds
    }
  }

  // ----- Date to seconds -----

  /** convert_date_2_unix_time: every operation wraps at 32 bits. */
  function ToUnix(t: DateTime): Uint32 {
    var early := t.month <= 2;
    var m := if early then (t.month + 12) % U32 else t.month;
    var y := if early then (t.year - 1) % U32 else t.year;
    var years := (365 * y + y / 4 - y / 100 + y / 400) % U32;
    var days := (years + 30 * m + 3 * (m + 1) % U32 / 5 + t.day) % U32;
    var sinceEpoch := (days - 719561) % U32;
    var start := sinceEpoch * 86400 % U32;
    (start + 3600 * t.hours + 60 * t.minutes + t.seconds) % U32
  }

  /** The formula's count for the months before month `m` of a year that starts in March. */
  function MonthTerm(m: nat): nat {
    30 * m + 3 * (m + 1) / 5
  }

  function YearTerm(y: nat): nat {
    365 * y + (y / 4 - y / 100 + y / 400)
  }

  /** The formula's day number, over the integers. */
  function Serial(d: Date): int
    requires d.year >= 1
  {
    if d.month <= 2 then YearTerm(d.year - 1) + MonthTerm(d.month + 12) + d.day - 719561
    else YearTerm(d.year) + MonthTerm(d.month) + d.day - 719561
  }

  /** Reducing after every operation is reducing once at the end. */
  lemma {:induction false} WrapOnce(a: int, p: int, tod: int)
    ensures ((((a % U32 + p) % U32 - 719561) % U32 * 86400) % U32 + tod) % U32
         == (86400 * (a + p - 719561) + tod) % U32
  {
    ModMul(1, a, p, U32);
    ModMul(1, a + p, -719561, U32);
    ModMul(86400, a + p - 719561, 0, U32);
    ModMul(1, 86400 * (a + p - 719561), tod, U32);
  }

  /** The wrapping computation is the integer one, reduced once at the end. */
  lemma {:induction false} ToUnixIsSerial(t: DateTime)
    requires t.IsCivil() && t.year >= 1
    ensures ToUnix(t) == (86400 * Serial(t.CalendarDate()) + t.SecondOfDay()) % U32
  {
    var m := if t.month <= 2 then t.month + 12 else t.month;
    var y := if t.month <= 2 then t.year - 1 else t.year;
    assert m <= 14;
    SmallMod(m, U32);
    SmallMod(y, U32);
    SmallMod(3 * (m + 1), U32);
    var a, p, tod := YearTerm(y), MonthTerm(m) + t.day, t.SecondOfDay();
    assert ToUnix(t) == ((((a % U32 + p) % U32 - 719561) % U32 * 86400) % U32 + tod) % U32;
    WrapOnce(YearTerm(y), MonthTerm(m) + t.day, t.SecondOfDay());
  }

  lemma MonthTermStep(m: nat)
    requires 3 <= m <= 14
    ensures m != 14 ==> MonthTerm(m + 1) == MonthTerm(m) + MonthLength(false, if m <= 12 then m else m - 12)
    ensures MonthTerm(14) == MonthTerm(3) + 337
  {
  }

  /** From the first of one month to the first of the next. */
  lemma SerialNextMonth(y: nat, m: nat)
    requires y >= 1 && 1 <= m <= 12
    ensures var next := if m < 12 then Date(y, m + 1, 1) else Date(y + 1, 1, 1);
            Serial(next) == Serial(Date(y, m, 1)) + MonthLength(IsLeap(y), m)
  {
    MonthTermStep(if m <= 2 then m + 12 else m);
    LeapQuotients(y);
    hide MonthTerm, IsLeap;
  }

  lemma SerialInMonth(d: Date)
    requires d.year >= 1
    ensures Serial(d) == Serial(Date(d.year, d.month, 1)) + d.day - 1
  {
  }

  /** One calendar day adds one to the formula's day number. */
  lemma {:induction false} SerialStep(d: Date)
    requires Valid(d) && d.year >= 1
    ensures Serial(NextDay(d)) == Serial(d) + 1
  {
    hide Serial, IsLeap, MonthLength;
    SerialNextMonth(d.year, d.month);
    SerialInMonth(d);
    SerialInMonth(d.(day := d.day + 1));
  }

  lemma {:induction false} SerialOfDateAfter(n: nat)
    ensures Serial(DateAfter(n)) == n
  {
    if n > 0 {
      SerialOfDateAfter(n - 1);
      SerialStep(DateAfter(n - 1));
      hide Serial, NextDay;
    } else {
      assert Serial(EPOCH) == 0;
    }
  }

  /** The formula counts next-day steps: n days after the epoch it gives 86400 n
      plus the time of day, modulo 2^32. */
  lemma {:induction false} ToUnixCountsDays(t: DateTime, n: nat)
    requires t.IsCivil() && t.CalendarDate() == DateAfter(n)
    ensures ToUnix(t) == (86400 * n + t.SecondOfDay()) % U32
  {
    OrdinalOfDateAfter(n);
    SerialOfDateAfter(n);
    ToUnixIsSerial(t);
  }

  /** The seconds since the epoch of a civil time, counted on the calendar. */
  function TrueSeconds(t: DateTime): int
    requires t.IsCivil()
  {
    86400 * Ordinal(t.CalendarDate()) + t.SecondOfDay()
  }

  /** Chronological order of civil times. */
  predicate EarlierTime(a: DateTime, b: DateTime) {
    Earlier(a.CalendarDate(), b.CalendarDate()) ||
    (a.CalendarDate() == b.CalendarDate() && a.SecondOfDay() < b.SecondOfDay())
  }

  /** On every civil time from 1970 on whose seconds fit 32 bits, the formula is exact. */
  lemma {:induction false} ToUnixExact(t: DateTime)
    requires t.IsCivil() && t.year >= 1970
    ensures ToUnix(t) == TrueSeconds(t) % U32
    ensures TrueSeconds(t) < U32 ==> ToUnix(t) == TrueSeconds(t)
  {
    EveryDateReached(t.CalendarDate());
    ToUnixCountsDays(t, Ordinal(t.CalendarDate()));
    hide ToUnix, Ordinal, DateAfter;
    if TrueSeconds(t) < U32 {
      SmallMod(TrueSeconds(t), U32);
    }
  }

  /** There it is strictly increasing, hence injective. */
  lemma {:induction false} ToUnixMonotone(a: DateTime, b: DateTime)
    requires a.IsCivil() && a.year >= 1970 && TrueSeconds(a) < U32
    requires b.IsCivil() && b.year >= 1970 && TrueSeconds(b) < U32
    ensures EarlierTime(a, b) <==> ToUnix(a) < ToUnix(b)
  {
    ToUnixExact(a);
    ToUnixExact(b);
    if Earlier(a.CalendarDate(), b.CalendarDate()) {
      OrdinalMonotone(a.CalendarDate(), b.CalendarDate());
    } else if Earlier(b.CalendarDate(), a.CalendarDate()) {
      OrdinalMonotone(b.CalendarDate(), a.CalendarDate());
    }
  }

  // ----- Seconds to date -----

  /** Month `m` contains the 1-based day `doy` of the year. */
  predicate InMonth(leap: bool, doy: nat, m: nat) {
    1 <= m <= 12 && DaysBefore(leap, m) < doy <= DaysBefore(leap, m + 1)
  }

  lemma OneMonth(leap: bool, doy: nat, m: nat, n: nat)
    requires InMonth(leap, doy, m) && InMonth(leap, doy, n)
    ensures m == n
  {
    if m < n {
      DaysBeforeMonotone(leap, m + 1, n);
    } else if n < m {
      DaysBeforeMonotone(leap, n + 1, m);
    }
  }

  /** The first month, counted from `m`, that ends on or after day `doy`. */
  function MonthOf(leap: bool, doy: nat, m: nat := 1): (r: nat)
    requires 1 <= m <= 12 && DaysBefore(leap, m) < doy <= 365
    ensures InMonth(leap, doy, r)
    decreases 12 - m
  {
    if doy <= DaysBefore(leap, m + 1) then m else MonthOf(leap, doy, m + 1)
  }

  /** The year guess and its correction, from the day count. */
  function GuessedYear(days: Uint32): nat {
    1970 + days / 365
  }

  function CorrectedDays(days: Uint32): Uint32 {
    (days - LeapsBefore(GuessedYear(days)) % U8) % U32
  }

  /** The date found for a day count: the corrected year, then the month search. */
  function FromDays(days: Uint32): (d: Date)
    ensures d.month <= 12 && d.day <= 31
  {
    var c := CorrectedDays(days);
    var year := 1970 + c / 365;
    var doy := c % 365 + 1;
    var m := MonthOf(IsLeap(year), doy);
    DaysBeforeStep(IsLeap(year), m);
    Date(year, m, doy - DaysBefore(IsLeap(year), m))
  }

  /** convert_unix_time_2_date as a function of its argument alone. */
  function FromUnix(seconds: Uint64): DateTime {
    var days := seconds / 86400 % U32;
    var d := FromDays(days);
    DateTime(d.year, d.month, d.day,
             seconds / 3600 % 24, seconds / 60 % 60, seconds % 60,
             (days + 4) % 7)
  }

  /** The days on which the correction overshoots: late in a leap year, once the
      leap days so far and the day of the year add up to a year. */
  predicate InWindow(d: Date)
    requires Valid(d)
  {
    IsLeap(d.year) && LeapsBefore(d.year) + DayOfYear(d) >= 365
  }

  /** The first guess is the true year, or the one after it. */
  lemma {:induction false} GuessIsClose(n: Uint32)
    requires LeapsBefore(DateAfter(n).year + 1) < U8
    ensures var d := DateAfter(n);
            GuessedYear(n) == d.year + if LeapsBefore(d.year) + DayOfYear(d) < 365 then 0 else 1
  {
    var d := DateAfter(n);
    OrdinalOfDateAfter(n);
    DayOfYearBound(d);
    var y, l, k := d.year, LeapsBefore(d.year), DayOfYear(d);
    if l + k < 365 {
      DivModUnique(n, y - 1970, 365, l + k);
    } else {
      DivModUnique(n, y - 1970 + 1, 365, l + k - 365);
    }
  }

  /** While the 8-bit leap counter does not wrap, the correction finds the true
      year, and the true day of the year except in the window, where it is one short. */
  lemma {:induction false} CorrectionFindsYear(n: Uint32)
    requires LeapsBefore(DateAfter(n).year + 1) < U8
    ensures var d := DateAfter(n);
            var k := DayOfYear(d) - if InWindow(d) then 1 else 0;
            CorrectedDays(n) / 365 == d.year - 1970 && CorrectedDays(n) % 365 == k
  {
    var d := DateAfter(n);
    OrdinalOfDateAfter(n);
    DayOfYearBound(d);
    GuessIsClose(n);
    var k := DayOfYear(d) - if InWindow(d) then 1 else 0;
    var c := 365 * (d.year - 1970) + k;
    assert CorrectedDays(n) == c by {
      assert LeapsBefore(d.year + 1) == LeapsBefore(d.year) + if IsLeap(d.year) then 1 else 0;
      SmallMod(LeapsBefore(GuessedYear(n)), U8);
      SmallMod(c, U32);
    }
    DivModUnique(c, d.year - 1970, 365, k);
  }

  lemma {:induction false} DayBeforeInWindow(n: nat)
    requires InWindow(DateAfter(n)) && LeapsBefore(DateAfter(n).year + 1) < U8
    ensures n > 0
    ensures DateAfter(n - 1).year == DateAfter(n).year
    ensures DayOfYear(DateAfter(n - 1)) == DayOfYear(DateAfter(n)) - 1
  {
    assert !IsLeap(1970);
    var d := DateAfter(n);
    OrdinalOfDateAfter(n);
    assert DayOfYear(d) > 100;
    DayBefore(DateAfter(n - 1));
  }

  lemma DayBefore(e: Date)
    requires Valid(e)
    ensures var d := NextDay(e);
            DayOfYear(d) > 0 ==> d.year == e.year && DayOfYear(e) == DayOfYear(d) - 1
  {
    DaysBeforeStep(IsLeap(e.year), e.month);
  }

  /** The 8-bit leap counter does not wrap before the year 3000. */
  lemma {:induction false} LeapCounterFits(d: Date)
    requires 1970 <= d.year < 3000
    ensures LeapsBefore(d.year + 1) < U8
  {
    LeapsClosedForm(d.year + 1);
  }

  /** The day count whose date the conversion reports. */
  function ReportedDay(n: nat): nat {
    if InWindow(DateAfter(n)) && n > 0 then n - 1 else n
  }

  /** A year and a month that contains the day of the year determine the date found. */
  lemma {:induction false} FromDaysFinds(days: Uint32, d: Date)
    requires d.year >= 1970 && 1 <= d.month <= 12
    requires var c := CorrectedDays(days);
             && c / 365 == d.year - 1970
             && c % 365 + 1 == DaysBefore(IsLeap(d.year), d.month) + d.day
             && InMonth(IsLeap(d.year), c % 365 + 1, d.month)
    ensures FromDays(days) == d
  {
    OneMonth(IsLeap(d.year), CorrectedDays(days) % 365 + 1, d.month, FromDays(days).month);
  }

  lemma {:induction false} FromDaysIsCalendar(n: Uint32)
    requires LeapsBefore(DateAfter(n).year + 1) < U8
    ensures FromDays(n) == DateAfter(ReportedDay(n))
    ensures FromDays(n) == DateAfter(n) <==> !InWindow(DateAfter(n))
  {
    CorrectionFindsYear(n);
    if InWindow(DateAfter(n)) {
      DayBeforeInWindow(n);
      LaterIsLater(n - 1, n);
    }
    var d := DateAfter(ReportedDay(n));
    DaysBeforeStep(IsLeap(d.year), d.month);
    FromDaysFinds(n, d);
  }

  /** The conversion yields the true date, time of day and weekday, except that in the
      window the date (and nothing else) is that of the day before. */
  lemma {:induction false} FromUnixIsCalendar(s: Uint64)
    requires s / 86400 < U32 && LeapsBefore(DateAfter(s / 86400).year + 1) < U8
    ensures var n, t := s / 86400, FromUnix(s);
            && t.CalendarDate() == DateAfter(ReportedDay(n))
            && (t.CalendarDate() == DateAfter(n) <==> !InWindow(DateAfter(n)))
            && t.IsCivil() && t.SecondOfDay() == s % 86400
            && t.weekday == (n + 4) % 7
  {
    var n := s / 86400;
    FromDaysIsCalendar(n);
    SmallMod(n, U32);
    TimeOfDay(s);
  }

  /** Hours, minutes and seconds recombine to the second of the day. */
  lemma TimeOfDay(s: nat)
    ensures 3600 * (s / 3600 % 24) + 60 * (s / 60 % 60) + s % 60 == s % 86400
  {
    var m := s / 60;
    var h := m / 60;
    assert s / 3600 == h && s / 86400 == h / 24;
  }

  /** For every 32-bit time, to a date and back is the identity outside the window
      and exactly one day short inside it. */
  lemma {:induction false} RoundTrip(s: Uint32)
    ensures var late := InWindow(DateAfter(s / 86400));
            ToUnix(FromUnix(s)) == s - if late then 86400 else 0
  {
    var n := s / 86400;
    OrdinalOfDateAfter(n);
    LeapCounterFits(DateAfter(n));
    FromUnixIsCalendar(s);
    if InWindow(DateAfter(n)) {
      DayBeforeInWindow(n);
    }
    ToUnixCountsDays(FromUnix(s), ReportedDay(n));
    SmallMod(86400 * ReportedDay(n) + s % 86400, U32);
  }

  /** The other way round: a civil time survives to seconds and back exactly outside the window. */
  lemma {:induction false} RoundTripOfDate(t: DateTime)
    requires t.IsCivil() && t.year >= 1970 && TrueSeconds(t) < U32
    ensures var u := FromUnix(ToUnix(t));
            && u.SecondOfDay() == t.SecondOfDay()
            && (u.CalendarDate() == t.CalendarDate() <==> !InWindow(t.CalendarDate()))
  {
    ToUnixExact(t);
    var n := Ordinal(t.CalendarDate());
    EveryDateReached(t.CalendarDate());
    OrdinalOfDateAfter(n);
    DivModUnique(ToUnix(t), n, 86400, t.SecondOfDay());
    LeapCounterFits(t.CalendarDate());
    FromUnixIsCalendar(ToUnix(t));
  }

  lemma TheEndOf1972(n: nat)
    requires n == 1095
    ensures DateAfter(n) == Date(1972, 12, 31) && InWindow(DateAfter(n))
    ensures DateAfter(n - 1) == Date(1972, 12, 30)
  {
    var d, e := Date(1972, 12, 31), Date(1972, 12, 30);
    assert LeapsBefore(1972) == 0;
    assert Ordinal(d) == n && Ordinal(e) == n - 1;
    EveryDateReached(d);
    EveryDateReached(e);
  }

  /** The window is not empty: all of 1972-12-31 is reported as the day before. */
  lemma WindowStartsIn1972(s: Uint64)
    requires 94608000 <= s < 94694400
    ensures DateAfter(s / 86400) == Date(1972, 12, 31)
    ensures FromUnix(s).CalendarDate() == Date(1972, 12, 30)
  {
    var n := s / 86400;
    TheEndOf1972(n);
    LeapCounterFits(DateAfter(n));
    FromUnixIsCalendar(s);
  }

  // ----- The conversion as written -----

  /** The function's static tables: February's entry is rewritten by every call. */
  class Converter {
    const monthDays: array<Uint8>
    const weekDays: array<Uint8>

    ghost predicate Valid()
      reads monthDays, weekDays
    {
      && monthDays.Length == 12 && weekDays.Length == 7 && monthDays != weekDays
      && monthDays[1] in {28, 29}
      && (forall k :: 0 <= k < 12 && k != 1 ==> monthDays[k] == MonthLength(false, k + 1))
      && (forall k :: 0 <= k < 7 ==> weekDays[k] == (k + 4) % 7)
    }

    constructor ()
      ensures Valid() && fresh(monthDays) && fresh(weekDays)
    {
      monthDays := new Uint8[] [31, 28, 31, 30, 31, 30, 31, 31, 30, 31, 30, 31];
      weekDays := new Uint8[] [4, 5, 6, 0, 1, 2, 3];
    }

    /** The leap years from 1972 up to the guessed year, counted in an 8-bit variable. */
    method CountLeapDays(year: Uint32) returns (leapDays: Uint8)
      ensures leapDays == LeapsBefore(year) % U8
    {
      leapDays := 0;
      var i := 1972;
      assert LeapsBefore(1972) == 0;
      hide LeapsBefore;
      while i < year
        invariant i >= 1972 && i % 4 == 0
        invariant i < year + 4 || i == 1972
        invariant leapDays == LeapsBefore(i) % U8
      {
        LeapsOfFour(i);
        CountsInEight(LeapsBefore(i));
        if (i % 4 == 0 && i % 100 != 0) || i % 400 == 0 {
          leapDays := (leapDays + 1) % U8;
        }
        i := i + 4;
      }
      LeapsBetween(year, i);
    }

    /** The time of day, and the days left over. */
    method SplitTime(seconds: Uint64) returns (secs: Uint32, mins: Uint32, hours: Uint32, days: Uint32)
      ensures secs == seconds % 60 && mins == seconds / 60 % 60 && hours == seconds / 3600 % 24
      ensures days == seconds / 86400 % U32
    {
      var epoch := seconds;
      secs := epoch % 60;
      epoch := epoch / 60;
      mins := epoch % 60;
      epoch := epoch / 60;
      hours := epoch % 24;
      epoch := epoch / 24;
      days := epoch % U32;
      NestedQuotients(seconds);
    }

    /** The year guess, and the days that remain once its leap days are taken off. */
    method CorrectDays(days: Uint32) returns (corrected: Uint32)
      ensures corrected == CorrectedDays(days)
    {
      var year := 1970 + days / 365;
      var leapDays := CountLeapDays(year);
      corrected := (days - leapDays) % U32;
    }

    /** The result depends on the argument alone, whatever earlier calls left in the table. */
    method ConvertUnixTimeToDate(seconds: Uint64) returns (t: DateTime)
      requires Valid()
      modifies monthDays
      ensures Valid()
      ensures t == FromUnix(seconds)
    {
      hide FromDays, CorrectedDays, MonthOf;
      var secs, mins, hours, days := SplitTime(seconds);
      var weekday := weekDays[days % 7];
      WeekdayTable(days);
      var corrected := CorrectDays(days);
      var year := 1970 + corrected / 365;
      var dayOfYear := corrected % 365 + 1;
      if (year % 4 == 0 && year % 100 != 0) || year % 400 == 0 {
        monthDays[1] := 29;
      } else {
        monthDays[1] := 28;
      }
      var month, day := FindMonth(IsLeap(year), dayOfYear);
      FromDaysFinds(days, Date(year, month, day));
      t := DateTime(year, month, day, hours, mins, secs, weekday);
    }

    /** The month loop over the table. */
    method FindMonth(ghost leap: bool, dayOfYear: Uint32) returns (month: Uint32, day: Uint32)
      requires Valid() && monthDays[1] == MonthLength(leap, 2)
      requires 1 <= dayOfYear <= 365
      ensures InMonth(leap, dayOfYear, month)
      ensures day == dayOfYear - DaysBefore(leap, month)
    {
      assert DaysBefore(leap, 1) == 0 && DaysBefore(leap, 13) == 365 + if leap then 1 else 0;
      assert forall k :: 0 <= k < 12 ==> monthDays[k] == MonthLength(leap, k + 1);
      hide DaysBefore, MonthLength, IsLeap;
      var tempDays := 0;
      month := 0;
      while month <= 11
        invariant month <= 12
        invariant tempDays == DaysBefore(leap, month + 1) <= 366
        invariant month >= 1 ==> dayOfYear > DaysBefore(leap, month)
        invariant month == 12 ==> dayOfYear <= tempDays
      {
        if dayOfYear <= tempDays {
          break;
        }
        DaysBeforeStep(leap, month + 1);
        DaysBeforeMonotone(leap, month + 2, 13);
        SmallMod(tempDays + monthDays[month], U16);
        tempDays := (tempDays + monthDays[month]) % U16;
        month := month + 1;
      }
      DaysBeforeStep(leap, month);
      assert monthDays[month - 1] == MonthLength(leap, month - 1 + 1);
      SmallMod(tempDays - monthDays[month - 1], U16);
      tempDays := (tempDays - monthDays[month - 1]) % U16;
      SmallMod(dayOfYear - tempDays, U32);
      day := (dayOfYear - tempDays) % U32;
    }
  }

  lemma CountsInEight(n: nat)
    ensures (n % 0x100 + 1) % 0x100 == (n + 1) % 0x100
  {
  }

  lemma LeapsOfFour(i: nat)
    requires i >= 1972 && i % 4 == 0
    ensures LeapsBefore(i + 4) == LeapsBefore(i) + if IsLeap(i) then 1 else 0
  {
    assert LeapsBefore(i + 2) == LeapsBefore(i + 1);
    assert LeapsBefore(i + 3) == LeapsBefore(i + 2);
  }

  lemma {:induction false} LeapsBetween(y: nat, i: nat)
    requires i % 4 == 0 && i >= 1972 && y <= i && (i < y + 4 || i == 1972)
    ensures LeapsBefore(i) == LeapsBefore(y)
    decreases i - y
  {
    if y < i {
      LeapsBetween(y + 1, i);
      if y >= 1970 {
        assert y % 4 != 0;
      }
    }
  }

  lemma WeekdayTable(days: nat)
    ensures (days % 7 + 4) % 7 == (days + 4) % 7
  {
    ModMul(1, days, 4, 7);
  }

  lemma NestedQuotients(s: nat)
    ensures s / 60 / 60 == s / 3600 && s / 60 / 60 / 24 == s / 86400
  {
  }
}
