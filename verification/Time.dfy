/** time.c: seconds since the Epoch, against a calendar that only knows how to get from one day to the next. */
module Time {
  import Arith

  //////////////////////////////////////////////////////////////////////////////
  // A calendar
  //////////////////////////////////////////////////////////////////////////////

  /** A day: years since 1900, months since January, day of the month from one. */
  datatype Date = Date(year: nat, mon: nat, day: nat)

  /** The Gregorian rule. */
  predicate Gregorian(year: int) {
    year % 4 == 0 && (year % 100 != 0 || year % 400 == 0)
  }

  function MonthLength(year: nat, mon: nat): nat
    requires mon < 12
  {
    if mon == 1 then (if Gregorian(year + 1900) then 29 else 28)
    else if mon == 3 || mon == 5 || mon == 8 || mon == 10 then 30
    else 31
  }

  predicate ValidDate(d: Date) {
    d.mon < 12 && 1 <= d.day <= MonthLength(d.year, d.mon)
  }

  function NextDay(d: Date): (r: Date)
    requires ValidDate(d)
    ensures ValidDate(r)
  {
    if d.day < MonthLength(d.year, d.mon) then d.(day := d.day + 1)
    else if d.mon < 11 then Date(d.year, d.mon + 1, 1)
    else Date(d.year + 1, 0, 1)
  }

  /** The day n days after the first of January 1900. */
  function NthDay(n: nat): (r: Date)
    ensures ValidDate(r)
  {
    if n == 0 then Date(0, 0, 1) else NextDay(NthDay(n - 1))
  }

  //////////////////////////////////////////////////////////////////////////////
  // The functions of time.c
  //////////////////////////////////////////////////////////////////////////////

  /** Division as C does it, towards zero. */
  function Quotient(a: int, b: int): int
    requires b > 0
  {
    if a >= 0 then a / b else -(-a / b)
  }

  /** is_leap_year, for years since 1900. */
  predicate IsLeapYear(year: nat) {
    var leap := year % 4 == 0;
    var leap2 := if year % 100 == 0 then false else leap;
    if year % 400 == 100 then true else leap2
  }

  function LeapYearsToEnd(year: int): int {
    Quotient(year, 4) - Quotient(year, 100) + Quotient(year + 300, 400)
  }

  const DAYS_TO_MONTH_START: seq<int> := [0, 31, 59, 90, 120, 151, 181, 212, 243, 273, 304, 334]
  const WEEKDAY_OFFSET: seq<int> := [1, 4, 3, 6, 1, 4, 6, 2, 5, 0, 3, 5]

  function DayOfWeek(year: nat, mon: nat, mday: nat): int
    requires mon < 12 && mday >= 1
  {
    var pseudoYear := if mon < 2 then year - 1 else year;
    (pseudoYear + LeapYearsToEnd(pseudoYear) + WEEKDAY_OFFSET[mon] + mday) % 7
  }

  function DayOfYear(year: nat, mon: nat, mday: int): int
    requires mon < 12
  {
    mday - 1 + DAYS_TO_MONTH_START[mon] + if mon >= 2 && IsLeapYear(year) then 1 else 0
  }

  function DaysSinceEpoch(year: nat, mon: nat, mday: int): int
    requires mon < 12
  {
    DayOfYear(year, mon, mday) + 365 * year - 25567 + LeapYearsToEnd(year - 1)
  }

  //////////////////////////////////////////////////////////////////////////////
  // The day number counts days
  //////////////////////////////////////////////////////////////////////////////

  lemma LeapRule(year: nat)
    ensures IsLeapYear(year) <==> Gregorian(year + 1900)
  {
    assert (year + 1900) % 4 == year % 4;
    assert (year + 1900) % 100 == year % 100;
    assert (year + 1900) % 400 == (year + 300) % 400;
  }

  /** The count of leap years rises by one at the end of each leap year. */
  lemma LeapCount(year: nat)
    ensures LeapYearsToEnd(year) == LeapYearsToEnd(year - 1) + if IsLeapYear(year) then 1 else 0
  {
    if year > 0 {
      DivStep(year, 4);
      DivStep(year, 100);
      DivStep(year + 300, 400);
      Centuries(year);
    }
  }

  lemma Centuries(year: nat)
    ensures (year + 300) % 400 == 0 <==> year % 400 == 100
    ensures year % 400 == 100 ==> year % 100 == 0
    ensures year % 100 == 0 ==> year % 4 == 0
  {
  }

  lemma DivStep(a: nat, b: nat)
    requires a > 0 && b > 1
    ensures a / b == (a - 1) / b + if a % b == 0 then 1 else 0
  {
    var q, r := a / b, a % b;
    assert a == q * b + r;
    if r == 0 {
      assert a - 1 == (q - 1) * b + (b - 1);
      Arith.DivModUnique(a - 1, b, q - 1, b - 1);
    } else {
      Arith.DivModUnique(a - 1, b, q, r - 1);
    }
  }

  /** One day later is one more. */
  lemma NextDayNumber(d: Date)
    requires ValidDate(d)
    ensures var e := NextDay(d);
      DaysSinceEpoch(e.year, e.mon, e.day) == DaysSinceEpoch(d.year, d.mon, d.day) + 1
  {
    LeapRule(d.year);
    LeapCount(d.year);
    hide LeapYearsToEnd, IsLeapYear, Gregorian;
  }

  /** The day number of every day is its distance from the first of January 1970. */
  lemma {:induction false} DayNumberCounts(n: nat)
    ensures var d := NthDay(n); DaysSinceEpoch(d.year, d.mon, d.day) == n - 25567
  {
    if n == 0 {
      assert LeapYearsToEnd(-1) == 0;
    } else {
      DayNumberCounts(n - 1);
      NextDayNumber(NthDay(n - 1));
    }
  }

  function PreviousDay(d: Date): (r: Date)
    requires ValidDate(d) && d != Date(0, 0, 1)
    ensures ValidDate(r) && NextDay(r) == d
  {
    if d.day > 1 then d.(day := d.day - 1)
    else if d.mon > 0 then Date(d.year, d.mon - 1, MonthLength(d.year, d.mon - 1))
    else Date(d.year - 1, 11, 31)
  }

  /** Every date from 1900 on is met by counting, at the position its day number gives. */
  lemma {:induction false} EveryDateCounted(d: Date)
    requires ValidDate(d)
    ensures DaysSinceEpoch(d.year, d.mon, d.day) >= -25567
    ensures NthDay(DaysSinceEpoch(d.year, d.mon, d.day) + 25567) == d
    decreases d.year, d.mon, d.day
  {
    if d == Date(0, 0, 1) {
      assert LeapYearsToEnd(-1) == 0;
    } else {
      var p := PreviousDay(d);
      EveryDateCounted(p);
      NextDayNumber(p);
      hide DaysSinceEpoch, PreviousDay, ValidDate;
    }
  }

  /** Day zero is the first of January 1970. */
  lemma EpochIsDayZero(d: Date)
    requires ValidDate(d)
    ensures DaysSinceEpoch(d.year, d.mon, d.day) == 0 <==> d == Date(70, 0, 1)
  {
    var epoch := Date(70, 0, 1);
    assert DaysSinceEpoch(70, 0, 1) == 0 by { assert LeapYearsToEnd(69) == 17; }
    hide DaysSinceEpoch, NthDay;
    EveryDateCounted(epoch);
    EveryDateCounted(d);
  }

  //////////////////////////////////////////////////////////////////////////////
  // Weekdays and the POSIX formula
  //////////////////////////////////////////////////////////////////////////////

  /** The month tables agree modulo seven. */
  lemma MonthTables(mon: nat)
    requires mon < 12
    ensures (WEEKDAY_OFFSET[mon] - (if mon < 2 then 1 else 0) - DAYS_TO_MONTH_START[mon]) % 7 == 0
  {
  }

  /** The first of January 1970 was a Thursday, and the weekdays follow each other from there. */
  lemma WeekdayFollows(d: Date)
    requires ValidDate(d)
    ensures DayOfWeek(d.year, d.mon, d.day) == (DaysSinceEpoch(d.year, d.mon, d.day) + 4) % 7
  {
    MonthTables(d.mon);
    LeapCount(d.year);
    var l, w, m := LeapYearsToEnd(d.year - 1), WEEKDAY_OFFSET[d.mon], DAYS_TO_MONTH_START[d.mon];
    var leap := if IsLeapYear(d.year) then 1 else 0;
    hide LeapYearsToEnd, IsLeapYear;
    SameWeekday(d.year, l, w - (if d.mon < 2 then 1 else 0), m, d.day, if d.mon < 2 then 0 else leap);
  }

  lemma SameWeekday(year: int, leaps: int, w: int, m: int, day: int, leap: int)
    requires (w - m) % 7 == 0
    ensures (year + leaps + leap + w + day) % 7 == (day - 1 + m + leap + 365 * year - 25567 + leaps + 4) % 7
  {
    var k := (w - m) / 7;
    assert w == m + 7 * k;
    var x := year + leaps + leap + m + day;
    assert year + leaps + leap + w + day == x + 7 * k;
    assert day - 1 + m + leap + 365 * year - 25567 + leaps + 4 == x + 7 * (52 * year - 3652);
  }

  /** Section 4.15 of POSIX:2008, for years from 1970 on. */
  lemma PosixFormula(year: nat, mon: nat, mday: int, hour: int, min: int, sec: int)
    requires mon < 12 && year >= 70
    ensures 86400 * DaysSinceEpoch(year, mon, mday) + ((hour * 60 + min) * 60 + sec)
         == sec + min * 60 + hour * 3600 + DayOfYear(year, mon, mday) * 86400 + (year - 70) * 31536000
            + (year - 69) / 4 * 86400 - (year - 1) / 100 * 86400 + (year + 299) / 400 * 86400
  {
    assert (year - 69) / 4 == (year - 1) / 4 - 17;
    hide DayOfYear;
  }

  //////////////////////////////////////////////////////////////////////////////
  // mktime
  //////////////////////////////////////////////////////////////////////////////

  class Tm {
    var sec: int
    var min: int
    var hour: int
    var mday: nat
    var mon: nat
    var year: nat
    var wday: int
    var yday: int

    /** mktime: fills in the day of the year and the day of the week. */
    method MkTime() returns (seconds: int)
      requires mon < 12 && mday >= 1
      modifies `yday, `wday
      ensures yday == DayOfYear(year, mon, mday)
      ensures seconds == 86400 * DaysSinceEpoch(year, mon, mday) + (hour * 3600 + min * 60 + sec)
      ensures ValidDate(Date(year, mon, mday)) ==>
                && NthDay(DaysSinceEpoch(year, mon, mday) + 25567) == Date(year, mon, mday)
                && wday == (DaysSinceEpoch(year, mon, mday) + 4) % 7
    {
      yday := mday - 1 + DAYS_TO_MONTH_START[mon];
      if mon >= 2 && IsLeapYear(year) {
        yday := yday + 1;
      }
      wday := DayOfWeek(year, mon, mday);
      var days := yday + 365 * year - 25567 + LeapYearsToEnd(year - 1);
      var secondsSinceDay := (hour * 60 + min) * 60 + sec;
      seconds := days * 86400 + secondsSinceDay;
      hide LeapYearsToEnd, IsLeapYear, DayOfWeek;
      if ValidDate(Date(year, mon, mday)) {
        EveryDateCounted(Date(year, mon, mday));
        WeekdayFollows(Date(year, mon, mday));
      }
    }
  }
}
