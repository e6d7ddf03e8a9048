/** Recovering the UTC offset from two broken-down dates, over the proleptic Gregorian calendar. */
module UtcOffset {
  import opened TimeUnits

  const INT64_MAX := 0x7FFF_FFFF_FFFF_FFFF

  // ---------------------------------------------------------------- the calendar

  predicate IsLeap(y: int) {
    y % 4 == 0 && (y % 100 != 0 || y % 400 == 0)
  }

  function YearLength(y: int): nat {
    if IsLeap(y) then 366 else 365
  }

  /** Days from the first of January 1970 to the first of January of y; the years follow each other without gap. */
  function YearStart(y: int): int
    decreases if y < 1970 then 1970 - y else y - 1970
  {
    if y == 1970 then 0
    else if y > 1970 then YearStart(y - 1) + YearLength(y - 1)
    else YearStart(y + 1) - YearLength(y)
  }

  lemma NextYear(y: int)
    ensures YearStart(y + 1) == YearStart(y) + YearLength(y)
  {
  }

  /** The leap years from year 1 to y. */
  function LeapsUpTo(y: int): int {
    y / 4 - y / 100 + y / 400
  }

  lemma LeapStep(y: int)
    ensures LeapsUpTo(y) == LeapsUpTo(y - 1) + (if IsLeap(y) then 1 else 0)
  {
    Multiples(y, 4);
    Multiples(y, 100);
    Multiples(y, 400);
    assert y % 400 == 0 ==> y % 100 == 0;
    assert y % 100 == 0 ==> y % 4 == 0;
  }

  lemma Multiples(y: int, n: nat)
    requires n == 4 || n == 100 || n == 400
    ensures y / n == (y - 1) / n + (if y % n == 0 then 1 else 0)
  {
  }

  /** The calendar in closed form: 365 days a year, and a day more for every fourth year but not for every hundredth,
      and again for every four hundredth. Year 1970 starts on day 0; 719162 is the number of days from the start of
      year 1 to it. */
  lemma {:induction false} YearStartInClosedForm(y: int)
    ensures YearStart(y) == 365 * (y - 1) + ((y - 1) / 4 - (y - 1) / 100 + (y - 1) / 400) - 719162
    decreases if y < 1970 then 1970 - y else y - 1970
  {
    if y > 1970 {
      YearStartInClosedForm(y - 1);
      LeapStep(y - 1);
    } else if y < 1970 {
      YearStartInClosedForm(y + 1);
      LeapStep(y);
    }
  }

  function YearFrom(day: int, y: int): (year: int)
    requires YearStart(y) <= day
    ensures YearStart(year) <= day < YearStart(year + 1)
    decreases day - YearStart(y)
  {
    NextYear(y);
    if day < YearStart(y + 1) then y else YearFrom(day, y + 1)
  }

  lemma {:induction false} EarlyYearStart(k: nat)
    ensures YearStart(1970 - k) <= -365 * k
  {
    if k > 0 {
      EarlyYearStart(k - 1);
      NextYear(1970 - k);
    }
  }

  /** The year a day lies in, for all days before and after 1970. */
  function YearOf(day: int): (year: int)
    ensures YearStart(year) <= day < YearStart(year + 1)
  {
    var k := if day >= 0 then 0 else -day;
    EarlyYearStart(k);
    YearFrom(day, 1970 - k)
  }

  lemma {:induction false} YearStartsGrow(x: int, y: int)
    requires x <= y
    ensures YearStart(x) <= YearStart(y)
    decreases y - x
  {
    if x < y {
      NextYear(y - 1);
      YearStartsGrow(x, y - 1);
    }
  }

  lemma YearIsUnique(day: int, y: int)
    requires YearStart(y) <= day < YearStart(y + 1)
    ensures YearOf(day) == y
  {
    var year := YearOf(day);
    if year < y {
      YearStartsGrow(year + 1, y);
    } else if y < year {
      YearStartsGrow(y + 1, year);
    }
  }

  lemma YearsInOrder(day: int, later: int)
    requires day <= later
    ensures YearOf(day) <= YearOf(later)
  {
    if YearOf(later) < YearOf(day) {
      YearStartsGrow(YearOf(later) + 1, YearOf(day));
    }
  }

  // ---------------------------------------------------------------- broken-down time

  /** The fields of std::tm that are used; the year counts from 1900. */
  datatype Tm = Tm(year: int, yday: nat, hour: nat, min: nat, sec: nat)

  function DayOf(t: int): int {
    t / SECONDS_PER_DAY
  }

  /** gmtime of a number of seconds since the epoch. */
  function BrokenDown(t: int): (tm: Tm)
    ensures tm.yday < 366 && tm.hour < 24 && tm.min < 60 && tm.sec < 60
  {
    var d, s := DayOf(t), t % SECONDS_PER_DAY;
    NextYear(YearOf(d));
    Tm(YearOf(d) - 1900, d - YearStart(YearOf(d)), s / 3600, s / 60 % 60, s % 60)
  }

  function ClockSeconds(tm: Tm): nat {
    tm.hour * 3600 + tm.min * 60 + tm.sec
  }

  lemma HoursMinutesSeconds(s: nat)
    ensures s / 3600 * 3600 + s / 60 % 60 * 60 + s % 60 == s
  {
    assert s == s / 60 * 60 + s % 60 && s / 60 == s / 3600 * 60 + s / 60 % 60;
  }

  lemma ClockSecondsOf(t: int)
    ensures ClockSeconds(BrokenDown(t)) == t % SECONDS_PER_DAY == t - DayOf(t) * SECONDS_PER_DAY
  {
    HoursMinutesSeconds(t % SECONDS_PER_DAY);
  }

  /** A broken-down time denotes the time it was made from, and no other. */
  lemma BrokenDownIsExact(t: int)
    ensures var tm := BrokenDown(t);
      (YearStart(tm.year + 1900) + tm.yday) * SECONDS_PER_DAY + ClockSeconds(tm) == t
  {
    ClockSecondsOf(t);
  }

  lemma DateIsUnique(t: int, tm: Tm)
    requires tm.yday < YearLength(tm.year + 1900) && tm.hour < 24 && tm.min < 60 && tm.sec < 60
    requires (YearStart(tm.year + 1900) + tm.yday) * SECONDS_PER_DAY + ClockSeconds(tm) == t
    ensures BrokenDown(t) == tm
  {
    NextYear(tm.year + 1900);
    var s := ClockSeconds(tm);
    DayAndRest(t, YearStart(tm.year + 1900) + tm.yday, s);
    YearIsUnique(DayOf(t), tm.year + 1900);
    HourMinuteSecond(tm.hour, tm.min, tm.sec);
  }

  lemma DayAndRest(t: int, day: int, rest: nat)
    requires t == day * SECONDS_PER_DAY + rest && rest < SECONDS_PER_DAY
    ensures DayOf(t) == day && t % SECONDS_PER_DAY == rest
  {
  }

  lemma HourMinuteSecond(h: nat, m: nat, s: nat)
    requires h < 24 && m < 60 && s < 60
    ensures var n := h * 3600 + m * 60 + s; n < SECONDS_PER_DAY && n / 3600 == h && n / 60 % 60 == m && n % 60 == s
  {
    var n := h * 3600 + m * 60 + s;
    assert n / 60 == h * 60 + m;
  }

  // ---------------------------------------------------------------- the offset

  /** The difference in days as it is computed from the years and the days of the year. */
  function DayDifference(local: Tm, utc: Tm): int {
    if local.year != utc.year then (if local.year > utc.year then 1 else -1) else local.yday - utc.yday
  }

  function OffsetNs(local: Tm, utc: Tm): int {
    NS_PER_SECOND
    * (DayDifference(local, utc) * 86400 + (local.hour - utc.hour) * 3600 + (local.min - utc.min) * 60
       + (local.sec - utc.sec))
  }

  lemma OffsetOfDates(t: int, offset: int)
    ensures var local, utc := BrokenDown(t + offset), BrokenDown(t);
      OffsetNs(local, utc) == NS_PER_SECOND
        * (offset + (DayDifference(local, utc) - (DayOf(t + offset) - DayOf(t))) * SECONDS_PER_DAY)
  {
    ClockSecondsOf(t);
    ClockSecondsOf(t + offset);
    OffsetByClock(BrokenDown(t + offset), BrokenDown(t));
  }

  lemma OffsetByClock(local: Tm, utc: Tm)
    ensures OffsetNs(local, utc)
            == NS_PER_SECOND
               * (DayDifference(local, utc) * SECONDS_PER_DAY + ClockSeconds(local) - ClockSeconds(utc))
  {
  }

  /** The computed day difference is right exactly if both dates lie in the same year or on adjacent days. */
  lemma DayDifferenceIsExact(t: int, offset: int)
    ensures DayDifference(BrokenDown(t + offset), BrokenDown(t)) == DayOf(t + offset) - DayOf(t)
       <==> SameYearOrAdjacent(t, offset)
  {
    DayDifferenceOfDays(DayOf(t), DayOf(t + offset));
    DateOfDay(t);
    DateOfDay(t + offset);
  }

  lemma DateOfDay(t: int)
    ensures var d := DayOf(t);
      BrokenDown(t).year == YearOf(d) - 1900 && BrokenDown(t).yday == d - YearStart(YearOf(d))
  {
  }

  lemma DayDifferenceOfDays(utc: int, local: int)
    ensures var x, y := YearOf(utc), YearOf(local);
      (if x != y then (if y > x then 1 else -1) else (local - YearStart(y)) - (utc - YearStart(x))) == local - utc
      <==> x == y || -1 <= local - utc <= 1
  {
    if utc <= local {
      YearsInOrder(utc, local);
    } else {
      YearsInOrder(local, utc);
    }
  }

  predicate SameYearOrAdjacent(t: int, offset: int) {
    YearOf(DayOf(t + offset)) == YearOf(DayOf(t)) || -1 <= DayOf(t + offset) - DayOf(t) <= 1
  }

  /** The formula returns the true offset exactly if both dates lie in the same year or on adjacent days. */
  lemma OffsetIsExact(t: int, offset: int)
    ensures OffsetNs(BrokenDown(t + offset), BrokenDown(t)) == offset * NS_PER_SECOND
       <==> SameYearOrAdjacent(t, offset)
  {
    OffsetOfDates(t, offset);
    DayDifferenceIsExact(t, offset);
  }

  lemma SmallOffset(t: int, offset: int)
    ensures -SECONDS_PER_DAY < offset < SECONDS_PER_DAY ==> SameYearOrAdjacent(t, offset)
  {
  }

  /** So it is exact for every offset under a day, across year ends too, and fits 64 bits. */
  lemma EveryRealOffsetIsExact(t: int, offset: int)
    requires -SECONDS_PER_DAY < offset < SECONDS_PER_DAY
    ensures OffsetNs(BrokenDown(t + offset), BrokenDown(t)) == offset * NS_PER_SECOND
    ensures -INT64_MAX <= OffsetNs(BrokenDown(t + offset), BrokenDown(t)) <= INT64_MAX
  {
    OffsetIsExact(t, offset);
    SmallOffset(t, offset);
  }

  class Clock {
    var utcOffsetNs: int

    constructor ()
      ensures utcOffsetNs == 0
    {
      utcOffsetNs := 0;
    }

    /** recalculate_utc_offset at time t, where local time is the given number of seconds ahead of UTC. */
    method RecalculateUtcOffset(t: int, offset: int)
      modifies this
      ensures utcOffsetNs == offset * NS_PER_SECOND <==> SameYearOrAdjacent(t, offset)
      ensures -SECONDS_PER_DAY < offset < SECONDS_PER_DAY ==> utcOffsetNs == offset * NS_PER_SECOND
      ensures utcOffsetNs == OffsetNs(BrokenDown(t + offset), BrokenDown(t))
    {
      var local, utc := BrokenDown(t + offset), BrokenDown(t);
      var dayDiff;
      if local.year != utc.year {
        dayDiff := if local.year > utc.year then 1 else -1;
      } else {
        dayDiff := local.yday - utc.yday;
      }
      assert dayDiff == DayDifference(local, utc);
      utcOffsetNs := NS_PER_SECOND
        * (dayDiff * 86400 + (local.hour - utc.hour) * 3600 + (local.min - utc.min) * 60 + (local.sec - utc.sec));
      OffsetIsExact(t, offset);
      SmallOffset(t, offset);
    }
  }
}
