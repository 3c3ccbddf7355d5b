/**
 The crash log's clock: seconds since the epoch to a UTC date and time, with one loop over years
 and one over months, against the "Seconds Since the Epoch" formula of POSIX.1-2017, Base
 Definitions, section 4.16.
 */
module CrashClock {

  datatype Utc = Utc(year: nat, month: nat, day: nat, hour: nat, min: nat, sec: nat)

  predicate IsLeap(year: nat) {
    (year % 4 == 0 && year % 100 != 0) || year % 400 == 0
  }

  function DaysInYear(year: nat): nat {
    if IsLeap(year) then 366 else 365
  }

  function MonthDays(year: nat): seq<nat> {
    [31, if IsLeap(year) then 29 else 28, 31, 30, 31, 30, 31, 31, 30, 31, 30, 31]
  }

  // Days of a year before its n-th month, counting months from zero.
  function DaysBeforeMonth(year: nat, n: nat): nat
    requires n <= 12
  {
    if n == 0 then 0 else DaysBeforeMonth(year, n - 1) + MonthDays(year)[n - 1]
  }

  /** A date of the Gregorian calendar from 1970 on, and a time of day without leap seconds. */
  predicate Valid(u: Utc) {
    && u.year >= 1970
    && 1 <= u.month <= 12
    && 1 <= u.day <= MonthDays(u.year)[u.month - 1]
    && u.hour < 24 && u.min < 60 && u.sec < 60
  }

  // The day of the year, from zero.
  function YearDay(u: Utc): nat
    requires 1 <= u.month <= 12 && u.day >= 1
  {
    DaysBeforeMonth(u.year, u.month - 1) + u.day - 1
  }

  /** The POSIX formula, with years counted from 1900. */
  function SecondsSinceEpoch(u: Utc): int
    requires Valid(u)
  {
    var tmYear := u.year - 1900;
    u.sec + u.min * 60 + u.hour * 3600 + YearDay(u) * 86400
    + (tmYear - 70) * 31536000 + ((tmYear - 69) / 4) * 86400
    - ((tmYear - 1) / 100) * 86400 + ((tmYear + 299) / 400) * 86400
  }

  // The days from the epoch to the first of a year, as the formula has them.
  function DaysBeforeYear(year: nat): int {
    var tmYear := year - 1900;
    (tmYear - 70) * 365 + (tmYear - 69) / 4 - (tmYear - 1) / 100 + (tmYear + 299) / 400
  }

  /** The closed form grows by one year's days from each year to the next. */
  lemma DaysBeforeNextYear(year: nat)
    requires year >= 1970
    ensures DaysBeforeYear(year + 1) == DaysBeforeYear(year) + DaysInYear(year)
  {
    FloorStep(year - 1900 - 69, 4);
    FloorStep(year - 1900 - 1, 100);
    FloorStep(year - 1900 + 299, 400);
  }

  // A quotient rises exactly when the dividend becomes a multiple.
  lemma FloorStep(x: nat, d: nat)
    requires d == 4 || d == 100 || d == 400
    ensures (x + 1) / d == x / d + if (x + 1) % d == 0 then 1 else 0
  {
  }

  lemma {:induction false} MonthsAddUp(year: nat, n: nat)
    requires n <= 12
    ensures DaysBeforeMonth(year, n)
            == [0, 31, 59, 90, 120, 151, 181, 212, 243, 273, 304, 334, 365][n] + if IsLeap(year) && n >= 2 then 1 else 0
  {
    if n > 0 {
      MonthsAddUp(year, n - 1);
    }
  }

  lemma {:induction false} MonthsAreOrdered(year: nat, m: nat, n: nat)
    requires m < n <= 12
    ensures DaysBeforeMonth(year, m) + MonthDays(year)[m] <= DaysBeforeMonth(year, n)
  {
    if m + 1 < n {
      MonthsAreOrdered(year, m, n - 1);
    }
  }

  lemma YearDayInYear(u: Utc)
    requires Valid(u)
    ensures YearDay(u) < DaysInYear(u.year)
  {
    MonthsAreOrdered(u.year, u.month - 1, 12);
    MonthsAddUp(u.year, 12);
  }

  lemma {:induction false} YearsAreOrdered(y: nat, z: nat)
    requires 1970 <= y < z
    ensures DaysBeforeYear(y) + DaysInYear(y) <= DaysBeforeYear(z)
    decreases z
  {
    DaysBeforeNextYear(z - 1);
    if y < z - 1 {
      YearsAreOrdered(y, z - 1);
    }
  }

  // The formula, split into whole days and the time of day.
  lemma SecondsAreDaysAndTime(u: Utc)
    requires Valid(u)
    ensures SecondsSinceEpoch(u)
            == (DaysBeforeYear(u.year) + YearDay(u)) * 86400 + (u.hour * 3600 + u.min * 60 + u.sec)
  {
  }

  /** Different dates and times have different seconds: the formula is injective on valid UTC. */
  lemma SecondsDetermineUtc(u: Utc, v: Utc)
    requires Valid(u) && Valid(v) && SecondsSinceEpoch(u) == SecondsSinceEpoch(v)
    ensures u == v
  {
    SecondsAreDaysAndTime(u);
    SecondsAreDaysAndTime(v);
    SplitIsUnique(DaysBeforeYear(u.year) + YearDay(u), u.hour * 3600 + u.min * 60 + u.sec,
                  DaysBeforeYear(v.year) + YearDay(v), v.hour * 3600 + v.min * 60 + v.sec);
    YearDayInYear(u);
    YearDayInYear(v);
    if u.year < v.year {
      YearsAreOrdered(u.year, v.year);
    } else if v.year < u.year {
      YearsAreOrdered(v.year, u.year);
    }
    if u.month < v.month {
      MonthsAreOrdered(u.year, u.month - 1, v.month - 1);
    } else if v.month < u.month {
      MonthsAreOrdered(u.year, v.month - 1, u.month - 1);
    }
  }

  lemma SplitIsUnique(d1: int, t1: nat, d2: int, t2: nat)
    requires t1 < 86400 && t2 < 86400 && d1 * 86400 + t1 == d2 * 86400 + t2
    ensures d1 == d2 && t1 == t2
  {
  }

  lemma TimeOfDay(epoch: nat)
    ensures var sec, min, hour := epoch % 60, (epoch / 60) % 60, (epoch / 3600) % 24;
            epoch == epoch / 86400 * 86400 + hour * 3600 + min * 60 + sec
  {
    assert epoch / 3600 == epoch / 60 / 60;
    assert epoch / 86400 == epoch / 60 / 60 / 24;
  }

  /** Every epoch second becomes the valid date and time whose POSIX seconds it is; by
      `SecondsDetermineUtc` there is no other, so converting back and forth changes nothing. */
  method EpochToUtc(epoch: nat) returns (u: Utc)
    ensures Valid(u)
    ensures SecondsSinceEpoch(u) == epoch
    ensures forall v :: Valid(v) && SecondsSinceEpoch(v) == epoch ==> v == u
  {
    var sec := epoch % 60;
    var min := (epoch / 60) % 60;
    var hour := (epoch / 3600) % 24;
    var days := epoch / 86400;
    TimeOfDay(epoch);

    var year := 1970;
    while days >= DaysInYear(year)
      invariant year >= 1970 && days >= 0
      invariant DaysBeforeYear(year) + days == epoch / 86400
      decreases days
    {
      DaysBeforeNextYear(year);
      days := days - DaysInYear(year);
      year := year + 1;
    }

    var monthDays := MonthDays(year);
    var month := 0;
    ghost var yearDay := days;
    MonthsAddUp(year, 12);
    for i := 0 to 12
      invariant month == 0 && days >= 0
      invariant DaysBeforeMonth(year, i) + days == yearDay
    {
      if days < monthDays[i] {
        month := i + 1;
        break;
      }
      days := days - monthDays[i];
    }

    u := Utc(year, month, days + 1, hour, min, sec);
    SecondsAreDaysAndTime(u);
    forall v | Valid(v) && SecondsSinceEpoch(v) == epoch
      ensures v == u
    {
      SecondsDetermineUtc(u, v);
    }
  }
}
