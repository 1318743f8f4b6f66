/** The small part of the chrono crate the collector relies on: a clock time
    (`NaiveTime`), a UTC date-time at second granularity, its ordering and
    the proleptic Gregorian validity rules. */
module Calendar {

  /** A clock time: hour, minute, second and a sub-second fraction in
      nanoseconds.  Leap-second fractions (nano >= 10^9) are not modelled. */
  datatype TimeOfDay = TimeOfDay(hour: nat, minute: nat, second: nat, nano: nat) {

    predicate Valid() {
      hour < 24 && minute < 60 && second < 60 && nano < 1_000_000_000
    }

    /** Whole seconds elapsed since midnight. */
    function SecondsFromMidnight(): nat {
      hour * 3600 + minute * 60 + second
    }
  }

  /** chrono orders clock times by whole seconds since midnight, then by fraction. */
  predicate Before(a: TimeOfDay, b: TimeOfDay) {
    a.SecondsFromMidnight() < b.SecondsFromMidnight()
    || (a.SecondsFromMidnight() == b.SecondsFromMidnight() && a.nano < b.nano)
  }

  predicate IsLeapYear(year: int) {
    year % 4 == 0 && (year % 100 != 0 || year % 400 == 0)
  }

  function DaysInMonth(year: int, month: nat): (days: nat)
    requires 1 <= month <= 12
    ensures 28 <= days <= 31
    ensures days == 29 <==> month == 2 && IsLeapYear(year)
  {
    if month == 2 then (if IsLeapYear(year) then 29 else 28)
    else if month == 4 || month == 6 || month == 9 || month == 11 then 30
    else 31
  }

  /** An instant in UTC, kept as its calendar fields (no time-zone offset). */
  datatype DateTime = DateTime(year: int, month: nat, day: nat, hour: nat, minute: nat, second: nat) {

    predicate Valid() {
      1 <= month <= 12 && 1 <= day <= DaysInMonth(year, month)
      && hour < 24 && minute < 60 && second < 60
    }

    /** chrono's `DateTime::time()`: the clock time of the instant. */
    function Time(): (t: TimeOfDay)
      ensures Valid() ==> t.Valid()
      ensures t.SecondsFromMidnight() == hour * 3600 + minute * 60 + second
    {
      TimeOfDay(hour, minute, second, 0)
    }
  }

  /** The Gregorian rules a parsed date must meet: the leap day exists in
      years divisible by 4, except centuries not divisible by 400. */
  lemma DateTimeValidity()
    ensures DateTime(2024, 2, 29, 0, 0, 0).Valid() && DateTime(2000, 2, 29, 0, 0, 0).Valid()
    ensures !DateTime(2023, 2, 29, 0, 0, 0).Valid() && !DateTime(1900, 2, 29, 0, 0, 0).Valid()
    ensures !DateTime(2024, 4, 31, 0, 0, 0).Valid() && !DateTime(2024, 13, 1, 0, 0, 0).Valid()
    ensures DateTime(2024, 12, 31, 23, 59, 59).Valid() && !DateTime(2024, 12, 31, 24, 0, 0).Valid()
  {
  }
}
