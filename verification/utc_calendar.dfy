/**
 * The UTC calendar reading of an instant, as `Date.prototype.getUTCFullYear`,
 * `getUTCMonth` and `getUTCDate` give it: instants are integer milliseconds
 * since 1970-01-01T00:00Z, the day number is the floor of the instant divided
 * by the length of a day, and the date is that day's place in the proleptic
 * Gregorian calendar (section 21.4.1 of ECMA-262). The conversion counts in
 * 400-year eras starting on 1 March, so that the leap day ends each year.
 */
module UtcCalendar {
  const DayMs: int := 86400000

  /** The UTC day of an instant; `UtcDay(t) * DayMs` is `setUTCHours(0, 0, 0, 0)` applied to `t`. */
  function UtcDay(t: int): (d: int)
    ensures d * DayMs <= t < (d + 1) * DayMs
  {
    t / DayMs
  }

  /** Year, month 1..12 and day of month 1..31. */
  datatype CivilDate = CivilDate(year: int, month: int, day: int)

  /** Days from 1 March of year 0 of a 400-year era to 1 March of year `yoe`. */
  function DaysBeforeYear(yoe: int): int
  {
    365 * yoe + yoe / 4 - yoe / 100
  }

  /** Day of a March-based year on which day `d` of month `m` falls. */
  function DayOfYear(m: int, d: int): int
  {
    (153 * ((m + 9) % 12) + 2) / 5 + d - 1
  }

  datatype YearSplit = YearSplit(yoe: int, doy: int)

  function SplitEra(doe: int): (r: YearSplit)
    requires 0 <= doe < 146097
    ensures 0 <= r.yoe < 400 && 0 <= r.doy <= 365
    ensures DaysBeforeYear(r.yoe) + r.doy == doe
  {
    var c := if doe / 36524 < 3 then doe / 36524 else 3;
    var doc := doe - 36524 * c;
    var q := doc / 1461;
    var doq := doc - 1461 * q;
    var y := if doq / 365 < 3 then doq / 365 else 3;
    var yoe := 100 * c + 4 * q + y;
    assert yoe / 4 == 25 * c + q;
    assert yoe / 100 == c;
    YearSplit(yoe, doq - 365 * y)
  }

  datatype MonthDay = MonthDay(month: int, day: int)

  function SplitYear(doy: int): (r: MonthDay)
    requires 0 <= doy <= 365
    ensures 1 <= r.month <= 12 && 1 <= r.day <= 31
    ensures DayOfYear(r.month, r.day) == doy
  {
    var mp := (5 * doy + 2) / 153;
    var m := if mp < 10 then mp + 3 else mp - 9;
    assert (m + 9) % 12 == mp;
    MonthDay(m, doy - (153 * mp + 2) / 5 + 1)
  }

  datatype EraSplit = EraSplit(era: int, doe: int)

  /** Splits a day number, counted from 1 March of year 0, into a 400-year era and a day within it. */
  function SplitDays(z: int): (r: EraSplit)
    ensures 0 <= r.doe < 146097 && z + 719468 == r.era * 146097 + r.doe
  {
    EraSplit((z + 719468) / 146097, (z + 719468) % 146097)
  }

  function CivilFromDays(z: int): (c: CivilDate)
    ensures 1 <= c.month <= 12 && 1 <= c.day <= 31
  {
    var e := SplitDays(z);
    var sp := SplitEra(e.doe);
    var md := SplitYear(sp.doy);
    CivilDate(sp.yoe + e.era * 400 + (if md.month <= 2 then 1 else 0), md.month, md.day)
  }

  function DaysFromCivil(c: CivilDate): int
  {
    var y := c.year - (if c.month <= 2 then 1 else 0);
    var era := y / 400;
    era * 146097 + DaysBeforeYear(y - era * 400) + DayOfYear(c.month, c.day) - 719468
  }

  lemma DaysFromCivilOfSplit(year: int, era: int, yoe: int, month: int, day: int)
    requires 0 <= yoe < 400 && year == yoe + era * 400 + (if month <= 2 then 1 else 0)
    ensures DaysFromCivil(CivilDate(year, month, day))
      == era * 146097 + DaysBeforeYear(yoe) + DayOfYear(month, day) - 719468
  {
    var y := year - (if month <= 2 then 1 else 0);
    assert y / 400 == era;
  }

  lemma DaysFromCivilOfParts(z: int, era: int, doe: int, yoe: int, doy: int, month: int, day: int)
    requires z + 719468 == era * 146097 + doe
    requires 0 <= yoe < 400 && DaysBeforeYear(yoe) + doy == doe && DayOfYear(month, day) == doy
    ensures DaysFromCivil(CivilDate(yoe + era * 400 + (if month <= 2 then 1 else 0), month, day)) == z
  {
    DaysFromCivilOfSplit(yoe + era * 400 + (if month <= 2 then 1 else 0), era, yoe, month, day);
  }

  /** Reading the calendar date of a day number and counting its days back gives the day number. */
  lemma RoundTrip(z: int)
    ensures DaysFromCivil(CivilFromDays(z)) == z
  {
    var e := SplitDays(z);
    var sp := SplitEra(e.doe);
    var md := SplitYear(sp.doy);
    assert CivilFromDays(z) == CivilDate(sp.yoe + e.era * 400 + (if md.month <= 2 then 1 else 0), md.month, md.day);
    DaysFromCivilOfParts(z, e.era, e.doe, sp.yoe, sp.doy, md.month, md.day);
  }

  /** Two day numbers have the same calendar date exactly when they are the same day. */
  lemma CivilFromDaysInjective(x: int, y: int)
    ensures CivilFromDays(x) == CivilFromDays(y) <==> x == y
  {
    if CivilFromDays(x) == CivilFromDays(y) {
      RoundTrip(x);
      RoundTrip(y);
    }
  }

  /**
   * `isSameUTCDate`: the two instants have the same UTC year, month and day
   * of month, which is exactly when they fall on the same UTC day.
   */
  function IsSameUtcDate(a: int, b: int): (same: bool)
    ensures same <==> UtcDay(a) == UtcDay(b)
  {
    CivilFromDaysInjective(UtcDay(a), UtcDay(b));
    CivilFromDays(UtcDay(a)) == CivilFromDays(UtcDay(b))
  }
}
