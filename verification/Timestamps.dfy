/** exFAT timestamps: Unix time to the packed date, time, centiseconds and timezone fields
    and back, in a calendar where every fourth year is a leap year. */
module Timestamps {
  import opened Arithmetic

  const SEC_IN_MIN := 60
  const SEC_IN_HOUR := 3600
  const SEC_IN_DAY := 86400
  const EPOCH_YEAR := 1980
  const EPOCH_DIFF_SEC := 3652 * SEC_IN_DAY
  const QUARTER := 900

  /** Leap years from 1980 up to, and not counting, year number `year`. */
  function LeapYears(year: nat): nat {
    (EPOCH_YEAR + year - 1) / 4 - (EPOCH_YEAR - 1) / 4
  }

  predicate IsLeap(year: nat) {
    (EPOCH_YEAR + year) % 4 == 0
  }

  /** Days of a common year before each month, counting months from 1. */
  const DAYS_IN_YEAR: seq<nat> := [0, 0, 31, 59, 90, 120, 151, 181, 212, 243, 273, 304, 334]

  // ----- Calendar -----

  function YearStart(year: nat): nat {
    year * 365 + LeapYears(year)
  }

  function MonthStart(month: nat, leap: bool): nat
    requires 1 <= month <= 13
  {
    (if month == 13 then 365 else DAYS_IN_YEAR[month]) + if leap && month >= 3 then 1 else 0
  }

  /** The year of a day number is found by one division. */
  lemma YearOfDay(days: nat)
    ensures var year := 4 * days / 1461; YearStart(year) <= days < YearStart(year + 1)
    ensures var year := 4 * days / 1461; YearStart(year + 1) == YearStart(year) + if IsLeap(year) then 366 else 365
  {
  }

  lemma YearsRise(a: nat, b: nat)
    requires a <= b
    ensures YearStart(a) <= YearStart(b)
  {
  }

  /** The month of a day of the year, found by searching from January. */
  method FindMonth(day: nat, leap: bool) returns (month: nat, left: nat)
    requires day < if leap then 366 else 365
    ensures 1 <= month <= 12 && MonthStart(month, leap) <= day < MonthStart(month + 1, leap)
    ensures left == day - MonthStart(month, leap) && left < 31
  {
    var i := 1;
    while i <= 12
      invariant 1 <= i <= 12 && MonthStart(i, leap) <= day
    {
      var leapDay := if leap && i == 2 then 1 else 0;
      var leapSub := if leap && i >= 3 then 1 else 0;
      if i == 12 || day - leapSub < DAYS_IN_YEAR[i + 1] + leapDay {
        MonthLength(i, leap);
        return i, day - (DAYS_IN_YEAR[i] + leapSub);
      }
      i := i + 1;
    }
  }

  lemma MonthLength(i: nat, leap: bool)
    requires 1 <= i <= 12
    ensures MonthStart(i, leap) < MonthStart(i + 1, leap) <= MonthStart(i, leap) + 31
  {
  }

  // ----- The stored fields -----

  datatype Stamp = Stamp(date: nat, time: nat, centisec: nat, tzoffset: nat)

  /** A seven-bit two's complement number. */
  function Signed7(x: int): int {
    (x + 64) % 128 - 64
  }

  /** Division that rounds towards zero. */
  function Truncated(a: int, b: int): int
    requires b > 0
  {
    if a < 0 then -(-a / b) else a / b
  }

  function ExfatToUnix(s: Stamp, timezone: int): int {
    var day, month, year := s.date % 32, s.date / 32 % 16, s.date / 512;
    var twosec, min, hour := s.time % 32, s.time / 32 % 64, s.time / 2048;
    if day == 0 || month == 0 || month > 12 then 0
    else if hour > 23 || min > 59 || twosec > 29 then 0
    else if s.centisec > 199 then 0
    else
      var days := YearStart(year) + MonthStart(month, IsLeap(year)) + day - 1;
      var seconds := hour * SEC_IN_HOUR + min * SEC_IN_MIN + twosec * 2 + s.centisec / 100;
      var t := EPOCH_DIFF_SEC + days * SEC_IN_DAY + seconds;
      if s.tzoffset >= 0x80 then t - Signed7(s.tzoffset % 0x80) * QUARTER else t + timezone
  }

  lemma SecondsOfDay(s: nat)
    requires s < SEC_IN_DAY
    ensures s / SEC_IN_HOUR <= 23 && s % SEC_IN_HOUR / SEC_IN_MIN <= 59 && s % SEC_IN_MIN / 2 <= 29
    ensures s == s / SEC_IN_HOUR * SEC_IN_HOUR + s % SEC_IN_HOUR / SEC_IN_MIN * SEC_IN_MIN
                 + s % SEC_IN_MIN / 2 * 2 + s % 2
  {
    var h, r := s / SEC_IN_HOUR, s % SEC_IN_HOUR;
    var m, e := r / SEC_IN_MIN, r % SEC_IN_MIN;
    assert s == h * SEC_IN_HOUR + r && r == m * SEC_IN_MIN + e;
    SameRemainder(s, 60 * h, SEC_IN_MIN, r);
    SameRemainder(s, 1800 * h + 30 * m, 2, e);
  }

  /** Hours, minutes, pairs of seconds and the odd second of a day. */
  lemma TimeOfDay(u: nat)
    ensures u % SEC_IN_DAY / SEC_IN_HOUR <= 23 && u % SEC_IN_HOUR / SEC_IN_MIN <= 59 && u % SEC_IN_MIN / 2 <= 29
    ensures u == u / SEC_IN_DAY * SEC_IN_DAY + u % SEC_IN_DAY / SEC_IN_HOUR * SEC_IN_HOUR
                 + u % SEC_IN_HOUR / SEC_IN_MIN * SEC_IN_MIN + u % SEC_IN_MIN / 2 * 2 + u % 2
  {
    var s := u % SEC_IN_DAY;
    assert u == u / SEC_IN_DAY * SEC_IN_DAY + s;
    SameRemainder(u, 24 * (u / SEC_IN_DAY), SEC_IN_HOUR, s);
    SameRemainder(u, 1440 * (u / SEC_IN_DAY), SEC_IN_MIN, s);
    SameRemainder(u, 43200 * (u / SEC_IN_DAY), 2, s);
    SecondsOfDay(s);
  }

  lemma DateUnpacks(day: nat, month: nat, year: nat)
    requires day < 32 && month < 16
    ensures var d := day + month * 32 + year * 512; d % 32 == day && d / 32 % 16 == month && d / 512 == year
  {
    var d := day + month * 32 + year * 512;
    Remainder(d, month + 16 * year, 32, day);
    Remainder(month + 16 * year, year, 16, month);
    Remainder(d, year, 512, day + month * 32);
  }

  lemma TimeUnpacks(twosec: nat, min: nat, hour: nat)
    requires twosec < 32 && min < 64
    ensures var t := twosec + min * 32 + hour * 2048; t % 32 == twosec && t / 32 % 64 == min && t / 2048 == hour
  {
    var t := twosec + min * 32 + hour * 2048;
    Remainder(t, min + 64 * hour, 32, twosec);
    Remainder(min + 64 * hour, hour, 64, min);
    Remainder(t, hour, 2048, twosec + min * 32);
  }

  /** The recorded offset is the timezone exactly for whole quarters of an hour in range. */
  lemma ZoneRecorded(timezone: int)
    ensures var tz := Truncated(Truncated(-timezone, 60), 15) % 0x80;
            Signed7(tz) * QUARTER == -timezone <==> ZoneFits(timezone)
  {
    hide Signed7, Truncated, ZoneFits;
    var q := Truncated(Truncated(-timezone, 60), 15);
    Quarters(timezone, q);
    SevenBits(q);
    InRange(timezone, q);
  }

  /** Rounding to minutes and then to quarters of an hour rounds to quarters. */
  lemma Quarters(timezone: int, q: int)
    requires q == Truncated(Truncated(-timezone, 60), 15)
    ensures q * QUARTER == -timezone <==> timezone % QUARTER == 0
    ensures timezone % QUARTER == 0 ==> forall k: int | k * QUARTER == -timezone :: k == q
  {
    var a := if timezone > 0 then timezone else -timezone;
    Nested(a);
    NegativeMultiple(a);
    assert q == if timezone > 0 then -(a / QUARTER) else a / QUARTER;
    assert a == a / QUARTER * QUARTER + a % QUARTER;
  }

  lemma NegativeMultiple(a: int)
    ensures -a % QUARTER == 0 <==> a % QUARTER == 0
  {
    var x, r := -a / QUARTER, -a % QUARTER;
    var y, s := a / QUARTER, a % QUARTER;
    assert -a == x * QUARTER + r && a == y * QUARTER + s;
    assert (x + y) * QUARTER + r + s == 0;
  }

  lemma Nested(a: nat)
    ensures a / 60 / 15 == a / QUARTER
  {
    var h, r := a / QUARTER, a % QUARTER;
    Remainder(a, 15 * h + r / 60, 60, r % 60);
    Remainder(15 * h + r / 60, h, 15, r / 60);
  }

  lemma SevenBits(q: int)
    ensures -64 <= Signed7(q % 0x80) <= 63 && (Signed7(q % 0x80) == q <==> -64 <= q <= 63)
    ensures (Signed7(q % 0x80) - q) % 0x80 == 0
  {
  }

  lemma InRange(timezone: int, q: int)
    requires q * QUARTER == -timezone <==> timezone % QUARTER == 0
    requires timezone % QUARTER == 0 ==> forall k: int | k * QUARTER == -timezone :: k == q
    requires Signed7(q % 0x80) == q <==> -64 <= q <= 63
    ensures Signed7(q % 0x80) * QUARTER == -timezone <==> ZoneFits(timezone)
  {
    hide Signed7;
    var z := Signed7(q % 0x80);
    if z * QUARTER == -timezone {
      assert timezone == -z * QUARTER;
      assert timezone % QUARTER == 0;
    }
  }

  function Packed(day: nat, month: nat, year: nat, twosec: nat, min: nat, hour: nat, odd: nat, tz: nat): Stamp {
    Stamp(day + month * 32 + year * 512, twosec + min * 32 + hour * 2048, odd * 100, tz + 0x80)
  }

  /** Fields in range read back as the second they stand for. */
  lemma Reads(day: nat, month: nat, year: nat, twosec: nat, min: nat, hour: nat, odd: nat, tz: nat)
    requires 1 <= day <= 31 && 1 <= month <= 12 && year < 128 && hour <= 23 && min <= 59 && twosec <= 29
             && odd <= 1 && tz < 0x80
    ensures var s := Packed(day, month, year, twosec, min, hour, odd, tz);
            && s.date < 0x1_0000 && s.time < 0x1_0000 && s.centisec <= 199 && 0x80 <= s.tzoffset < 0x100
            && s.date % 32 == day && s.date / 32 % 16 == month && s.date / 512 == year
            && s.time % 32 == twosec && s.time / 32 % 64 == min && s.time / 2048 == hour
            && forall zone: int ::
                 ExfatToUnix(s, zone) ==
                   EPOCH_DIFF_SEC + (YearStart(year) + MonthStart(month, IsLeap(year)) + day - 1) * SEC_IN_DAY
                   + hour * SEC_IN_HOUR + min * SEC_IN_MIN + twosec * 2 + odd - Signed7(tz) * QUARTER
  {
    hide YearStart, MonthStart, IsLeap, Signed7;
    DateUnpacks(day, month, year);
    TimeUnpacks(twosec, min, hour);
    assert odd * 100 / 100 == odd;
    assert (tz + 0x80) % 0x80 == tz;
  }

  /** The first second that needs more than seven bits for its year: day 0 of year 128. */
  const LIMIT := 46752 * SEC_IN_DAY

  predicate ZoneFits(timezone: int) {
    timezone % QUARTER == 0 && -63 * QUARTER <= timezone <= 64 * QUARTER
  }

  /** The first second whose year does not fit into sixteen bits: day 0 of year 65536. */
  const LIMIT16 := 23937024 * SEC_IN_DAY

  /** The later of a time and the first one that can be stored. */
  function Clamped(unixTime: int, timezone: int): int {
    if unixTime < EPOCH_DIFF_SEC + timezone then EPOCH_DIFF_SEC + timezone else unixTime
  }

  /** Stores a time. Up to the year 2107 it reads back to the second exactly under a timezone of
      whole quarter hours in range; later it reads as an earlier time. */
  method UnixToExfat(unixTime: int, timezone: int) returns (s: Stamp)
    requires unixTime - EPOCH_DIFF_SEC - timezone < LIMIT16
    ensures s.date < 0x1_0000 && s.time < 0x1_0000 && s.centisec <= 199 && 0x80 <= s.tzoffset < 0x100
    ensures 1 <= s.date % 32 <= 31 && 1 <= s.date / 32 % 16 <= 12
    ensures s.time / 2048 <= 23 && s.time / 32 % 64 <= 59 && s.time % 32 <= 29
    ensures unixTime - EPOCH_DIFF_SEC - timezone < LIMIT ==>
              forall zone: int :: ExfatToUnix(s, zone) == Clamped(unixTime, timezone) <==> ZoneFits(timezone)
    ensures unixTime - EPOCH_DIFF_SEC - timezone >= LIMIT && -2 * SEC_IN_DAY <= timezone <= 2 * SEC_IN_DAY ==>
              forall zone: int :: ExfatToUnix(s, zone) < unixTime
  {
    hide ExfatToUnix, Truncated, Signed7, ZoneFits;
    var shift := EPOCH_DIFF_SEC + timezone;
    var u := unixTime;
    if u < shift {
      u := shift;
    }
    u := u - shift;
    var tz := Truncated(Truncated(-timezone, 60), 15) % 0x80;
    ghost var cycles;
    s, cycles := Encode(u, tz);
    ZoneRecorded(timezone);
    ZoneBound(tz);
  }

  /** The fields of a time in seconds since 1980; `cycles` times 128 years are lost. */
  method Encode(u: nat, tz: nat) returns (s: Stamp, ghost cycles: nat)
    requires u < LIMIT16 && tz < 0x80
    ensures s.date < 0x1_0000 && s.time < 0x1_0000 && s.centisec <= 199 && 0x80 <= s.tzoffset < 0x100
    ensures 1 <= s.date % 32 <= 31 && 1 <= s.date / 32 % 16 <= 12
    ensures s.time / 2048 <= 23 && s.time / 32 % 64 <= 59 && s.time % 32 <= 29
    ensures cycles == 0 <==> u < LIMIT
    ensures forall zone: int :: ExfatToUnix(s, zone) == EPOCH_DIFF_SEC + u - cycles * LIMIT - Signed7(tz) * QUARTER
  {
    hide ExfatToUnix, YearStart, MonthStart, IsLeap, LeapYears, Signed7, Packed;
    var days, hour, min, twosec, odd := TimeFields(u);
    var year, month, day := DateFields(days);
    YearWraps(year);
    cycles := year / 128;
    var short := year % 128;
    Reads(day, month, short, twosec, min, hour, odd, tz);
    DateWraps(day, month, year);
    PackedIs(day, month, short, twosec, min, hour, odd, tz);
    s := Stamp((day + month * 32 + year * 512) % 0x1_0000, twosec + min * 32 + hour * 2048, odd * 100, tz + 0x80);
    SameCycle(days, YearStart(short) + MonthStart(month, IsLeap(year)) + day - 1, cycles);
  }

  method TimeFields(u: nat) returns (days: nat, hour: nat, min: nat, twosec: nat, odd: nat)
    requires u < LIMIT16
    ensures hour <= 23 && min <= 59 && twosec <= 29 && odd <= 1
    ensures u == days * SEC_IN_DAY + hour * SEC_IN_HOUR + min * SEC_IN_MIN + twosec * 2 + odd
    ensures days * SEC_IN_DAY < LIMIT16 && (days * SEC_IN_DAY < LIMIT <==> u < LIMIT)
  {
    TimeOfDay(u);
    WholeDays(u);
    days := u / SEC_IN_DAY;
    hour, min, twosec := u % SEC_IN_DAY / SEC_IN_HOUR, u % SEC_IN_HOUR / SEC_IN_MIN, u % SEC_IN_MIN / 2;
    odd := u % 2;
  }

  method DateFields(days: nat) returns (year: nat, month: nat, day: nat)
    requires days * SEC_IN_DAY < LIMIT16
    ensures year < 0x1_0000 && 1 <= month <= 12 && 1 <= day <= 31
    ensures days == YearStart(year) + MonthStart(month, IsLeap(year)) + day - 1
    ensures year < 128 <==> days * SEC_IN_DAY < LIMIT
  {
    hide YearStart, MonthStart, IsLeap;
    year := 4 * days / 1461;
    YearOfDay(days);
    YearInRange(days, year);
    var left;
    month, left := FindMonth(days - YearStart(year), IsLeap(year));
    day := left + 1;
  }

  lemma SameCycle(days: nat, short: nat, cycles: nat)
    requires days == short + 46752 * cycles
    ensures days * SEC_IN_DAY == short * SEC_IN_DAY + cycles * LIMIT
  {
  }

  lemma WholeDays(u: nat)
    ensures u / SEC_IN_DAY * SEC_IN_DAY <= u < u / SEC_IN_DAY * SEC_IN_DAY + SEC_IN_DAY
    ensures u < LIMIT <==> u / SEC_IN_DAY * SEC_IN_DAY < LIMIT
    ensures u < LIMIT16 <==> u / SEC_IN_DAY * SEC_IN_DAY < LIMIT16
  {
  }

  lemma PackedIs(day: nat, month: nat, year: nat, twosec: nat, min: nat, hour: nat, odd: nat, tz: nat)
    ensures Packed(day, month, year, twosec, min, hour, odd, tz) ==
            Stamp(day + month * 32 + year * 512, twosec + min * 32 + hour * 2048, odd * 100, tz + 0x80)
  {
  }

  lemma ZoneBound(tz: nat)
    requires tz < 0x80
    ensures -64 <= Signed7(tz) <= 63
  {
  }

  /** The date field drops all but seven bits of the year. */
  lemma DateWraps(day: nat, month: nat, year: nat)
    requires day < 32 && month < 16
    ensures (day + month * 32 + year * 512) % 0x1_0000 == day + month * 32 + year % 128 * 512
  {
    Remainder(day + month * 32 + year * 512, year / 128, 0x1_0000, day + month * 32 + year % 128 * 512);
  }

  /** Every 128 years the calendar of the code repeats. */
  lemma YearWraps(year: nat)
    ensures IsLeap(year % 128) == IsLeap(year)
    ensures YearStart(year) == YearStart(year % 128) + 46752 * (year / 128)
  {
    var q, r := year / 128, year % 128;
    assert year == 128 * q + r;
    var a := EPOCH_YEAR + r - 1;
    Remainder(a + 4 * (32 * q), a / 4 + 32 * q, 4, a % 4);
    Remainder(a + 1 + 4 * (32 * q), (a + 1) / 4 + 32 * q, 4, (a + 1) % 4);
    assert LeapYears(year) == LeapYears(r) + 32 * q;
  }

  lemma YearInRange(days: nat, year: nat)
    requires YearStart(year) <= days < YearStart(year + 1) && days * SEC_IN_DAY < LIMIT16
    ensures year < 0x1_0000 && (year < 128 <==> days * SEC_IN_DAY < LIMIT)
  {
    assert YearStart(128) == 46752 && YearStart(0x1_0000) == 23937024;
    if year >= 0x1_0000 {
      YearsRise(0x1_0000, year);
    }
    if year >= 128 {
      YearsRise(128, year);
    } else {
      YearsRise(year + 1, 128);
    }
  }

  // ----- The Gregorian calendar -----

  predicate GregorianLeap(year: nat) {
    year % 4 == 0 && (year % 100 != 0 || year % 400 == 0)
  }

  /** Days from 1 January 1970 to 1 January of the year `1970 + years`. */
  function GregorianYear(years: nat): nat {
    if years == 0 then 0
    else GregorianYear(years - 1) + if GregorianLeap(1970 + years - 1) then 366 else 365
  }

  function GregorianMonth(month: nat): nat {
    if month == 2 then 28 else if month in {4, 6, 9, 11} then 30 else 31
  }

  /** Days of the year before a month. */
  function GregorianMonthStart(month: nat, leap: bool): nat
    requires month >= 1
  {
    if month == 1 then 0
    else GregorianMonthStart(month - 1, leap) + GregorianMonth(month - 1) + if leap && month == 3 then 1 else 0
  }

  /** The Unix time of a date and a time of day in the Gregorian calendar, at Greenwich. */
  function GregorianTime(year: nat, month: nat, day: nat, seconds: nat): nat
    requires year >= 1970 && month >= 1 && day >= 1
  {
    (GregorianYear(year - 1970) + GregorianMonthStart(month, GregorianLeap(year)) + day - 1) * SEC_IN_DAY + seconds
  }

  /** The code counts one day too many from 1 January 2101 on. */
  lemma {:induction false} YearsAgree(year: nat)
    requires year <= 128
    ensures GregorianYear(10 + year) + (if year > 120 then 1 else 0) == EPOCH_DIFF_SEC / SEC_IN_DAY + YearStart(year)
  {
    if year == 0 {
      assert GregorianYear(10) == 3652;
    } else {
      YearsAgree(year - 1);
      LeapsAgree(year - 1);
      assert YearStart(year) == YearStart(year - 1) + if IsLeap(year - 1) then 366 else 365;
    }
  }

  lemma LeapsAgree(year: nat)
    requires year < 128
    ensures GregorianLeap(EPOCH_YEAR + year) <==> IsLeap(year) && year != 120
  {
  }

  lemma {:induction false} MonthsAgree(month: nat, leap: bool)
    requires 1 <= month <= 12
    ensures GregorianMonthStart(month, leap) == MonthStart(month, leap)
  {
    if month > 1 {
      MonthsAgree(month - 1, leap);
    }
  }

  /** A stamp with fields in range reads as the time the Gregorian calendar gives its date if
      and only if the date is before 1 March 2100: the code takes 2100 for a leap year. */
  lemma GregorianIff(s: Stamp, timezone: int)
    requires s.date < 0x1_0000 && 1 <= s.date % 32 && 1 <= s.date / 32 % 16 <= 12
    requires s.time / 2048 <= 23 && s.time / 32 % 64 <= 59 && s.time % 32 <= 29 && s.centisec <= 199
    ensures var year, month, day := s.date / 512, s.date / 32 % 16, s.date % 32;
            var seconds := s.time / 2048 * SEC_IN_HOUR + s.time / 32 % 64 * SEC_IN_MIN
                           + s.time % 32 * 2 + s.centisec / 100;
            var zone := if s.tzoffset >= 0x80 then Signed7(s.tzoffset % 0x80) * QUARTER else -timezone;
            ExfatToUnix(s, timezone) == GregorianTime(EPOCH_YEAR + year, month, day, seconds) - zone
            <==> year < 120 || (year == 120 && month <= 2)
  {
    hide GregorianYear, GregorianMonthStart, GregorianLeap, YearStart, IsLeap, Signed7, MonthStart;
    var year, month := s.date / 512, s.date / 32 % 16;
    assert year < 128;
    YearsAgree(year);
    LeapsAgree(year);
    MonthsAgree(month, IsLeap(year));
    MonthsAgree(month, GregorianLeap(EPOCH_YEAR + year));
    LeapShifts(month);
    LeapAt120();
  }

  lemma LeapShifts(month: nat)
    requires 1 <= month <= 12
    ensures MonthStart(month, true) == MonthStart(month, false) + if month >= 3 then 1 else 0
  {
  }

  lemma LeapAt120()
    ensures IsLeap(120)
  {
  }

  /** The stamp of 1 March 2100, midnight, at Greenwich reads as one day later. */
  lemma MarchOf2100(timezone: int)
    ensures ExfatToUnix(Stamp(1 + 3 * 32 + 120 * 512, 0, 0, 0x80), timezone) ==
            GregorianTime(2100, 3, 1, 0) + SEC_IN_DAY
  {
    hide GregorianYear, GregorianMonthStart, GregorianLeap;
    YearsAgree(120);
    LeapsAgree(120);
    MonthsAgree(3, false);
  }
}
