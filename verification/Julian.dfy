/** JULIAN: Julian days from Unix time and back, in exact arithmetic. */
module Julian {

  // ---------------------------------------------------------------- the calendar

  predicate IsLeap(y: int) { y % 4 == 0 && (y % 100 != 0 || y % 400 == 0) }

  function YearLength(y: int): (n: int) { if IsLeap(y) then 366 else 365 }

  /** The day, counted from 1 January 1970, on which a year of the Gregorian calendar begins. */
  function YearStart(y: int): int
    decreases if y >= 1970 then y - 1970 else 1970 - y
  {
    if y == 1970 then 0
    else if y > 1970 then YearStart(y - 1) + YearLength(y - 1)
    else YearStart(y + 1) - YearLength(y)
  }

  /** The leap days between the beginnings of 1970 and of a year. */
  function LeapDays(y: int): int { Steps(y, 1969, 4) - Steps(y, 1901, 100) + Steps(y, 1601, 400) }

  function Steps(y: int, from: int, m: int): int
    requires m > 0
  {
    (y - from) / m
  }

  lemma Carry(y: int, from: int, m: int)
    requires m > 0 && (from - 1) % m == 0
    ensures Steps(y + 1, from, m) == Steps(y, from, m) + if y % m == 0 then 1 else 0
  {
    var k := (from - 1) / m;
    var q, r := y / m, y % m;
    assert y == m * q + r && from - 1 == m * k;
    Distribute(m, q, k);
    DivIs(y + 1 - from, m, q - k, r);
    if r == 0 {
      Distribute(m, q - k, 1);
      DivIs(y - from, m, q - k - 1, m - 1);
    } else {
      DivIs(y - from, m, q - k, r - 1);
    }
  }

  lemma Distribute(m: int, q: int, k: int)
    ensures m * (q - k) == m * q - m * k
  {
  }

  lemma DivIs(a: int, m: int, q: int, r: int)
    requires m > 0 && 0 <= r < m && a == m * q + r
    ensures a / m == q
  {
    Unique(m, q, r, a / m, a % m);
  }

  lemma Unique(m: int, q: int, r: int, p: int, s: int)
    requires 0 <= r < m && 0 <= s < m && m * q + r == m * p + s
    ensures q == p
  {
    Distribute(m, q, p);
    if q > p {
      Scale(m, q - p);
    } else if p > q {
      Distribute(m, p, q);
      Scale(m, p - q);
    }
  }

  lemma Scale(m: int, d: int)
    requires m > 0 && d >= 1
    ensures m * d >= m
  {
  }

  lemma LeapStep(y: int)
    ensures LeapDays(y + 1) == LeapDays(y) + if IsLeap(y) then 1 else 0
  {
    hide Steps;
    Carry(y, 1969, 4);
    Carry(y, 1901, 100);
    Carry(y, 1601, 400);
    Multiples(y);
  }

  lemma Multiples(y: int)
    ensures y % 400 == 0 ==> y % 100 == 0
    ensures y % 100 == 0 ==> y % 4 == 0
  {
  }

  /** The formula of "Seconds Since the Epoch", section 4.16 of the POSIX.1-2017 Base Definitions,
      counts the same days, and does so for the years before 1970 too. */
  lemma {:induction false} PosixDays(y: int)
    ensures YearStart(y) == (y - 1970) * 365 + (y - 1969) / 4 - (y - 1901) / 100 + (y - 1601) / 400
    decreases if y >= 1970 then y - 1970 else 1970 - y
  {
    hide LeapDays, IsLeap;
    LeapDaysAre(y);
    if y > 1970 {
      PosixDays(y - 1);
      LeapDaysAre(y - 1);
      LeapStep(y - 1);
    } else if y < 1970 {
      PosixDays(y + 1);
      LeapDaysAre(y + 1);
      LeapStep(y);
    }
  }

  lemma LeapDaysAre(y: int)
    ensures LeapDays(y) == (y - 1969) / 4 - (y - 1901) / 100 + (y - 1601) / 400
  {
  }

  lemma NextYear(y: int)
    ensures YearStart(y + 1) == YearStart(y) + YearLength(y)
  {
  }

  /** A broken-down UTC time, its year counted from 1900. */
  datatype Tm = Tm(year: int, yday: int, hour: int, min: int, sec: int)

  predicate Valid(tm: Tm)
  {
    0 <= tm.yday < YearLength(tm.year + 1900) && 0 <= tm.hour < 24 && 0 <= tm.min < 60 && 0 <= tm.sec < 60
  }

  function SecondOfDay(tm: Tm): int { tm.hour * 3600 + tm.min * 60 + tm.sec }

  const DAY: int := 86400

  /** The time a broken-down time stands for. */
  function Seconds(tm: Tm): int
  {
    (YearStart(tm.year + 1900) + tm.yday) * DAY + SecondOfDay(tm)
  }

  /** The year of a day, looked for upwards and downwards from 1970. */
  function YearUp(day: int, y: int): (r: int)
    requires YearStart(y) <= day
    ensures YearStart(r) <= day < YearStart(r + 1)
    decreases day - YearStart(y)
  {
    NextYear(y);
    if day < YearStart(y + 1) then y else YearUp(day, y + 1)
  }

  function YearDown(day: int, y: int): (r: int)
    requires day < YearStart(y)
    ensures YearStart(r) <= day < YearStart(r + 1)
    decreases YearStart(y) - day
  {
    NextYear(y - 1);
    if YearStart(y - 1) <= day then y - 1 else YearDown(day, y - 1)
  }

  /** gmtime */
  function Gmtime(t: int): (tm: Tm)
    ensures Valid(tm) && Seconds(tm) == t
  {
    var day, s := t / DAY, t % DAY;
    var y := if day >= 0 then YearUp(day, 1970) else YearDown(day, 1970);
    NextYear(y);
    Tm(y - 1900, day - YearStart(y), s / 3600, s / 60 % 60, s % 60)
  }

  lemma {:induction false} YearsInOrder(a: int, b: int)
    requires a < b
    ensures YearStart(a + 1) <= YearStart(b)
    decreases b - a
  {
    if a + 1 < b {
      YearsInOrder(a, b - 1);
      NextYear(b - 1);
    }
  }

  /** There is only one broken-down time for a time. */
  lemma GmtimeUnique(a: Tm, b: Tm)
    requires Valid(a) && Valid(b) && Seconds(a) == Seconds(b)
    ensures a == b
  {
    var ya, yb := a.year + 1900, b.year + 1900;
    NextYear(ya);
    NextYear(yb);
    assert YearStart(ya) + a.yday == YearStart(yb) + b.yday;
    if ya < yb {
      YearsInOrder(ya, yb);
    } else if yb < ya {
      YearsInOrder(yb, ya);
    }
  }

  // ---------------------------------------------------------------- Julian days

  /** Division as C does it, towards zero. */
  function Quotient(a: int, b: int): int
    requires b > 0
  {
    if a >= 0 then a / b else -(-a / b)
  }

  /** JULIAN(time_t): a day begins at noon, so the time is moved back half a day first. */
  function FromUnix(t: int): real
  {
    var tm := Gmtime(t - 12 * 3600);
    (2450084 + tm.yday + Quotient(tm.year - 93, 4) + (tm.year - 96) * 365) as real
      + SecondOfDay(tm) as real / 86400.0
  }

  /** The Julian date of a Unix time. */
  function JulianDate(t: int): real { 2440587.5 + t as real / 86400.0 }

  /** The year JULIAN works with. */
  function NoonYear(t: int): int { Gmtime(t - 12 * 3600).year + 1900 }

  /** The days JULIAN is off in a year: its leap years are those of 1993 to 2100. */
  function Off(y: int): int
  {
    6 + Quotient(y - 1993, 4) - (YearStart(y) - (y - 1970) * 365)
  }

  lemma FromUnixOff(t: int)
    ensures FromUnix(t) == JulianDate(t) + Off(NoonYear(t)) as real
  {
  }

  /** The years in which JULIAN is right: those it was made for, and, by the luck of its division
      rounding towards zero, one year in four or three years in four of some before. */
  predicate Right(y: int)
  {
    1993 <= y <= 2100 || (1901 <= y < 1993 && y % 4 == 1) || (1801 <= y < 1901 && y % 4 != 1)
  }

  lemma OffExactly(y: int)
    ensures Off(y) == 0 <==> Right(y)
  {
    PosixDays(y);
    var century, cycle := (y - 1901) / 100, (y - 1601) / 400;
    assert Off(y) == 6 + Quotient(y - 1993, 4) - (y - 1969) / 4 + century - cycle;
    var q, r := (y - 1993) / 4, (y - 1993) % 4;
    assert (y - 1969) / 4 == q + 6;
    assert y - 1993 == 4 * q + r;
    assert Quotient(y - 1993, 4) == if y >= 1993 || r == 0 then q else q + 1;
  }

  /** For every time: the Julian date is exact exactly in the years above. */
  lemma FromUnixExact(t: int)
    ensures FromUnix(t) == JulianDate(t) <==> Right(NoonYear(t))
  {
    hide Right, Off, FromUnix, JulianDate, NoonYear;
    FromUnixOff(t);
    OffExactly(NoonYear(t));
  }

  /** For every two times: later is greater, but for the days lost between two years. */
  lemma Increasing(t: int, u: int)
    requires t < u
    ensures FromUnix(t) < FromUnix(u) <==> u - t > DAY * (Off(NoonYear(t)) - Off(NoonYear(u)))
    ensures Right(NoonYear(t)) && Right(NoonYear(u)) ==> FromUnix(t) < FromUnix(u)
  {
    hide Right, Off, FromUnix, NoonYear;
    FromUnixOff(t);
    FromUnixOff(u);
    OffExactly(NoonYear(t));
    OffExactly(NoonYear(u));
    assert JulianDate(u) - JulianDate(t) == (u - t) as real / 86400.0;
  }

  const REFERENCE_UNIX: int := 1028330419
  const REFERENCE_JD: real := 2452489.472442

  function Trunc(x: real): int { if x >= 0.0 then x.Floor else -((-x).Floor) }

  /** JULIAN::to_unix */
  function ToUnix(jd: real): int
  {
    REFERENCE_UNIX + Trunc((jd - REFERENCE_JD) * 86400.0)
  }

  /** The reference date is 0.0112 s before the reference time, which rounding towards zero makes
      up for only from the reference on: before it, to_unix is a second late. */
  lemma ToUnixOfDate(t: int)
    ensures ToUnix(JulianDate(t)) == if t >= REFERENCE_UNIX then t else t + 1
  {
  }

  /** Unix time to Julian day and back is the identity exactly from the reference on (August 2002)
      up to the end of 2100. */
  lemma RoundTrip(t: int)
    ensures ToUnix(FromUnix(t)) == t <==> t >= REFERENCE_UNIX && NoonYear(t) <= 2100
    ensures 1993 <= NoonYear(t) <= 2100 && t < REFERENCE_UNIX ==> ToUnix(FromUnix(t)) == t + 1
  {
    hide Off, FromUnix, NoonYear, ToUnix;
    FromUnixOff(t);
    var off := Off(NoonYear(t));
    assert JulianDate(t) + off as real == JulianDate(t + off * DAY);
    ToUnixOfDate(t + off * DAY);
    OffExactly(NoonYear(t));
    if t >= REFERENCE_UNIX {
      AfterReference(t);
    }
  }

  lemma AfterReference(t: int)
    requires t >= REFERENCE_UNIX
    ensures NoonYear(t) >= 2002
  {
    var tm := Gmtime(t - 12 * 3600);
    var y := tm.year + 1900;
    PosixDays(2002);
    NextYear(y);
    if y < 2002 {
      YearsInOrder(y, 2002);
    }
  }
}
