/** Civil-date arithmetic, and the year a two-digit one stands for. */
module CivilDate {
  import opened Bytes

  const DAY := 86400

  /** Division as the source language has it, towards zero. */
  function TruncDiv(a: int, b: int): int
    requires b > 0
  {
    if a >= 0 then a / b else -((-a) / b)
  }

  /** Seconds since 1970-01-01 00:00:00 UTC for a date and a time of day. */
  function DateToUnixTime(year: int, mon: int, day: int, tod: int): int {
    var y := year - (if mon <= 2 then 1 else 0);
    var era := TruncDiv(if y >= 0 then y else y - 399, 400);
    var yoe := y - era * 400;
    var doy := TruncDiv(153 * (mon + (if mon > 2 then -3 else 9)) + 2, 5) + day - 1;
    (era * 146097 + yoe * 365 + TruncDiv(yoe, 4) - TruncDiv(yoe, 100) + doy - 719468) * DAY + tod
  }

  // --- the Gregorian calendar -----------------------------------------------

  predicate Leap(y: int) {
    y % 4 == 0 && (y % 100 != 0 || y % 400 == 0)
  }

  function MonthDays(y: int, m: int): int
    requires 1 <= m <= 12
  {
    if m == 2 then (if Leap(y) then 29 else 28)
    else if m == 4 || m == 6 || m == 9 || m == 11 then 30
    else 31
  }

  datatype Date = Date(y: int, m: int, d: int) {
    predicate Valid() {
      1 <= m <= 12 && 1 <= d <= MonthDays(y, m)
    }

    function Next(): (n: Date)
      requires Valid()
      ensures n.Valid()
    {
      if d < MonthDays(y, m) then Date(y, m, d + 1)
      else if m < 12 then Date(y, m + 1, 1)
      else Date(y + 1, 1, 1)
    }

    predicate Before(o: Date) {
      y < o.y || (y == o.y && (m < o.m || (m == o.m && d < o.d)))
    }
  }

  // --- the formula, split at the start of the year in March -------------------

  /** Days before 1 March of year `y`, counted from 0000-03-01. */
  function MarchDays(y: int): int {
    365 * y + y / 4 - y / 100 + y / 400
  }

  /** Days from 1 March to the first of month `m`. */
  function MonthOffset(m: int): int {
    (153 * (m + (if m > 2 then -3 else 9)) + 2) / 5
  }

  function MarchYear(y: int, m: int): int { if m <= 2 then y - 1 else y }

  lemma FormulaSplits(y: int, m: int, d: int, tod: int)
    requires 1 <= m <= 12
    ensures DateToUnixTime(y, m, d, tod) == (MarchDays(MarchYear(y, m)) + MonthOffset(m) + d - 1 - 719468) * DAY + tod
  {
    var my := MarchYear(y, m);
    var era := my / 400;
    EraIsFloor(my);
    var yoe := my - era * 400;
    assert my / 4 == 100 * era + yoe / 4;
    assert my / 100 == 4 * era + yoe / 100;
  }

  lemma EraIsFloor(y: int)
    ensures TruncDiv(if y >= 0 then y else y - 399, 400) == y / 400
  {}

  /** A March year is 365 days long, and one more when its February is a leap one. */
  lemma MarchYearLength(y: int)
    ensures MarchDays(y + 1) == MarchDays(y) + if Leap(y + 1) then 366 else 365
  {
    Carry(y, 4);
    Carry(y, 100);
    Carry(y, 400);
    assert (y + 1) % 400 == 0 ==> (y + 1) % 100 == 0;
    assert (y + 1) % 100 == 0 ==> (y + 1) % 4 == 0;
  }

  lemma Carry(y: int, n: int)
    requires n in {4, 100, 400}
    ensures (y + 1) / n == y / n + if (y + 1) % n == 0 then 1 else 0
  {}

  lemma MonthOffsets(m: int)
    requires 1 <= m <= 12
    ensures m != 2 && m != 12 ==> MonthOffset(m + 1) == MonthOffset(m) + MonthDays(1, m)
    ensures MonthOffset(1) == MonthOffset(12) + 31
    ensures MonthOffset(2) == 337 && MonthOffset(3) == 0
  {}

  // --- main results about the formula ------------------------------------------

  /** It is 0 at the epoch. */
  lemma Epoch()
    ensures DateToUnixTime(1970, 1, 1, 0) == 0
  {}

  /** From each valid date to the next, in every year, it advances by exactly one day. */
  lemma AdvancesOneDay(t: Date, tod: int)
    requires t.Valid()
    ensures var n := t.Next(); DateToUnixTime(n.y, n.m, n.d, tod) == DateToUnixTime(t.y, t.m, t.d, tod) + DAY
  {
    hide DateToUnixTime, MarchDays;
    var n := t.Next();
    FormulaSplits(t.y, t.m, t.d, tod);
    FormulaSplits(n.y, n.m, n.d, tod);
    MonthOffsets(t.m);
    MarchYearLength(t.y - 1);
  }

  lemma {:induction false} MarchDaysGrow(y: int, z: int)
    requires y <= z
    ensures MarchDays(z) >= MarchDays(y) + 365 * (z - y)
    decreases z - y
  {
    hide MarchDays;
    if y < z {
      MarchYearLength(z - 1);
      MarchDaysGrow(y, z - 1);
    }
  }

  /** The same month, day and time of a later year is later, valid or not. */
  lemma LaterYear(y: int, z: int, mon: int, day: int, tod: int)
    requires 1 <= mon <= 12 && y < z
    ensures DateToUnixTime(z, mon, day, tod) >= DateToUnixTime(y, mon, day, tod) + 365 * (z - y) * DAY
  {
    hide DateToUnixTime, MarchDays;
    FormulaSplits(y, mon, day, tod);
    FormulaSplits(z, mon, day, tod);
    MarchDaysGrow(MarchYear(y, mon), MarchYear(z, mon));
  }

  /** Days of the March year from 1 March to a valid date. */
  lemma DayInMarchYear(t: Date)
    requires t.Valid()
    ensures var last := if Leap(MarchYear(t.y, t.m) + 1) then 366 else 365;
            0 <= MonthOffset(t.m) + t.d - 1 < last
  {}

  lemma SameMarchYear(a: Date, b: Date)
    requires a.Valid() && b.Valid() && a.Before(b) && MarchYear(a.y, a.m) == MarchYear(b.y, b.m)
    ensures MonthOffset(a.m) + a.d < MonthOffset(b.m) + b.d
  {}

  /** Over valid dates the formula is strictly monotone. */
  lemma StrictlyMonotone(a: Date, b: Date)
    requires a.Valid() && b.Valid() && a.Before(b)
    ensures DateToUnixTime(a.y, a.m, a.d, 0) + DAY <= DateToUnixTime(b.y, b.m, b.d, 0)
  {
    hide DateToUnixTime, MarchDays, MonthDays, MonthOffset;
    FormulaSplits(a.y, a.m, a.d, 0);
    FormulaSplits(b.y, b.m, b.d, 0);
    var ya, yb := MarchYear(a.y, a.m), MarchYear(b.y, b.m);
    if ya == yb {
      SameMarchYear(a, b);
    } else {
      DayInMarchYear(a);
      DayInMarchYear(b);
      MarchYearLength(ya);
      MarchDaysGrow(ya + 1, yb);
    }
  }

  /** Values are ordered as instants are: by date, and within a day by time. */
  lemma OrderIsTime(a: Date, s: int, b: Date, t: int)
    requires a.Valid() && b.Valid() && 0 <= s < DAY && 0 <= t < DAY
    ensures DateToUnixTime(a.y, a.m, a.d, s) < DateToUnixTime(b.y, b.m, b.d, t) <==> a.Before(b) || (a == b && s < t)
  {
    hide DateToUnixTime, MonthDays;
    TimeAdds(a, s);
    TimeAdds(b, t);
    if a.Before(b) {
      StrictlyMonotone(a, b);
    } else if b.Before(a) {
      StrictlyMonotone(b, a);
    }
  }

  lemma TimeAdds(a: Date, t: int)
    ensures DateToUnixTime(a.y, a.m, a.d, t) == DateToUnixTime(a.y, a.m, a.d, 0) + t
  {}

  // --- HTTP dates -----------------------------------------------------------------

  /** The fields of an HTTP-date; a two-digit year is not resolved yet. */
  datatype Fields = Fields(year: nat, mon: int, day: nat, tod: nat, twoDigit: bool) {
    /** What the digit counts and range checks of the text leave. */
    predicate Scanned() {
      1 <= mon <= 12 && day <= 99 && tod <= DAY && year <= (if twoDigit then 99 else 9999)
    }
  }

  /** 2026-01-01 00:00:00 UTC. */
  const CLOCK_FLOOR := 1767225600

  lemma FloorIs2026()
    ensures CLOCK_FLOOR == DateToUnixTime(2026, 1, 1, 0)
  {}

  /** Section 5.6.7 of RFC 9110: `year` lies within 50 years of `now`. */
  predicate InWindow(f: Fields, year: int, now: int) {
    && year % 100 == f.year
    && DateToUnixTime(year - 50, f.mon, f.day, f.tod) <= now < DateToUnixTime(year + 50, f.mon, f.day, f.tod)
  }

  /** At most one year is in the window. */
  lemma WindowIsUnique(f: Fields, y: int, z: int, now: int)
    requires f.Scanned() && InWindow(f, y, now) && InWindow(f, z, now)
    ensures y == z
  {
    hide DateToUnixTime;
    if y < z {
      assert (z - y) % 100 == 0;
      if y + 50 < z - 50 { LaterYear(y + 50, z - 50, f.mon, f.day, f.tod); }
    } else if z < y {
      assert (y - z) % 100 == 0;
      if z + 50 < y - 50 { LaterYear(z + 50, y - 50, f.mon, f.day, f.tod); }
    }
  }

  lemma BeforeFloor(f: Fields, year: int)
    requires f.Scanned() && year <= 1949
    ensures DateToUnixTime(year, f.mon, f.day, f.tod) < CLOCK_FLOOR
  {
    hide DateToUnixTime;
    FormulaSplits(year, f.mon, f.day, f.tod);
    MarchDaysGrow(MarchYear(year, f.mon), 1949);
  }

  /** The first year from `year` on, in steps of a century, that is less than 50 years old. */
  function YearFrom(f: Fields, year: int, now: int): int
    requires f.Scanned()
    decreases now - DateToUnixTime(year + 50, f.mon, f.day, f.tod)
  {
    if DateToUnixTime(year + 50, f.mon, f.day, f.tod) > now then year
    else
      LaterYear(year + 50, year + 150, f.mon, f.day, f.tod);
      YearFrom(f, year + 100, now)
  }

  function YearOf(f: Fields, now: int): int
    requires f.Scanned()
  {
    if f.twoDigit then YearFrom(f, 1900 + f.year, now) else f.year
  }

  lemma {:induction false} YearFromIs(f: Fields, year: int, now: int)
    requires f.Scanned() && f.twoDigit && year % 100 == f.year
    requires DateToUnixTime(year - 50, f.mon, f.day, f.tod) <= now
    ensures InWindow(f, YearFrom(f, year, now), now)
    decreases now - DateToUnixTime(year + 50, f.mon, f.day, f.tod)
  {
    hide DateToUnixTime;
    if DateToUnixTime(year + 50, f.mon, f.day, f.tod) <= now {
      LaterYear(year + 50, year + 150, f.mon, f.day, f.tod);
      YearFromIs(f, year + 100, now);
    }
  }

  /** With a set clock a two-digit year stands for the one in the window. */
  lemma YearIsInWindow(f: Fields, now: int)
    requires f.Scanned() && f.twoDigit && now >= CLOCK_FLOOR
    ensures InWindow(f, YearOf(f, now), now)
  {
    hide DateToUnixTime, YearFrom, InWindow;
    BeforeFloor(f, 1850 + f.year);
    YearFromIs(f, 1900 + f.year, now);
  }

  /** The loop that moves a two-digit year on until it is less than 50 years old. */
  method ResolveYear(f: Fields, now: int) returns (year: int)
    requires f.Scanned() && f.twoDigit
    ensures year == YearOf(f, now)
    ensures year >= 1900 && year % 100 == f.year && now < DateToUnixTime(year + 50, f.mon, f.day, f.tod)
    ensures year == 1900 + f.year || DateToUnixTime(year - 50, f.mon, f.day, f.tod) <= now
    ensures now >= CLOCK_FLOOR ==> InWindow(f, year, now)
  {
    hide DateToUnixTime;
    year := f.year + 1900;
    while DateToUnixTime(year + 50, f.mon, f.day, f.tod) <= now
      invariant year >= 1900 && year % 100 == f.year && YearFrom(f, year, now) == YearOf(f, now)
      invariant year == 1900 + f.year || DateToUnixTime(year - 50, f.mon, f.day, f.tod) <= now
      decreases now - DateToUnixTime(year + 50, f.mon, f.day, f.tod)
    {
      LaterYear(year + 50, year + 150, f.mon, f.day, f.tod);
      year := year + 100;
    }
    if year == 1900 + f.year {
      BeforeFloor(f, year - 50);
    }
  }

  /** The instant a scanned HTTP-date names, or None for a day its month does not have. */
  method Resolve(f: Fields, now: int) returns (when: Option<int>, ghost year: int)
    requires f.Scanned()
    ensures year == YearOf(f, now) && (!f.twoDigit ==> year == f.year)
    ensures f.twoDigit && now >= CLOCK_FLOOR ==> InWindow(f, year, now)
    ensures when == if Date(year, f.mon, f.day).Valid() then Some(DateToUnixTime(year, f.mon, f.day, f.tod)) else None
  {
    hide DateToUnixTime, YearFrom, InWindow;
    var y := f.year;
    if f.twoDigit {
      y := ResolveYear(f, now);
    }
    year := y;
    var mdays := [31, 29, 31, 30, 31, 30, 31, 31, 30, 31, 30, 31];
    if f.day < 1 || f.day > mdays[f.mon - 1] ||
       (f.mon == 2 && f.day == 29 && !((y % 4 == 0 && y % 100 != 0) || y % 400 == 0)) {
      return None, year;
    }
    return Some(DateToUnixTime(y, f.mon, f.day, f.tod)), year;
  }
}
