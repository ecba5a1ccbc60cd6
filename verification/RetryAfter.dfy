/** Retry-After: the date scanner step by step, and the wait it gives. */
module RetryAfter {
  import opened Bytes
  import opened CivilDate
  import opened HttpDate
  import opened Numerals

  const MAX_RETRY_AFTER := 86400

  function Clamp(delay: int): (r: nat)
    ensures r <= MAX_RETRY_AFTER
  {
    if delay <= 0 then 0 else if delay > MAX_RETRY_AFTER then MAX_RETRY_AFTER else delay
  }

  // --- the wait, as a function of the text and the clock ------------------------------------

  function DateWait(f: Fields, now: int): nat
    requires f.Scanned()
  {
    var y := YearOf(f, now);
    if Date(y, f.mon, f.day).Valid() then Clamp(DateToUnixTime(y, f.mon, f.day, f.tod) - now) else 0
  }

  function TextWait(v: Bytes, now: int): (wait: nat)
    ensures wait <= MAX_RETRY_AFTER
  {
    if v != [] && IsDigit(v[0]) then
      (if OnlyBlanks(v[Run(v, IsDigit)..]) then Clamp(Decimal(v[..Run(v, IsDigit)])) else 0)
    else if ScanDate(v).None? || now < CLOCK_FLOOR then 0
    else
      ScannedInRange(v);
      DateWait(ScanDate(v).value, now)
  }

  /** The seconds a reply asks to wait, when its head is read at `now`. */
  function Wait(v: Option<Bytes>, now: int): nat { if v.None? then 0 else TextWait(v.value, now) }

  /** A value that is not a number may be a date, and only then is the clock looked at. */
  predicate NeedsClock(v: Option<Bytes>) { v.Some? && (v.value == [] || !IsDigit(v.value[0])) }

  lemma DeltaWait(v: Bytes, now: int)
    requires v != [] && IsDigit(v[0])
    ensures TextWait(v, now) == if OnlyBlanks(v[Run(v, IsDigit)..]) then Clamp(Decimal(v[..Run(v, IsDigit)])) else 0
  {}

  // --- the scanner and the parser ---------------------------------------------------------

  method TakeDigits(s: Bytes, min: nat, max: nat) returns (r: Read<nat>)
    ensures r == Number(s, min, max)
  {
    var n: nat, v: int := 0, 0;
    while n < max && n < |s| && IsDigit(s[n])
      invariant n <= max && n <= |s| && (forall i | 0 <= i < n :: IsDigit(s[i]))
      invariant v == Decimal(s[..n]) && v >= 0
    {
      assert s[..n + 1][..n] == s[..n];
      v := v * 10 + DigitValue(s[n]);
      n := n + 1;
    }
    assert n == DigitCount(s, max);
    if n < min {
      return Fail;
    }
    return Got(v, s[n..]);
  }

  method TakeMonth(s: Bytes) returns (r: Read<int>)
    ensures r == Month(s)
  {
    for i := 0 to 12
      invariant Month(s) == MonthFrom(s, i)
    {
      if MONTHS[i] <= s {
        MonthSize(i);
        return Got(i + 1, s[3..]);
      }
    }
    return Fail;
  }

  method TakeTimeOfDay(s: Bytes) returns (r: Read<nat>)
    ensures r == TimeOfDay(s)
  {
    hide Number;
    var h := TakeDigits(s, 2, 2);
    if h.Fail? || h.rest == [] || h.rest[0] != COLON {
      return Fail;
    }
    var m := TakeDigits(h.rest[1..], 2, 2);
    if m.Fail? || m.rest == [] || m.rest[0] != COLON {
      return Fail;
    }
    var sec := TakeDigits(m.rest[1..], 2, 2);
    if sec.Fail? || h.value > 23 || m.value > 59 || sec.value > 60 {
      return Fail;
    }
    return Got(h.value * 3600 + m.value * 60 + sec.value, sec.rest);
  }

  method OnlyOws(s: Bytes) returns (b: bool)
    ensures b == OnlyBlanks(s)
  {
    var i := 0;
    while i < |s| && (s[i] == SP || s[i] == HT)
      invariant i <= |s| && forall j | 0 <= j < i :: s[j] == SP || s[j] == HT
    {
      i := i + 1;
    }
    return i == |s|;
  }

  method ScanCommaDate(s: Bytes) returns (f: Option<Fields>)
    ensures f == ScanComma(s)
  {
    hide Number, Month, TimeOfDay, OnlyBlanks;
    var day := TakeDigits(s, 2, 2);
    if day.Fail? || day.rest == [] || (day.rest[0] != SP && day.rest[0] != DASH) {
      return None;
    }
    var two := day.rest[0] == DASH;
    var sep := if two then DASH else SP;
    var mon := TakeMonth(day.rest[1..]);
    if mon.Fail? || mon.rest == [] || mon.rest[0] != sep {
      return None;
    }
    var year;
    if two {
      year := TakeDigits(mon.rest[1..], 2, 2);
    } else {
      year := TakeDigits(mon.rest[1..], 4, 4);
    }
    if year.Fail? || year.rest == [] || year.rest[0] != SP {
      return None;
    }
    var tod := TakeTimeOfDay(year.rest[1..]);
    if tod.Fail? || !(GMT <= tod.rest) {
      return None;
    }
    var blank := OnlyOws(tod.rest[4..]);
    if !blank {
      return None;
    }
    return Some(Fields(year.value, mon.value, day.value, tod.value, two));
  }

  method ScanAscDate(s: Bytes) returns (f: Option<Fields>)
    ensures f == ScanAsc(s)
  {
    hide Number, Month, TimeOfDay, OnlyBlanks;
    var mon := TakeMonth(s);
    if mon.Fail? || mon.rest == [] || mon.rest[0] != SP {
      return None;
    }
    var t := mon.rest[1..];
    if t != [] && t[0] == SP {
      t := t[1..];
    }
    var day := TakeDigits(t, 1, 2);
    if day.Fail? || day.rest == [] || day.rest[0] != SP {
      return None;
    }
    var tod := TakeTimeOfDay(day.rest[1..]);
    if tod.Fail? || tod.rest == [] || tod.rest[0] != SP {
      return None;
    }
    var year := TakeDigits(tod.rest[1..], 4, 4);
    if year.Fail? {
      return None;
    }
    var blank := OnlyOws(year.rest);
    if !blank {
      return None;
    }
    return Some(Fields(year.value, mon.value, day.value, tod.value, false));
  }

  method ScanHttpDate(s: Bytes) returns (f: Option<Fields>)
    ensures f == ScanDate(s)
  {
    hide ScanComma, ScanAsc;
    var k := 0;
    while k < |s| && IsLetter(s[k])
      invariant k <= |s| && forall j | 0 <= j < k :: IsLetter(s[j])
    {
      k := k + 1;
    }
    RunIs(s, IsLetter, k);
    var r := s[k..];
    if |r| >= 2 && r[0] == COMMA && r[1] == SP {
      f := ScanCommaDate(r[2..]);
    } else if r != [] && r[0] == SP {
      f := ScanAscDate(r[1..]);
    } else {
      f := None;
    }
  }

  /** The delta-seconds form: the number clamped to a day, 0 when anything but blanks follows. */
  method ParseDelta(v: Bytes) returns (wait: nat)
    requires v != [] && IsDigit(v[0])
    ensures wait == if OnlyBlanks(v[Run(v, IsDigit)..]) then Clamp(Decimal(v[..Run(v, IsDigit)])) else 0
  {
    var delay: int := 0;
    var i := 0;
    while i < |v| && IsDigit(v[i])
      invariant i <= |v| && forall j | 0 <= j < i :: IsDigit(v[j])
      invariant if Decimal(v[..i]) <= MAX_RETRY_AFTER then delay == Decimal(v[..i]) else delay > MAX_RETRY_AFTER
    {
      assert v[..i + 1][..i] == v[..i];
      if delay <= MAX_RETRY_AFTER {
        delay := delay * 10 + DigitValue(v[i]);
      }
      i := i + 1;
    }
    RunIs(v, IsDigit, i);
    var blank := OnlyOws(v[i..]);
    if !blank {
      delay := 0;
    }
    return Clamp(delay);
  }

  /** The seconds to wait: never more than a day, and none for a value that does not parse or a clock not set. */
  method ParseRetryAfter(v: Bytes, now: int) returns (wait: nat)
    ensures wait == TextWait(v, now) <= MAX_RETRY_AFTER
    ensures v != [] && IsDigit(v[0]) ==>
              wait == if OnlyBlanks(v[Run(v, IsDigit)..]) then Clamp(Decimal(v[..Run(v, IsDigit)])) else 0
    ensures (v == [] || !IsDigit(v[0])) && (ScanDate(v).None? || now < CLOCK_FLOOR) ==> wait == 0
    ensures (v == [] || !IsDigit(v[0])) && ScanDate(v).Some? && now >= CLOCK_FLOOR ==>
              var f := ScanDate(v).value;
              exists y :: (if f.twoDigit then InWindow(f, y, now) else y == f.year) &&
                wait == if Date(y, f.mon, f.day).Valid() then Clamp(DateToUnixTime(y, f.mon, f.day, f.tod) - now) else 0
  {
    hide ScanDate, DateToUnixTime, Decimal, YearOf;
    if v != [] && IsDigit(v[0]) {
      wait := ParseDelta(v);
      return;
    }
    if now < CLOCK_FLOOR {
      return 0;
    }
    var f := ScanHttpDate(v);
    if f.None? {
      return 0;
    }
    ScannedInRange(v);
    var delay := 0;
    var when;
    ghost var year;
    when, year := Resolve(f.value, now);
    if when.Some? && when.value >= 0 {
      delay := when.value - now;
    }
    wait := Clamp(delay);
    ghost var g := f.value;
    assert (if g.twoDigit then InWindow(g, year, now) else year == g.year) &&
           wait == if !Date(year, g.mon, g.day).Valid() then 0
                   else Clamp(DateToUnixTime(year, g.mon, g.day, g.tod) - now);
  }

  // --- what the clock has to do with it -----------------------------------------------------

  /** A year the date may stand for; of the years that end in two digits, one that is leap if any of them is. */
  function SomeYear(f: Fields): int { if f.twoDigit then 2400 + f.year else f.year }

  /** Texts whose wait no clock changes: a number, no date, a day that never comes, or a date before any set clock. */
  predicate ClockFree(v: Bytes) {
    || (v != [] && IsDigit(v[0]))
    || ScanDate(v).None?
    || var f := ScanDate(v).value;
       || !Date(SomeYear(f), f.mon, f.day).Valid()
       || (!f.twoDigit && DateToUnixTime(f.year, f.mon, f.day, f.tod) <= CLOCK_FLOOR)
  }

  /** No year with these two digits has the day, if that one does not. */
  lemma NeverComes(f: Fields, y: int)
    requires f.Scanned() && f.twoDigit && y % 100 == f.year && !Date(2400 + f.year, f.mon, f.day).Valid()
    ensures !Date(y, f.mon, f.day).Valid()
  {
    assert Leap(y) ==> Leap(2400 + f.year) by {
      assert y == 100 * (y / 100) + f.year;
    }
  }

  lemma FreeWait(v: Bytes, now: int)
    requires ClockFree(v) && (v == [] || !IsDigit(v[0]))
    ensures TextWait(v, now) == 0
  {
    hide ScanDate, DateToUnixTime, YearOf, Leap;
    if ScanDate(v).Some? && now >= CLOCK_FLOOR {
      ScannedInRange(v);
      var f := ScanDate(v).value;
      if f.twoDigit {
        YearIsInWindow(f, now);
        NeverComes(f, YearOf(f, now));
      } else {
        FourDigits(f, now);
      }
    }
  }

  lemma FourDigits(f: Fields, now: int)
    requires f.Scanned() && !f.twoDigit
    ensures YearOf(f, now) == f.year
  {}

  /** A second before the date, a date that can come asks to wait a second. */
  lemma LastSecond(f: Fields, now: int)
    requires f.Scanned() && Date(SomeYear(f), f.mon, f.day).Valid()
    requires now == DateToUnixTime(SomeYear(f), f.mon, f.day, f.tod) - 1
    requires f.twoDigit || now >= CLOCK_FLOOR
    ensures now >= CLOCK_FLOOR && DateWait(f, now) == 1
  {
    hide DateToUnixTime, YearOf, Leap, MonthDays;
    var y := SomeYear(f);
    if f.twoDigit {
      FarAhead(f);
      YearIsInWindow(f, now);
      LaterYear(y - 50, y, f.mon, f.day, f.tod);
      LaterYear(y, y + 50, f.mon, f.day, f.tod);
      WindowIsUnique(f, y, YearOf(f, now), now);
    } else {
      FourDigits(f, now);
    }
  }

  lemma FarAhead(f: Fields)
    requires f.Scanned() && f.twoDigit && Date(2400 + f.year, f.mon, f.day).Valid()
    ensures DateToUnixTime(2400 + f.year, f.mon, f.day, f.tod) > CLOCK_FLOOR
  {
    hide DateToUnixTime;
    FloorIs2026();
    assert Date(2026, 1, 1).Valid();
    StrictlyMonotone(Date(2026, 1, 1), Date(2400 + f.year, f.mon, f.day));
    TimeAdds(Date(2400 + f.year, f.mon, f.day), f.tod);
  }

  /** The wait is the same whenever the head is read, exactly for the texts a clock does not enter. */
  lemma WaitsAgreeIff(v: Option<Bytes>)
    ensures (forall a: int, b: int :: Wait(v, a) == Wait(v, b)) <==> v.None? || ClockFree(v.value)
  {
    hide TextWait, ClockFree;
    if v.Some? {
      if ClockFree(v.value) {
        forall a: int, b: int
          ensures Wait(v, a) == Wait(v, b)
        {
          SameWait(v.value, a, b);
        }
      } else {
        var a, b := TwoReadings(v.value);
        assert Wait(v, a) != Wait(v, b);
      }
    }
  }

  lemma SameWait(v: Bytes, a: int, b: int)
    requires ClockFree(v)
    ensures TextWait(v, a) == TextWait(v, b)
  {
    if v == [] || !IsDigit(v[0]) {
      hide TextWait, ClockFree;
      FreeWait(v, a);
      FreeWait(v, b);
    }
  }

  lemma TwoReadings(v: Bytes) returns (a: int, b: int)
    requires !ClockFree(v)
    ensures TextWait(v, a) != TextWait(v, b)
  {
    hide ScanDate, DateToUnixTime, DateWait, Leap, MonthDays;
    ScannedInRange(v);
    var f := ScanDate(v).value;
    a, b := CLOCK_FLOOR - 1, DateToUnixTime(SomeYear(f), f.mon, f.day, f.tod) - 1;
    LastSecond(f, b);
  }

  /** Read later by a set clock, a date with its whole year asks for less, by no more than the time gone. */
  lemma WaitShrinks(v: Bytes, a: int, b: int)
    requires CLOCK_FLOOR <= a <= b && (v == [] || !IsDigit(v[0]))
    requires ScanDate(v).Some? && !ScanDate(v).value.twoDigit
    ensures TextWait(v, b) <= TextWait(v, a) <= TextWait(v, b) + (b - a)
  {
    hide ScanDate, DateToUnixTime, YearOf, Leap, MonthDays;
    ScannedInRange(v);
    FourDigits(ScanDate(v).value, a);
    FourDigits(ScanDate(v).value, b);
  }

  /** Within the last day before such a date, every second counts. */
  lemma EverySecondCounts(v: Bytes, now: int)
    requires (v == [] || !IsDigit(v[0])) && ScanDate(v).Some? && !ScanDate(v).value.twoDigit
    requires var f := ScanDate(v).value;
             && Date(f.year, f.mon, f.day).Valid()
             && CLOCK_FLOOR <= now < DateToUnixTime(f.year, f.mon, f.day, f.tod) <= now + MAX_RETRY_AFTER
    ensures TextWait(v, now) == TextWait(v, now + 1) + 1
  {
    hide ScanDate, DateToUnixTime, YearOf, Leap, MonthDays;
    ScannedInRange(v);
    FourDigits(ScanDate(v).value, now);
    FourDigits(ScanDate(v).value, now + 1);
  }

  /** The text "Thu, 01 Jan 2026 00:01:00 GMT". */
  function Dated(): Text {
    Text.Text([84, 104, 117],
              Comma([48, 49], 1, [50, 48, 50, 54], false, Clock([48, 48], [48, 49], [48, 48])),
              [])
  }

  lemma DatedScans()
    ensures Dated().Valid() && Dated().Wire() != [] && !IsDigit(Dated().Wire()[0])
    ensures ScanDate(Dated().Wire()) == Some(Fields(2026, 1, 1, 60, false))
  {
    hide ScanDate, Decimal, Form.Text, Run;
    DatedValues();
    TextScans(Dated());
  }

  lemma DatedValues()
    ensures Decimal([48, 48]) == 0 && Decimal([48, 49]) == 1 && Decimal([50, 48, 50, 54]) == 2026
  {
    assert [50, 48, 50, 54][..3] == [50, 48, 50] && [50, 48, 50][..2] == [50, 48] && [50, 48][..1] == [50];
    assert [48, 48][..1] == [48] && [48, 49][..1] == [48];
    assert Decimal([50]) == 2 && Decimal([50, 48]) == 20 && Decimal([50, 48, 50]) == 202;
  }

  /** One head, read a second apart: a minute to wait, then 59 seconds. */
  lemma DatedWaits()
    ensures Dated().Valid()
    ensures var v := Some(Dated().Wire()); Wait(v, CLOCK_FLOOR) == 60 && Wait(v, CLOCK_FLOOR + 1) == 59
  {
    hide ScanDate, DateToUnixTime, Dated;
    DatedScans();
    FloorIs2026();
    TimeAdds(Date(2026, 1, 1), 60);
  }

  // --- waits from their texts ---------------------------------------------------------------

  /** A number of seconds is waited, a day at most, whatever the clock says; without a value there is no wait. */
  lemma NumberIsWaited(digits: Bytes, n: nat, pad: Bytes, now: int)
    requires IsDec(digits, n) && forall i | 0 <= i < |pad| :: pad[i] as char in " \t"
    ensures Wait(Some(digits + pad), now) == if n < 86400 then n else 86400
    ensures Wait(None, now) == 0
  {
    hide Run, Decimal, IsDec;
    assert digits != [] by { DecNotEmpty(digits, n); }
    DecimalIs(digits, n);
    var v := digits + pad;
    assert v[0] == digits[0];
    assert forall i | 0 <= i < |digits| :: v[i] == digits[i];
    RunIs(v, IsDigit, |digits|);
    assert v[..|digits|] == digits && v[|digits|..] == pad;
    DeltaWait(v, now);
  }

  /** Anything but blanks behind a number, and there is no wait. */
  lemma JunkIsNotWaited(digits: Bytes, n: nat, rest: Bytes, now: int)
    requires IsDec(digits, n) && rest != [] && rest[0] as char !in "0123456789"
    requires exists i :: 0 <= i < |rest| && rest[i] as char !in " \t"
    ensures Wait(Some(digits + rest), now) == 0
  {
    hide Run, Decimal, IsDec;
    assert digits != [] by { DecNotEmpty(digits, n); }
    DecimalIs(digits, n);
    var v := digits + rest;
    assert v[0] == digits[0];
    assert forall i | 0 <= i < |digits| :: v[i] == digits[i];
    assert !IsDigit(rest[0]);
    RunIs(v, IsDigit, |digits|);
    assert v[|digits|..] == rest;
    DeltaWait(v, now);
  }

  /** Until a date is waited, a day at most, once the clock says 2026; a date that is none, or past, is not. */
  lemma DateIsWaited(t: Text, now: int)
    requires t.Valid()
    ensures var f := t.form.Value();
            f.Scanned() &&
            var y := YearOf(f, now);
            var wait := DateToUnixTime(y, f.mon, f.day, f.tod) - now;
            Wait(Some(t.Wire()), now) ==
            if now < 1767225600 || !Date(y, f.mon, f.day).Valid() || wait <= 0 then 0
            else if wait < 86400 then wait else 86400
  {
    hide Form.Value, Form.Text, DateToUnixTime, ScanDate, Text.Wire;
    TextScans(t);
    ScannedInRange(t.Wire());
    assert t.Wire() != [] ==> !IsDigit(t.Wire()[0]) by { DateIsNoNumber(t); }
  }

  lemma DateIsNoNumber(t: Text)
    requires t.Valid()
    ensures t.Wire() != [] && !IsDigit(t.Wire()[0])
  {
    hide Form.DateText, Form.DayText;
    var r := t.form.Text() + t.pad;
    assert t.Wire() == t.name + r && r[0] in {COMMA, SP};
    assert t.Wire()[0] == if t.name != [] then t.name[0] else r[0];
  }
}
