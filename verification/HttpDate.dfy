/** HTTP-date text (section 5.6.7 of RFC 9110): the strings that scan, and the fields they give. */
module HttpDate {
  import opened Bytes
  import opened CivilDate
  import opened Numerals

  const COMMA: Byte := 44
  const DASH: Byte := 45

  /** A value read from the front of the text, and what is left. */
  datatype Read<+T> = Fail | Got(value: T, rest: Bytes) {
    predicate IsFailure() { Fail? }
    function PropagateFailure<U>(): Read<U>
      requires Fail?
    {
      Fail
    }
    function Extract(): (T, Bytes)
      requires Got?
    {
      (value, rest)
    }
  }

  // --- pieces ---------------------------------------------------------------------------------

  function Literal(s: Bytes, c: Byte): Read<Byte> { if s != [] && s[0] == c then Got(c, s[1..]) else Fail }

  function DigitCount(s: Bytes, max: nat): (n: nat)
    ensures n <= |s| && n <= max
  {
    var n := Run(s, IsDigit);
    if n > max then max else n
  }

  predicate AllDigits(t: Bytes) { forall i | 0 <= i < |t| :: IsDigit(t[i]) }

  lemma {:induction false} DecimalIsNat(t: Bytes)
    requires AllDigits(t)
    ensures Decimal(t) >= 0
    decreases |t|
  {
    if t != [] {
      DecimalIsNat(t[..|t| - 1]);
      assert IsDigit(t[|t| - 1]);
    }
  }

  function Number(s: Bytes, min: nat, max: nat): Read<nat> {
    var n := DigitCount(s, max);
    if n < min then Fail else
      DecimalIsNat(s[..n]);
      Got(Decimal(s[..n]), s[n..])
  }

  /** A fixed number of digits. */
  lemma FixedIs(s: Bytes, k: nat, v: nat, rest: Bytes)
    ensures Number(s, k, k) == Got(v, rest) <==>
            |s| >= k && AllDigits(s[..k]) && Decimal(s[..k]) == v && rest == s[k..]
  {
    hide Run, Decimal;
    var n := Run(s, IsDigit);
    if n >= k {
      assert forall i | 0 <= i < k :: s[..k][i] == s[i];
    } else if |s| >= k {
      assert s[..k][n] == s[n];
    }
  }

  lemma {:induction false} DecimalBound(t: Bytes)
    requires AllDigits(t) && |t| <= 4
    ensures 0 <= Decimal(t) < 10000
    ensures |t| <= 2 ==> Decimal(t) < 100
    ensures |t| <= 1 ==> Decimal(t) < 10
    ensures |t| <= 3 ==> Decimal(t) < 1000
    decreases |t|
  {
    if t != [] {
      DecimalBound(t[..|t| - 1]);
      assert IsDigit(t[|t| - 1]);
    }
  }

  const MONTHS: seq<Bytes> := [
    [74, 97, 110], [70, 101, 98], [77, 97, 114], [65, 112, 114], [77, 97, 121], [74, 117, 110],
    [74, 117, 108], [65, 117, 103], [83, 101, 112], [79, 99, 116], [78, 111, 118], [68, 101, 99]]

  const MONTH_NAMES := ["Jan", "Feb", "Mar", "Apr", "May", "Jun", "Jul", "Aug", "Sep", "Oct", "Nov", "Dec"]

  /** The months are known by their English names, and the zone is written GMT. */
  lemma MonthsAre(i: nat)
    requires i < 12
    ensures IsText(MONTHS[i], MONTH_NAMES[i]) && IsText(GMT, " GMT")
  {
    assert i in {0, 1, 2, 3, 4, 5, 6, 7, 8, 9, 10, 11};
  }

  function MonthFrom(s: Bytes, i: nat): Read<int>
    requires i <= 12
    decreases 12 - i
  {
    if i == 12 then Fail
    else if MONTHS[i] <= s then Got(i + 1, s[3..])
    else MonthFrom(s, i + 1)
  }

  function Month(s: Bytes): Read<int> { MonthFrom(s, 0) }

  lemma MonthsDiffer(i: nat, j: nat)
    requires i < 12 && j < 12 && i != j
    ensures |MONTHS[i]| == 3 && MONTHS[i] != MONTHS[j]
  {}

  lemma {:induction false} MonthFromIs(s: Bytes, i: nat, m: int, rest: Bytes)
    requires i <= 12
    requires forall j | 0 <= j < i :: !(MONTHS[j] <= s)
    ensures MonthFrom(s, i) == Got(m, rest) <==> 1 <= m <= 12 && s == MONTHS[m - 1] + rest
    decreases 12 - i
  {
    if 1 <= m <= 12 && s == MONTHS[m - 1] + rest {
      assert MONTHS[m - 1] <= s;
    }
    if i < 12 {
      MonthSize(i);
      if MONTHS[i] <= s {
        assert s == MONTHS[i] + s[3..];
        if 1 <= m <= 12 && m - 1 != i {
          MonthsDiffer(i, m - 1);
          MonthSize(m - 1);
          assert s[..3] == MONTHS[i] && (MONTHS[m - 1] + rest)[..3] == MONTHS[m - 1];
        }
      } else {
        MonthFromIs(s, i + 1, m, rest);
      }
    }
  }

  lemma MonthSize(i: nat)
    requires i < 12
    ensures |MONTHS[i]| == 3
  {}

  // --- time of day -----------------------------------------------------------------------------

  predicate IsNumber(t: Bytes, k: nat) { |t| == k && AllDigits(t) }

  datatype Clock = Clock(hh: Bytes, mm: Bytes, ss: Bytes) {
    predicate Valid() {
      && IsNumber(hh, 2) && IsNumber(mm, 2) && IsNumber(ss, 2)
      && Decimal(hh) <= 23 && Decimal(mm) <= 59 && Decimal(ss) <= 60
    }
    function Text(): Bytes { hh + [COLON] + mm + [COLON] + ss }
    function Seconds(): int { Decimal(hh) * 3600 + Decimal(mm) * 60 + Decimal(ss) }
  }

  function TimeOfDay(s: Bytes): Read<nat> {
    var (h, a) :- Number(s, 2, 2);
    var (_, b) :- Literal(a, COLON);
    var (m, c) :- Number(b, 2, 2);
    var (_, d) :- Literal(c, COLON);
    var (sec, rest) :- Number(d, 2, 2);
    if h > 23 || m > 59 || sec > 60 then Fail else Got(h * 3600 + m * 60 + sec, rest)
  }

  lemma NumberReads(t: Bytes, k: nat, rest: Bytes)
    requires IsNumber(t, k)
    ensures Decimal(t) >= 0 && Number(t + rest, k, k) == Got(Decimal(t), rest)
  {
    hide Decimal, Number;
    DecimalIsNat(t);
    assert (t + rest)[..k] == t && (t + rest)[k..] == rest;
    FixedIs(t + rest, k, Decimal(t), rest);
  }

  lemma ReadIsNumber(s: Bytes, k: nat) returns (t: Bytes)
    requires Number(s, k, k).Got?
    ensures IsNumber(t, k) && Number(s, k, k).value == Decimal(t) && s == t + Number(s, k, k).rest
  {
    hide Decimal, Number;
    var r := Number(s, k, k);
    FixedIs(s, k, r.value, r.rest);
    t := s[..k];
  }

  lemma ClockReads(c: Clock, rest: Bytes)
    requires c.Valid()
    ensures c.Seconds() >= 0 && TimeOfDay(c.Text() + rest) == Got(c.Seconds(), rest)
  {
    hide Number, Decimal, AllDigits;
    var e := [COLON] + (c.ss + rest);
    var d := [COLON] + (c.mm + e);
    assert c.Text() + rest == c.hh + d;
    NumberReads(c.hh, 2, d);
    assert d[1..] == c.mm + e && e[1..] == c.ss + rest;
    NumberReads(c.mm, 2, e);
    NumberReads(c.ss, 2, rest);
  }

  lemma ReadIsClock(s: Bytes) returns (c: Clock)
    requires TimeOfDay(s).Got?
    ensures c.Valid() && TimeOfDay(s).value == c.Seconds() && s == c.Text() + TimeOfDay(s).rest
  {
    hide Number, Decimal, AllDigits;
    var hh := ReadIsNumber(s, 2);
    var a := Number(s, 2, 2).rest;
    var mm := ReadIsNumber(a[1..], 2);
    var b := Number(a[1..], 2, 2).rest;
    var ss := ReadIsNumber(b[1..], 2);
    c := Clock(hh, mm, ss);
    assert a == [COLON] + a[1..] && b == [COLON] + b[1..];
  }

  // --- the three forms -------------------------------------------------------------------------

  /** " GMT" */
  const GMT: Bytes := [SP, 71, 77, 84]

  predicate OnlyBlanks(s: Bytes) { forall i | 0 <= i < |s| :: s[i] == SP || s[i] == HT }

  predicate IsLetter(c: Byte) { 65 <= c <= 90 || 97 <= c <= 122 }

  /** The date of the forms with a comma: dashes go with a two-digit year. */
  function DayMonthYear(s: Bytes): Read<Fields> {
    var (day, a) :- Number(s, 2, 2);
    var two := a != [] && a[0] == DASH;
    var sep := if two then DASH else SP;
    var (_, b) :- Literal(a, sep);
    var (mon, c) :- Month(b);
    var (_, d) :- Literal(c, sep);
    var (year, e) :- Number(d, if two then 2 else 4, if two then 2 else 4);
    Got(Fields(year, mon, day, 0, two), e)
  }

  function GmtTime(s: Bytes): Option<nat> {
    match Literal(s, SP)
    case Fail => None
    case Got(_, a) =>
      match TimeOfDay(a)
      case Fail => None
      case Got(tod, b) => if GMT <= b && OnlyBlanks(b[4..]) then Some(tod) else None
  }

  function ScanComma(s: Bytes): Option<Fields> {
    match DayMonthYear(s)
    case Fail => None
    case Got(f, rest) =>
      match GmtTime(rest)
      case None => None
      case Some(tod) => Some(f.(tod := tod))
  }

  function DayAndTime(b: Bytes): Read<(nat, nat)> {
    var (day, c) :- Number(if b != [] && b[0] == SP then b[1..] else b, 1, 2);
    var (_, d) :- Literal(c, SP);
    var (tod, e) :- TimeOfDay(d);
    Got((day, tod), e)
  }

  function AscDay(s: Bytes): Read<Fields> {
    var (mon, a) :- Month(s);
    var (_, b) :- Literal(a, SP);
    var (dt, e) :- DayAndTime(b);
    Got(Fields(0, mon, dt.0, dt.1, false), e)
  }

  function ScanAsc(s: Bytes): Option<Fields> {
    match AscDay(s)
    case Fail => None
    case Got(f, a) =>
      match Literal(a, SP)
      case Fail => None
      case Got(_, b) =>
        match Number(b, 4, 4)
        case Fail => None
        case Got(year, rest) => if OnlyBlanks(rest) then Some(f.(year := year)) else None
  }

  function ScanDate(s: Bytes): (f: Option<Fields>) {
    var r := s[Run(s, IsLetter)..];
    if |r| >= 2 && r[0] == COMMA && r[1] == SP then ScanComma(r[2..])
    else if r != [] && r[0] == SP then ScanAsc(r[1..])
    else None
  }

  /** IMF-fixdate and RFC 850 dates, and asctime dates, as their parts. */
  datatype Form =
    | Comma(day: Bytes, mon: int, year: Bytes, two: bool, clock: Clock)
    | Asc(mon: int, wide: bool, day: Bytes, clock: Clock, year: Bytes)
  {
    predicate Valid() {
      && 1 <= mon <= 12 && clock.Valid()
      && IsNumber(year, if Comma? && two then 2 else 4)
      && (Comma? ==> IsNumber(day, 2))
      && (Asc? ==> IsNumber(day, 1) || IsNumber(day, 2))
    }

    function DateText(): Bytes
      requires Comma? && Valid()
    {
      var sep := if two then DASH else SP;
      day + [sep] + MONTHS[mon - 1] + [sep] + year
    }

    function DayText(): Bytes
      requires Asc? && Valid()
    {
      MONTHS[mon - 1] + [SP] + (if wide then [SP] else []) + day + [SP] + clock.Text()
    }

    function Text(): Bytes
      requires Valid()
    {
      if Comma? then [COMMA, SP] + (DateText() + ([SP] + clock.Text() + GMT))
      else [SP] + (DayText() + [SP] + year)
    }

    function Value(): Fields
      requires Valid()
    {
      DecimalBound(day);
      DecimalBound(year);
      DecimalBound(clock.hh);
      DecimalBound(clock.mm);
      DecimalBound(clock.ss);
      Fields(Decimal(year), mon, Decimal(day), clock.Seconds(), Comma? && two)
    }
  }

  lemma MonthReads(m: int, rest: Bytes)
    requires 1 <= m <= 12
    ensures Month(MONTHS[m - 1] + rest) == Got(m, rest)
  {
    hide MonthFrom;
    MonthFromIs(MONTHS[m - 1] + rest, 0, m, rest);
  }

  lemma ReadIsMonth(s: Bytes)
    requires Month(s).Got?
    ensures 1 <= Month(s).value <= 12 && s == MONTHS[Month(s).value - 1] + Month(s).rest
  {
    hide MonthFrom;
    MonthFromIs(s, 0, Month(s).value, Month(s).rest);
  }

  lemma DateReads(f: Form, rest: Bytes)
    requires f.Valid() && f.Comma?
    ensures DayMonthYear(f.DateText() + rest) == Got(f.Value().(tod := 0), rest)
  {
    hide Number, Month, Decimal, AllDigits, Clock.Valid;
    var sep := if f.two then DASH else SP;
    var k := if f.two then 2 else 4;
    var d := f.year + rest;
    var c := [sep] + d;
    var b := MONTHS[f.mon - 1] + c;
    var a := [sep] + b;
    assert f.DateText() + rest == f.day + a;
    NumberReads(f.day, 2, a);
    assert a[1..] == b && c[1..] == d;
    MonthReads(f.mon, c);
    NumberReads(f.year, k, rest);
  }

  lemma GmtReads(c: Clock, pad: Bytes)
    requires c.Valid() && OnlyBlanks(pad)
    ensures c.Seconds() >= 0 && GmtTime([SP] + c.Text() + GMT + pad) == Some(c.Seconds())
  {
    hide TimeOfDay, AllDigits, Decimal;
    var s := [SP] + c.Text() + GMT + pad;
    assert s[1..] == c.Text() + (GMT + pad);
    ClockReads(c, GMT + pad);
    assert (GMT + pad)[4..] == pad;
  }

  lemma ShortReads(t: Bytes, rest: Bytes)
    requires (IsNumber(t, 1) || IsNumber(t, 2)) && rest != [] && !IsDigit(rest[0])
    ensures Decimal(t) >= 0 && Number(t + rest, 1, 2) == Got(Decimal(t), rest)
  {
    hide Decimal;
    DecimalIsNat(t);
    var s := t + rest;
    assert forall i | 0 <= i < |t| :: s[i] == t[i];
    assert s[|t|] == rest[0];
    RunIs(s, IsDigit, |t|);
    assert s[..|t|] == t && s[|t|..] == rest;
  }

  lemma ReadIsShort(s: Bytes) returns (t: Bytes)
    requires Number(s, 1, 2).Got?
    ensures (IsNumber(t, 1) || IsNumber(t, 2)) && Number(s, 1, 2).value == Decimal(t) && s == t + Number(s, 1, 2).rest
  {
    hide Decimal;
    var n := DigitCount(s, 2);
    t := s[..n];
    assert forall i | 0 <= i < n :: t[i] == s[i];
  }

  lemma DayReads(f: Form, rest: Bytes)
    requires f.Valid() && f.Asc?
    ensures AscDay(f.DayText() + rest) == Got(f.Value().(year := 0), rest)
  {
    hide DayAndTime, Month, Decimal, AllDigits, Clock.Valid, Clock.Text;
    var w := if f.wide then [SP] else [];
    var b := w + (f.day + ([SP] + (f.clock.Text() + rest)));
    FivePieces(MONTHS[f.mon - 1], w, f.day, f.clock.Text(), rest);
    MonthReads(f.mon, [SP] + b);
    assert ([SP] + b)[1..] == b;
    DayAndTimeReads(w, f.day, f.clock, rest);
  }

  lemma DayAndTimeReads(w: Bytes, day: Bytes, clock: Clock, rest: Bytes)
    requires (w == [SP] || w == []) && (IsNumber(day, 1) || IsNumber(day, 2)) && clock.Valid()
    ensures clock.Seconds() >= 0 && Decimal(day) >= 0
    ensures DayAndTime(w + (day + ([SP] + (clock.Text() + rest)))) == Got((Decimal(day), clock.Seconds()), rest)
  {
    hide Number, Decimal, AllDigits, Clock.Valid, TimeOfDay, Clock.Text;
    var d := [SP] + (clock.Text() + rest);
    var b := w + (day + d);
    DayStart(day, d);
    assert (if b != [] && b[0] == SP then b[1..] else b) == day + d;
    ShortReads(day, d);
    assert d[1..] == clock.Text() + rest;
    ClockReads(clock, rest);
  }

  lemma FivePieces(m: Bytes, w: Bytes, d: Bytes, c: Bytes, rest: Bytes)
    ensures m + [SP] + w + d + [SP] + c + rest == m + ([SP] + (w + (d + ([SP] + (c + rest)))))
  {}

  lemma DayStart(day: Bytes, rest: Bytes)
    requires IsNumber(day, 1) || IsNumber(day, 2)
    ensures day + rest != [] && (day + rest)[0] != SP
  {
    assert IsDigit(day[0]);
  }

  // --- the language --------------------------------------------------------------------------------

  predicate IsAlpha(h: char) { 'A' <= h <= 'Z' || 'a' <= h <= 'z' }

  datatype Text = Text(name: Bytes, form: Form, pad: Bytes) {
    predicate Valid() { (forall i | 0 <= i < |name| :: IsAlpha(name[i] as char)) && form.Valid() && OnlyBlanks(pad) }

    function Wire(): Bytes
      requires Valid()
    {
      name + form.Text() + pad
    }
  }

  lemma CommaScans(f: Form, pad: Bytes)
    requires f.Valid() && f.Comma? && OnlyBlanks(pad)
    ensures ScanComma(f.DateText() + ([SP] + f.clock.Text() + GMT) + pad) == Some(f.Value())
  {
    hide DayMonthYear, GmtTime, Form.DateText, Clock.Text, AllDigits, Decimal, Clock.Valid;
    var rest := [SP] + f.clock.Text() + GMT + pad;
    assert f.DateText() + ([SP] + f.clock.Text() + GMT) + pad == f.DateText() + rest;
    DateReads(f, rest);
    GmtReads(f.clock, pad);
  }

  lemma AscScans(f: Form, pad: Bytes)
    requires f.Valid() && f.Asc? && OnlyBlanks(pad)
    ensures ScanAsc(f.DayText() + [SP] + f.year + pad) == Some(f.Value())
  {
    hide AscDay, Form.DayText, AllDigits, Decimal, Clock.Valid, Number;
    var rest := [SP] + (f.year + pad);
    assert f.DayText() + [SP] + f.year + pad == f.DayText() + rest;
    DayReads(f, rest);
    assert rest[1..] == f.year + pad;
    NumberReads(f.year, 4, pad);
  }

  lemma NameEnds(name: Bytes, rest: Bytes)
    requires (forall i | 0 <= i < |name| :: IsLetter(name[i])) && rest != [] && !IsLetter(rest[0])
    ensures Run(name + rest, IsLetter) == |name| && (name + rest)[|name|..] == rest
  {
    var s := name + rest;
    assert forall i | 0 <= i < |name| :: s[i] == name[i];
    RunIs(s, IsLetter, |name|);
  }

  lemma TextScans(t: Text)
    requires t.Valid()
    ensures ScanDate(t.Wire()) == Some(t.form.Value())
  {
    hide ScanComma, ScanAsc, Form.DateText, Form.DayText, Clock.Text, Form.Value, Run;
    var f := t.form;
    var r := f.Text() + t.pad;
    assert t.Wire() == t.name + r;
    assert forall i | 0 <= i < |t.name| :: IsLetter(t.name[i]);
    NameEnds(t.name, r);
    if f.Comma? {
      CommaScans(f, t.pad);
      assert r[2..] == f.DateText() + ([SP] + f.clock.Text() + GMT) + t.pad;
    } else {
      AscScans(f, t.pad);
      assert r[1..] == f.DayText() + [SP] + f.year + t.pad;
    }
  }

  lemma ReadIsDate(s: Bytes, clock: Clock) returns (f: Form)
    requires DayMonthYear(s).Got? && clock.Valid()
    ensures f.Valid() && f.Comma? && f.clock == clock
    ensures s == f.DateText() + DayMonthYear(s).rest && DayMonthYear(s).value == f.Value().(tod := 0)
  {
    hide Number, Month, Decimal, AllDigits, Clock.Valid;
    var day := ReadIsNumber(s, 2);
    var a := Number(s, 2, 2).rest;
    var two := a[0] == DASH;
    var sep := if two then DASH else SP;
    var b := a[1..];
    ReadIsMonth(b);
    var c := Month(b).rest;
    var k := if two then 2 else 4;
    var year := ReadIsNumber(c[1..], k);
    f := Comma(day, Month(b).value, year, two, clock);
    assert a == [sep] + b && c == [sep] + c[1..];
    SixPieces(day, [sep], MONTHS[f.mon - 1], year, Number(c[1..], k, k).rest);
  }

  lemma SixPieces(d: Bytes, sep: Bytes, m: Bytes, y: Bytes, rest: Bytes)
    ensures d + (sep + (m + (sep + (y + rest)))) == d + sep + m + sep + y + rest
  {}

  lemma ReadIsGmt(s: Bytes) returns (c: Clock, pad: Bytes)
    requires GmtTime(s).Some?
    ensures c.Valid() && OnlyBlanks(pad) && s == [SP] + c.Text() + GMT + pad && GmtTime(s).value == c.Seconds()
  {
    hide TimeOfDay, AllDigits, Decimal, Clock.Text, Clock.Valid, Clock.Seconds;
    var a := s[1..];
    c := ReadIsClock(a);
    var b := TimeOfDay(a).rest;
    pad := b[4..];
    assert s == [SP] + a && b == GMT + pad;
  }

  lemma CommaRead(s: Bytes) returns (f: Form, pad: Bytes)
    requires ScanComma(s).Some?
    ensures f.Valid() && f.Comma? && OnlyBlanks(pad) && f.Value() == ScanComma(s).value
    ensures s == f.DateText() + ([SP] + f.clock.Text() + GMT) + pad
  {
    hide DayMonthYear, GmtTime, Form.DateText, Clock.Text, AllDigits, Decimal, Clock.Valid;
    var rest := DayMonthYear(s).rest;
    var c;
    c, pad := ReadIsGmt(rest);
    f := ReadIsDate(s, c);
    assert f.DateText() + ([SP] + f.clock.Text() + GMT) + pad == f.DateText() + rest;
  }

  lemma ReadIsDay(s: Bytes, year: Bytes) returns (f: Form)
    requires AscDay(s).Got? && IsNumber(year, 4)
    ensures f.Valid() && f.Asc? && f.year == year
    ensures s == f.DayText() + AscDay(s).rest && AscDay(s).value == f.Value().(year := 0)
  {
    hide DayAndTime, Month, Decimal, AllDigits, Clock.Valid, Clock.Text, Clock.Seconds;
    ReadIsMonth(s);
    var b := Month(s).rest[1..];
    var wide, day, clock := ReadIsDayAndTime(b);
    f := Asc(Month(s).value, wide, day, clock, year);
    assert Month(s).rest == [SP] + b;
    FivePieces(MONTHS[f.mon - 1], if wide then [SP] else [], day, clock.Text(), DayAndTime(b).rest);
  }

  lemma ReadIsDayAndTime(b: Bytes) returns (wide: bool, day: Bytes, clock: Clock)
    requires DayAndTime(b).Got?
    ensures (IsNumber(day, 1) || IsNumber(day, 2)) && clock.Valid()
    ensures DayAndTime(b).value == (Decimal(day), clock.Seconds())
    ensures b == (if wide then [SP] else []) + (day + ([SP] + (clock.Text() + DayAndTime(b).rest)))
  {
    hide Number, Decimal, AllDigits, Clock.Valid, TimeOfDay, Clock.Text, Clock.Seconds;
    wide := b != [] && b[0] == SP;
    var t := if wide then b[1..] else b;
    day := ReadIsShort(t);
    var c := Number(t, 1, 2).rest;
    clock := ReadIsClock(c[1..]);
    assert c == [SP] + c[1..] && b == (if wide then [SP] else []) + t;
  }

  lemma AscRead(s: Bytes) returns (f: Form, pad: Bytes)
    requires ScanAsc(s).Some?
    ensures f.Valid() && f.Asc? && OnlyBlanks(pad) && f.Value() == ScanAsc(s).value
    ensures s == f.DayText() + [SP] + f.year + pad
  {
    hide AscDay, Form.DayText, AllDigits, Decimal, Clock.Valid, Number, Clock.Seconds;
    var a := AscDay(s).rest;
    var year := ReadIsNumber(a[1..], 4);
    pad := Number(a[1..], 4, 4).rest;
    f := ReadIsDay(s, year);
    assert a == [SP] + (year + pad);
    assert f.DayText() + [SP] + f.year + pad == f.DayText() + a;
  }

  lemma ScannedIsText(s: Bytes) returns (t: Text)
    requires ScanDate(s).Some?
    ensures t.Valid() && t.Wire() == s && t.form.Value() == ScanDate(s).value
  {
    hide ScanComma, ScanAsc, Form.DateText, Form.DayText, Clock.Text, Form.Value, Run;
    var n := Run(s, IsLetter);
    var name, r := s[..n], s[n..];
    assert s == name + r;
    assert forall i | 0 <= i < n :: name[i] == s[i] && IsLetter(s[i]);
    if r[0] == COMMA {
      var f, pad := CommaRead(r[2..]);
      t := Text.Text(name, f, pad);
      assert r == [COMMA, SP] + r[2..];
      CommaPieces(name, f.DateText(), f.clock.Text(), GMT, pad);
    } else {
      var f, pad := AscRead(r[1..]);
      t := Text.Text(name, f, pad);
      assert r == [SP] + r[1..];
      AscPieces(name, f.DayText(), f.year, pad);
    }
  }

  lemma CommaPieces(name: Bytes, date: Bytes, clock: Bytes, gmt: Bytes, pad: Bytes)
    ensures name + ([COMMA, SP] + (date + ([SP] + clock + gmt))) + pad
         == name + ([COMMA, SP] + (date + ([SP] + clock + gmt) + pad))
  {}

  lemma AscPieces(name: Bytes, day: Bytes, year: Bytes, pad: Bytes)
    ensures name + ([SP] + (day + [SP] + year)) + pad == name + ([SP] + (day + [SP] + year + pad))
  {}

  /** The scanner's language and result: `s` scans to `v` exactly when it is an HTTP-date with those fields. */
  lemma HttpDateIs(s: Bytes, v: Fields)
    ensures ScanDate(s) == Some(v) <==> exists t: Text :: t.Valid() && t.Wire() == s && t.form.Value() == v
  {
    hide ScanDate, Text.Wire, Form.Value;
    if ScanDate(s) == Some(v) {
      var t := ScannedIsText(s);
    }
    forall t: Text | t.Valid() && t.Wire() == s && t.form.Value() == v
      ensures ScanDate(s) == Some(v)
    {
      TextScans(t);
    }
  }

  /** What scans is within the ranges the arithmetic needs. */
  lemma ScannedInRange(s: Bytes)
    requires ScanDate(s).Some?
    ensures ScanDate(s).value.Scanned()
  {
    hide ScanDate, Text.Wire, Form.Text, Decimal, AllDigits;
    var t := ScannedIsText(s);
    DecimalBound(t.form.day);
    DecimalBound(t.form.year);
    DecimalBound(t.form.clock.hh);
    DecimalBound(t.form.clock.mm);
    DecimalBound(t.form.clock.ss);
  }
}
