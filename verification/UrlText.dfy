/** URLs as texts: which strings the client takes, and the scheme, host, port and target it takes from them. */
module UrlText {
  import opened Bytes
  import opened Numerals
  import opened HttpUrl
  import F = RequestFields

  const COLON_SLASHES: Bytes := [':' as int, '/' as int, '/' as int]

  /** `w` in letters of either case. */
  predicate IsWord(s: Bytes, w: string) {
    |s| == |w| &&
    forall i | 0 <= i < |s| :: s[i] == w[i] as int || ('a' <= w[i] <= 'z' && s[i] == w[i] as int - 32)
  }

  predicate SeparatorAt(s: Bytes, i: nat) {
    i + 3 <= |s| && s[i] == ':' as int && s[i + 1] == '/' as int && s[i + 2] == '/' as int
  }

  /** The white space of the C locale. */
  predicate IsWhite(c: Byte) { c as char in " \t\n\r" || c == 11 || c == 12 }

  /** A port number, with what strtol takes before its digits. */
  datatype Port = Port(white: Bytes, plus: bool, digits: Bytes, number: nat) {
    predicate Valid() {
      (forall i | 0 <= i < |white| :: IsWhite(white[i])) && IsDec(digits, number) && 1 <= number <= 65535
    }
    function Text(): Bytes { white + (if plus then ['+' as int] else []) + digits }
  }

  datatype Url = Url(scheme: Option<Bytes>, literal: bool, host: Bytes, port: Option<Port>, tail: Bytes) {
    function SchemeText(): Bytes { if scheme.None? then [] else scheme.value + COLON_SLASHES }
    function HostText(): Bytes { if literal then ['[' as int] + host + [']' as int] else host }
    function PortText(): Bytes { if port.None? then [] else [':' as int] + port.value.Text() }

    /** All before the target. */
    function Front(): Bytes { SchemeText() + HostText() + PortText() }
    function Text(): Bytes { Front() + tail }

    ghost predicate Valid() { SchemeOk() && HostOk() && PortOk() }

    /** http or https, or no scheme anywhere. */
    ghost predicate SchemeOk() {
      if scheme.Some? then IsWord(scheme.value, "http") || IsWord(scheme.value, "https")
      else forall i: nat :: !SeparatorAt(Text(), i)
    }

    /** At most 256 bytes, in brackets or up to the first delimiter. */
    predicate HostOk() {
      && |host| <= 256
      && if literal then ']' as int !in host
         else (forall i | 0 <= i < |host| :: host[i] as char !in ":/?#") && (host != [] ==> host[0] != '[' as int)
    }

    predicate PortOk() {
      if port.Some? then port.value.Valid() && (tail == [] || !IsDigit(tail[0]))
      else tail == [] || (if literal then tail[0] != ':' as int else tail[0] as char in "/?#")
    }

    /** https is the default. */
    predicate Tls() { scheme.None? || |scheme.value| == 5 }
    function PortNumber(): int { if port.Some? then port.value.number else if Tls() then 443 else 80 }
  }

  // --- scheme ---------------------------------------------------------------------------------

  lemma {:induction false} FindSeparatorIs(s: Bytes)
    ensures match FindSeparator(s)
            case None => forall i: nat :: !SeparatorAt(s, i)
            case Some(k) => SeparatorAt(s, k) && forall i: nat | i < k :: !SeparatorAt(s, i)
  {
    if |s| >= 3 {
      assert s[..3] == [s[0], s[1], s[2]];
      assert s[..3] == SEPARATOR <==> SeparatorAt(s, 0);
      FindSeparatorIs(s[1..]);
      forall i: nat
        ensures i > 0 ==> (SeparatorAt(s, i) <==> SeparatorAt(s[1..], i - 1))
      {
      }
    }
  }

  lemma SeparatorFirst(s: Bytes, k: nat)
    requires SeparatorAt(s, k) && forall i: nat | i < k :: !SeparatorAt(s, i)
    ensures FindSeparator(s) == Some(k)
  {
    FindSeparatorIs(s);
  }

  lemma LowerIs(s: Bytes)
    ensures Lower(s) == HTTP <==> IsWord(s, "http")
    ensures Lower(s) == HTTPS <==> IsWord(s, "https")
  {
    var t := Lower(s);
    assert forall i | 0 <= i < |s| :: t[i] == if 65 <= s[i] <= 90 then s[i] + 32 else s[i];
    if |s| == 4 {
      assert t == [t[0], t[1], t[2], t[3]];
    }
    if |s| == 5 {
      assert t == [t[0], t[1], t[2], t[3], t[4]];
    }
  }

  lemma SchemeReads(u: Url)
    requires u.SchemeOk()
    ensures HostStart(u.Text()) == Some(|u.SchemeText()|) && F.IsTls(u.Text()) == u.Tls()
  {
    var s := u.Text();
    if u.scheme.None? {
      FindSeparatorIs(s);
    } else {
      var w := u.scheme.value;
      assert s[..|w|] == w;
      assert SeparatorAt(s, |w|);
      assert forall i | 0 <= i < |w| :: s[i] == w[i] != ':' as int;
      SeparatorFirst(s, |w|);
      LowerIs(w);
    }
  }

  // --- host -----------------------------------------------------------------------------------

  lemma HostReads(u: Url)
    requires u.HostOk() && u.PortOk()
    ensures HostLength(u.HostText() + (u.PortText() + u.tail)) == Some(|u.HostText()|)
  {
    hide Port.Valid, Run;
    var t, after := u.HostText(), u.PortText() + u.tail;
    var s := t + after;
    if u.literal {
      assert forall i | 0 <= i < |u.host| + 1 :: s[i] == if i == 0 then OPEN else u.host[i - 1];
      assert s[|u.host| + 1] == CLOSE;
      RunIs(s, NotClose, |u.host| + 1);
    } else {
      assert forall i | 0 <= i < |t| :: s[i] == u.host[i];
      assert after != [] ==> s[|t|] == after[0] && !InHost(after[0]);
      RunIs(s, InHost, |t|);
    }
  }

  lemma HostNameIs(u: Url)
    requires u.HostOk()
    ensures F.HostName(u.HostText()) == u.host
  {}

  // --- port -----------------------------------------------------------------------------------

  lemma PortReads(p: Port, tail: Bytes)
    requires p.Valid() && (tail == [] || !IsDigit(tail[0]))
    ensures PortLength(p.Text() + tail) == Some(|p.Text()|) && ReadPort(p.Text() + tail).number == p.number
  {
    hide Run, IsDec, IsWhite, Decimal, IsDigit;
    assert p.digits != [] by { DecNotEmpty(p.digits, p.number); }
    DecimalIs(p.digits, p.number);
    forall i | 0 <= i < |p.white|
      ensures IsSpace(p.white[i])
    {
      WhiteIs(p.white[i]);
    }
    PortParts(p.white, if p.plus then [PLUS] else [], p.digits, tail);
  }

  lemma PortParts(white: Bytes, sign: Bytes, digits: Bytes, tail: Bytes)
    requires (forall i | 0 <= i < |white| :: IsSpace(white[i])) && (sign == [PLUS] || sign == [])
    requires digits != [] && (forall i | 0 <= i < |digits| :: IsDigit(digits[i])) && (tail == [] || !IsDigit(tail[0]))
    ensures ReadPort(white + sign + digits + tail) == PortText(|white + sign + digits|, false, Decimal(digits))
  {
    hide Run, Decimal;
    var t, w, k := white + sign + digits + tail, |white|, |white + sign|;
    assert forall i | 0 <= i < w :: t[i] == white[i];
    assert IsDigit(digits[0]);
    assert t[w] == if sign == [] then digits[0] else PLUS;
    RunIs(t, IsSpace, w);
    assert t[k..] == digits + tail && t[k..k + |digits|] == digits;
    DigitsEnd(digits, tail);
  }

  lemma DigitsEnd(digits: Bytes, tail: Bytes)
    requires (forall i | 0 <= i < |digits| :: IsDigit(digits[i])) && (tail == [] || !IsDigit(tail[0]))
    ensures Run(digits + tail, IsDigit) == |digits|
  {
    var r := digits + tail;
    assert forall i | 0 <= i < |digits| :: r[i] == digits[i];
    RunIs(r, IsDigit, |digits|);
  }

  lemma WhiteIs(c: Byte)
    ensures IsSpace(c) <==> IsWhite(c)
  {}

  // --- every URL is read ------------------------------------------------------------------------

  /** Where the parts lie. */
  lemma Places(u: Url)
    ensures var s, h, k := u.Text(), |u.SchemeText()|, |u.HostText()|;
            && h + k <= |s| && s[h..] == u.HostText() + (u.PortText() + u.tail)
            && s[h..h + k] == u.HostText() && s[h + k..] == u.PortText() + u.tail
  {
    hide Url.SchemeText, Url.HostText, Url.PortText;
  }

  lemma PortStarts(u: Url, s: Bytes, e: nat)
    requires u.PortOk() && e <= |s| && s[e..] == u.PortText() + u.tail
    ensures u.port.None? ==> e == |s| || s[e] != COLON
    ensures u.port.Some? ==> e < |s| && s[e] == COLON && s[e + 1..] == u.port.value.Text() + u.tail
  {
    hide Port.Text, Port.Valid;
    var r := s[e..];
    if u.port.None? {
      NoPort(u);
      assert r == u.tail;
      if e < |s| { assert s[e] == r[0]; }
    } else {
      var p := u.port.value.Text();
      assert r == [COLON] + (p + u.tail);
      assert s[e] == r[0] && s[e + 1..] == r[1..];
    }
  }

  lemma NoPort(u: Url)
    requires u.PortOk() && u.port.None?
    ensures u.tail == [] || u.tail[0] != COLON
  {}

  /** A URL is taken apart into its scheme, host and port, and its target is what is left. */
  lemma UrlReads(u: Url)
    requires u.Valid()
    ensures TargetStart(u.Text()) == Some(|u.Front()|)
    ensures F.AuthorityOf(u.Text()) == Some(F.Authority(u.host, u.Tls(), u.PortNumber()))
  {
    hide HostStart, HostLength, PortLength, ReadPort, Url.SchemeOk, Url.HostOk, Url.PortOk, F.HostName, F.IsTls,
         Url.SchemeText, Url.HostText, Url.Text, Url.Tls, Port.Text;
    var s, e := u.Text(), |u.SchemeText()| + |u.HostText()|;
    SchemeReads(u);
    HostReads(u);
    HostNameIs(u);
    Places(u);
    PortStarts(u, s, e);
    if u.port.Some? {
      PortIsValid(u);
      PortReads(u.port.value, u.tail);
    }
  }

  lemma PortIsValid(u: Url)
    requires u.PortOk() && u.port.Some?
    ensures u.port.value.Valid() && (u.tail == [] || !IsDigit(u.tail[0]))
  {}

  // --- nothing else is --------------------------------------------------------------------------

  lemma HostRead(t: Bytes) returns (literal: bool, host: Bytes)
    requires HostLength(t).Some?
    ensures var u := Url(None, literal, host, None, []);
            u.HostOk() && t[..HostLength(t).value] == u.HostText()
    ensures var k := HostLength(t).value; k < |t| ==> literal || t[k] as char in ":/?#"
  {
    literal := t != [] && t[0] == OPEN;
    if literal {
      host := LiteralRead(t);
    } else {
      host := NameRead(t);
    }
  }

  lemma LiteralRead(t: Bytes) returns (host: Bytes)
    requires HostLength(t).Some? && t != [] && t[0] == OPEN
    ensures |host| <= 256 && ']' as int !in host && t[..HostLength(t).value] == ['[' as int] + host + [']' as int]
  {
    hide Run;
    var k := HostLength(t).value;
    host := t[1..k - 1];
    assert forall i | 0 <= i < |host| :: host[i] == t[i + 1] && NotClose(t[i + 1]);
    assert t[k - 1] == CLOSE;
  }

  lemma NameRead(t: Bytes) returns (host: Bytes)
    requires HostLength(t).Some? && (t == [] || t[0] != OPEN)
    ensures var k := HostLength(t).value;
            && host == t[..k] && k <= 256 && (forall i | 0 <= i < k :: t[i] as char !in ":/?#")
            && (k < |t| ==> t[k] as char in ":/?#")
  {
    hide Run;
    var k := HostLength(t).value;
    host := t[..k];
    assert forall i | 0 <= i < k :: InHost(t[i]);
  }

  lemma PortRead(t: Bytes) returns (p: Port)
    requires PortLength(t).Some?
    ensures p.Valid() && t[..PortLength(t).value] == p.Text()
    ensures var k := PortLength(t).value; k < |t| ==> !IsDigit(t[k])
  {
    hide Run, IsDec, Decimal, IsWhite, IsDigit;
    var w := Run(t, IsSpace);
    var plus := w < |t| && t[w] == PLUS;
    var from := if plus then w + 1 else w;
    var digits := t[from..from + Run(t[from..], IsDigit)];
    assert digits != [] by { NoNumber(digits); }
    var number: nat := Decimal(digits);
    p := Port(t[..w], plus, digits, number);
    assert forall i | 0 <= i < |digits| :: digits[i] == t[from..][i];
    DecimalIs(digits, number);
    forall i | 0 <= i < w
      ensures IsWhite(t[..w][i])
    {
      WhiteIs(t[i]);
    }
    assert t[..from + |digits|] == t[..w] + (if plus then [PLUS] else []) + digits;
  }

  lemma NoNumber(digits: Bytes)
    requires Decimal(digits) >= 1
    ensures digits != []
  {}

  lemma SchemeRead(s: Bytes) returns (scheme: Option<Bytes>)
    requires HostStart(s).Some?
    ensures s[..HostStart(s).value] == Url(scheme, false, [], None, []).SchemeText()
    ensures scheme.Some? ==> IsWord(scheme.value, "http") || IsWord(scheme.value, "https")
    ensures scheme.None? ==> forall i: nat :: !SeparatorAt(s, i)
  {
    hide FindSeparator, Lower, IsWord;
    FindSeparatorIs(s);
    var at := FindSeparator(s);
    if at.None? {
      scheme := None;
    } else {
      scheme := Some(s[..at.value]);
      LowerIs(s[..at.value]);
      assert s[..at.value + 3] == s[..at.value] + COLON_SLASHES;
    }
  }

  /** The port after a host that ends at `e`, and where it ends. */
  lemma PortPart(s: Bytes, e: nat, literal: bool) returns (port: Option<Port>, end: nat)
    requires e <= |s| && (e < |s| && s[e] == COLON ==> PortLength(s[e + 1..]).Some?)
    requires e < |s| ==> literal || s[e] as char in ":/?#"
    ensures end == if e < |s| && s[e] == COLON then e + 1 + PortLength(s[e + 1..]).value else e
    ensures var u := Url(None, literal, [], port, s[end..]); s[e..end] == u.PortText() && u.PortOk()
  {
    hide PortLength, Port.Text, Port.Valid;
    if e < |s| && s[e] == COLON {
      var t := s[e + 1..];
      var p := PortRead(t);
      var n := PortLength(t).value;
      port, end := Some(p), e + 1 + n;
      assert s[e + 1..end] == t[..n];
      assert s[e..end] == [COLON] + s[e + 1..end];
      if end < |s| { assert s[end..][0] == t[n]; }
    } else {
      port, end := None, e;
      if end < |s| { assert s[end..][0] == s[e]; }
    }
  }

  lemma ReadIsUrl(s: Bytes) returns (u: Url)
    requires TargetStart(s).Some?
    ensures u.Valid() && u.Text() == s && |u.Front()| == TargetStart(s).value
  {
    hide HostStart, HostLength, PortLength, IsWord, SeparatorAt, Url.HostText, Url.HostOk, Url.PortText, Url.PortOk,
         Url.SchemeText, Url.Text;
    var h := HostStart(s).value;
    var scheme := SchemeRead(s);
    var k := HostLength(s[h..]).value;
    var literal, host := HostRead(s[h..]);
    if h + k < |s| { assert s[h..][k] == s[h + k]; }
    var port, e := PortPart(s, h + k, literal);
    u := Url(scheme, literal, host, port, s[e..]);
    var ported := Url(None, literal, [], port, s[e..]);
    SameParts(Url(scheme, false, [], None, []), Url(None, literal, host, None, []), ported, u);
    FrontIs(s, h, k, e, u);
  }

  lemma SameParts(x: Url, y: Url, z: Url, u: Url)
    requires u == Url(x.scheme, y.literal, y.host, z.port, z.tail) && z.literal == y.literal
    ensures u.SchemeText() == x.SchemeText() && u.HostText() == y.HostText() && u.PortText() == z.PortText()
    ensures u.HostOk() == y.HostOk() && u.PortOk() == z.PortOk()
  {}

  lemma FrontIs(s: Bytes, h: nat, k: nat, e: nat, u: Url)
    requires h + k <= e <= |s| && u.tail == s[e..]
    requires s[..h] == u.SchemeText() && s[h..][..k] == u.HostText() && s[h + k..e] == u.PortText()
    ensures u.Text() == s && |u.Front()| == e
  {
    hide Url.SchemeText, Url.HostText, Url.PortText;
    assert s[..h] + s[h..][..k] + s[h + k..e] == s[..e];
  }

  /** The client takes exactly the URLs, and the target of one starts where its port or host ends. */
  lemma UrlIs(s: Bytes, n: nat)
    ensures TargetStart(s) == Some(n) <==> exists u: Url :: u.Valid() && u.Text() == s && |u.Front()| == n
  {
    hide TargetStart, Url.Valid, Url.Text, Url.Front;
    if TargetStart(s) == Some(n) {
      var u := ReadIsUrl(s);
    }
    forall u: Url | u.Valid() && u.Text() == s && |u.Front()| == n
      ensures TargetStart(s) == Some(n)
    {
      UrlReads(u);
    }
  }

  /** What is sent is the target up to its fragment, with a slash before it when it has none. */
  lemma TargetIs(u: Url, path: Bytes, fragment: Bytes)
    requires u.Valid() && u.tail == path + fragment
    requires '#' as int !in path && (fragment != [] ==> fragment[0] == '#' as int)
    ensures var t := if path != [] && path[0] == '/' as int then path else ['/' as int] + path;
            Target(u.Text()) == if |t| <= 8192 then Some(t) else None
  {
    hide TargetStart, Url.Valid, Url.Front, Run;
    UrlReads(u);
    assert u.Text()[|u.Front()|..] == u.tail;
    assert forall i | 0 <= i < |path| :: u.tail[i] == path[i];
    RunIs(u.tail, NotHash, |path|);
    assert u.tail[..|path|] == path;
  }
}
