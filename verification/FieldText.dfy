/** Request fields as texts: what the Host field says, and which field lines the server takes as what. */
module FieldText {
  import opened Bytes
  import opened Numerals
  import opened HttpUrl
  import opened RequestFields
  import ServerReceive
  import U = UrlText
  import V4 = IpText
  import V6 = Ipv6Text

  // --- the Host field -------------------------------------------------------------------------

  lemma {:induction false} DigitsAre(n: nat)
    requires n > 0
    ensures IsDec(Digits(n), n)
    decreases n
  {
    var d := Digits(n);
    assert d[..|d| - 1] == Digits(n / 10);
    DigitIs(d[|d| - 1], n % 10);
    if n >= 10 { DigitsAre(n / 10); }
  }

  /** What follows the field's name. */
  function HostValue(a: Authority): Bytes { HostField(a)[6..] }

  /** The URL that names the same host and port. */
  function Named(a: Authority): U.Url {
    var scheme: Bytes := if a.tls then [104, 116, 116, 112, 115] else [104, 116, 116, 112];
    var port := if a.port == (if a.tls then 443 else 80) then None
                else Some(U.Port([], false, Digits(a.port), if a.port > 0 then a.port else 0));
    U.Url(Some(scheme), IsIpv6(a.host), a.host, port, [])
  }

  /**
   * The Host field names the host and port the request goes to: after the scheme it is a URL of that authority, for
   * any host that needs no brackets and any IPv6 address.
   */
  lemma HostFieldNames(a: Authority)
    requires |a.host| <= 256 && 1 <= a.port <= 65535
    requires if IsIpv6(a.host) then ']' as int !in a.host
             else (forall i | 0 <= i < |a.host| :: a.host[i] as char !in ":/?#") && (a.host != [] ==> a.host[0] != OPEN)
    ensures HostField(a)[..6] == HOST
    ensures AuthorityOf((if a.tls then HTTPS else HTTP) + SEPARATOR + HostValue(a)) == Some(a)
  {
    hide IsIpv6, AuthorityOf, Digits, HostField, U.Url.Valid, U.Url.Text;
    NamedText(a);
    NamedIsUrl(a);
    U.UrlReads(Named(a));
  }

  lemma NamedIsUrl(a: Authority)
    requires |a.host| <= 256 && 1 <= a.port <= 65535
    requires if IsIpv6(a.host) then ']' as int !in a.host
             else (forall i | 0 <= i < |a.host| :: a.host[i] as char !in ":/?#") && (a.host != [] ==> a.host[0] != OPEN)
    ensures Named(a).Valid()
  {
    hide IsIpv6, Digits, IsDec;
    DigitsAre(a.port);
  }

  lemma NamedText(a: Authority)
    requires 1 <= a.port
    ensures HostField(a)[..6] == HOST
    ensures Named(a).Text() == (if a.tls then HTTPS else HTTP) + SEPARATOR + HostValue(a)
  {
    hide IsIpv6, Digits;
    var u := Named(a);
    var value := u.HostText() + u.PortText();
    assert HostField(a) == HOST + value by { HostPieces(a); }
    hide HostField, U.Url.HostText, U.Url.PortText, U.Url.SchemeText, U.Url.Text, Named;
    assert (HOST + value)[6..] == value && (HOST + value)[..6] == HOST;
    NamedScheme(a);
    assert u.Text() == u.SchemeText() + value + [] == u.SchemeText() + value by { NamedWhole(a); }
  }

  lemma HostPieces(a: Authority)
    requires 1 <= a.port
    ensures HostField(a) == HOST + (Named(a).HostText() + Named(a).PortText())
  {
    hide IsIpv6, Digits, Named, U.Url.HostText, U.Url.PortText;
    NamedHost(a);
    NamedPort(a);
    var host, port := Named(a).HostText(), Named(a).PortText();
    assert HOST + host + port == HOST + (host + port);
  }

  lemma NamedHost(a: Authority)
    ensures Named(a).HostText() == if IsIpv6(a.host) then [OPEN] + a.host + [CLOSE] else a.host
  {
    hide IsIpv6, Digits;
  }

  lemma NamedPort(a: Authority)
    requires 1 <= a.port
    ensures Named(a).PortText() == if a.port == (if a.tls then 443 else 80) then [] else [COLON] + Digits(a.port)
  {
    hide IsIpv6, Digits;
    var d := Digits(a.port);
    assert [] + [] + d == d;
  }

  lemma NamedScheme(a: Authority)
    ensures Named(a).SchemeText() == (if a.tls then HTTPS else HTTP) + SEPARATOR
  {
    hide IsIpv6, Digits;
  }

  lemma NamedWhole(a: Authority)
    ensures Named(a).Text() == Named(a).SchemeText() + (Named(a).HostText() + Named(a).PortText()) + []
  {
    hide IsIpv6, Digits, U.Url.SchemeText, U.Url.HostText, U.Url.PortText;
  }

  /** The fields the client writes. */
  lemma FieldWords()
    ensures IsText(HOST, "Host: ") && IsText(USER_AGENT, "User-Agent: wolfCert/0.1.0")
    ensures IsText(NO_CONTENT, "Content-Length: 0")
  {}

  lemma ConnectionWords()
    ensures IsText(CONNECTION_KEEP, "Connection: keep-alive") && IsText(CONNECTION_CLOSE, "Connection: close")
  {}

  // --- field lines -----------------------------------------------------------------------------

  predicate AllBlank(s: Bytes) { forall i | 0 <= i < |s| :: s[i] == ' ' as int || s[i] == '\t' as int }

  lemma LowerWord(s: Bytes, w: string, lower: Bytes)
    requires |w| == |lower| && forall i | 0 <= i < |w| :: w[i] as int == lower[i]
    requires forall i | 0 <= i < |w| :: 'a' <= w[i] <= 'z' || w[i] == '-'
    ensures Lower(s) == lower <==> U.IsWord(s, w)
  {
    var t := Lower(s);
    assert forall i | 0 <= i < |s| :: t[i] == if 65 <= s[i] <= 90 then s[i] + 32 else s[i];
  }

  /** A name without colon, and the value after a colon and blanks. */
  lemma LineParts(name: Bytes, blanks: Bytes, value: Bytes)
    requires COLON !in name && name != [] && AllBlank(blanks) && (value == [] || !IsBlank(value[0]))
    ensures var line := name + [COLON] + blanks + value;
            && Run(line, NotColon) == |name| < |line| && line[..|name|] == name && line[|name|] == COLON
            && ValueAt(line) == |name| + 1 + |blanks| && line[ValueAt(line)..] == value
            && (BadName(line) <==> IsBlank(name[|name| - 1]))
  {
    hide Run;
    var line, k := name + [COLON] + blanks + value, |name|;
    assert forall i | 0 <= i < k :: line[i] == name[i];
    RunIs(line, NotColon, k);
    var r := line[k + 1..];
    assert r == blanks + value;
    assert forall i | 0 <= i < |blanks| :: r[i] == blanks[i];
    RunIs(r, IsBlank, |blanks|);
  }

  /** A Content-Length, in any case and with any blanks before it, is the number written. */
  lemma LengthField(name: Bytes, blanks: Bytes, digits: Bytes, n: nat, rest: Bytes, after: Bytes, f: Framing)
    requires U.IsWord(name, "content-length") && AllBlank(blanks)
    requires IsDec(digits, n) && n <= 0xFFFF_FFFF_FFFF_FFFF
    requires rest + after == [] || !IsDigit((rest + after)[0])
    ensures FieldRead(name + [COLON] + blanks + (digits + rest), after, f) == Some(f.(contentLength := n))
  {
    hide Run, IsDec, Strtoul, ValueAt, BadName, Lower, IsDigit;
    var value := digits + rest;
    var line := name + [COLON] + blanks + value;
    assert digits != [] by { DecNotEmpty(digits, n); }
    DecimalIs(digits, n);
    assert value[0] == digits[0] && !IsBlank(value[0]) by { DigitIsNoBlank(digits[0]); }
    assert COLON !in name;
    LineParts(name, blanks, value);
    LowerWord(name, "content-length", CONTENT_LENGTH);
    assert name[|name| - 1] == 'h' as int || name[|name| - 1] == 'H' as int;
    assert value + after == digits + (rest + after);
    Number(digits, rest + after);
  }

  lemma DigitIsNoBlank(c: Byte)
    requires IsDigit(c)
    ensures !IsBlank(c) && !IsSpace(c) && c != PLUS && c != MINUS
  {}

  lemma Number(digits: Bytes, rest: Bytes)
    requires digits != [] && (forall i | 0 <= i < |digits| :: IsDigit(digits[i])) && (rest == [] || !IsDigit(rest[0]))
    requires 0 <= Decimal(digits) <= ULONG_MAX
    ensures Strtoul(digits + rest) == Decimal(digits)
  {
    hide Run, Decimal, IsDigit, IsSpace;
    var t := digits + rest;
    assert t[0] == digits[0];
    DigitIsNoBlank(digits[0]);
    RunIs(t, IsSpace, 0);
    assert t[0..] == t && t[0..|digits|] == digits;
    U.DigitsEnd(digits, rest);
  }

  /** A Transfer-Encoding is taken once, and only as chunked. */
  lemma CodingField(name: Bytes, blanks: Bytes, word: Bytes, pad: Bytes, after: Bytes, f: Framing)
    requires U.IsWord(name, "transfer-encoding") && AllBlank(blanks) && AllBlank(pad)
    requires word != [] && !AllBlank(word[..1]) && !AllBlank(word[|word| - 1..])
    ensures FieldRead(name + [COLON] + blanks + (word + pad), after, f) ==
            if f.chunked || !U.IsWord(word, "chunked") then None else Some(f.(chunked := true))
  {
    hide Run, ValueAt, BadName, Lower, Strtoul, TrimEnd;
    var value := word + pad;
    assert value[0] == word[0] && !IsBlank(word[0]);
    assert COLON !in name;
    LineParts(name, blanks, value);
    LowerWord(name, "transfer-encoding", TRANSFER_ENCODING);
    LowerWord(word, "chunked", CHUNKED);
    assert name[|name| - 1] == 'g' as int || name[|name| - 1] == 'G' as int;
    assert !IsBlank(word[|word| - 1]);
    Trimmed(word, pad);
  }

  lemma {:induction false} Trimmed(word: Bytes, pad: Bytes)
    requires word != [] && !IsBlank(word[|word| - 1]) && AllBlank(pad)
    ensures TrimEnd(word + pad) == word
    decreases |pad|
  {
    var v := word + pad;
    if pad == [] {
      assert v == word;
    } else {
      assert v[..|v| - 1] == word + pad[..|pad| - 1];
      Trimmed(word, pad[..|pad| - 1]);
    }
  }

  /** A name with a blank before its colon is refused, and a line without a colon says nothing. */
  lemma OddLines(name: Bytes, value: Bytes, after: Bytes, f: Framing)
    requires COLON !in name && name != []
    ensures name[|name| - 1] == ' ' as int || name[|name| - 1] == '\t' as int ==>
              FieldRead(name + [COLON] + value, after, f) == None
    ensures FieldRead(name, after, f) == Some(f)
  {
    hide Run, ValueAt, Strtoul, Lower;
    var line := name + [COLON] + value;
    assert forall i | 0 <= i < |name| :: line[i] == name[i];
    RunIs(line, NotColon, |name|);
    RunIs(name, NotColon, |name|);
  }

  /** A minus sign wraps the number around, as strtoul has it. */
  lemma NegativeLength(name: Bytes, digits: Bytes, n: nat, rest: Bytes, after: Bytes, f: Framing)
    requires U.IsWord(name, "content-length") && IsDec(digits, n) && n <= 0xFFFF_FFFF_FFFF_FFFF
    requires rest + after == [] || !IsDigit((rest + after)[0])
    ensures FieldRead(name + [COLON] + [] + ([MINUS] + digits + rest), after, f) ==
            Some(f.(contentLength := if n == 0 then 0 else 0x1_0000_0000_0000_0000 - n))
  {
    hide Run, IsDec, Strtoul, ValueAt, BadName, Lower, IsDigit;
    var value := [MINUS] + digits + rest;
    DecNotEmpty(digits, n);
    DecimalIs(digits, n);
    assert COLON !in name;
    LineParts(name, [], value);
    LowerWord(name, "content-length", CONTENT_LENGTH);
    assert name[|name| - 1] == 'h' as int || name[|name| - 1] == 'H' as int;
    assert value + after == [MINUS] + (digits + (rest + after));
    NegativeNumber(digits, rest + after);
  }

  lemma NegativeNumber(digits: Bytes, rest: Bytes)
    requires digits != [] && (forall i | 0 <= i < |digits| :: IsDigit(digits[i])) && (rest == [] || !IsDigit(rest[0]))
    requires 0 <= Decimal(digits) <= 0xFFFF_FFFF_FFFF_FFFF
    ensures var v := Decimal(digits);
            Strtoul([MINUS] + (digits + rest)) == if v == 0 then 0 else 0x1_0000_0000_0000_0000 - v
  {
    hide Run, Decimal, IsDigit, Strtoul, Negated;
    var t := [MINUS] + (digits + rest);
    assert Run(t, IsSpace) == 0 by { RunIs(t, IsSpace, 0); }
    assert t[1..] == digits + rest && t[1..1 + |digits|] == digits;
    U.DigitsEnd(digits, rest);
    StrtoulOfMinus(t, |digits|);
    Wrapped(Decimal(digits));
  }

  lemma StrtoulOfMinus(t: Bytes, d: nat)
    requires t != [] && t[0] == MINUS && Run(t, IsSpace) == 0 && 1 + d <= |t| && Run(t[1..], IsDigit) == d
    ensures var v := Decimal(t[1..1 + d]);
            Strtoul(t) == if v > ULONG_MAX then ULONG_MAX else Negated(v)
  {
    hide Run, Decimal, Negated;
  }

  lemma Wrapped(v: int)
    requires 0 <= v <= ULONG_MAX
    ensures Negated(v) == if v == 0 then 0 else ULONG_MAX + 1 - v
  {}

  // --- whole field blocks ------------------------------------------------------------------------

  lemma BlankLine(rest: Bytes, f: Framing)
    ensures ReadFields(CRLF + rest, f) == Block(f, rest)
  {
    hide Run, FieldRead;
    var s := CRLF + rest;
    assert s[0] == CR && s[1] == LF;
    RunIs(s, NotLf, 1);
    assert s[2..] == rest;
  }

  /** A request with a length is accepted exactly when that is at most 1 MiB and as many bytes follow. */
  lemma LengthIsAccepted(name: Bytes, blanks: Bytes, digits: Bytes, n: nat, body: Bytes)
    requires U.IsWord(name, "content-length") && AllBlank(blanks)
    requires IsDec(digits, n) && n <= 0xFFFF_FFFF_FFFF_FFFF
    ensures Accepts(name + [COLON] + blanks + digits + CRLF + CRLF + body) <==> n <= 1048576 && n <= |body|
  {
    hide FieldRead, ReadFields, IsDec, Run;
    var line, rest, f := name + [COLON] + blanks + (digits + []), CRLF + body, Framing(0, false);
    DecNotEmpty(digits, n);
    DecimalIs(digits, n);
    assert digits + [] == digits;
    assert LF !in line;
    LengthField(name, blanks, digits, n, [], CRLF + rest, f);
    LineRead(line, rest, f);
    BlankLine(body, f.(contentLength := n));
    assert name + [COLON] + blanks + digits + CRLF + CRLF + body == line + CRLF + rest;
  }

  /** A chunked one is accepted exactly when a chunked body within 1 MiB follows. */
  lemma ChunkedIsAccepted(name: Bytes, blanks: Bytes, word: Bytes, pad: Bytes, body: Bytes)
    requires U.IsWord(name, "transfer-encoding") && AllBlank(blanks) && AllBlank(pad) && U.IsWord(word, "chunked")
    ensures Accepts(name + [COLON] + blanks + (word + pad) + CRLF + CRLF + body)
            <==> ServerReceive.Framed(body, 1048576).Body?
  {
    hide FieldRead, ReadFields, Run, ServerReceive.Framed;
    var line, rest, f := name + [COLON] + blanks + (word + pad), CRLF + body, Framing(0, false);
    assert LF !in line;
    assert word[..1][0] == word[0] && word[|word| - 1..][0] == word[|word| - 1];
    CodingField(name, blanks, word, pad, CRLF + rest, f);
    LineRead(line, rest, f);
    BlankLine(body, f.(chunked := true));
    assert name + [COLON] + blanks + (word + pad) + CRLF + CRLF + body == line + CRLF + rest;
  }

  // --- which hosts are bracketed ----------------------------------------------------------------

  /** The texts of IPv6 addresses, and no others; no dotted quad is one. */
  lemma Ipv6HostIs(host: Bytes)
    ensures IsIpv6(host) <==> exists r: V6.Rendering :: r.Valid() && r.Text() == host
  {
    hide V6.ReadIpv6, V6.Rendering.Valid, V6.Rendering.Text, V6.Rendering.Address, V4.ReadDotted;
    if V6.ReadIpv6(host).Some? {
      var r := V6.ReadIsRendering(host);
      if V4.ReadDotted(host, 4).Some? { QuadIsNoIpv6(host); }
    }
    forall r: V6.Rendering | r.Valid() && r.Text() == host
      ensures V6.ReadIpv6(host).Some?
    {
      V6.RenderingReads(r);
    }
  }

  lemma QuadIsNoIpv6(host: Bytes)
    requires V4.ReadDotted(host, 4).Some?
    ensures V6.ReadIpv6(host).None?
  {
    hide V4.ReadDotted, V4.Dotted, V6.ScanText;
    var q := V4.ReadDotted(host, 4).value;
    V4.Ipv4TextIs(host, q);
    V6.DottedHasDot(q);
    V6.GroupsStart(V6.Quad(q));
    V6.ScanQuad(host, [], None);
  }
}
