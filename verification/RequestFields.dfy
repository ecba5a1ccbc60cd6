/** The header fields a SCEP GET carries, and the server's reading of them. */
module RequestFields {
  import opened Bytes
  import opened HttpUrl
  import IpText
  import Ipv6Text
  import ServerReceive

  // --- what the client writes ---------------------------------------------------------------

  /** Host, whether TLS is used, and port, as the URL gives them. */
  datatype Authority = Authority(host: Bytes, tls: bool, port: int)

  function AuthorityOf(url: Bytes): (a: Option<Authority>)
    ensures a.Some? <==> TargetStart(url).Some?
  {
    if TargetStart(url).None? then None
    else
      var h := HostStart(url).value;
      var k := HostLength(url[h..]).value;
      var port := if h + k < |url| && url[h + k] == COLON then ReadPort(url[h + k + 1..]).number
                  else if IsTls(url) then 443 else 80;
      Some(Authority(HostName(url[h..h + k]), IsTls(url), port))
  }

  /** A bracketed host is kept without its brackets. */
  function HostName(text: Bytes): Bytes {
    if |text| >= 2 && text[0] == OPEN then text[1..|text| - 1] else text
  }

  predicate IsTls(url: Bytes) {
    var k := FindSeparator(url);
    k.None? || Lower(url[..k.value]) == HTTPS
  }

  /** Digits of a positive number. */
  function Digits(n: int): (t: Bytes)
    ensures forall i | 0 <= i < |t| :: IsDigit(t[i])
    decreases n
  {
    if n <= 0 then [] else Digits(n / 10) + [48 + n % 10]
  }

  /** An IPv6 literal gets its brackets back. */
  predicate IsIpv6(host: Bytes) { IpText.ReadDotted(host, 4).None? && Ipv6Text.ReadIpv6(host).Some? }

  /** Host:, User-Agent: wolfCert/0.1.0, Connection: keep-alive, Connection: close, Content-Length: 0 */
  const HOST: Bytes := [72, 111, 115, 116, 58, 32]
  const USER_AGENT: Bytes := [85, 115, 101, 114, 45, 65, 103, 101, 110, 116, 58, 32,
                              119, 111, 108, 102, 67, 101, 114, 116, 47, 48, 46, 49, 46, 48]
  const CONNECTION_KEEP: Bytes := [67, 111, 110, 110, 101, 99, 116, 105, 111, 110, 58, 32,
                                   107, 101, 101, 112, 45, 97, 108, 105, 118, 101]
  const CONNECTION_CLOSE: Bytes := [67, 111, 110, 110, 101, 99, 116, 105, 111, 110, 58, 32, 99, 108, 111, 115, 101]
  const NO_CONTENT: Bytes := [67, 111, 110, 116, 101, 110, 116, 45, 76, 101, 110, 103, 116, 104, 58, 32, 48]

  function HostField(a: Authority): Bytes {
    HOST + (if IsIpv6(a.host) then [OPEN] + a.host + [CLOSE] else a.host) +
    (if a.port == (if a.tls then 443 else 80) then [] else [COLON] + Digits(a.port))
  }

  function OtherFields(keepAlive: bool): Bytes {
    USER_AGENT + CRLF + ((if keepAlive then CONNECTION_KEEP else CONNECTION_CLOSE) + CRLF + (NO_CONTENT + CRLF + CRLF))
  }

  /** Everything of the request after its first line. */
  function Fields(a: Authority, keepAlive: bool): Bytes { HostField(a) + CRLF + OtherFields(keepAlive) }

  // --- what the server reads ------------------------------------------------------------------

  predicate NotLf(c: Byte) { c != LF }
  predicate NotColon(c: Byte) { c != COLON }
  predicate IsBlank(c: Byte) { c == SP || c == HT }

  /** content-length, transfer-encoding and chunked. */
  const CONTENT_LENGTH: Bytes := [99, 111, 110, 116, 101, 110, 116, 45, 108, 101, 110, 103, 116, 104]
  const TRANSFER_ENCODING: Bytes := [116, 114, 97, 110, 115, 102, 101, 114, 45, 101, 110, 99, 111, 100, 105, 110, 103]
  const CHUNKED: Bytes := [99, 104, 117, 110, 107, 101, 100]

  const ULONG_MAX := 0xFFFF_FFFF_FFFF_FFFF
  const MAX_REQUEST_BODY := 1024 * 1024

  datatype Framing = Framing(contentLength: nat, chunked: bool)

  predicate Named(line: Bytes, name: Bytes) {
    |line| > |name| && line[|name|] == COLON && Lower(line[..|name|]) == name
  }

  /** A blank before the colon is refused. */
  predicate BadName(line: Bytes) {
    var k := Run(line, NotColon);
    0 < k < |line| && IsBlank(line[k - 1])
  }

  /** Where the value starts in a line that has a colon. */
  function ValueAt(line: Bytes): (n: nat)
    ensures n <= |line|
  {
    var k := Run(line, NotColon);
    if k == |line| then k else k + 1 + Run(line[k + 1..], IsBlank)
  }

  function TrimEnd(v: Bytes): Bytes {
    if v != [] && IsBlank(v[|v| - 1]) then TrimEnd(v[..|v| - 1]) else v
  }

  function Negated(v: int): int { (ULONG_MAX + 1 - v) % (ULONG_MAX + 1) }

  /** strtoul, which skips blanks and newlines first and takes a sign. */
  function Strtoul(t: Bytes): (n: int) {
    var w := Run(t, IsSpace);
    var sign := if w < |t| && (t[w] == PLUS || t[w] == MINUS) then 1 else 0;
    var v := Decimal(t[w + sign..w + sign + Run(t[w + sign..], IsDigit)]);
    if v > ULONG_MAX then ULONG_MAX
    else if sign == 1 && t[w] == MINUS then Negated(v)
    else v
  }

  /** What a field line makes of the framing, None when it is refused; `after` is what follows the line. */
  function FieldRead(line: Bytes, after: Bytes, f: Framing): Option<Framing> {
    if BadName(line) then None
    else if Named(line, CONTENT_LENGTH) then
      var n := Strtoul(line[ValueAt(line)..] + after);
      Some(f.(contentLength := if n < 0 then 0 else n))
    else if Named(line, TRANSFER_ENCODING) then
      if f.chunked || Lower(TrimEnd(line[ValueAt(line)..])) != CHUNKED then None else Some(f.(chunked := true))
    else Some(f)
  }

  datatype Block = Refused | Block(framing: Framing, rest: Bytes)

  /** Field lines up to a blank one, or to the end of what has no newline. */
  function ReadFields(s: Bytes, f: Framing): Block
    decreases |s|
  {
    var n := Run(s, NotLf);
    if n == |s| then Block(f, s)
    else
      var end := if n > 0 && s[n - 1] == CR then n - 1 else n;
      if end == 0 then Block(f, s[n + 1..])
      else match FieldRead(s[..end], s[end..], f)
        case None => Refused
        case Some(g) => ReadFields(s[n + 1..], g)
  }

  /** The fields are taken, and the body they announce is there. */
  predicate Accepts(s: Bytes) {
    match ReadFields(s, Framing(0, false))
    case Refused => false
    case Block(f, rest) =>
      if f.chunked then ServerReceive.Framed(rest, MAX_REQUEST_BODY).Body?
      else f.contentLength <= MAX_REQUEST_BODY && f.contentLength <= |rest|
  }

  // --- a host without a newline does no harm -------------------------------------------------------

  lemma LineRead(line: Bytes, rest: Bytes, f: Framing)
    requires line != [] && LF !in line
    ensures ReadFields(line + CRLF + rest, f) ==
            match FieldRead(line, CRLF + rest, f) case None => Refused case Some(g) => ReadFields(rest, g)
  {
    hide FieldRead, Run;
    var s := line + CRLF + rest;
    var n := |line| + 1;
    assert s[n] == LF && s[n - 1] == CR;
    assert forall i | 0 <= i < n :: s[i] == if i < |line| then line[i] else CR;
    RunIs(s, NotLf, n);
    assert s[..n - 1] == line && s[n - 1..] == CRLF + rest && s[n + 1..] == rest;
  }

  lemma BlankRead(f: Framing)
    ensures ReadFields(CRLF, f) == Block(f, [])
  {
    RunIs(CRLF, NotLf, 1);
  }

  /** A line with a clean name that is neither of the two fields changes nothing. */
  lemma OtherField(line: Bytes, after: Bytes, f: Framing, k: nat)
    requires 0 < k < |line| && line[k] == COLON && !IsBlank(line[k - 1])
    requires forall i | 0 <= i < k :: line[i] != COLON
    requires !Named(line, CONTENT_LENGTH) && !Named(line, TRANSFER_ENCODING)
    ensures FieldRead(line, after, f) == Some(f)
  {
    RunIs(line, NotColon, k);
  }

  lemma NotNamed(line: Bytes)
    requires line != [] && line[0] !in {67, 99, 84, 116}
    ensures !Named(line, CONTENT_LENGTH) && !Named(line, TRANSFER_ENCODING)
  {
    assert |line| > 14 ==> Lower(line[..14])[0] != CONTENT_LENGTH[0];
    assert |line| > 17 ==> Lower(line[..17])[0] != TRANSFER_ENCODING[0];
  }

  lemma HostRead(a: Authority, after: Bytes, f: Framing)
    ensures FieldRead(HostField(a), after, f) == Some(f)
  {
    hide FieldRead, IsIpv6, Digits;
    HostLineRead(HostField(a), after, f);
  }

  lemma AgentRead(after: Bytes, f: Framing)
    ensures FieldRead(USER_AGENT, after, f) == Some(f) && LF !in USER_AGENT
  {
    hide FieldRead;
    NotNamed(USER_AGENT);
    OtherField(USER_AGENT, after, f, 10);
  }

  lemma ConnectionRead(keepAlive: bool, after: Bytes, f: Framing)
    ensures var line := if keepAlive then CONNECTION_KEEP else CONNECTION_CLOSE;
            FieldRead(line, after, f) == Some(f) && LF !in line
  {
    hide FieldRead;
    var line := if keepAlive then CONNECTION_KEEP else CONNECTION_CLOSE;
    assert !Named(line, TRANSFER_ENCODING) by {
      assert |line| > 17 ==> Lower(line[..17])[0] == 99;
    }
    assert !Named(line, CONTENT_LENGTH) by {
      assert Lower(line[..14])[3] == 110;
    }
    OtherField(line, after, f, 10);
  }

  lemma ZeroRead(rest: Bytes)
    requires rest != [] && !IsDigit(rest[0])
    ensures Strtoul([48] + rest) == 0
  {
    var t := [48] + rest;
    RunIs(t, IsSpace, 0);
    assert t[0..] == t;
    RunIs(t, IsDigit, 1);
    assert t[0..1] == [48] && [48][..0] == [];
    assert Decimal([48]) == 0;
  }

  lemma NoContentRead(f: Framing)
    ensures FieldRead(NO_CONTENT, CRLF + CRLF, f) == Some(f.(contentLength := 0)) && LF !in NO_CONTENT
  {
    hide Strtoul, Run;
    RunIs(NO_CONTENT, NotColon, 14);
    assert NO_CONTENT[15..] == [32, 48];
    RunIs([32, 48], IsBlank, 1);
    assert Lower(NO_CONTENT[..14]) == CONTENT_LENGTH;
    assert NO_CONTENT[16..] == [48];
    ZeroRead(CRLF + CRLF);
  }

  lemma PlainFields(a: Authority, keepAlive: bool)
    requires LF !in a.host
    ensures Accepts(Fields(a, keepAlive))
  {
    hide FieldRead, HostField;
    var f := Framing(0, false);
    var connection := if keepAlive then CONNECTION_KEEP else CONNECTION_CLOSE;
    var last := NO_CONTENT + CRLF + CRLF;
    var third := connection + CRLF + last;
    var second := USER_AGENT + CRLF + third;
    HostHasNoNewline(a);
    HostRead(a, CRLF + second, f);
    LineRead(HostField(a), second, f);
    AgentRead(CRLF + third, f);
    LineRead(USER_AGENT, third, f);
    ConnectionRead(keepAlive, CRLF + last, f);
    LineRead(connection, last, f);
    NoContentRead(f);
    LineRead(NO_CONTENT, CRLF, f);
    BlankRead(f);
  }

  lemma HostHasNoNewline(a: Authority)
    requires LF !in a.host
    ensures HostField(a) != [] && LF !in HostField(a)
  {
    hide IsIpv6;
    assert LF !in Digits(a.port);
    assert LF !in HOST;
  }

  /** The header loop of the server, line by line. */
  method ReadRequestFields(s: Bytes) returns (b: Block)
    ensures b == ReadFields(s, Framing(0, false))
  {
    hide FieldRead, Run;
    var p, f := s, Framing(0, false);
    while true
      invariant ReadFields(s, Framing(0, false)) == ReadFields(p, f)
      decreases |p|
    {
      var n := Run(p, NotLf);
      if n == |p| {
        return Block(f, p);
      }
      var end := if n > 0 && p[n - 1] == CR then n - 1 else n;
      if end == 0 {
        return Block(f, p[n + 1..]);
      }
      var g := FieldRead(p[..end], p[end..], f);
      if g.None? {
        return Refused;
      }
      p, f := p[n + 1..], g.value;
    }
  }

  // --- the query does not change the fields -----------------------------------------------------------

  lemma AuthorityExtends(base: Bytes, ext: Bytes)
    requires QueryFor(base, ext)
    ensures AuthorityOf(base + ext) == AuthorityOf(base)
  {
    hide TargetStart, HostStart, HostLength, ReadPort, FindSeparator, Lower;
    var s := base + ext;
    TargetStartExtends(base, ext);
    if TargetStart(base).Some? {
      TargetParts(base);
      HostStartExtends(base, ext);
      SeparatorExtends(base, ext);
      assert FindSeparator(base).Some? ==> s[..FindSeparator(base).value] == base[..FindSeparator(base).value];
      var h := HostStart(base).value;
      assert s[h..] == base[h..] + ext;
      HostExtends(base[h..], ext);
      var e := h + HostLength(base[h..]).value;
      assert s[h..e] == base[h..e];
      assert s[e] == if e < |base| then base[e] else ext[0];
      if e < |base| {
        assert s[e + 1..] == base[e + 1..] + ext;
        PortExtends(base[e + 1..], ext);
      }
    }
  }

  lemma TargetParts(url: Bytes)
    requires TargetStart(url).Some?
    ensures HostStart(url).Some? && HostLength(url[HostStart(url).value..]).Some?
    ensures var h := HostStart(url).value;
            var e := h + HostLength(url[h..]).value;
            e < |url| && url[e] == COLON ==> PortLength(url[e + 1..]).Some?
  {
    hide HostStart, HostLength, ReadPort;
  }

  // --- sizes ----------------------------------------------------------------------------------------------

  function Pow10(k: nat): int { if k == 0 then 1 else 10 * Pow10(k - 1) }

  lemma {:induction false} DigitsBound(n: int, k: nat)
    requires n < Pow10(k)
    ensures |Digits(n)| <= k
    decreases k
  {
    if n > 0 && k > 0 {
      assert n / 10 < Pow10(k - 1);
      DigitsBound(n / 10, k - 1);
    }
  }

  lemma HostIsShort(url: Bytes)
    requires TargetStart(url).Some?
    ensures |AuthorityOf(url).value.host| <= MAX_HOST && AuthorityOf(url).value.port <= 65535
  {
    hide TargetStart, HostStart, Run, ReadPort, FindSeparator;
    TargetParts(url);
  }

  lemma FieldsAreShort(a: Authority, keepAlive: bool)
    requires |a.host| <= MAX_HOST && a.port <= 65535
    ensures |Fields(a, keepAlive)| <= MAX_HOST + 256
  {
    hide IsIpv6, Digits;
    assert Pow10(5) == 100000 by { assert Pow10(2) == 100 && Pow10(4) == 10000; }
    DigitsBound(a.port, 5);
  }

  /** A newline in the host, then a blank before a colon: the server refuses the line it makes. */
  lemma BrokenHost(x: Bytes, y: Bytes, f: Framing)
    requires LF !in x && LF in y
    ensures ReadFields(HOST + x + [LF] + ([SP, COLON] + y), f) == Refused
  {
    hide FieldRead, Run;
    var first, rest := HOST + x, [SP, COLON] + y;
    var s := first + [LF] + rest;
    var n := |first|;
    assert s[n] == LF && forall i | 0 <= i < n :: s[i] == first[i];
    assert LF !in HOST;
    RunIs(s, NotLf, n);
    assert s[n + 1..] == rest;
    var end := if s[n - 1] == CR then n - 1 else n;
    assert s[..end] == first[..end];
    HostLineRead(s[..end], s[end..], f);
    BlankBeforeColon(y, f);
  }

  lemma HostLineRead(line: Bytes, after: Bytes, f: Framing)
    requires HOST[..5] <= line
    ensures FieldRead(line, after, f) == Some(f)
  {
    hide FieldRead;
    assert line[0] == 72 && line[1] == 111 && line[2] == 115 && line[3] == 116 && line[4] == COLON;
    NotNamed(line);
    OtherField(line, after, f, 4);
  }

  lemma BlankBeforeColon(y: Bytes, f: Framing)
    requires LF in y
    ensures ReadFields([SP, COLON] + y, f) == Refused
  {
    hide Run;
    var s := [SP, COLON] + y;
    var i :| 0 <= i < |y| && y[i] == LF;
    assert s[i + 2] == LF;
    var n := Run(s, NotLf);
    assert 2 <= n <= i + 2 by {
      assert forall j | 0 <= j < n :: NotLf(s[j]);
    }
    var end := if s[n - 1] == CR then n - 1 else n;
    var line := s[..end];
    assert line[0] == SP && line[1] == COLON;
    RunIs(line, NotColon, 1);
  }

  lemma BrokenFields(x: Bytes, y: Bytes, keepAlive: bool)
    requires LF !in x
    ensures !Accepts(Fields(Authority(x + [LF, SP, COLON] + y, true, 443), keepAlive))
  {
    hide ReadFields, IsIpv6, Digits, OtherFields;
    var a := Authority(x + [LF, SP, COLON] + y, true, 443);
    var open, close := if IsIpv6(a.host) then [OPEN] else [], if IsIpv6(a.host) then [CLOSE] else [];
    var rest := CRLF + OtherFields(keepAlive);
    assert HostField(a) == HOST + open + a.host + close;
    HostPieces(HOST, open, x, y, close, rest);
    assert (y + close + rest)[|y + close| + 1] == LF;
    BrokenHost(open + x, y + close + rest, Framing(0, false));
    assert HostField(a) + CRLF + OtherFields(keepAlive) == HostField(a) + rest;
  }

  lemma HostPieces(h: Bytes, o: Bytes, x: Bytes, y: Bytes, c: Bytes, rest: Bytes)
    ensures h + o + (x + [LF, SP, COLON] + y) + c + rest == h + (o + x) + [LF] + ([SP, COLON] + (y + c + rest))
  {}
}
