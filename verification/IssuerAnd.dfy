/** SCEP's IssuerAndSerialNumber and IssuerAndSubject: encoders, parser and their round trips. */
module IssuerAnd {
  import opened Bytes
  import opened Der

  const INT_LIMIT := 0x8000_0000

  /** A size as the 32-bit signed return value that carries it. */
  function ToInt(n: nat): int {
    var w := n % LIMIT;
    if w < INT_LIMIT then w else w - LIMIT
  }

  /** An integer without its leading zeros; one byte always stays. */
  function Magnitude(v: Bytes): (m: Bytes)
    ensures |m| <= |v| && (v != [] ==> m != [] && (m[0] != 0 || |m| == 1))
  {
    if |v| > 1 && v[0] == 0 then Magnitude(v[1..]) else v
  }

  lemma {:induction false} LeadingZero(t: Bytes)
    ensures BigEndian([0] + t) == BigEndian(t)
    decreases |t|
  {
    var s := [0] + t;
    if t != [] {
      assert s[..|s| - 1] == [0] + t[..|t| - 1];
      LeadingZero(t[..|t| - 1]);
    }
  }

  /** The number stays the same. */
  lemma {:induction false} MagnitudeKeepsValue(v: Bytes)
    ensures BigEndian(Magnitude(v)) == BigEndian(v)
    decreases |v|
  {
    if |v| > 1 && v[0] == 0 {
      assert v == [0] + v[1..];
      LeadingZero(v[1..]);
      MagnitudeKeepsValue(v[1..]);
    }
  }

  /** No leading zero, or the single byte 0. */
  predicate Canonical(m: Bytes) { m != [] && (m[0] != 0 || |m| == 1) }

  lemma {:induction false} CanonicalIsPositive(m: Bytes)
    requires Canonical(m) && m[0] != 0
    ensures BigEndian(m) > 0
    decreases |m|
  {
    if |m| > 1 {
      CanonicalIsPositive(m[..|m| - 1]);
    } else {
      assert m[..0] == [];
    }
  }

  lemma {:induction false} CanonicalIsUnique(a: Bytes, b: Bytes)
    requires Canonical(a) && Canonical(b) && BigEndian(a) == BigEndian(b)
    ensures a == b
    decreases |a|
  {
    var x, y := a[..|a| - 1], b[..|b| - 1];
    assert a == x + [a[|a| - 1]] && b == y + [b[|b| - 1]];
    assert BigEndian(x) == BigEndian(y) && a[|a| - 1] == b[|b| - 1];
    if x != [] { CanonicalIsPositive(x); }
    if y != [] { CanonicalIsPositive(y); }
    if x != [] && y != [] { CanonicalIsUnique(x, y); }
  }

  /** Two serials have the same magnitude exactly when they are the same number. */
  lemma SameMagnitudeIff(a: Bytes, b: Bytes)
    requires a != [] && b != []
    ensures Magnitude(a) == Magnitude(b) <==> BigEndian(a) == BigEndian(b)
  {
    hide BigEndian, Magnitude;
    MagnitudeKeepsValue(a);
    MagnitudeKeepsValue(b);
    if BigEndian(a) == BigEndian(b) {
      CanonicalIsUnique(Magnitude(a), Magnitude(b));
    }
  }

  function Pad(m: Bytes): Bytes { if m != [] && m[0] >= 0x80 then [0] else [] }

  /** The content octets of `v` as a positive INTEGER. */
  function IntContent(v: Bytes): Bytes { Pad(Magnitude(v)) + Magnitude(v) }

  method IntMagnitude(v: Bytes) returns (m: Bytes)
    ensures m == Magnitude(v)
  {
    m := v;
    while |m| > 1 && m[0] == 0
      invariant Magnitude(m) == Magnitude(v)
      decreases |m|
    {
      m := m[1..];
    }
  }

  /** The bytes of SEQUENCE { issuer, element }. */
  function Pair(issuer: Bytes, tag: Byte, content: Bytes): Bytes
    requires Fits(issuer, content)
  {
    Tlv(SEQUENCE, Tlv(SEQUENCE, issuer) + Tlv(tag, content))
  }

  /** Each element's size fits the return type, so the outer length fits four bytes. */
  predicate Fits(issuer: Bytes, content: Bytes) {
    |issuer| < LIMIT && |content| < LIMIT && TlvLen(|issuer|) < INT_LIMIT && TlvLen(|content|) < INT_LIMIT
  }

  // --- encoders -------------------------------------------------------------------

  /** Write tag, length and `pad + v` at `off` with `cap` bytes left; the size written, or -1. */
  method EncTlv(out: array<Byte>, off: nat, cap: nat, tag: Byte, pad: Bytes, v: Bytes) returns (n: int)
    requires off + cap <= out.Length
    modifies out
    ensures |pad + v| < LIMIT && TlvLen(|pad + v|) <= cap ==>
              n == ToInt(TlvLen(|pad + v|)) && out[..off + TlvLen(|pad + v|)] == old(out[..off]) + Tlv(tag, pad + v)
    ensures |pad + v| >= LIMIT || TlvLen(|pad + v|) > cap ==> n == -1
  {
    hide LenBytes;
    if cap < 1 {
      return -1;
    }
    ghost var before := out[..off];
    var vl := |pad + v|;
    Put(out, off, [tag]);
    var ll := DerPutLen(out, off + 1, cap - 1, vl);
    if ll < 0 || 1 + ll + vl > cap {
      return -1;
    }
    Put(out, off + 1 + ll, pad + v);
    assert before + [tag] + LenBytes(vl) + (pad + v) == before + ([tag] + LenBytes(vl) + (pad + v));
    return ToInt(1 + ll + vl);
  }

  lemma ToIntSigns(n: nat)
    requires n < LIMIT
    ensures if n < INT_LIMIT then ToInt(n) == n else ToInt(n) < 0
  {}

  /** The size of a TLV with `vl` content bytes, 0 when no four-byte length holds it. */
  function EncTlvLen(vl: nat): nat {
    if vl < LIMIT then TlvLen(vl) else 0
  }

  /**
   * Both encoders: the buffer is sized before anything is written, the parts
   * fill exactly the size their lengths promised, and the result is the DER of
   * the pair, for all names and contents whose sizes the return type can carry.
   */
  method PairDer(issuer: Bytes, tag: Byte, pad: Bytes, v: Bytes) returns (der: Option<Bytes>)
    requires |issuer| < INT_LIMIT
    ensures der == if Fits(issuer, pad + v) then Some(Pair(issuer, tag, pad + v)) else None
  {
    hide LenBytes, Tlv, ToInt;
    var issuerTlv := EncTlvLen(|issuer|);
    var nextTlv := EncTlvLen(|pad + v|);
    var inner := issuerTlv + nextTlv;
    var cap := inner + 8;
    var buf := new Byte[cap];
    Put(buf, 0, [SEQUENCE]);
    var ll := DerPutLen(buf, 1, cap - 1, inner);
    if ll < 0 {
      return None;
    }
    var off := 1 + ll;
    assert buf[..off] == [SEQUENCE] + LenBytes(inner);
    assert [] + issuer == issuer;
    ToIntSigns(TlvLen(|issuer|));
    var n := EncTlv(buf, off, cap - off, SEQUENCE, [], issuer);
    if n > 0 {
      off := off + n;
      if |pad + v| < LIMIT {
        ToIntSigns(TlvLen(|pad + v|));
      }
      n := EncTlv(buf, off, cap - off, tag, pad, v);
    }
    if n < 0 {
      return None;
    }
    off := off + n;
    PairBytes(issuer, tag, pad + v, inner);
    return Some(buf[..off]);
  }

  lemma PairBytes(issuer: Bytes, tag: Byte, content: Bytes, inner: nat)
    requires Fits(issuer, content) && inner == TlvLen(|issuer|) + TlvLen(|content|) < LIMIT
    ensures [SEQUENCE] + LenBytes(inner) + Tlv(SEQUENCE, issuer) + Tlv(tag, content) == Pair(issuer, tag, content)
  {
    hide LenBytes;
    assert [SEQUENCE] + LenBytes(inner) + Tlv(SEQUENCE, issuer) + Tlv(tag, content)
        == [SEQUENCE] + LenBytes(inner) + (Tlv(SEQUENCE, issuer) + Tlv(tag, content));
  }

  /** IssuerAndSerialNumber for a name and a serial; None for an empty one or sizes out of range. */
  method IssuerAndSerialDer(issuer: Bytes, serial: Bytes) returns (der: Option<Bytes>)
    requires |issuer| < INT_LIMIT
    ensures der == if issuer != [] && serial != [] && Fits(issuer, IntContent(serial))
                   then Some(Pair(issuer, INTEGER, IntContent(serial))) else None
  {
    if serial == [] || issuer == [] {
      return None;
    }
    var m := IntMagnitude(serial);
    der := PairDer(issuer, INTEGER, if m[0] >= 0x80 then [0] else [], m);
  }

  /** IssuerAndSubject for two names. */
  method IssuerAndSubjectDer(issuer: Bytes, subject: Bytes) returns (der: Option<Bytes>)
    requires |issuer| < INT_LIMIT && |subject| < INT_LIMIT
    ensures der == if issuer != [] && Fits(issuer, subject) then Some(Pair(issuer, SEQUENCE, subject)) else None
  {
    if issuer == [] {
      return None;
    }
    assert [] + subject == subject;
    der := PairDer(issuer, SEQUENCE, [], subject);
  }

  // --- parser and round trips -------------------------------------------------------

  /** Split SEQUENCE { issuer Name, element tagged `want` }, with nothing after it. */
  function ParseIssuerAnd(der: Bytes, want: Byte): Option<(Bytes, Bytes)> {
    match ReadTlv(der)
    case None => None
    case Some(outer) =>
      if outer.tag != SEQUENCE || outer.hdr + outer.len != |der| then None
      else
        var p := der[outer.hdr..];
        match ReadTlv(p)
        case None => None
        case Some(name) =>
          if name.tag != SEQUENCE then None
          else
            var q := p[name.hdr + name.len..];
            match ReadTlv(q)
            case None => None
            case Some(next) =>
              if next.tag != want || next.hdr + next.len != |q| then None
              else Some((p[name.hdr..name.hdr + name.len], q[next.hdr..]))
  }

  function ParseIssuerAndSerial(der: Bytes): Option<(Bytes, Bytes)> {
    match ParseIssuerAnd(der, INTEGER)
    case None => None
    case Some((issuer, serial)) => if serial == [] then None else Some((issuer, Magnitude(serial)))
  }

  function ParseIssuerAndSubject(der: Bytes): Option<(Bytes, Bytes)> {
    ParseIssuerAnd(der, SEQUENCE)
  }

  lemma PairParses(issuer: Bytes, tag: Byte, content: Bytes)
    requires Fits(issuer, content)
    ensures ParseIssuerAnd(Pair(issuer, tag, content), tag) == Some((issuer, content))
  {
    hide LenBytes, ReadTlv, Tlv;
    var second := Tlv(tag, content);
    var inner := Tlv(SEQUENCE, issuer) + second;
    TlvSize(SEQUENCE, issuer);
    TlvSize(tag, content);
    TlvSize(SEQUENCE, inner);
    var der := Tlv(SEQUENCE, inner);
    ReadsBack(SEQUENCE, inner, []);
    assert der + [] == der;
    ReadsBack(SEQUENCE, issuer, second);
    ReadsBack(tag, content, []);
    assert second + [] == second;
    var h := 1 + |LenBytes(|inner|)|;
    assert der[h..] == der[h..h + |inner|] == inner;
    var k := 1 + |LenBytes(|content|)|;
    assert second[k..] == second[k..k + |content|] == content;
  }

  lemma TlvSize(tag: Byte, content: Bytes)
    requires |content| < LIMIT
    ensures |Tlv(tag, content)| == TlvLen(|content|)
  {}

  lemma {:induction false} MagnitudeOfContent(v: Bytes)
    requires v != []
    ensures Magnitude(IntContent(v)) == Magnitude(v) && Magnitude(Magnitude(v)) == Magnitude(v)
  {
    var m := Magnitude(v);
    if m[0] >= 0x80 { assert ([0] + m)[1..] == m; }
    else { assert [] + m == m; }
  }

  /** Name and serial come back, the serial without its leading zeros. */
  lemma SerialRoundTrip(issuer: Bytes, serial: Bytes)
    requires serial != [] && Fits(issuer, IntContent(serial))
    ensures ParseIssuerAndSerial(Pair(issuer, INTEGER, IntContent(serial))) == Some((issuer, Magnitude(serial)))
  {
    hide Pair, ParseIssuerAnd, Fits, Magnitude;
    PairParses(issuer, INTEGER, IntContent(serial));
    MagnitudeOfContent(serial);
  }

  /** Both names come back. */
  lemma SubjectRoundTrip(issuer: Bytes, subject: Bytes)
    requires Fits(issuer, subject)
    ensures ParseIssuerAndSubject(Pair(issuer, SEQUENCE, subject)) == Some((issuer, subject))
  {
    PairParses(issuer, SEQUENCE, subject);
  }

  // --- what is accepted, and what is written ----------------------------------------------

  /** `der` is one SEQUENCE of a Name with this content and an element with that tag and content, and no more. */
  ghost predicate IsPair(der: Bytes, want: Byte, issuer: Bytes, content: Bytes) {
    exists a: Bytes, b: Bytes ::
      IsElement(a, SEQUENCE, issuer) && IsElement(b, want, content) && IsElement(der, SEQUENCE, a + b)
  }

  /** The parser accepts exactly the pairs. */
  lemma ParseIssuerAndIs(der: Bytes, want: Byte, issuer: Bytes, content: Bytes)
    ensures ParseIssuerAnd(der, want) == Some((issuer, content)) <==> IsPair(der, want, issuer, content)
  {
    hide ReadTlv, IsElement;
    if ParseIssuerAnd(der, want) == Some((issuer, content)) {
      PairRead(der, want);
    }
    forall a: Bytes, b: Bytes |
      IsElement(a, SEQUENCE, issuer) && IsElement(b, want, content) && IsElement(der, SEQUENCE, a + b)
      ensures ParseIssuerAnd(der, want) == Some((issuer, content))
    {
      ElementReads(der, SEQUENCE, a + b, []);
      assert der + [] == der && der[|der| - |a + b|..] == a + b;
      ElementReads(a, SEQUENCE, issuer, b);
      ElementReads(b, want, content, []);
      assert b + [] == b && b[|b| - |content|..] == content;
    }
  }

  lemma PairRead(der: Bytes, want: Byte)
    requires ParseIssuerAnd(der, want).Some?
    ensures var (issuer, content) := ParseIssuerAnd(der, want).value; IsPair(der, want, issuer, content)
  {
    hide ReadTlv, IsElement;
    var outer := ReadTlv(der).value;
    var p := der[outer.hdr..];
    var name := ReadTlv(p).value;
    var q := p[name.hdr + name.len..];
    var next := ReadTlv(q).value;
    ReadIsElement(der);
    ReadIsElement(p);
    ReadIsElement(q);
    var a := p[..name.hdr + name.len];
    assert der[..outer.hdr + outer.len] == der && der[outer.hdr..outer.hdr + outer.len] == p == a + q;
    assert q[..next.hdr + next.len] == q && q[next.hdr..next.hdr + next.len] == q[next.hdr..];
    assert IsElement(a, SEQUENCE, p[name.hdr..name.hdr + name.len]) && IsElement(q, want, q[next.hdr..]);
  }

  /** The value of INTEGER content octets: two's complement, high octet first. */
  function Signed(c: Bytes): int {
    BigEndian(c) - if c != [] && c[0] >= 128 then Pow256(|c|) else 0
  }

  /** A serial is written as a positive INTEGER of the same number, with no octet to spare. */
  lemma ContentIsPositive(v: Bytes)
    requires v != []
    ensures Signed(IntContent(v)) == BigEndian(v)
    ensures |IntContent(v)| > 1 && IntContent(v)[0] == 0 ==> IntContent(v)[1] >= 128
  {
    hide BigEndian, Pow256;
    var m := Magnitude(v);
    MagnitudeKeepsValue(v);
    LeadingZero(m);
    assert [] + m == m;
  }
}
