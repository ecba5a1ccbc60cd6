/** A pkiMessage's trip in a GET: the client's URL, the request line, the server's parameter lookup and decoding. */
module GetUrl {
  import opened Bytes
  import opened HttpUrl
  import opened Numerals

  const PERCENT: Byte := 37
  const EQUALS: Byte := 61

  /** operation, PKIOperation, and the parameter they make. */
  const OPERATION_KEY: Bytes := [111, 112, 101, 114, 97, 116, 105, 111, 110]
  const PKI_OPERATION: Bytes := [80, 75, 73, 79, 112, 101, 114, 97, 116, 105, 111, 110]
  const OPERATION: Bytes := OPERATION_KEY + [EQUALS] + PKI_OPERATION

  /** message */
  const MESSAGE: Bytes := [109, 101, 115, 115, 97, 103, 101]

  // --- percent-encoding ---------------------------------------------------------------------

  /** The unreserved characters of section 2.3 of RFC 3986. */
  predicate Unreserved(c: Byte) {
    65 <= c <= 90 || 97 <= c <= 122 || 48 <= c <= 57 || c == 45 || c == 95 || c == 46 || c == 126
  }

  function HexUpper(d: nat): Byte
    requires d < 16
  {
    if d < 10 then 48 + d else 55 + d
  }

  function EncodeByte(c: Byte): Bytes { if Unreserved(c) then [c] else [PERCENT, HexUpper(c / 16), HexUpper(c % 16)] }

  function Encode(m: Bytes): (e: Bytes)
    ensures |e| <= 3 * |m|
  {
    if m == [] then [] else EncodeByte(m[0]) + Encode(m[1..])
  }

  function Decode(e: Bytes): (m: Option<Bytes>) {
    if e == [] then Some([])
    else if e[0] != PERCENT then Cons(e[0], Decode(e[1..]))
    else if |e| < 3 || HexDigit(e[1]).None? || HexDigit(e[2]).None? then None
    else Cons(HexDigit(e[1]).value * 16 + HexDigit(e[2]).value, Decode(e[3..]))
  }

  function Cons(c: Byte, m: Option<Bytes>): Option<Bytes> {
    match m case None => None case Some(v) => Some([c] + v)
  }

  lemma HexRoundTrip(d: nat)
    requires d < 16
    ensures HexDigit(HexUpper(d)) == Some(d)
  {}

  lemma {:induction false} DecodeEncode(m: Bytes)
    ensures Decode(Encode(m)) == Some(m)
  {
    if m != [] {
      var c, rest := m[0], Encode(m[1..]);
      var e := EncodeByte(c) + rest;
      DecodeEncode(m[1..]);
      assert [c] + m[1..] == m;
      if Unreserved(c) {
        assert e[0] == c && e[1..] == rest;
      } else {
        HexRoundTrip(c / 16);
        HexRoundTrip(c % 16);
        assert e[0] == PERCENT && e[1] == HexUpper(c / 16) && e[2] == HexUpper(c % 16) && e[3..] == rest;
      }
    }
  }

  /** `e` spells `m`: a byte as itself, unless it is a percent sign, or as a percent sign and its two digits. */
  predicate Spells(e: Bytes, m: Bytes)
    decreases |m|
  {
    if m == [] then e == []
    else
      || (e != [] && e[0] == m[0] && e[0] != '%' as int && Spells(e[1..], m[1..]))
      || (|e| >= 3 && e[0] == '%' as int && IsHex(e[1..3], m[0]) && Spells(e[3..], m[1..]))
  }

  lemma TwoDigits(s: Bytes, n: nat)
    requires |s| == 2
    ensures IsHex(s, n) <==>
            HexDigit(s[0]).Some? && HexDigit(s[1]).Some? && n == HexDigit(s[0]).value * 16 + HexDigit(s[1]).value
  {
    hide HexDigit, Shows;
    HexDigitIs(s[1], n % 16);
    HexDigitIs(s[0], n / 16);
    assert s[..1][0] == s[0];
    OneDigit(s[..1], n / 16);
  }

  lemma OneDigit(s: Bytes, n: nat)
    requires |s| == 1
    ensures IsHex(s, n) <==> Shows(s[0], n)
  {
    if n < 16 {
      hide Shows;
      assert n % 16 == n;
    }
  }

  /** A text is decoded exactly when it spells something, and then as that. */
  lemma {:induction false} DecodeIs(e: Bytes, m: Bytes)
    ensures Decode(e) == Some(m) <==> Spells(e, m)
    decreases |e|
  {
    hide HexDigit, IsHex;
    if e != [] && e[0] != PERCENT {
      if m != [] {
        DecodeIs(e[1..], m[1..]);
        assert m == [m[0]] + m[1..];
      }
    } else if |e| >= 3 {
      if m != [] {
        TwoDigits(e[1..3], m[0]);
        DecodeIs(e[3..], m[1..]);
        assert m == [m[0]] + m[1..];
      }
    }
  }

  predicate IsPlain(h: char) { 'A' <= h <= 'Z' || 'a' <= h <= 'z' || '0' <= h <= '9' || h in "-._~" }

  /** A plain character is sent as itself, any other byte as a percent sign and its two upper-case digits. */
  lemma EncodeByteIs(c: Byte)
    ensures EncodeByte(c) ==
            if IsPlain(c as char) then [c] else ['%' as int] + (if c < 16 then ['0' as int] else []) + Hex(c, true)
  {
    hide Digit, Shows, HexUpper, Unreserved, IsPlain;
    UnreservedIs(c);
    UpperIs(c / 16);
    UpperIs(c % 16);
    assert Hex(c, true) == (if c < 16 then [] else Hex(c / 16, true)) + [Digit(c % 16, true)];
    assert Hex(c / 16, true) == [Digit(c / 16, true)];
  }

  lemma UnreservedIs(c: Byte)
    ensures Unreserved(c) <==> IsPlain(c as char)
  {}

  lemma UpperIs(d: nat)
    requires d < 16
    ensures HexUpper(d) == Digit(d, true) && (d == 0 ==> HexUpper(d) == '0' as int)
  {
    assert d in {0, 1, 2, 3, 4, 5, 6, 7, 8, 9, 10, 11, 12, 13, 14, 15};
  }

  /** Encoded text holds letters, digits, `-`, `.`, `_`, `~` and `%` only. */
  lemma {:induction false} EncodedIsPlain(m: Bytes)
    ensures forall i | 0 <= i < |Encode(m)| :: Unreserved(Encode(m)[i]) || Encode(m)[i] == PERCENT
  {
    if m != [] {
      EncodedIsPlain(m[1..]);
      assert forall i | 0 <= i < |EncodeByte(m[0])| ::
          Unreserved(EncodeByte(m[0])[i]) || EncodeByte(m[0])[i] == PERCENT;
    }
  }

  method PutEncoded(out: array<Byte>, o: nat, c: Byte) returns (n: nat)
    requires o + 3 <= out.Length
    modifies out
    ensures o < n <= o + 3 && out[..n] == old(out[..o]) + EncodeByte(c)
  {
    if Unreserved(c) {
      out[o] := c;
      return o + 1;
    }
    out[o] := PERCENT;
    out[o + 1] := HexUpper(c / 16);
    out[o + 2] := HexUpper(c % 16);
    return o + 3;
  }

  lemma EncodeStep(m: Bytes, i: nat)
    requires i < |m|
    ensures Encode(m[i..]) == EncodeByte(m[i]) + Encode(m[i + 1..])
  {
    assert m[i..][1..] == m[i + 1..];
  }

  /** Encode into a buffer of three bytes per input byte. */
  method UrlEncode(m: Bytes) returns (e: Bytes)
    ensures e == Encode(m)
  {
    hide EncodeByte;
    var out := new Byte[3 * |m| + 1];
    var o := 0;
    assert m[0..] == m && out[..0] == [];
    for i := 0 to |m|
      invariant o <= 3 * i && Encode(m) == out[..o] + Encode(m[i..])
    {
      hide Encode;
      EncodeStep(m, i);
      o := PutEncoded(out, o, m[i]);
    }
    e := out[..o];
    assert m[|m|..] == [] && e + [] == e;
  }

  /** The server's decoding loop. */
  method UrlDecode(e: Bytes) returns (m: Option<Bytes>)
    ensures m == Decode(e)
  {
    var out := new Byte[|e| + 1];
    var o, i := 0, 0;
    assert e[0..] == e && out[..0] == [];
    assert Prefix([], Decode(e)) == Decode(e) by { assert forall v: Bytes :: [] + v == v; }
    while i < |e|
      invariant o <= i <= |e|
      invariant Decode(e) == Prefix(out[..o], Decode(e[i..]))
    {
      hide HexDigit;
      ghost var pre := out[..o];
      if e[i] == PERCENT {
        var hi := if i + 2 < |e| then HexDigit(e[i + 1]) else None;
        var lo := if i + 2 < |e| then HexDigit(e[i + 2]) else None;
        if hi.None? || lo.None? {
          return None;
        }
        assert e[i..][3..] == e[i + 3..];
        PrefixCons(pre, hi.value * 16 + lo.value, Decode(e[i + 3..]));
        out[o] := hi.value * 16 + lo.value;
        o := o + 1;
        i := i + 3;
      } else {
        assert e[i..][1..] == e[i + 1..];
        PrefixCons(pre, e[i], Decode(e[i + 1..]));
        out[o] := e[i];
        o := o + 1;
        i := i + 1;
      }
      assert out[..o] == pre + [out[o - 1]];
    }
    assert e[|e|..] == [];
    assert out[..o] + [] == out[..o];
    return Some(out[..o]);
  }

  ghost function Prefix(pre: Bytes, m: Option<Bytes>): Option<Bytes> {
    match m case None => None case Some(v) => Some(pre + v)
  }

  lemma PrefixCons(pre: Bytes, c: Byte, m: Option<Bytes>)
    ensures Prefix(pre, Cons(c, m)) == Prefix(pre + [c], m)
  {
    if m.Some? {
      assert pre + ([c] + m.value) == pre + [c] + m.value;
    }
  }

  // --- the URL --------------------------------------------------------------------------------

  const MAX_GET_URL := 8192

  /** What goes after the base URL. */
  function Query(base: Bytes, b64: Bytes): (q: Bytes)
  {
    [if QUESTION in base then AMP else QUESTION] + OPERATION + MessageParam(b64)
  }

  function MessageParam(b64: Bytes): Bytes { [AMP] + MESSAGE + [EQUALS] + Encode(b64) }

  /** The URL leaves room for its terminator. */
  predicate UrlFits(base: Bytes, b64: Bytes) { |base + Query(base, b64)| < MAX_GET_URL }

  /** The words of a SCEP query. */
  lemma QueryWords()
    ensures IsText(OPERATION, "operation=PKIOperation") && IsText([AMP] + MESSAGE + [EQUALS], "&message=")
    ensures IsText([QUESTION], "?") && IsText(OPERATION_KEY, "operation") && IsText(PKI_OPERATION, "PKIOperation")
  {}

  /** Build the URL, or None when it does not fit with its terminator. */
  method BuildPkiGetUrl(base: Bytes, b64: Bytes) returns (url: Option<Bytes>)
    ensures url == if UrlFits(base, b64) then Some(base + Query(base, b64)) else None
    ensures url.Some? ==> |url.value| < 8192
    ensures url.Some? && TargetStart(base).Some? ==> Target(url.value).Some?
  {
    hide Target, Encode;
    var enc := UrlEncode(b64);
    var head := base + [if QUESTION in base then AMP else QUESTION] + OPERATION;
    Pieces(base, [if QUESTION in base then AMP else QUESTION], OPERATION, MESSAGE, enc);
    if |head| + |MESSAGE| + 2 + |enc| + 1 > MAX_GET_URL {
      return None;
    }
    url := Some(head + [AMP] + MESSAGE + [EQUALS] + enc);
    UrlIsAccepted(base, b64);
  }

  lemma Pieces(base: Bytes, q: Bytes, op: Bytes, key: Bytes, enc: Bytes)
    ensures base + q + op + [AMP] + key + [EQUALS] + enc == base + (q + op + ([AMP] + key + [EQUALS] + enc))
  {}

  /** A URL that fits is one the HTTP client takes, if it takes the base. */
  lemma UrlIsAccepted(base: Bytes, b64: Bytes)
    requires UrlFits(base, b64)
    ensures TargetStart(base).Some? ==> Target(base + Query(base, b64)).Some?
  {
    hide TargetStart, Query;
    QueryIsFor(base, b64);
    TargetStartExtends(base, Query(base, b64));
  }

  lemma QueryIsPlain(base: Bytes, b64: Bytes)
    ensures forall i | 0 <= i < |Query(base, b64)| ::
              var c := Query(base, b64)[i]; Unreserved(c) || c in {PERCENT, AMP, EQUALS, QUESTION}
  {
    hide Encode, Unreserved;
    EncodedIsPlain(b64);
    OperationIsPlain();
    assert forall i | 0 <= i < |MESSAGE| :: Unreserved(MESSAGE[i]) by { MessageIsPlain(); }
  }

  lemma OperationIsPlain()
    ensures forall i | 0 <= i < |OPERATION| :: Unreserved(OPERATION[i]) || OPERATION[i] == EQUALS
  {}

  lemma MessageIsPlain()
    ensures forall i | 0 <= i < |MESSAGE| :: Unreserved(MESSAGE[i])
  {}

  lemma QueryIsFor(base: Bytes, b64: Bytes)
    ensures QueryFor(base, Query(base, b64))
  {
    hide Query;
    QueryIsPlain(base, b64);
    QueryStart(base, b64);
  }

  lemma QueryStart(base: Bytes, b64: Bytes)
    ensures Query(base, b64) != [] && Query(base, b64)[0] == if QUESTION in base then AMP else QUESTION
  {}
}
