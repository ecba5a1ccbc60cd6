/** Dotted-quad text: which strings the parser takes, and as which four bytes. */
module IpText {
  import opened Bytes

  const DOT: Byte := 46

  // --- decimal octets ---------------------------------------------------------------------

  /** The shortest decimal text of an octet. */
  function Dec(v: Byte): (t: Bytes)
    ensures 1 <= |t| <= 3
  {
    if v < 10 then [48 + v]
    else if v < 100 then [48 + v / 10, 48 + v % 10]
    else [48 + v / 100, 48 + v / 10 % 10, 48 + v % 10]
  }

  /** How many of the first `k` bytes are digits before anything else. */
  function DigitRun(s: Bytes, k: nat): (n: nat)
    ensures n <= k && n <= |s|
  {
    var n := Run(s, IsDigit);
    if n > k then k else n
  }

  datatype Octet = Octet(value: Byte, width: nat)

  function ReadOctet(s: Bytes): (o: Option<Octet>) {
    var n := DigitRun(s, 3);
    var v := Decimal(s[..n]);
    if n == 0 || v > 255 || v < 0 || (n > 1 && s[0] == 48) then None else Some(Octet(v, n))
  }

  lemma DigitRunIs(s: Bytes)
    ensures var n := DigitRun(s, 3); forall i | 0 <= i < n :: IsDigit(s[i])
    ensures var n := DigitRun(s, 3); n < 3 && n < |s| ==> !IsDigit(s[n])
    ensures var n := DigitRun(s, 3);
            n == if |s| < 1 || !IsDigit(s[0]) then 0 else if |s| < 2 || !IsDigit(s[1]) then 1
                 else if |s| < 3 || !IsDigit(s[2]) then 2 else 3
  {}

  lemma DecimalIs(s: Bytes)
    requires |s| <= 3
    ensures Decimal(s) == match |s| case 0 => 0 case 1 => DigitValue(s[0])
                                   case 2 => 10 * DigitValue(s[0]) + DigitValue(s[1])
                                   case _ => 100 * DigitValue(s[0]) + 10 * DigitValue(s[1]) + DigitValue(s[2])
  {
    if |s| == 2 {
      assert s[..1] == [s[0]];
    }
    if |s| == 3 {
      assert s[..2] == [s[0], s[1]] && s[..2][..1] == [s[0]];
    }
  }

  lemma DecOf(t: Bytes)
    requires 1 <= |t| <= 3 && (forall i | 0 <= i < |t| :: IsDigit(t[i]))
    requires |t| > 1 ==> t[0] != 48
    requires 0 <= Decimal(t) <= 255
    ensures Dec(Decimal(t)) == t
  {
    hide Decimal, Dec;
    DecimalIs(t);
    if |t| == 1 {
      DecOfDigits(0, 0, t[0] - 48);
      assert t == [t[0]];
    } else if |t| == 2 {
      DecOfDigits(0, t[0] - 48, t[1] - 48);
      assert t == [t[0], t[1]];
    } else {
      DecOfDigits(t[0] - 48, t[1] - 48, t[2] - 48);
      assert t == [t[0], t[1], t[2]];
    }
  }

  lemma DecOfDigits(a: nat, b: nat, c: nat)
    requires a < 10 && b < 10 && c < 10 && 100 * a + 10 * b + c <= 255
    ensures Dec(100 * a + 10 * b + c) ==
            if a > 0 then [48 + a, 48 + b, 48 + c] else if b > 0 then [48 + b, 48 + c] else [48 + c]
  {
    ThreeDigits(a, b, c, 100 * a + 10 * b + c);
  }

  /** The shortest text: digits, no leading zero, and the value it is read as. */
  lemma DecFacts(v: Byte)
    ensures 1 <= |Dec(v)| <= 3 && (forall i | 0 <= i < |Dec(v)| :: IsDigit(Dec(v)[i]))
    ensures |Dec(v)| > 1 ==> Dec(v)[0] != 48
    ensures Decimal(Dec(v)) == v
  {
    hide Decimal;
    DecimalIs(Dec(v));
  }

  lemma ThreeDigits(a: int, b: int, c: int, v: int)
    requires 0 <= a < 10 && 0 <= b < 10 && 0 <= c < 10 && v == 100 * a + 10 * b + c
    ensures v % 10 == c && v / 10 == 10 * a + b && v / 10 % 10 == b && v / 100 == a
  {
    assert v == 10 * (10 * a + b) + c;
  }

  /** Where an octet is read, its shortest text stands. */
  lemma OctetTextIs(s: Bytes)
    ensures ReadOctet(s).Some? ==>
              var o := ReadOctet(s).value; o.width == |Dec(o.value)| <= |s| && s[..o.width] == Dec(o.value)
  {
    hide Decimal, Dec, DigitRun;
    DigitRunIs(s);
    if ReadOctet(s).Some? {
      DecOf(s[..DigitRun(s, 3)]);
    }
  }

  lemma OctetReads(v: Byte, rest: Bytes)
    requires rest == [] || !IsDigit(rest[0])
    ensures ReadOctet(Dec(v) + rest) == Some(Octet(v, |Dec(v)|))
  {
    hide Dec, Decimal, DigitRun;
    DecFacts(v);
    var s := Dec(v) + rest;
    var n := |Dec(v)|;
    DigitRunIs(s);
    assert s[..n] == Dec(v);
    assert forall i | 0 <= i < n :: s[i] == Dec(v)[i];
    assert rest != [] ==> s[n] == rest[0];
  }

  method ParseOctet(s: Bytes) returns (o: Option<Octet>)
    ensures o == ReadOctet(s)
  {
    DigitRunIs(s);
    var v: int, n := 0, 0;
    while n < 3 && n < |s| && IsDigit(s[n])
      invariant n <= DigitRun(s, 3) && n <= |s|
      invariant v == Decimal(s[..n]) && v >= 0
      invariant n > 0 ==> IsDigit(s[0])
      invariant n > 1 ==> IsDigit(s[1])
    {
      assert s[..n + 1][..n] == s[..n];
      v := v * 10 + DigitValue(s[n]);
      n := n + 1;
    }
    if n == 0 || v > 255 || (n > 1 && s[0] == 48) {
      return None;
    }
    return Some(Octet(v, n));
  }

  // --- dotted quads -----------------------------------------------------------------------

  function Dotted(q: Bytes): Bytes
    requires q != []
  {
    if |q| == 1 then Dec(q[0]) else Dec(q[0]) + [DOT] + Dotted(q[1..])
  }

  /** `k` octets with dots between them and nothing after. */
  function ReadDotted(s: Bytes, k: nat): (q: Option<Bytes>)
    requires k > 0
    ensures q.Some? ==> |q.value| == k
  {
    match ReadOctet(s)
    case None => None
    case Some(o) =>
      if o.width > |s| then None else
      var t := s[o.width..];
      if k == 1 then (if t == [] then Some([o.value]) else None)
      else if t == [] || t[0] != DOT then None
      else match ReadDotted(t[1..], k - 1)
        case None => None
        case Some(q) => Some([o.value] + q)
  }

  lemma {:induction false} DottedReads(q: Bytes)
    requires q != []
    ensures ReadDotted(Dotted(q), |q|) == Some(q)
  {
    hide Dec, ReadDotted;
    if |q| == 1 {
      LastReads(q[0]);
      assert q == [q[0]];
    } else {
      DottedReads(q[1..]);
      NextReads(q[0], Dotted(q[1..]), q[1..]);
      assert Dotted(q) == Dec(q[0]) + ([DOT] + Dotted(q[1..]));
      assert [q[0]] + q[1..] == q;
    }
  }

  lemma LastReads(v: Byte)
    ensures ReadDotted(Dec(v), 1) == Some([v])
  {
    hide ReadOctet, Dec;
    OctetReads(v, []);
    assert Dec(v) + [] == Dec(v);
  }

  lemma {:induction false} NextReads(v: Byte, s: Bytes, q: Bytes)
    requires q != [] && ReadDotted(s, |q|) == Some(q)
    ensures ReadDotted(Dec(v) + ([DOT] + s), |q| + 1) == Some([v] + q)
  {
    hide ReadOctet, Dec;
    OctetReads(v, [DOT] + s);
    assert (Dec(v) + ([DOT] + s))[|Dec(v)|..] == [DOT] + s && ([DOT] + s)[1..] == s;
  }

  lemma {:induction false} ReadIsDotted(s: Bytes, k: nat)
    requires k > 0 && ReadDotted(s, k).Some?
    ensures s == Dotted(ReadDotted(s, k).value)
    decreases k
  {
    hide ReadOctet, Dec;
    OctetTextIs(s);
    var o := ReadOctet(s).value;
    var t := s[o.width..];
    assert s == s[..o.width] + t;
    if k > 1 {
      ReadIsDotted(t[1..], k - 1);
      var q := ReadDotted(t[1..], k - 1).value;
      assert ([o.value] + q)[1..] == q;
      assert t == [DOT] + t[1..];
    }
  }

  /** A string is read as four bytes exactly when it is their dotted text. */
  lemma Ipv4TextIs(s: Bytes, q: Bytes)
    ensures ReadDotted(s, 4) == Some(q) <==> |q| == 4 && s == Dotted(q)
  {
    hide ReadDotted, Dotted;
    if ReadDotted(s, 4) == Some(q) {
      ReadIsDotted(s, 4);
    }
    if |q| == 4 && s == Dotted(q) {
      DottedReads(q);
    }
  }

  ghost function Prepend(pre: Bytes, q: Option<Bytes>): Option<Bytes> {
    match q case None => None case Some(v) => Some(pre + v)
  }

  /** What the whole text reads as once `pre` has been read and `t` remains, `k` octets short. */
  ghost function Remaining(pre: Bytes, t: Bytes, k: nat): Option<Bytes> {
    if k == 0 then (if t == [] then Some(pre) else None)
    else if pre == [] then ReadDotted(t, k)
    else if t == [] || t[0] != DOT then None
    else Prepend(pre, ReadDotted(t[1..], k))
  }

  lemma ReadOne(pre: Bytes, t: Bytes, k: nat)
    requires k > 0
    ensures ReadOctet(t).None? ==> Prepend(pre, ReadDotted(t, k)) == None
    ensures ReadOctet(t).Some? ==>
              var o := ReadOctet(t).value;
              o.width <= |t| && Prepend(pre, ReadDotted(t, k)) == Remaining(pre + [o.value], t[o.width..], k - 1)
  {
    hide ReadOctet, Dec;
    OctetTextIs(t);
    if ReadOctet(t).Some? {
      var o := ReadOctet(t).value;
      var u := t[o.width..];
      if k > 1 && u != [] && u[0] == DOT {
        PrependOne(pre, o.value, ReadDotted(u[1..], k - 1));
      }
    }
  }

  lemma PrependOne(pre: Bytes, v: Byte, q: Option<Bytes>)
    ensures Prepend(pre, match q case None => None case Some(w) => Some([v] + w)) == Prepend(pre + [v], q)
  {
    if q.Some? {
      assert pre + ([v] + q.value) == pre + [v] + q.value;
    }
  }

  method ParseIpv4(s: Bytes, out: array<Byte>, off: nat) returns (ok: bool)
    requires off + 4 <= out.Length
    modifies out
    ensures ok == ReadDotted(s, 4).Some?
    ensures ok ==> out[off..off + 4] == ReadDotted(s, 4).value
    ensures forall i | 0 <= i < out.Length && !(off <= i < off + 4) :: out[i] == old(out[i])
  {
    hide ReadDotted, ReadOctet;
    var t := s;
    ghost var pre := [];
    for i := 0 to 4
      invariant |pre| == i && out[off..off + i] == pre
      invariant ReadDotted(s, 4) == Remaining(pre, t, 4 - i)
      invariant forall j | 0 <= j < out.Length && !(off <= j < off + 4) :: out[j] == old(out[j])
    {
      if i > 0 {
        if t == [] || t[0] != DOT {
          return false;
        }
        t := t[1..];
      }
      var o := ParseOctet(t);
      ReadOne(pre, t, 4 - i);
      assert forall v: Bytes | pre == [] :: pre + v == v;
      if o.None? {
        return false;
      }
      out[off + i] := o.value.value;
      t := t[o.value.width..];
      pre := pre + [o.value.value];
    }
    return t == [];
  }
}
