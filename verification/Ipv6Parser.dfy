/** The IP text parser as it fills its sixteen-byte buffer. */
module Ipv6Parser {
  import opened Bytes
  import opened Chunked
  import opened IpText
  import opened Ipv6Text

  method HasDottedGroup(s: Bytes) returns (b: bool)
    ensures b == GroupIsIpv4(s)
  {
    var i := 0;
    while i < |s| && s[i] != COLON
      invariant i <= |s| && GroupIsIpv4(s) == GroupIsIpv4(s[i..])
    {
      if s[i] == DOT {
        return true;
      }
      assert s[i..][1..] == s[i + 1..];
      i := i + 1;
    }
    return false;
  }

  /** Up to four hexadecimal digits. */
  method ReadGroup(s: Bytes) returns (n: nat, val: nat)
    ensures n == GroupWidth(s) && AllHex(s[..n]) && val == HexValue(s[..n])
  {
    n, val := 0, 0;
    while n < 4 && n < |s| && HexDigit(s[n]).Some?
      invariant n <= 4 && n <= |s| && AllHex(s[..n])
      invariant val == HexValue(s[..n])
    {
      assert s[..n + 1][..n] == s[..n];
      val := val * 16 + HexDigit(s[n]).value;
      n := n + 1;
    }
    assert forall i | 0 <= i < n :: s[..n][i] == s[i];
  }

  /**
   * Move the bytes after the gap to the end, last first, and zero what is between: no byte is overwritten
   * before it has moved.
   */
  method Slide(buf: array<Byte>, filled: nat, gap: nat)
    requires buf.Length == 16 && gap <= filled < 16
    modifies buf
    ensures buf[..] == old(buf[..gap]) + Zeros(16 - filled) + old(buf[gap..filled])
  {
    ghost var was := buf[..];
    var tail := filled - gap;
    for d := 0 to tail
      invariant forall i | 0 <= i < 16 - d && i < filled :: buf[i] == was[i]
      invariant forall k | 16 - d <= k < 16 :: buf[k] == was[k - 16 + filled]
    {
      buf[15 - d] := buf[filled - 1 - d];
    }
    for d := gap to 16 - tail
      invariant forall i | 0 <= i < gap :: buf[i] == was[i]
      invariant forall i | gap <= i < d :: buf[i] == 0
      invariant forall k | 16 - tail <= k < 16 :: buf[k] == was[k - 16 + filled]
    {
      buf[d] := 0;
    }
    assert buf[..gap] == was[..gap] && buf[gap..16 - tail] == Zeros(16 - filled);
    assert buf[16 - tail..] == was[gap..filled];
    assert buf[..] == buf[..gap] + buf[gap..16 - tail] + buf[16 - tail..];
  }

  function GapAt(gap: int): Option<nat> { if gap < 0 then None else Some(gap) }

  /** One group with what ends it, as the scan takes it. */
  lemma ScanStep(t: Bytes, bytes: Bytes, gap: Option<nat>)
    requires t != [] && !GroupIsIpv4(t)
    ensures var n := GroupWidth(t);
            ScanText(t, bytes, gap) ==
            if n == 0 || |bytes| > 14 then None
            else
              var b := bytes + GroupValue(t[..n]);
              if |t| == n then ScanText([], b, gap)
              else if t[n] != COLON || |t| == n + 1 then None
              else if t[n + 1] != COLON then ScanText(t[n + 1..], b, gap)
              else if gap.Some? then None
              else ScanText(t[n + 2..], b, Some(|b|))
  {
    hide ReadDotted, GroupIsIpv4, GroupWidth, GroupValue;
  }

  method FillGroup(buf: array<Byte>, filled: nat, t: Bytes, n: nat, val: nat)
    requires buf.Length == 16 && filled <= 14 && 0 < n == GroupWidth(t) && AllHex(t[..n]) && val == HexValue(t[..n])
    modifies buf
    ensures buf[..filled + 2] == old(buf[..filled]) + GroupValue(t[..n])
  {
    HexBound(t[..n]);
    buf[filled] := val / 256;
    buf[filled + 1] := val % 256;
  }

  /** Scan the groups after an optional leading "::" into `buf`. */
  method ScanGroups(s: Bytes, buf: array<Byte>) returns (ok: bool, filled: nat, gap: int)
    requires buf.Length == 16
    modifies buf
    ensures ok == Start(s).Some?
    ensures ok ==> filled <= 16 && Start(s) == Some(Scanned(buf[..filled], GapAt(gap))) && gap <= filled
  {
    hide ScanText, GroupWidth, GroupIsIpv4, GroupValue, ReadDotted, HexValue, HexRun;
    var t := s;
    filled, gap := 0, -1;
    if s != [] && s[0] == COLON {
      if |s| < 2 || s[1] != COLON {
        return false, 0, gap;
      }
      t, gap := s[2..], 0;
    }
    while t != []
      invariant filled <= 16 && gap <= filled
      invariant Start(s) == ScanText(t, buf[..filled], GapAt(gap))
      decreases |t|
    {
      ghost var pre := buf[..filled];
      var dotted := HasDottedGroup(t);
      if dotted {
        ScanDotted(t, pre, GapAt(gap));
        if filled > 12 {
          return false, 0, gap;
        }
        var quad := ParseIpv4(t, buf, filled);
        if !quad {
          return false, 0, gap;
        }
        assert buf[..filled + 4] == pre + buf[filled..filled + 4];
        filled := filled + 4;
        t := [];
        break;
      }
      ScanStep(t, pre, GapAt(gap));
      var n, val := ReadGroup(t);
      if n == 0 || filled > 14 {
        return false, 0, gap;
      }
      FillGroup(buf, filled, t, n, val);
      filled := filled + 2;
      t := t[n..];
      if t == [] {
        break;
      }
      if t[0] != COLON {
        return false, 0, gap;
      }
      t := t[1..];
      if t == [] {
        return false, 0, gap;
      }
      if t[0] == COLON {
        if gap >= 0 {
          return false, 0, gap;
        }
        gap := filled;
        t := t[1..];
      }
    }
    ScanEnd(buf[..filled], GapAt(gap));
    return true, filled, gap;
  }

  lemma ScanDotted(t: Bytes, bytes: Bytes, gap: Option<nat>)
    requires t != [] && GroupIsIpv4(t)
    ensures ScanText(t, bytes, gap) ==
            if |bytes| > 12 || ReadDotted(t, 4).None? then None else ScanText([], bytes + ReadDotted(t, 4).value, gap)
  {
    hide ReadDotted, GroupIsIpv4;
  }

  method ParseIpv6(s: Bytes, out: array<Byte>) returns (ok: bool)
    requires out.Length == 16
    modifies out
    ensures ok == ReadIpv6(s).Some?
    ensures out[..] == if ok then ReadIpv6(s).value else old(out[..])
  {
    hide Start;
    var buf := new Byte[16](_ => 0);
    var scanned, filled, gap := ScanGroups(s, buf);
    if !scanned {
      return false;
    }
    if gap < 0 {
      if filled != 16 {
        return false;
      }
      assert buf[..16] == buf[..];
    } else {
      if filled >= 16 {
        return false;
      }
      ghost var b := buf[..filled];
      assert b[..gap] == buf[..gap] && b[gap..] == buf[gap..filled];
      Slide(buf, filled, gap);
    }
    forall i | 0 <= i < 16 {
      out[i] := buf[i];
    }
    assert out[..] == buf[..];
    return true;
  }

  /** IPv4 text first, IPv6 text otherwise; `n` is the address length. */
  method ParseIp(s: Bytes, out: array<Byte>) returns (ok: bool, n: nat)
    requires out.Length == 16
    modifies out
    ensures ok <==> ReadDotted(s, 4).Some? || ReadIpv6(s).Some?
    ensures ok ==> (n == if ReadDotted(s, 4).Some? then 4 else 16)
    ensures ok ==> Some(out[..n]) == if n == 4 then ReadDotted(s, 4) else ReadIpv6(s)
  {
    hide ReadDotted, ReadIpv6;
    var v4 := ParseIpv4(s, out, 0);
    if v4 {
      return true, 4;
    }
    var v6 := ParseIpv6(s, out);
    if v6 {
      assert out[..16] == out[..];
      return true, 16;
    }
    return false, 0;
  }
}
