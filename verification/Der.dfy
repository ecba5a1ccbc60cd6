/** DER tag-length-value headers: how they are written, how they are read, and that these agree. */
module Der {
  import opened Bytes

  const LIMIT := 0x1_0000_0000

  const INTEGER: Byte := 0x02
  const OID: Byte := 0x06
  const SEQUENCE: Byte := 0x30
  const SET: Byte := 0x31

  // --- big-endian numbers -------------------------------------------------------

  function BigEndian(s: Bytes): (n: nat) {
    if s == [] then 0 else 256 * BigEndian(s[..|s| - 1]) + s[|s| - 1]
  }

  function BeBytes(n: nat, k: nat): (s: Bytes)
    ensures |s| == k
  {
    if k == 0 then [] else BeBytes(n / 256, k - 1) + [n % 256]
  }

  function Pow256(k: nat): (p: nat)
    ensures p > 0
  {
    if k == 0 then 1 else 256 * Pow256(k - 1)
  }

  lemma {:induction false} BeRoundTrip(n: nat, k: nat)
    requires n < Pow256(k)
    ensures BigEndian(BeBytes(n, k)) == n
    decreases k
  {
    if k > 0 {
      var s := BeBytes(n, k);
      assert s[..k - 1] == BeBytes(n / 256, k - 1);
      BeRoundTrip(n / 256, k - 1);
    }
  }

  lemma {:induction false} BigEndianBound(s: Bytes)
    ensures BigEndian(s) < Pow256(|s|)
    decreases |s|
  {
    if s != [] { BigEndianBound(s[..|s| - 1]); }
  }

  // --- lengths --------------------------------------------------------------------

  /** How many bytes the long form of `n` needs. */
  function LongBytes(n: nat): (k: nat)
    requires n < LIMIT
    ensures 1 <= k <= 4 && n < Pow256(k)
  {
    assert Pow256(1) == 256 && Pow256(2) == 0x1_0000 && Pow256(3) == 0x100_0000 && Pow256(4) == LIMIT;
    if n <= 0xFF then 1 else if n <= 0xFFFF then 2 else if n <= 0xFF_FFFF then 3 else 4
  }

  function LenBytes(n: nat): (s: Bytes)
    requires n < LIMIT
    ensures 1 <= |s| <= 5
  {
    if n < 0x80 then [n] else [0x80 + LongBytes(n)] + BeBytes(n, LongBytes(n))
  }

  function Tlv(tag: Byte, content: Bytes): (s: Bytes)
    requires |content| < LIMIT
  {
    [tag] + LenBytes(|content|) + content
  }

  function TlvLen(n: nat): nat
    requires n < LIMIT
  {
    1 + |LenBytes(n)| + n
  }

  // --- reading ---------------------------------------------------------------------

  /** A header: its tag, its own size and the content size it announces, all within the input. */
  datatype Header = Header(tag: Byte, hdr: nat, len: nat)

  function ReadTlv(s: Bytes): (h: Option<Header>)
    ensures h.Some? ==> 2 <= h.value.hdr <= 6 && h.value.hdr + h.value.len <= |s|
  {
    if |s| < 2 then None
    else if s[1] < 0x80 then (if s[1] > |s| - 2 then None else Some(Header(s[0], 2, s[1])))
    else
      var nb := s[1] - 0x80;
      if nb == 0 || nb > 4 || |s| < 2 + nb then None
      else
        var n := BigEndian(s[2..2 + nb]);
        if n > |s| - (2 + nb) then None else Some(Header(s[0], 2 + nb, n))
  }

  /** What was written is read back, whatever follows it. */
  lemma ReadsBack(tag: Byte, content: Bytes, rest: Bytes)
    requires |content| < LIMIT
    ensures var s := Tlv(tag, content) + rest;
            var h := 1 + |LenBytes(|content|)|;
            && ReadTlv(s) == Some(Header(tag, h, |content|))
            && s[h..h + |content|] == content && s[h + |content|..] == rest
  {
    var n := |content|;
    var s := Tlv(tag, content) + rest;
    var h := 1 + |LenBytes(n)|;
    assert s == [tag] + LenBytes(n) + (content + rest);
    assert s[h..] == content + rest;
    if n >= 0x80 {
      var k := LongBytes(n);
      BeRoundTrip(n, k);
      assert s[2..2 + k] == BeBytes(n, k);
    }
  }

  /** No header the reader accepts is shorter than the one that would be written. */
  lemma HeaderIsMinimal(s: Bytes)
    requires ReadTlv(s).Some?
    ensures ReadTlv(s).value.len < LIMIT
    ensures 1 + |LenBytes(ReadTlv(s).value.len)| <= ReadTlv(s).value.hdr
  {
    assert Pow256(1) == 256 && Pow256(2) == 0x1_0000 && Pow256(3) == 0x100_0000 && Pow256(4) == LIMIT;
    if s[1] >= 0x80 {
      BigEndianBound(s[2..ReadTlv(s).value.hdr]);
    }
  }

  // --- elements ----------------------------------------------------------------------

  /** Length octets for `n` as in section 8.1.3 of X.690, in at most four, minimal or not. */
  predicate IsLength(l: Bytes, n: nat) {
    || (|l| == 1 && l[0] == n && n <= 127)
    || (2 <= |l| <= 5 && l[0] == 128 + (|l| - 1) && BigEndian(l[1..]) == n)
  }

  /** `s` is one element: its tag, length octets, and its content. */
  ghost predicate IsElement(s: Bytes, tag: Byte, content: Bytes) {
    && 2 + |content| <= |s| && s[0] == tag && s[|s| - |content|..] == content
    && IsLength(s[1..|s| - |content|], |content|)
  }

  /** A header is read exactly when a tag and length octets stand there and the content they announce follows. */
  lemma ReadTlvIs(s: Bytes, h: Header)
    ensures ReadTlv(s) == Some(h) <==>
            && 2 <= h.hdr && h.hdr + h.len <= |s| && s[0] == h.tag && IsLength(s[1..h.hdr], h.len)
  {
    if 2 <= h.hdr && h.hdr + h.len <= |s| {
      var l := s[1..h.hdr];
      assert l[0] == s[1] && l[1..] == s[2..h.hdr];
    }
  }

  lemma ReadIsElement(s: Bytes)
    requires ReadTlv(s).Some?
    ensures var h := ReadTlv(s).value; IsElement(s[..h.hdr + h.len], h.tag, s[h.hdr..h.hdr + h.len])
  {
    hide ReadTlv, IsLength;
    var h := ReadTlv(s).value;
    ReadTlvIs(s, h);
    var e := s[..h.hdr + h.len];
    assert e[1..h.hdr] == s[1..h.hdr] && e[h.hdr..] == s[h.hdr..h.hdr + h.len];
  }

  lemma ElementReads(e: Bytes, tag: Byte, content: Bytes, rest: Bytes)
    requires IsElement(e, tag, content)
    ensures ReadTlv(e + rest) == Some(Header(tag, |e| - |content|, |content|))
    ensures (e + rest)[|e| - |content|..|e|] == content && (e + rest)[|e|..] == rest
  {
    hide ReadTlv, IsLength;
    var s, k := e + rest, |e| - |content|;
    assert s[1..k] == e[1..k];
    ReadTlvIs(s, Header(tag, k, |content|));
  }

  /** The length loop: shift in one byte at a time. */
  method DerReadTlv(s: Bytes) returns (h: Option<Header>)
    ensures h == ReadTlv(s)
  {
    if |s| < 2 {
      return None;
    }
    var hdr, clen;
    if s[1] < 0x80 {
      hdr, clen := 2, s[1];
    } else {
      var nb := s[1] - 0x80;
      if nb == 0 || nb > 4 || |s| < 2 + nb {
        return None;
      }
      clen := 0;
      for i := 0 to nb
        invariant clen == BigEndian(s[2..2 + i])
      {
        assert s[2..2 + i + 1][..i] == s[2..2 + i];
        clen := clen * 256 + s[2 + i];
      }
      hdr := 2 + nb;
    }
    if clen > |s| - hdr {
      return None;
    }
    return Some(Header(s[0], hdr, clen));
  }

  // --- writing into a buffer --------------------------------------------------------

  /** memcpy of `s` to `out + off`. */
  method Put(out: array<Byte>, off: nat, s: Bytes)
    requires off + |s| <= out.Length
    modifies out
    ensures out[off..off + |s|] == s && out[..off + |s|] == old(out[..off]) + s
    ensures forall i | 0 <= i < out.Length && !(off <= i < off + |s|) :: out[i] == old(out[i])
  {
    for i := 0 to |s|
      invariant forall j | off <= j < off + i :: out[j] == s[j - off]
      invariant forall j | 0 <= j < out.Length && !(off <= j < off + i) :: out[j] == old(out[j])
    {
      out[off + i] := s[i];
    }
  }

  /** Write a length at `off` with `cap` bytes left; -1 when it does not fit there or in four bytes. */
  method DerPutLen(out: array<Byte>, off: nat, cap: nat, n: nat) returns (ll: int)
    requires off + cap <= out.Length
    modifies out
    ensures ll == if n < LIMIT && |LenBytes(n)| <= cap then |LenBytes(n)| else -1
    ensures ll >= 0 ==> out[off..off + ll] == LenBytes(n) && out[..off + ll] == old(out[..off]) + LenBytes(n)
    ensures ll < 0 ==> out[..off] == old(out[..off])
    ensures forall i | 0 <= i < out.Length && !(off <= i < off + ll) :: out[i] == old(out[i])
  {
    hide BeBytes;
    if n < 0x80 {
      if cap < 1 {
        return -1;
      }
      Put(out, off, [n]);
      return 1;
    }
    if n >= LIMIT {
      return -1;
    }
    LongForm(n);
    if n <= 0xFF {
      if cap < 2 {
        return -1;
      }
      Put(out, off, [0x81, n]);
      return 2;
    }
    if n <= 0xFFFF {
      if cap < 3 {
        return -1;
      }
      Put(out, off, [0x82, n / 0x100, n % 0x100]);
      return 3;
    }
    if n <= 0xFF_FFFF {
      if cap < 4 {
        return -1;
      }
      Put(out, off, [0x83, n / 0x1_0000, n / 0x100 % 0x100, n % 0x100]);
      return 4;
    }
    if cap < 5 {
      return -1;
    }
    Put(out, off, [0x84, n / 0x100_0000, n / 0x1_0000 % 0x100, n / 0x100 % 0x100, n % 0x100]);
    return 5;
  }

  lemma LongForm(n: nat)
    requires 0x80 <= n < LIMIT
    ensures LenBytes(n) ==
            if n <= 0xFF then [0x81, n]
            else if n <= 0xFFFF then [0x82, n / 0x100, n % 0x100]
            else if n <= 0xFF_FFFF then [0x83, n / 0x1_0000, n / 0x100 % 0x100, n % 0x100]
            else [0x84, n / 0x100_0000, n / 0x1_0000 % 0x100, n / 0x100 % 0x100, n % 0x100]
  {
    hide BeBytes;
    TwoBytes(n);
    ThreeBytes(n);
    FourBytes(n);
  }

  lemma TwoBytes(n: nat)
    ensures BeBytes(n, 1) == [n % 0x100] && BeBytes(n, 2) == [n / 0x100 % 0x100, n % 0x100]
  {
    assert BeBytes(n, 2) == BeBytes(n / 0x100, 1) + [n % 0x100];
  }

  lemma ThreeBytes(n: nat)
    ensures BeBytes(n, 3) == [n / 0x1_0000 % 0x100, n / 0x100 % 0x100, n % 0x100]
  {
    hide BeBytes;
    BeStep(n, 3);
    TwoBytes(n / 0x100);
    assert n / 0x100 / 0x100 == n / 0x1_0000;
  }

  lemma FourBytes(n: nat)
    ensures BeBytes(n, 4) == [n / 0x100_0000 % 0x100, n / 0x1_0000 % 0x100, n / 0x100 % 0x100, n % 0x100]
  {
    hide BeBytes;
    BeStep(n, 4);
    ThreeBytes(n / 0x100);
    assert n / 0x100 / 0x1_0000 == n / 0x100_0000 && n / 0x100 / 0x100 == n / 0x1_0000;
  }

  lemma BeStep(n: nat, k: nat)
    requires k > 0
    ensures BeBytes(n, k) == BeBytes(n / 0x100, k - 1) + [n % 0x100]
  {}
}
