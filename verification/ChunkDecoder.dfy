/** The chunked decoder, which may write over what it has read. */
module ChunkDecoder {
  import opened Bytes
  import opened Chunked
  import opened ChunkScanner

  /** memmove of `n` bytes to `dst + d + w`, at or below their source: they follow the `w` bytes at `dst + d`. */
  method Append(dst: array<Byte>, d: nat, w: nat, src: array<Byte>, s: nat, n: nat)
    requires d + w + n <= dst.Length && s + n <= src.Length
    requires dst == src ==> d + w <= s
    modifies dst
    ensures dst[d..d + w + n] == old(dst[d..d + w] + src[s..s + n])
    ensures forall j | 0 <= j < dst.Length && !(d + w <= j < d + w + n) :: dst[j] == old(dst[j])
    ensures forall lo, hi | s + n <= lo <= hi <= src.Length :: src[lo..hi] == old(src[lo..hi])
  {
    ghost var was := src[..];
    for i := 0 to n
      invariant forall j | d + w <= j < d + w + i :: dst[j] == was[s + j - d - w]
      invariant forall j | 0 <= j < dst.Length && !(d + w <= j < d + w + i) :: dst[j] == old(dst[j])
    {
      dst[d + w + i] := src[s + i];
    }
  }

  /** The end of the line that starts at `ls`, and its first colon; both past the end when there is none. */
  method FindLine(raw: Bytes, ls: nat) returns (end: nat, colon: nat)
    requires ls < |raw|
    ensures ls <= end <= |raw| && (end < |raw| ==> end + 1 < |raw| && NextCrlf(raw[ls..], 0) == Some(end - ls))
    ensures end == |raw| ==> NextCrlf(raw[ls..], 0).None?
    ensures colon == |raw| && end < |raw| ==> COLON !in raw[ls..end]
    ensures colon != |raw| ==> ls <= colon < end && raw[colon] == COLON && COLON !in raw[ls..colon]
  {
    hide NextCrlf;
    ghost var rest := raw[ls..];
    end, colon := ls, |raw|;
    while end + 1 < |raw| && !CrlfAt(raw, end)
      invariant ls <= end < |raw|
      invariant forall i | 0 <= i < end - ls :: !CrlfAt(rest, i)
      invariant colon == |raw| ==> COLON !in raw[ls..end]
      invariant colon != |raw| ==> ls <= colon < end && raw[colon] == COLON && COLON !in raw[ls..colon]
    {
      if colon == |raw| && raw[end] == COLON {
        colon := end;
      }
      end := end + 1;
    }
    if end + 1 >= |raw| {
      NoCrlfLeft(rest);
      return |raw|, |raw|;
    }
    assert CrlfAt(rest, end - ls);
    NextCrlfIs(rest, 0, end - ls);
  }

  /** The lines up to the blank one are field lines, a continuation only after one. */
  method CheckTrailers(raw: Bytes) returns (ok: bool)
    ensures ok == TrailersOk(raw, true)
  {
    hide NextCrlf, TrailersOk, TrailerLineOk;
    var ls := 0;
    assert raw[0..] == raw;
    while ls < |raw|
      invariant ls <= |raw|
      invariant TrailersOk(raw[ls..], ls == 0) == TrailersOk(raw, true)
      decreases |raw| - ls
    {
      var end, colon := FindLine(raw, ls);
      TrailerStep(raw, ls, end, ls == 0);
      if end == |raw| {
        return false;
      }
      if end == ls {
        return true;
      }
      if !(ls != 0 && IsBlank(raw[ls])) && (colon == |raw| || colon == ls) {
        NoFieldLine(raw[ls..end], ls == 0, colon - ls);
        return false;
      }
      FieldLine(raw[ls..end], ls == 0, colon - ls);
      ls := end + 2;
    }
    NoCrlfLeft(raw[ls..]);
    TrailerStep(raw, ls, ls, ls == 0);
    ok := false;
  }

  lemma FieldLine(line: Bytes, first: bool, colon: int)
    requires line != []
    requires (!first && IsBlank(line[0])) || (0 < colon < |line| && line[colon] == COLON && line[0] != COLON)
    ensures TrailerLineOk(line, first)
  {}

  lemma NoFieldLine(line: Bytes, first: bool, colon: int)
    requires line != [] && (first || !IsBlank(line[0]))
    requires COLON !in line || (colon == 0 && line[0] == COLON)
    ensures !TrailerLineOk(line, first)
  {}

  lemma NoCrlfLeft(rest: Bytes)
    requires forall i | 0 <= i < |rest| - 1 :: !CrlfAt(rest, i)
    ensures NextCrlf(rest, 0).None?
  {
    hide NextCrlf;
  }

  /** One line of the trailer section: it ends the section, breaks it, or is followed by the rest. */
  lemma TrailerStep(raw: Bytes, ls: nat, end: nat, first: bool)
    requires ls <= end <= |raw|
    requires end < |raw| ==> end + 1 < |raw| && NextCrlf(raw[ls..], 0) == Some(end - ls)
    requires end == |raw| ==> NextCrlf(raw[ls..], 0).None?
    ensures end == |raw| ==> !TrailersOk(raw[ls..], first)
    ensures end < |raw| && end == ls ==> TrailersOk(raw[ls..], first)
    ensures ls < end < |raw| ==>
              TrailersOk(raw[ls..], first) == (TrailerLineOk(raw[ls..end], first) && TrailersOk(raw[end + 2..], false))
  {
    hide NextCrlf, TrailerLineOk;
    if ls < end < |raw| {
      assert raw[ls..][..end - ls] == raw[ls..end];
      assert raw[ls..][end - ls + 2..] == raw[end + 2..];
    }
  }

  /** What the decoder finds where it reads. */
  datatype Step = Stop(ok: bool) | Data(at: nat, n: nat)

  method NextChunk(raw: Bytes) returns (step: Step)
    ensures step.Stop? ==> Decode(raw) == if step.ok then Some([]) else None
    ensures step.Data? ==> 2 <= step.at && 0 < step.n && step.at + step.n + 2 <= |raw|
    ensures step.Data? ==>
              Decode(raw) == Prefixed(raw[step.at..step.at + step.n], Decode(raw[step.at + step.n + 2..]))
  {
    hide NextCrlf, ChunkSize, TrailersOk;
    var found, he := FindCrlf(raw, 0);
    if !found {
      return Stop(false);
    }
    var size := ParseChunkSize(raw[..he]);
    if size.None? {
      return Stop(false);
    }
    var clen := size.value;
    if clen == 0 {
      var ok := CheckTrailers(raw[he + 2..]);
      return Stop(ok);
    }
    if he + 4 > |raw| || clen > |raw| - he - 4 || raw[he + 2 + clen] != CR || raw[he + 3 + clen] != LF {
      return Stop(false);
    }
    return Data(he + 2, clen);
  }

  /**
   * Decode the chunked body `src[off..off + len]` into `dst` from `d` on, where
   * `dst` may be `src` itself with `d` at or below `off`. The result is the pure
   * decoding of the bytes as they were on entry, and nothing else is written.
   */
  method DecodeInto(dst: array<Byte>, d: nat, src: array<Byte>, off: nat, len: nat)
    returns (ok: bool, outLen: nat)
    requires d + len <= dst.Length && off + len <= src.Length
    requires dst == src ==> d <= off
    modifies dst
    ensures ok == Decode(old(src[off..off + len])).Some?
    ensures outLen <= len
    ensures ok ==> Decode(old(src[off..off + len])) == Some(dst[d..d + outLen])
    ensures forall j | 0 <= j < dst.Length && !(d <= j < d + outLen) :: dst[j] == old(dst[j])
  {
    hide Decode;
    ghost var raw := src[off..off + len];
    var p := 0;
    outLen := 0;
    PrefixedNone(Decode(raw));
    assert dst[d..d] == [] && src[off + 0..off + len] == raw;
    while true
      invariant p <= len && outLen <= p
      invariant Decode(raw) == Prefixed(dst[d..d + outLen], Decode(src[off + p..off + len]))
      invariant forall j | 0 <= j < dst.Length && !(d <= j < d + outLen) :: dst[j] == old(dst[j])
      decreases len - p
    {
      var rest := src[off + p..off + len];
      var step := NextChunk(rest);
      match step
      case Stop(accepted) =>
        assert dst[d..d + outLen] + [] == dst[d..d + outLen];
        return accepted, outLen;
      case Data(at, n) =>
        PrefixedTwice(dst[d..d + outLen], rest[at..at + n], Decode(rest[at + n + 2..]));
        Slice(src, off + p, off + len, at, at + n);
        Slice(src, off + p, off + len, at + n + 2, len - p);
        Append(dst, d, outLen, src, off + p + at, n);
        p := p + at + n + 2;
        outLen := outLen + n;
    }
  }

  lemma Slice(a: array<Byte>, lo: nat, hi: nat, i: nat, j: nat)
    requires i <= j && lo + j <= hi <= a.Length
    ensures a[lo..hi][i..j] == a[lo + i..lo + j]
  {
    var s := a[lo..hi];
    assert forall k | 0 <= k < j - i :: s[i..j][k] == a[lo + i..lo + j][k];
  }

  lemma PrefixedNone(rest: Option<Bytes>)
    ensures Prefixed([], rest) == rest
  {
    if rest.Some? { assert [] + rest.value == rest.value; }
  }

  lemma PrefixedTwice(a: Bytes, b: Bytes, rest: Option<Bytes>)
    ensures Prefixed(a, Prefixed(b, rest)) == Prefixed(a + b, rest)
  {
    if rest.Some? { assert a + (b + rest.value) == a + b + rest.value; }
  }
}
