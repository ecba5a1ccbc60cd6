/** Section 7.1 of RFC 9112: chunk framing as pure functions of the received bytes. */
module Chunked {
  import opened Bytes
  import opened Numerals

  // --- lines ---------------------------------------------------------------

  predicate CrlfAt(s: Bytes, i: int) {
    0 <= i && i + 1 < |s| && s[i] == CR && s[i + 1] == LF
  }

  /** The first CRLF at or after `from`. */
  function NextCrlf(s: Bytes, from: nat): (r: Option<nat>)
    ensures r.Some? ==> from <= r.value && CrlfAt(s, r.value) && forall i | from <= i < r.value :: !CrlfAt(s, i)
    ensures r.None? ==> forall i | from <= i :: !CrlfAt(s, i)
    decreases |s| - from
  {
    if from + 1 >= |s| then None
    else if CrlfAt(s, from) then Some(from)
    else NextCrlf(s, from + 1)
  }

  ghost predicate NoCrlf(line: Bytes) {
    forall i :: !CrlfAt(line, i)
  }

  // --- the chunk-size line -------------------------------------------------

  const MAX_CHUNK_SIZE := 0xFFFF_FFFF

  /** How many leading hexadecimal digits `s` has. */
  function HexRun(s: Bytes): (n: nat)
    ensures n <= |s|
    ensures forall i | 0 <= i < n :: HexDigit(s[i]).Some?
    ensures n < |s| ==> HexDigit(s[n]).None?
  {
    if s == [] || HexDigit(s[0]).None? then 0 else 1 + HexRun(s[1..])
  }

  predicate IsBlank(c: Byte) { c == SP || c == HT }

  /** How many leading blanks `s` has. */
  function BlankRun(s: Bytes): (n: nat)
    ensures n <= |s|
    ensures forall i | 0 <= i < n :: IsBlank(s[i])
    ensures n < |s| ==> !IsBlank(s[n])
  {
    if s == [] || !IsBlank(s[0]) then 0 else 1 + BlankRun(s[1..])
  }

  predicate AllHex(s: Bytes) { forall i | 0 <= i < |s| :: HexDigit(s[i]).Some? }

  function HexValue(s: Bytes): nat
    requires AllHex(s)
  {
    if s == [] then 0 else 16 * HexValue(s[..|s| - 1]) + HexDigit(s[|s| - 1]).value
  }

  /** What may follow the size: nothing, or blanks and then a chunk extension. */
  predicate SizeTail(r: Bytes) {
    r == [] || (BlankRun(r) < |r| && r[BlankRun(r)] == SEMICOLON)
  }

  /** The value of a chunk-size line, or None for a malformed or oversized one. */
  function ChunkSize(line: Bytes): Option<nat> {
    var n := HexRun(line);
    if n > 0 && SizeTail(line[n..]) && HexValue(line[..n]) <= MAX_CHUNK_SIZE
    then Some(HexValue(line[..n])) else None
  }

  /** The value of a run of hexadecimal digits is the number it writes. */
  lemma {:induction false} HexValueIs(s: Bytes, n: nat)
    requires s != []
    ensures IsHex(s, n) <==> AllHex(s) && HexValue(s) == n
    decreases |s|
  {
    hide HexDigit, Shows;
    var init, c := s[..|s| - 1], s[|s| - 1];
    HexDigitIs(c, n % 16);
    assert s == init + [c];
    assert AllHex(s) <==> AllHex(init) && HexDigit(c).Some?;
    if |s| == 1 {
      assert init == [];
    } else {
      HexValueIs(init, n / 16);
    }
  }

  /** Blanks, a semicolon, and then anything; or nothing at all. */
  ghost predicate IsExtension(r: Bytes) {
    r == [] ||
    exists b :: 0 <= b < |r| && r[b] == ';' as int && forall i | 0 <= i < b :: r[i] == ' ' as int || r[i] == '\t' as int
  }

  /** A chunk-size line of section 7.1 of RFC 9112 for a size of at most 32 bits. */
  ghost predicate SizeLine(line: Bytes, n: nat) {
    n <= 0xFFFF_FFFF && exists k :: 0 < k <= |line| && IsHex(line[..k], n) && IsExtension(line[k..])
  }

  lemma ExtensionIs(r: Bytes)
    ensures SizeTail(r) <==> IsExtension(r)
  {
    if IsExtension(r) && r != [] {
      var b :| 0 <= b < |r| && r[b] == ';' as int && forall i | 0 <= i < b :: r[i] == ' ' as int || r[i] == '\t' as int;
      assert BlankRun(r) == b;
    }
  }

  /** What may follow the size starts with no digit. */
  lemma RunOfSize(line: Bytes, k: nat)
    requires 0 < k <= |line| && AllHex(line[..k]) && SizeTail(line[k..])
    ensures HexRun(line) == k
  {
    assert forall i | 0 <= i < k :: line[i] == line[..k][i];
    assert line[k..] != [] ==> line[k..][0] == line[k];
  }

  /** The size read from a line is the number its digits write; any other line has none. */
  lemma ChunkSizeIs(line: Bytes, n: nat)
    ensures ChunkSize(line) == Some(n) <==> SizeLine(line, n)
  {
    hide HexRun, HexValue, SizeTail, IsExtension, IsHex, AllHex;
    if ChunkSize(line) == Some(n) {
      var k := HexRun(line);
      RunIsHex(line);
      HexValueIs(line[..k], n);
      ExtensionIs(line[k..]);
    }
    if SizeLine(line, n) {
      var k :| 0 < k <= |line| && IsHex(line[..k], n) && IsExtension(line[k..]);
      HexValueIs(line[..k], n);
      ExtensionIs(line[k..]);
      RunOfSize(line, k);
    }
  }

  lemma RunIsHex(line: Bytes)
    ensures AllHex(line[..HexRun(line)])
  {}

  /** Any size in 32 bits, in either case and behind any zeros, is read as itself. */
  lemma EverySizeIsRead(n: nat, upper: bool, zeros: nat)
    ensures ChunkSize(Noughts(zeros) + Hex(n, upper)) == if n <= 0xFFFF_FFFF then Some(n) else None
  {
    hide ChunkSize, IsHex;
    var line := Noughts(zeros) + Hex(n, upper);
    EveryNumber(n, upper, zeros);
    assert line[..|line|] == line && line[|line|..] == [];
    if n <= 0xFFFF_FFFF {
      ChunkSizeIs(line, n);
    } else if ChunkSize(line).Some? {
      WholeSize(line, n);
    }
  }

  lemma WholeSize(line: Bytes, n: nat)
    requires IsHex(line, n) && ChunkSize(line).Some?
    ensures n <= MAX_CHUNK_SIZE
  {
    hide IsHex, HexDigit;
    HexValueIs(line, n);
    assert HexRun(line) == |line| && line[..|line|] == line;
  }

  // --- the scanner ---------------------------------------------------------

  datatype Verdict = More | Malformed | Complete(end: nat, total: nat)

  function ScanTrailers(raw: Bytes, pos: nat, total: nat): (v: Verdict)
    ensures v.Complete? ==> pos + 2 <= v.end <= |raw| && v.total == total
    decreases |raw| - pos
  {
    match NextCrlf(raw, pos)
    case None => More
    case Some(e) => if e == pos then Complete(e + 2, total) else ScanTrailers(raw, e + 2, total)
  }

  /** `max` is the body cap, 0 for none. */
  function ScanChunks(raw: Bytes, pos: nat, total: nat, max: nat): (v: Verdict)
    requires max != 0 ==> total <= max
    ensures v.Complete? ==> pos + 2 <= v.end <= |raw| && total <= v.total && (max != 0 ==> v.total <= max)
    decreases |raw| - pos, 1
  {
    match NextCrlf(raw, pos)
    case None => More
    case Some(e) =>
      match ChunkSize(raw[pos..e])
      case None => Malformed
      case Some(n) =>
        if max != 0 && n > max - total then Malformed
        else if n == 0 then ScanTrailers(raw, e + 2, total)
        else ScanPayload(raw, e + 2, n, total + n, max)
  }

  function ScanPayload(raw: Bytes, pos: nat, n: nat, total: nat, max: nat): (v: Verdict)
    requires max != 0 ==> total <= max
    ensures v.Complete? ==> pos + n + 4 <= v.end <= |raw| && total <= v.total && (max != 0 ==> v.total <= max)
    decreases |raw| - pos, 0
  {
    if |raw| < pos + n + 2 then More
    else if !CrlfAt(raw, pos + n) then Malformed
    else ScanChunks(raw, pos + n + 2, total, max)
  }

  /** The verdict of one uninterrupted scan of `raw`. */
  function Scan(raw: Bytes, max: nat): (v: Verdict)
    ensures v.Complete? ==> v.end <= |raw| && (max != 0 ==> v.total <= max)
  {
    ScanChunks(raw, 0, 0, max)
  }

  // --- the trailer section and the decoder ---------------------------------

  /** A field line needs a name before its colon; a later line may fold. */
  predicate TrailerLineOk(line: Bytes, first: bool) {
    (!first && line != [] && IsBlank(line[0])) ||
    (exists c :: 0 < c < |line| && line[c] == COLON && line[0] != COLON)
  }

  /** A trailer section up to its blank line; `first` when no line of it came before. */
  predicate TrailersOk(raw: Bytes, first: bool)
    decreases |raw|
  {
    match NextCrlf(raw, 0)
    case None => false
    case Some(e) => e == 0 || (TrailerLineOk(raw[..e], first) && TrailersOk(raw[e + 2..], false))
  }

  function Prefixed(head: Bytes, rest: Option<Bytes>): Option<Bytes> {
    match rest
    case None => None
    case Some(r) => Some(head + r)
  }

  /** The payload of the chunked body that starts `raw`, or None. */
  function Decode(raw: Bytes): Option<Bytes>
    decreases |raw|
  {
    match NextCrlf(raw, 0)
    case None => None
    case Some(e) =>
      match ChunkSize(raw[..e])
      case None => None
      case Some(n) =>
        if n == 0 then (if TrailersOk(raw[e + 2..], true) then Some([]) else None)
        else if |raw| < e + n + 4 || !CrlfAt(raw, e + 2 + n) then None
        else Prefixed(raw[e + 2..e + 2 + n], Decode(raw[e + n + 4..]))
  }

  // --- the scanner's verdict is stable -------------------------------------

  /** A CRLF pinned in `raw` is the next one in every extension as well. */
  lemma NextCrlfIs(s: Bytes, from: nat, e: nat)
    requires from <= e && CrlfAt(s, e) && forall i | from <= i < e :: !CrlfAt(s, i)
    ensures NextCrlf(s, from) == Some(e)
  {
    assert NextCrlf(s, from).Some?;
  }

  lemma NextCrlfExtends(raw: Bytes, ext: Bytes, from: nat)
    requires raw <= ext && NextCrlf(raw, from).Some?
    ensures NextCrlf(ext, from) == NextCrlf(raw, from)
  {
    var e := NextCrlf(raw, from).value;
    assert forall i | from <= i < e :: CrlfAt(ext, i) == CrlfAt(raw, i);
    NextCrlfIs(ext, from, e);
  }

  lemma {:induction false} TrailersExtend(raw: Bytes, ext: Bytes, pos: nat, total: nat)
    requires raw <= ext && ScanTrailers(raw, pos, total) != More
    ensures ScanTrailers(ext, pos, total) == ScanTrailers(raw, pos, total)
    decreases |raw| - pos
  {
    NextCrlfExtends(raw, ext, pos);
    var e := NextCrlf(raw, pos).value;
    if e != pos { TrailersExtend(raw, ext, e + 2, total); }
  }

  lemma {:induction false} ChunksExtend(raw: Bytes, ext: Bytes, pos: nat, total: nat, max: nat)
    requires max != 0 ==> total <= max
    requires raw <= ext && ScanChunks(raw, pos, total, max) != More
    ensures ScanChunks(ext, pos, total, max) == ScanChunks(raw, pos, total, max)
    decreases |raw| - pos, 1
  {
    hide ChunkSize;
    NextCrlfExtends(raw, ext, pos);
    var e := NextCrlf(raw, pos).value;
    assert raw[pos..e] == ext[pos..e];
    var size := ChunkSize(raw[pos..e]);
    if size.Some? && !(max != 0 && size.value > max - total) {
      if size.value == 0 { TrailersExtend(raw, ext, e + 2, total); }
      else { PayloadExtend(raw, ext, e + 2, size.value, total + size.value, max); }
    }
  }

  lemma {:induction false} PayloadExtend(raw: Bytes, ext: Bytes, pos: nat, n: nat, total: nat, max: nat)
    requires max != 0 ==> total <= max
    requires raw <= ext && ScanPayload(raw, pos, n, total, max) != More
    ensures ScanPayload(ext, pos, n, total, max) == ScanPayload(raw, pos, n, total, max)
    decreases |raw| - pos, 0
  {
    if CrlfAt(raw, pos + n) { ChunksExtend(raw, ext, pos + n + 2, total, max); }
  }

  /** Cutting the bytes past a complete message leaves it complete. */
  lemma {:induction false} TrailersCut(raw: Bytes, pos: nat, total: nat)
    requires ScanTrailers(raw, pos, total).Complete?
    ensures ScanTrailers(raw[..ScanTrailers(raw, pos, total).end], pos, total) == ScanTrailers(raw, pos, total)
    decreases |raw| - pos
  {
    var cut := raw[..ScanTrailers(raw, pos, total).end];
    var e := NextCrlf(raw, pos).value;
    assert forall i | pos <= i < e :: CrlfAt(cut, i) == CrlfAt(raw, i);
    NextCrlfIs(cut, pos, e);
    if e != pos { TrailersCut(raw, e + 2, total); }
  }

  lemma {:induction false} ChunksCut(raw: Bytes, pos: nat, total: nat, max: nat)
    requires max != 0 ==> total <= max
    requires ScanChunks(raw, pos, total, max).Complete?
    ensures ScanChunks(raw[..ScanChunks(raw, pos, total, max).end], pos, total, max) == ScanChunks(raw, pos, total, max)
    decreases |raw| - pos, 1
  {
    hide ChunkSize, ScanPayload;
    var cut := raw[..ScanChunks(raw, pos, total, max).end];
    var e := NextCrlf(raw, pos).value;
    assert forall i | pos <= i < e :: CrlfAt(cut, i) == CrlfAt(raw, i);
    NextCrlfIs(cut, pos, e);
    assert cut[pos..e] == raw[pos..e];
    var n := ChunkSize(raw[pos..e]).value;
    if n == 0 { TrailersCut(raw, e + 2, total); }
    else { PayloadCut(raw, e + 2, n, total + n, max); }
  }

  lemma {:induction false} PayloadCut(raw: Bytes, pos: nat, n: nat, total: nat, max: nat)
    requires max != 0 ==> total <= max
    requires ScanPayload(raw, pos, n, total, max).Complete?
    ensures ScanPayload(raw[..ScanPayload(raw, pos, n, total, max).end], pos, n, total, max)
            == ScanPayload(raw, pos, n, total, max)
    decreases |raw| - pos, 0
  {
    hide ScanChunks;
    ChunksCut(raw, pos + n + 2, total, max);
  }

  /**
   * A complete chunked message is self-delimiting: every extension ends at the
   * same place, every shorter prefix asks for more, and the message alone is
   * complete.
   */
  lemma SelfDelimiting(raw: Bytes, max: nat, other: Bytes)
    requires Scan(raw, max).Complete?
    ensures raw <= other ==> Scan(other, max) == Scan(raw, max)
    ensures other <= raw && |other| < Scan(raw, max).end ==> Scan(other, max) == More
    ensures other <= raw && |other| >= Scan(raw, max).end ==> Scan(other, max) == Scan(raw, max)
  {
    var end := Scan(raw, max).end;
    if raw <= other { ChunksExtend(raw, other, 0, 0, max); }
    if other <= raw {
      if Scan(other, max) != More { ChunksExtend(other, raw, 0, 0, max); }
      ChunksCut(raw, 0, 0, max);
      if |other| >= end {
        assert raw[..end] <= other;
        ChunksExtend(raw[..end], other, 0, 0, max);
      }
    }
  }
}
