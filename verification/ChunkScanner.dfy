/** The incremental chunk scanner with its cached resume points. */
module ChunkScanner {
  import opened Bytes
  import opened Chunked

  /** Advance to the next CRLF; without one, `next` is where to resume. */
  method FindCrlf(raw: Bytes, at: nat) returns (found: bool, next: nat)
    ensures found ==> NextCrlf(raw, at) == Some(next)
    ensures !found ==> NextCrlf(raw, at).None? && (next == at || next + 1 == |raw|) && |raw| <= next + 1
  {
    next := at;
    while next + 1 < |raw| && !(raw[next] == CR && raw[next + 1] == LF)
      invariant at <= next && (next == at || next + 1 <= |raw|)
      invariant NextCrlf(raw, next) == NextCrlf(raw, at)
    {
      next := next + 1;
    }
    found := next + 1 < |raw|;
  }

  lemma HexRunIs(line: Bytes, k: nat)
    requires k <= |line| && AllHex(line[..k]) && (k < |line| ==> HexDigit(line[k]).None?)
    ensures HexRun(line) == k
  {
    assert forall i | 0 <= i < k :: line[i] == line[..k][i];
  }

  lemma HexValueSnoc(line: Bytes, k: nat)
    requires k < |line| && AllHex(line[..k]) && HexDigit(line[k]).Some?
    ensures AllHex(line[..k + 1]) && HexValue(line[..k + 1]) == 16 * HexValue(line[..k]) + HexDigit(line[k]).value
  {
    assert line[..k + 1][..k] == line[..k];
  }

  lemma {:induction false} HexValueGrows(line: Bytes, k: nat, n: nat)
    requires k <= n <= |line| && AllHex(line[..n])
    ensures AllHex(line[..k]) && HexValue(line[..k]) <= HexValue(line[..n])
    decreases n
  {
    assert forall i | 0 <= i < k :: line[..k][i] == line[..n][i];
    if k < n {
      assert line[..n][n - 1] == line[n - 1];
      assert forall i | 0 <= i < n - 1 :: line[..n - 1][i] == line[..n][i];
      HexValueGrows(line, k, n - 1);
      HexValueSnoc(line, n - 1);
    }
  }

  lemma OversizedLine(line: Bytes, k: nat)
    requires k < |line| && AllHex(line[..k]) && HexDigit(line[k]).Some? && HexValue(line[..k]) > 0x0FFF_FFFF
    ensures ChunkSize(line).None?
  {
    HexValueSnoc(line, k);
    var n := HexRun(line);
    assert forall i | 0 <= i < k + 1 :: line[i] == line[..k + 1][i];
    assert AllHex(line[..n]);
    HexValueGrows(line, k + 1, n);
  }

  method SkipBlanks(line: Bytes, k: nat) returns (j: nat)
    requires k <= |line|
    ensures j == k + BlankRun(line[k..])
  {
    j := k;
    while j < |line| && IsBlank(line[j])
      invariant k <= j <= |line|
      invariant forall i | k <= i < j :: IsBlank(line[i])
    {
      j := j + 1;
    }
    BlankRunIs(line[k..], j - k);
  }

  /** The chunk-size line, digit by digit. */
  method ParseChunkSize(line: Bytes) returns (size: Option<nat>)
    ensures size == ChunkSize(line)
    ensures forall n: nat :: size == Some(n) <==> SizeLine(line, n)
  {
    hide SizeLine, BlankRun, HexRun;
    SizesAre(line);
    var v := 0;
    var k := 0;
    while k < |line| && line[k] != SEMICOLON && !(k > 0 && IsBlank(line[k]))
      invariant k <= |line| && AllHex(line[..k])
      invariant v == HexValue(line[..k]) <= MAX_CHUNK_SIZE
    {
      var d := HexDigit(line[k]);
      if d.None? {
        HexRunIs(line, k);
        return None;
      }
      if v > 0x0FFF_FFFF {
        OversizedLine(line, k);
        return None;
      }
      HexValueSnoc(line, k);
      v := 16 * v + d.value;
      k := k + 1;
    }
    HexRunIs(line, k);
    if k == 0 {
      return None;
    }
    if k < |line| && IsBlank(line[k]) {
      var j := SkipBlanks(line, k);
      if j == |line| || line[j] != SEMICOLON {
        return None;
      }
    }
    return Some(v);
  }

  lemma SizesAre(line: Bytes)
    ensures forall n: nat :: ChunkSize(line) == Some(n) <==> SizeLine(line, n)
  {
    forall n: nat
      ensures ChunkSize(line) == Some(n) <==> SizeLine(line, n)
    {
      ChunkSizeIs(line, n);
    }
  }

  lemma BlankRunIs(s: Bytes, k: nat)
    requires k <= |s| && (forall i | 0 <= i < k :: IsBlank(s[i])) && (k < |s| ==> !IsBlank(s[k]))
    ensures BlankRun(s) == k
  {}

  /** Resume points of a scan: where it stands, the open chunk, the cached CRLF search and the cap. */
  datatype ChunkScan = ChunkScan(pos: nat, chunk: nat, crlf: nat, max: nat, total: nat, inTrailers: bool)

  function FreshScan(max: nat): ChunkScan {
    ChunkScan(0, 0, 0, max, 0, false)
  }

  /** The cached search start skips no CRLF of the bytes seen, and the count is within the cap. */
  ghost predicate ScanOk(raw: Bytes, st: ChunkScan) {
    && st.pos <= |raw|
    && (forall i | st.pos <= i < st.crlf :: i + 1 < |raw| && !CrlfAt(raw, i))
    && (st.max != 0 ==> st.total <= st.max)
    && (st.chunk > 0 ==> !st.inTrailers)
  }

  /** The verdict on `raw` for a scan that stands at `st`. */
  function Resume(raw: Bytes, st: ChunkScan): Verdict
    requires st.max != 0 ==> st.total <= st.max
  {
    if st.chunk > 0 then ScanPayload(raw, st.pos, st.chunk, st.total, st.max)
    else if st.inTrailers then ScanTrailers(raw, st.pos, st.total)
    else ScanChunks(raw, st.pos, st.total, st.max)
  }

  /** `cur` continues `st` whatever arrives after `raw`. */
  ghost predicate Continues(raw: Bytes, st: ChunkScan, cur: ChunkScan)
    requires st.max != 0 ==> st.total <= st.max
    requires cur.max != 0 ==> cur.total <= cur.max
  {
    forall ext | raw <= ext :: Resume(ext, cur) == Resume(ext, st)
  }

  lemma CachedCrlf(raw: Bytes, ext: Bytes, st: ChunkScan, e: nat)
    requires ScanOk(raw, st) && st.pos <= e && raw <= ext
    requires NextCrlf(raw, if st.crlf < st.pos then st.pos else st.crlf) == Some(e)
    ensures NextCrlf(ext, st.pos) == Some(e) && ext[st.pos..e] == raw[st.pos..e]
  {
    hide NextCrlf;
    forall i | st.pos <= i < e
      ensures !CrlfAt(ext, i)
    {
      assert i + 1 < |raw| ==> CrlfAt(ext, i) == CrlfAt(raw, i);
      assert !CrlfAt(raw, i);
    }
    NextCrlfIs(ext, st.pos, e);
  }

  lemma CachedNone(raw: Bytes, st: ChunkScan)
    requires ScanOk(raw, st)
    requires NextCrlf(raw, if st.crlf < st.pos then st.pos else st.crlf).None?
    ensures NextCrlf(raw, st.pos).None?
  {}

  /** Past a whole payload and its CRLF. */
  lemma PayloadStep(raw: Bytes, st: ChunkScan)
    requires ScanOk(raw, st) && st.chunk > 0 && st.pos + st.chunk + 2 <= |raw| && CrlfAt(raw, st.pos + st.chunk)
    ensures Continues(raw, st, st.(pos := st.pos + st.chunk + 2, chunk := 0))
  {
    hide ScanChunks, ScanTrailers;
    var next := st.(pos := st.pos + st.chunk + 2, chunk := 0);
    forall ext | raw <= ext
      ensures Resume(ext, next) == Resume(ext, st)
    {
      assert CrlfAt(ext, st.pos + st.chunk);
    }
  }

  /** Past one trailer line. */
  lemma TrailerStep(raw: Bytes, st: ChunkScan, e: nat)
    requires ScanOk(raw, st) && st.chunk == 0 && st.inTrailers && st.pos < e
    requires NextCrlf(raw, if st.crlf < st.pos then st.pos else st.crlf) == Some(e)
    ensures Continues(raw, st, st.(pos := e + 2, crlf := e))
  {
    hide NextCrlf;
    var next := st.(pos := e + 2, crlf := e);
    forall ext | raw <= ext
      ensures Resume(ext, next) == Resume(ext, st)
    {
      CachedCrlf(raw, ext, st, e);
    }
  }

  /** Past one chunk-size line. */
  lemma SizeStep(raw: Bytes, st: ChunkScan, e: nat, n: nat)
    requires ScanOk(raw, st) && st.chunk == 0 && !st.inTrailers && st.pos <= e
    requires NextCrlf(raw, if st.crlf < st.pos then st.pos else st.crlf) == Some(e)
    requires ChunkSize(raw[st.pos..e]) == Some(n)
    requires st.max == 0 || n <= st.max - st.total
    ensures Continues(raw, st, st.(pos := e + 2, chunk := n, crlf := e, total := st.total + n, inTrailers := n == 0))
  {
    hide NextCrlf, ChunkSize, ScanTrailers, ScanPayload;
    var next := st.(pos := e + 2, chunk := n, crlf := e, total := st.total + n, inTrailers := n == 0);
    forall ext | raw <= ext
      ensures Resume(ext, next) == Resume(ext, st)
    {
      CachedCrlf(raw, ext, st, e);
    }
  }

  /** `st` is where a scan of `raw` from its first byte may stand, however its bytes arrived. */
  ghost predicate Scanning(raw: Bytes, st: ChunkScan) {
    ScanOk(raw, st) && Continues(raw, FreshScan(st.max), st)
  }

  lemma ScanningStarts(max: nat, raw: Bytes)
    ensures Scanning(raw, FreshScan(max))
  {}

  lemma ScanningDecides(raw: Bytes, st: ChunkScan)
    requires Scanning(raw, st)
    ensures ScanOk(raw, st) && Resume(raw, st) == Scan(raw, st.max)
  {
    hide ScanChunks, ScanPayload, ScanTrailers;
    assert Resume(raw, FreshScan(st.max)) == Scan(raw, st.max);
  }

  lemma ScanningGoesOn(raw: Bytes, st: ChunkScan, cur: ChunkScan)
    requires Scanning(raw, st) && ScanOk(raw, cur) && cur.max == st.max && Continues(raw, st, cur)
    ensures Scanning(raw, cur)
  {
    hide Resume;
  }

  /** The state left by one call is one the next call may start from, after any arrivals. */
  lemma ScanningExtends(raw: Bytes, ext: Bytes, st: ChunkScan)
    requires Scanning(raw, st) && raw <= ext
    ensures Scanning(ext, st)
  {
    hide Resume;
    assert ScanOk(ext, st) by {
      forall i | st.pos <= i < st.crlf
        ensures i + 1 < |ext| && !CrlfAt(ext, i)
      {
        assert !CrlfAt(raw, i);
      }
    }
    forall more | ext <= more
      ensures Resume(more, st) == Resume(more, FreshScan(st.max))
    {
      assert raw <= more;
    }
  }

  /**
   * One call of the resumable scanner: 1 complete, 0 more bytes needed, -1
   * malformed. From any state earlier calls on shorter prefixes may have left,
   * it decides as one fresh scan of `raw` does, with the same end and count.
   */
  method ChunkedComplete(raw: Bytes, st: ChunkScan) returns (verdict: int, cur: ChunkScan)
    requires Scanning(raw, st)
    ensures match Scan(raw, st.max)
            case More => verdict == 0
            case Malformed => verdict == -1
            case Complete(end, total) => verdict == 1 && cur.pos == end && cur.total == total
    ensures verdict == 0 ==> Scanning(raw, cur) && cur.max == st.max
  {
    hide NextCrlf, ChunkSize, Scanning, Continues, Scan;
    cur := st;
    while cur.pos < |raw|
      invariant Scanning(raw, cur) && cur.max == st.max
      decreases |raw| - cur.pos
    {
      ScanningDecides(raw, cur);
      if cur.chunk > 0 {
        if |raw| - cur.pos < 2 || cur.chunk > |raw| - cur.pos - 2 {
          return 0, cur;
        }
        if raw[cur.pos + cur.chunk] != CR || raw[cur.pos + cur.chunk + 1] != LF {
          return -1, cur;
        }
        PayloadStep(raw, cur);
        ScanningGoesOn(raw, cur, cur.(pos := cur.pos + cur.chunk + 2, chunk := 0));
        cur := cur.(pos := cur.pos + cur.chunk + 2, chunk := 0);
        continue;
      }
      var from := if cur.crlf < cur.pos then cur.pos else cur.crlf;
      var found, e := FindCrlf(raw, from);
      if !found {
        CachedNone(raw, cur);
        CacheAdvances(raw, cur, e);
        ScanningGoesOn(raw, cur, cur.(crlf := e));
        return 0, cur.(crlf := e);
      }
      CachedCrlf(raw, raw, cur, e);
      if cur.inTrailers {
        if e == cur.pos {
          return 1, cur.(pos := e + 2, crlf := e);
        }
        TrailerStep(raw, cur, e);
        ScanningGoesOn(raw, cur, cur.(pos := e + 2, crlf := e));
        cur := cur.(pos := e + 2, crlf := e);
      } else {
        var size := ParseChunkSize(raw[cur.pos..e]);
        if size.None? || (cur.max != 0 && size.value > cur.max - cur.total) {
          return -1, cur;
        }
        SizeStep(raw, cur, e, size.value);
        var next := cur.(pos := e + 2, chunk := size.value, crlf := e, total := cur.total + size.value,
                         inTrailers := size.value == 0);
        ScanningGoesOn(raw, cur, next);
        cur := next;
      }
    }
    ScanningDecides(raw, cur);
    verdict := 0;
  }

  lemma CacheAdvances(raw: Bytes, st: ChunkScan, e: nat)
    requires ScanOk(raw, st) && st.pos < |raw| && st.chunk == 0
    requires var from := if st.crlf < st.pos then st.pos else st.crlf;
             NextCrlf(raw, from).None? && (e == from || e + 1 == |raw|) && |raw| <= e + 1
    ensures ScanOk(raw, st.(crlf := e)) && Continues(raw, st, st.(crlf := e))
  {}
}
