/**
 * Chunked messages as the grammar of section 7.1 of RFC 9112 builds them, and
 * the proof that the scanner and the decoder recognise exactly these.
 */
module ChunkedGrammar {
  import opened Bytes
  import opened Chunked

  /** Trailer field lines, without their CRLFs. */
  datatype Trailers = Blank | Field(line: Bytes, rest: Trailers)

  /** Chunks with their size lines, then the last chunk and the trailer section. */
  datatype Message =
    | Last(line: Bytes, trailers: Trailers)
    | Chunk(line: Bytes, data: Bytes, rest: Message)

  ghost predicate TrailersShape(t: Trailers) {
    match t
    case Blank => true
    case Field(line, rest) => line != [] && NoCrlf(line) && TrailersShape(rest)
  }

  ghost predicate WellFormed(m: Message) {
    match m
    case Last(line, t) => NoCrlf(line) && SizeLine(line, 0) && TrailersShape(t)
    case Chunk(line, data, rest) => NoCrlf(line) && data != [] && SizeLine(line, |data|) && WellFormed(rest)
  }

  function TrailersWire(t: Trailers): Bytes {
    match t
    case Blank => CRLF
    case Field(line, rest) => line + CRLF + TrailersWire(rest)
  }

  function Wire(m: Message): Bytes {
    match m
    case Last(line, t) => line + CRLF + TrailersWire(t)
    case Chunk(line, data, rest) => line + CRLF + data + CRLF + Wire(rest)
  }

  function Payload(m: Message): Bytes {
    match m
    case Last(_, _) => []
    case Chunk(_, data, rest) => data + Payload(rest)
  }

  /** A field line: a name, a colon and a value. */
  ghost predicate IsField(line: Bytes) {
    exists k :: 0 < k < |line| && line[k] == ':' as int && forall i | 0 <= i < k :: line[i] != ':' as int
  }

  /** The obsolete line folding of section 5.2 of RFC 9112. */
  predicate IsFold(line: Bytes) { line != [] && (line[0] == ' ' as int || line[0] == '\t' as int) }

  /** Field lines, each perhaps followed by folds. */
  ghost predicate TrailersSyntax(t: Trailers, first: bool) {
    match t
    case Blank => true
    case Field(line, rest) => (IsField(line) || (!first && IsFold(line))) && TrailersSyntax(rest, false)
  }

  lemma TrailerLineIs(line: Bytes, first: bool)
    ensures TrailerLineOk(line, first) <==> IsField(line) || (!first && IsFold(line))
  {
    if exists c :: 0 < c < |line| && line[c] == COLON && line[0] != COLON {
      var c :| 0 < c < |line| && line[c] == COLON && line[0] != COLON;
      var k := FirstColon(line, c);
    }
  }

  lemma {:induction false} FirstColon(line: Bytes, c: nat) returns (k: nat)
    requires c < |line| && line[c] == COLON
    ensures k <= c && line[k] == COLON && forall i | 0 <= i < k :: line[i] != COLON
    decreases c
  {
    if i :| 0 <= i < c && line[i] == COLON {
      k := FirstColon(line, i);
    } else {
      k := c;
    }
  }

  ghost predicate Decodable(m: Message) {
    match m
    case Last(_, t) => TrailersSyntax(t, true)
    case Chunk(_, _, rest) => Decodable(rest)
  }

  // --- from the grammar to the scanner and the decoder ----------------------

  /** `raw` carries `w` at `pos`. */
  ghost predicate Holds(raw: Bytes, pos: nat, w: Bytes) {
    pos + |w| <= |raw| && raw[pos..pos + |w|] == w
  }

  lemma HoldsPart(raw: Bytes, pos: nat, a: Bytes, b: Bytes)
    requires Holds(raw, pos, a + b)
    ensures Holds(raw, pos, a) && Holds(raw, pos + |a|, b)
  {
    assert raw[pos..pos + |a|] == raw[pos..pos + |a + b|][..|a|];
    assert raw[pos + |a|..pos + |a| + |b|] == raw[pos..pos + |a + b|][|a|..];
  }

  lemma HoldsCrlf(raw: Bytes, pos: nat)
    requires Holds(raw, pos, CRLF)
    ensures CrlfAt(raw, pos)
  {
    assert raw[pos] == raw[pos..pos + 2][0] && raw[pos + 1] == raw[pos..pos + 2][1];
  }

  /** A line that carries no CRLF ends at the CRLF written after it. */
  lemma LineEnds(raw: Bytes, pos: nat, line: Bytes, rest: Bytes)
    requires NoCrlf(line) && Holds(raw, pos, line + CRLF + rest)
    ensures NextCrlf(raw, pos) == Some(pos + |line|)
    ensures raw[pos..pos + |line|] == line
    ensures Holds(raw, pos + |line| + 2, rest)
  {
    hide NextCrlf;
    HoldsPart(raw, pos, line + CRLF, rest);
    HoldsPart(raw, pos, line, CRLF);
    var e := pos + |line|;
    HoldsCrlf(raw, e);
    forall i | pos <= i < e
      ensures !CrlfAt(raw, i)
    {
      assert raw[i] == raw[pos..e][i - pos];
      assert i + 1 < e ==> raw[i + 1] == raw[pos..e][i + 1 - pos];
      assert !CrlfAt(line, i - pos);
    }
    NextCrlfIs(raw, pos, e);
  }

  lemma BlankEnds(raw: Bytes, pos: nat)
    requires Holds(raw, pos, CRLF)
    ensures NextCrlf(raw, pos) == Some(pos)
  {
    HoldsCrlf(raw, pos);
    NextCrlfIs(raw, pos, pos);
  }

  lemma {:induction false} TrailersOnWire(raw: Bytes, pos: nat, t: Trailers, total: nat)
    requires TrailersShape(t) && Holds(raw, pos, TrailersWire(t))
    ensures ScanTrailers(raw, pos, total) == Complete(pos + |TrailersWire(t)|, total)
    decreases t
  {
    hide NextCrlf, NoCrlf, Holds;
    match t
    case Blank => BlankEnds(raw, pos);
    case Field(line, rest) =>
      LineEnds(raw, pos, line, TrailersWire(rest));
      TrailersOnWire(raw, pos + |line| + 2, rest, total);
  }

  lemma {:induction false} SyntaxOnWire(raw: Bytes, t: Trailers, first: bool)
    requires TrailersShape(t) && Holds(raw, 0, TrailersWire(t))
    ensures TrailersOk(raw, first) == TrailersSyntax(t, first)
    decreases t
  {
    hide TrailerLineOk, NextCrlf, NoCrlf, IsField, IsFold;
    match t
    case Blank => BlankEnds(raw, 0);
    case Field(line, rest) =>
      TrailerLineIs(line, first);
      LineEnds(raw, 0, line, TrailersWire(rest));
      HoldsDrop(raw, |line| + 2, TrailersWire(rest));
      SyntaxOnWire(raw[|line| + 2..], rest, false);
  }

  lemma HoldsDrop(raw: Bytes, pos: nat, w: Bytes)
    requires Holds(raw, pos, w)
    ensures pos <= |raw| && Holds(raw[pos..], 0, w)
  {
    assert raw[pos..][0..|w|] == raw[pos..pos + |w|];
  }

  /** Where the parts of one chunk lie. */
  lemma ChunkOnWire(raw: Bytes, pos: nat, line: Bytes, data: Bytes, rest: Bytes)
    requires NoCrlf(line) && Holds(raw, pos, line + CRLF + data + CRLF + rest)
    ensures NextCrlf(raw, pos) == Some(pos + |line|) && raw[pos..pos + |line|] == line
    ensures pos + |line| + |data| + 4 <= |raw| && raw[pos + |line| + 2..pos + |line| + 2 + |data|] == data
    ensures CrlfAt(raw, pos + |line| + 2 + |data|)
    ensures Holds(raw, pos + |line| + |data| + 4, rest)
  {
    hide NextCrlf, NoCrlf;
    assert line + CRLF + data + CRLF + rest == line + CRLF + (data + (CRLF + rest));
    LineEnds(raw, pos, line, data + (CRLF + rest));
    HoldsPart(raw, pos + |line| + 2, data, CRLF + rest);
    HoldsPart(raw, pos + |line| + 2 + |data|, CRLF, rest);
    HoldsCrlf(raw, pos + |line| + 2 + |data|);
  }

  /**
   * On the wire form of a well-formed message, at any place in the stream and
   * whatever follows, the scanner ends exactly after it unless its payload
   * breaks the cap.
   */
  lemma {:induction false} ScanOnWire(raw: Bytes, pos: nat, m: Message, total: nat, max: nat)
    requires WellFormed(m) && Holds(raw, pos, Wire(m))
    requires max != 0 ==> total <= max
    ensures ScanChunks(raw, pos, total, max) ==
            if max == 0 || total + |Payload(m)| <= max
            then Complete(pos + |Wire(m)|, total + |Payload(m)|) else Malformed
    decreases m
  {
    hide ChunkSize, SizeLine, ScanTrailers, NextCrlf, Holds, NoCrlf;
    match m
    case Last(line, t) =>
      ChunkSizeIs(line, 0);
      LineEnds(raw, pos, line, TrailersWire(t));
      TrailersOnWire(raw, pos + |line| + 2, t, total);
    case Chunk(line, data, rest) =>
      ChunkSizeIs(line, |data|);
      ChunkOnWire(raw, pos, line, data, Wire(rest));
      if max == 0 || total + |data| <= max {
        ScanOnWire(raw, pos + |line| + |data| + 4, rest, total + |data|, max);
      }
  }

  /** The decoder returns exactly the payload unless a trailer line breaks the field syntax. */
  lemma {:induction false} DecodeOnWire(raw: Bytes, m: Message)
    requires WellFormed(m) && Holds(raw, 0, Wire(m))
    ensures Decode(raw) == if Decodable(m) then Some(Payload(m)) else None
    decreases m
  {
    hide ChunkSize, SizeLine, TrailersOk, NextCrlf, NoCrlf, Holds, CrlfAt;
    match m
    case Last(line, t) =>
      ChunkSizeIs(line, 0);
      LineEnds(raw, 0, line, TrailersWire(t));
      HoldsDrop(raw, |line| + 2, TrailersWire(t));
      SyntaxOnWire(raw[|line| + 2..], t, true);
    case Chunk(line, data, rest) =>
      ChunkSizeIs(line, |data|);
      ChunkOnWire(raw, 0, line, data, Wire(rest));
      HoldsDrop(raw, |line| + |data| + 4, Wire(rest));
      DecodeOnWire(raw[|line| + |data| + 4..], rest);
  }

  // --- and back -------------------------------------------------------------

  lemma HoldsJoin(raw: Bytes, pos: nat, a: Bytes, b: Bytes)
    requires Holds(raw, pos, a) && Holds(raw, pos + |a|, b)
    ensures Holds(raw, pos, a + b)
  {
    assert raw[pos..pos + |a + b|] == raw[pos..pos + |a|] + raw[pos + |a|..pos + |a| + |b|];
  }

  /** The line up to the next CRLF, and that CRLF. */
  lemma LineRead(raw: Bytes, pos: nat, e: nat, rest: Bytes)
    requires pos <= |raw| && NextCrlf(raw, pos) == Some(e) && Holds(raw, e + 2, rest)
    ensures NoCrlf(raw[pos..e]) && Holds(raw, pos, raw[pos..e] + CRLF + rest)
  {
    hide NextCrlf;
    forall i
      ensures !CrlfAt(raw[pos..e], i)
    {
      assert !(pos <= pos + i < e) || !CrlfAt(raw, pos + i);
    }
    assert raw[e..e + 2] == CRLF;
    HoldsJoin(raw, pos, raw[pos..e], CRLF);
    HoldsJoin(raw, pos, raw[pos..e] + CRLF, rest);
  }

  lemma {:induction false} TrailersRead(raw: Bytes, pos: nat, total: nat) returns (t: Trailers)
    requires ScanTrailers(raw, pos, total).Complete?
    ensures TrailersShape(t) && Holds(raw, pos, TrailersWire(t))
    ensures ScanTrailers(raw, pos, total).end == pos + |TrailersWire(t)|
    decreases |raw| - pos
  {
    hide NextCrlf, NoCrlf;
    var e := NextCrlf(raw, pos).value;
    if e == pos {
      t := Blank;
    } else {
      var rest := TrailersRead(raw, e + 2, total);
      LineRead(raw, pos, e, TrailersWire(rest));
      t := Field(raw[pos..e], rest);
    }
  }

  /** Every verdict Complete is the parse of a well-formed message. */
  lemma {:induction false} MessageRead(raw: Bytes, pos: nat, total: nat, max: nat) returns (m: Message)
    requires max != 0 ==> total <= max
    requires ScanChunks(raw, pos, total, max).Complete?
    ensures WellFormed(m) && Holds(raw, pos, Wire(m))
    ensures ScanChunks(raw, pos, total, max) == Complete(pos + |Wire(m)|, total + |Payload(m)|)
    decreases |raw| - pos
  {
    hide NextCrlf, NoCrlf, ChunkSize, SizeLine, Holds, ScanTrailers;
    var e := NextCrlf(raw, pos).value;
    var n := ChunkSize(raw[pos..e]).value;
    ChunkSizeIs(raw[pos..e], n);
    if n == 0 {
      var t := TrailersRead(raw, e + 2, total);
      LineRead(raw, pos, e, TrailersWire(t));
      m := Last(raw[pos..e], t);
    } else {
      var rest := MessageRead(raw, e + n + 4, total + n, max);
      ChunkRead(raw, pos, e, n, Wire(rest));
      m := Chunk(raw[pos..e], raw[e + 2..e + 2 + n], rest);
    }
  }

  lemma ChunkRead(raw: Bytes, pos: nat, e: nat, n: nat, rest: Bytes)
    requires NextCrlf(raw, pos) == Some(e) && CrlfAt(raw, e + 2 + n) && Holds(raw, e + n + 4, rest)
    ensures NoCrlf(raw[pos..e])
    ensures Holds(raw, pos, raw[pos..e] + CRLF + raw[e + 2..e + 2 + n] + CRLF + rest)
  {
    hide NextCrlf, NoCrlf;
    var data := raw[e + 2..e + 2 + n];
    assert raw[e + 2 + n..e + 4 + n] == CRLF;
    HoldsJoin(raw, e + 2 + n, CRLF, rest);
    HoldsJoin(raw, e + 2, data, CRLF + rest);
    LineRead(raw, pos, e, data + (CRLF + rest));
    assert raw[pos..e] + CRLF + data + CRLF + rest == raw[pos..e] + CRLF + (data + (CRLF + rest));
  }

  // --- the main results -----------------------------------------------------

  /**
   * The scanner calls a prefix of the stream complete exactly when a message of
   * the grammar within the cap starts it, and then ends after that message and
   * counts its payload.
   */
  lemma ScannerIsGrammar(raw: Bytes, max: nat)
    ensures Scan(raw, max).Complete? <==>
            exists m :: WellFormed(m) && Wire(m) <= raw && (max == 0 || |Payload(m)| <= max)
    ensures forall m | WellFormed(m) && Wire(m) <= raw && (max == 0 || |Payload(m)| <= max) ::
              Scan(raw, max) == Complete(|Wire(m)|, |Payload(m)|)
  {
    hide ScanChunks, WellFormed, Wire, Payload;
    forall m | WellFormed(m) && Wire(m) <= raw && (max == 0 || |Payload(m)| <= max)
      ensures Scan(raw, max) == Complete(|Wire(m)|, |Payload(m)|)
    {
      ScanOnWire(raw, 0, m, 0, max);
    }
    if Scan(raw, max).Complete? {
      var m := MessageRead(raw, 0, 0, max);
      assert Wire(m) <= raw;
    }
  }

  /**
   * Scanner and decoder agree on a complete message: its span is a message of
   * the grammar, decoding it yields exactly the counted payload, and fails only
   * on trailer syntax.
   */
  lemma ScannerDecoderAgree(raw: Bytes, max: nat) returns (m: Message)
    requires Scan(raw, max).Complete?
    ensures WellFormed(m) && Wire(m) == raw[..Scan(raw, max).end]
    ensures |Payload(m)| == Scan(raw, max).total
    ensures Decode(raw[..Scan(raw, max).end]) == if Decodable(m) then Some(Payload(m)) else None
  {
    hide ScanChunks, WellFormed, Decode, Payload;
    m := MessageRead(raw, 0, 0, max);
    var span := raw[..Scan(raw, max).end];
    assert Holds(span, 0, Wire(m));
    DecodeOnWire(span, m);
  }

  lemma CrlfShift(raw: Bytes, pos: nat)
    requires pos <= |raw|
    ensures NextCrlf(raw[pos..], 0).Some? ==>
              var e := NextCrlf(raw[pos..], 0).value;
              NextCrlf(raw, pos) == Some(pos + e) && raw[pos..][..e] == raw[pos..pos + e]
              && raw[pos..][e + 2..] == raw[pos + e + 2..]
  {
    hide NextCrlf;
    var tail := raw[pos..];
    if NextCrlf(tail, 0).Some? {
      var e := NextCrlf(tail, 0).value;
      assert forall i | pos <= i < pos + e :: CrlfAt(raw, i) ==> CrlfAt(tail, i - pos);
      NextCrlfIs(raw, pos, pos + e);
    }
  }

  lemma {:induction false} TrailersOkComplete(raw: Bytes, pos: nat, total: nat, first: bool)
    requires pos <= |raw| && TrailersOk(raw[pos..], first)
    ensures ScanTrailers(raw, pos, total).Complete?
    decreases |raw| - pos
  {
    hide TrailersOk, NextCrlf;
    FirstTrailer(raw, pos, first);
    var e := NextCrlf(raw, pos).value;
    if e != pos { TrailersOkComplete(raw, e + 2, total, false); }
  }

  lemma {:induction false} FirstTrailer(raw: Bytes, pos: nat, first: bool)
    requires pos <= |raw| && TrailersOk(raw[pos..], first)
    ensures NextCrlf(raw, pos).Some?
    ensures var e := NextCrlf(raw, pos).value; e != pos ==> TrailersOk(raw[e + 2..], false)
  {
    hide TrailerLineOk, NextCrlf;
    CrlfShift(raw, pos);
  }

  /** The first chunk of a decodable body, seen at its place in the stream. */
  lemma {:induction false} DecodedChunk(raw: Bytes, pos: nat)
    requires pos <= |raw| && Decode(raw[pos..]).Some?
    ensures NextCrlf(raw, pos).Some?
    ensures var e := NextCrlf(raw, pos).value;
            && ChunkSize(raw[pos..e]).Some?
            && var n := ChunkSize(raw[pos..e]).value;
            && (n == 0 ==> Decode(raw[pos..]).value == [] && TrailersOk(raw[e + 2..], true))
            && (n > 0 ==> e + n + 4 <= |raw| && CrlfAt(raw, e + 2 + n) && Decode(raw[e + n + 4..]).Some?
                          && |Decode(raw[pos..]).value| == n + |Decode(raw[e + n + 4..]).value|)
  {
    hide ChunkSize, TrailersOk, NextCrlf, Decode;
    CrlfShift(raw, pos);
    var tail := raw[pos..];
    FirstChunk(tail);
    var e := NextCrlf(tail, 0).value;
    assert tail[..e] == raw[pos..pos + e];
    assert tail[e + 2..] == raw[pos + e + 2..];
    var n := ChunkSize(tail[..e]).value;
    if n > 0 { assert tail[e + n + 4..] == raw[pos + e + n + 4..]; }
  }

  lemma {:induction false} FirstChunk(raw: Bytes)
    requires Decode(raw).Some?
    ensures NextCrlf(raw, 0).Some?
    ensures var e := NextCrlf(raw, 0).value;
            && ChunkSize(raw[..e]).Some?
            && var n := ChunkSize(raw[..e]).value;
            && (n == 0 ==> Decode(raw).value == [] && TrailersOk(raw[e + 2..], true))
            && (n > 0 ==> e + n + 4 <= |raw| && CrlfAt(raw, e + 2 + n) && Decode(raw[e + n + 4..]).Some?
                          && |Decode(raw).value| == n + |Decode(raw[e + n + 4..]).value|)
  {
    hide ChunkSize, TrailersOk, NextCrlf, CrlfAt;
  }

  lemma {:induction false} DecodedScans(raw: Bytes, pos: nat, total: nat)
    requires pos <= |raw| && Decode(raw[pos..]).Some?
    ensures ScanChunks(raw, pos, total, 0).Complete?
    ensures ScanChunks(raw, pos, total, 0).total == total + |Decode(raw[pos..]).value|
    decreases |raw| - pos
  {
    hide ChunkSize, TrailersOk, NextCrlf, ScanTrailers, Decode;
    DecodedChunk(raw, pos);
    var e := NextCrlf(raw, pos).value;
    var n := ChunkSize(raw[pos..e]).value;
    if n == 0 { TrailersOkComplete(raw, e + 2, total, true); }
    else { DecodedScans(raw, e + n + 4, total + n); }
  }

  /** Whatever the decoder accepts, the uncapped scanner calls complete, with the same count. */
  lemma DecoderAccepts(raw: Bytes)
    requires Decode(raw).Some?
    ensures Scan(raw, 0).Complete? && Scan(raw, 0).total == |Decode(raw).value|
    ensures Decode(raw[..Scan(raw, 0).end]) == Decode(raw)
  {
    assert raw[0..] == raw;
    DecodedScans(raw, 0, 0);
    var m := ScannerDecoderAgree(raw, 0);
    assert Holds(raw, 0, Wire(m));
    DecodeOnWire(raw, m);
  }

  /** The decoder ignores what follows a complete message, and yields the scanner's count. */
  lemma DecodeIgnoresRest(raw: Bytes, max: nat)
    requires Scan(raw, max).Complete?
    ensures Decode(raw) == Decode(raw[..Scan(raw, max).end])
    ensures Decode(raw).Some? ==> |Decode(raw).value| == Scan(raw, max).total
  {
    hide ScanChunks, WellFormed, Decode;
    var m := ScannerDecoderAgree(raw, max);
    assert Holds(raw, 0, Wire(m));
    DecodeOnWire(raw, m);
  }
}
