/** The server's receive loop for a chunked request body. */
module ServerReceive {
  import opened Bytes
  import opened Chunked
  import opened ChunkScanner
  import opened ChunkDecoder
  import G = ChunkedGrammar

  const FRAMING_ROOM := 64 * 1024

  datatype Received = Body(data: Bytes) | ProtocolError | IoError

  function Min(a: nat, b: nat): nat { if a < b then a else b }

  /** What a byte stream that then closes amounts to, with no mention of how it was cut up. */
  function Framed(stream: Bytes, maxBytes: nat): Received {
    var seen := stream[..Min(|stream|, maxBytes + FRAMING_ROOM)];
    match Scan(seen, maxBytes)
    case Malformed => ProtocolError
    case More => if |seen| < maxBytes + FRAMING_ROOM then IoError else ProtocolError
    case Complete(end, _) =>
      match Decode(seen[..end])
      case None => ProtocolError
      case Some(data) => if |data| <= maxBytes then Body(data) else ProtocolError
  }

  lemma EmptyIsNone()
    ensures Decode([]).None?
  {}

  /** wolfcert_http_chunked_decode: decode into a buffer of its own. */
  method ChunkedDecode(input: Bytes, maxBytes: nat) returns (r: Received)
    ensures r == match Decode(input)
                 case None => ProtocolError
                 case Some(data) => if |data| <= maxBytes then Body(data) else ProtocolError
  {
    hide Decode;
    if |input| == 0 {
      EmptyIsNone();
      return ProtocolError;
    }
    var src := new Byte[|input|](i requires 0 <= i < |input| => input[i]);
    assert src[0..0 + |input|] == input;
    var buf := new Byte[|input|];
    var ok, len := DecodeInto(buf, 0, src, 0, |input|);
    if !ok || len > maxBytes {
      return ProtocolError;
    }
    return Body(buf[0..len]);
  }

  /**
   * A stream amounts to a body exactly when a chunked message starts it whose payload is within the limit and whose
   * framing is within 64 KiB more, and then to that payload.
   */
  lemma FramedIs(stream: Bytes, maxBytes: nat, data: Bytes)
    ensures Framed(stream, maxBytes) == Body(data) <==>
            exists m :: G.WellFormed(m) && G.Decodable(m) && G.Payload(m) == data && |data| <= maxBytes &&
              G.Wire(m) <= stream && |G.Wire(m)| <= maxBytes + 65536
  {
    hide Scan, Decode, G.WellFormed, G.Decodable, G.Payload, G.Wire;
    var seen := stream[..Min(|stream|, maxBytes + FRAMING_ROOM)];
    if Framed(stream, maxBytes) == Body(data) {
      var m := G.ScannerDecoderAgree(seen, maxBytes);
      assert G.Wire(m) <= stream;
    }
    forall m | G.WellFormed(m) && G.Decodable(m) && G.Payload(m) == data && |data| <= maxBytes &&
               G.Wire(m) <= stream && |G.Wire(m)| <= maxBytes + 65536
      ensures Framed(stream, maxBytes) == Body(data)
    {
      var w := G.Wire(m);
      assert w <= seen && seen[..|w|] == w;
      G.ScannerIsGrammar(seen, maxBytes);
      assert G.Holds(w, 0, w);
      G.DecodeOnWire(w, m);
    }
  }

  /** A verdict reached on a prefix within the allowance is that of the whole stream. */
  lemma Verdicts(stream: Bytes, raw: Bytes, maxBytes: nat)
    requires raw <= stream && |raw| <= maxBytes + FRAMING_ROOM && Scan(raw, maxBytes) != More
    ensures Scan(raw, maxBytes).Malformed? ==> Framed(stream, maxBytes) == ProtocolError
    ensures Scan(raw, maxBytes).Complete? ==>
              Framed(stream, maxBytes) == match Decode(raw)
                                          case None => ProtocolError
                                          case Some(data) => if |data| <= maxBytes then Body(data) else ProtocolError
  {
    hide Decode, ScanChunks;
    var seen := stream[..Min(|stream|, maxBytes + FRAMING_ROOM)];
    ChunksExtend(raw, seen, 0, 0, maxBytes);
    if Scan(raw, maxBytes).Complete? {
      var end := Scan(raw, maxBytes).end;
      G.DecodeIgnoresRest(raw, maxBytes);
      assert seen[..end] == raw[..end];
    }
  }

  /** How many receives go well before the first that fails or the end of the schedule. */
  function Good(sizes: seq<nat>): nat { if sizes == [] || sizes[0] == 0 then 0 else 1 + Good(sizes[1..]) }

  lemma {:induction false} GoodIs(sizes: seq<nat>, k: nat)
    requires k <= |sizes| && (forall i | 0 <= i < k :: sizes[i] > 0) && (k == |sizes| || sizes[k] == 0)
    ensures Good(sizes) == k
    decreases k
  {
    if k > 0 {
      GoodIs(sizes[1..], k - 1);
    }
  }

  lemma {:induction false} GoodGoesOn(sizes: seq<nat>, k: nat)
    requires k < |sizes| && (forall i | 0 <= i <= k :: sizes[i] > 0)
    ensures k < Good(sizes)
    decreases k
  {
    if k > 0 {
      GoodGoesOn(sizes[1..], k - 1);
    }
  }

  /** A verdict on fewer bytes is one on these. */
  lemma StillUndecided(stream: Bytes, raw: Bytes, n: nat, maxBytes: nat)
    requires raw <= stream && n <= |raw| && Scan(raw, maxBytes) == More
    ensures Scan(stream[..n], maxBytes) == More
  {
    hide ScanChunks;
    assert stream[..n] == raw[..n];
    if Scan(stream[..n], maxBytes) != More {
      ChunksExtend(stream[..n], raw, 0, 0, maxBytes);
    }
  }

  /**
   * Receive a chunked body of which `have` arrived with the header and `peer`
   * is still to come; `sizes` are the most bytes each recv hands over, 0 for one
   * that fails. When the good receives, of a byte each at least, get far enough
   * to decide, or to the end of the stream, the outcome is that of the whole stream.
   */
  method ReadChunked(have: Bytes, peer: Bytes, sizes: seq<nat>, maxBytes: nat)
    returns (r: Received, polls: nat)
    ensures |have| > maxBytes + FRAMING_ROOM ==> r == ProtocolError
    ensures |have| <= maxBytes + FRAMING_ROOM && r != Framed(have + peer, maxBytes) ==>
              r == IoError && (polls == |sizes| || (polls < |sizes| && sizes[polls] == 0))
    ensures |have| <= maxBytes + FRAMING_ROOM && |peer| < Good(sizes) ==> r == Framed(have + peer, maxBytes)
    ensures |have| <= maxBytes + FRAMING_ROOM
            && Scan((have + peer)[..|have| + Min(Good(sizes), |peer|)], maxBytes) != More ==>
              r == Framed(have + peer, maxBytes)
    ensures polls <= Good(sizes) && polls <= |peer|
  {
    hide Decode, ScanChunks, Scanning, Good;
    polls := 0;
    var rawMax := maxBytes + FRAMING_ROOM;
    if |have| > rawMax {
      return ProtocolError, 0;
    }
    ghost var stream := have + peer;
    var raw := have;
    var rawCap := |have|;
    var scan := FreshScan(maxBytes);
    ScanningStarts(maxBytes, raw);
    var framed;
    framed, scan := ChunkedComplete(raw, scan);
    while framed == 0
      invariant polls <= |sizes| && |raw| <= rawCap <= rawMax && |raw| <= |stream| && raw == stream[..|raw|]
      invariant polls <= |raw| - |have| && forall i | 0 <= i < polls :: sizes[i] > 0
      invariant polls <= Good(sizes)
      invariant framed == 0 ==> Scanning(raw, scan) && scan.max == maxBytes
      invariant match Scan(raw, maxBytes)
                case More => framed == 0
                case Malformed => framed == -1
                case Complete(_, _) => framed == 1
      decreases rawMax - |raw|
    {
      if |raw| == rawCap {
        var grow := if rawCap < 2048 then 2048 else rawCap;
        if grow > rawMax - rawCap {
          grow := rawMax - rawCap;
        }
        if grow == 0 {
          assert stream[..Min(|stream|, rawMax)] == raw;
          return ProtocolError, polls;
        }
        rawCap := rawCap + grow;
      }
      var room := rawCap - |raw|;
      assert |raw| == |stream| ==> stream[..Min(|stream|, rawMax)] == raw;
      if polls == |sizes| || sizes[polls] == 0 {
        GoodIs(sizes, polls);
        StillUndecided(stream, raw, |have| + Min(polls, |peer|), maxBytes);
        return IoError, polls;
      }
      if |raw| - |have| == |peer| {
        return IoError, polls;
      }
      GoodGoesOn(sizes, polls);
      var n := Min(sizes[polls], Min(room, |peer| - (|raw| - |have|)));
      ghost var before := raw;
      raw := raw + peer[|raw| - |have|..|raw| - |have| + n];
      assert raw == stream[..|raw|];
      polls := polls + 1;
      ScanningExtends(before, raw, scan);
      framed, scan := ChunkedComplete(raw, scan);
    }
    Verdicts(stream, raw, maxBytes);
    if framed < 0 {
      return ProtocolError, polls;
    }
    r := ChunkedDecode(raw, maxBytes);
  }
}
