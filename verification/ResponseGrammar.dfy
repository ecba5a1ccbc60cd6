/** HTTP/1.1 responses as texts: what the session publishes is exactly what such a text says. */
module ResponseGrammar {
  import opened Bytes
  import opened ResponseStream
  import G = ChunkedGrammar
  import Chunked

  datatype Body = Sized(bytes: Bytes) | ToClose(bytes: Bytes) | Coded(m: G.Message)

  /** Interim blocks, then the final head and its body. */
  datatype Text = Interim(block: Bytes, rest: Text) | Final(head: Bytes, body: Body)

  function Wire(t: Text): Bytes {
    match t
    case Interim(block, rest) => block + Wire(rest)
    case Final(head, body) => head + BodyWire(body)
  }

  function BodyWire(b: Body): Bytes { if b.Coded? then G.Wire(b.m) else b.bytes }

  function Payload(b: Body): Bytes { if b.Coded? then G.Payload(b.m) else b.bytes }

  /** A header block of at most 8192 bytes, ended by its only blank line. */
  predicate IsBlock(b: Bytes) {
    4 <= |b| <= 8192 && EndsAt(b, |b|) && forall n | 4 <= n < |b| :: !EndsAt(b, n)
  }

  predicate EndsAt(b: Bytes, n: nat)
    requires 4 <= n <= |b|
  {
    b[n - 4..n] == ['\r' as int, '\n' as int, '\r' as int, '\n' as int]
  }

  /** Any 1xx but 101, after which another head follows. */
  predicate IsInterim(t: HeadText) { t.status == Some(100) || (t.status.Some? && 102 <= t.status.value <= 199) }

  /** A response without a body whatever its fields say. */
  predicate IsBare(status: int, headRequest: bool) { headRequest || status == 204 || status == 304 }

  /** The body that the fields of a final head of `h` bytes announce: chunked before a length, a length before close. */
  ghost predicate Announces(cfg: Config, t: HeadText, h: nat, b: Body) {
    t.contentLength <= cfg.maxBody &&
    if t.chunked then
      && b.Coded? && G.WellFormed(b.m) && G.Decodable(b.m)
      && |G.Payload(b.m)| <= cfg.maxBody && h + |G.Wire(b.m)| <= cfg.maxBody + 8192
    else if t.contentLength >= 0 then b.Sized? && |b.bytes| == t.contentLength
    else b.ToClose? && |b.bytes| <= cfg.maxBody
  }

  /** `t` heads a final response with body `b`. */
  ghost predicate IsFinal(cfg: Config, headRequest: bool, t: HeadText, h: nat, b: Body) {
    && t.status.Some? && !(100 <= t.status.value <= 199)
    && if IsBare(t.status.value, headRequest) then b == Sized([]) else Announces(cfg, t, h, b)
  }

  /** `t` is a response to a request, `n` interim blocks into it; there may be eight of them. */
  ghost predicate Says(cfg: Config, headRequest: bool, t: Text, n: nat) {
    match t
    case Interim(block, rest) =>
      IsBlock(block) && IsInterim(cfg.parse(block)) && n < 8 && Says(cfg, headRequest, rest, n + 1)
    case Final(head, body) => IsBlock(head) && IsFinal(cfg, headRequest, cfg.parse(head), |head|, body)
  }

  /** The head's status, Content-Type and Retry-After, with the payload. */
  ghost function ReplyOf(cfg: Config, t: Text): Reply {
    match t
    case Interim(_, rest) => ReplyOf(cfg, rest)
    case Final(head, body) =>
      var h := cfg.parse(head);
      Reply(if h.status.Some? then h.status.value else 0, h.meta, Payload(body))
  }

  // --- the session's reading of a head is this one ---------------------------------------------

  ghost predicate FramedAs(cfg: Config, head: nat, b: Body, f: Framing) {
    match b
    case Sized(bytes) => f == Length(|bytes|)
    case ToClose(bytes) => f == UntilClose && |bytes| <= cfg.maxBody
    case Coded(m) =>
      && f == InChunks && G.WellFormed(m) && G.Decodable(m)
      && |G.Payload(m)| <= cfg.maxBody && head + |G.Wire(m)| <= cfg.Bound()
  }

  lemma InterimIs(cfg: Config, block: Bytes, headRequest: bool)
    ensures Inspect(cfg, block, headRequest).Interim? <==> IsInterim(cfg.parse(block))
  {}

  lemma FinalIs(cfg: Config, head: Bytes, headRequest: bool, h: nat, b: Body)
    requires cfg.maxBody > 0
    ensures IsFinal(cfg, headRequest, cfg.parse(head), h, b) <==>
            var f := Inspect(cfg, head, headRequest); f.Final? && FramedAs(cfg, h, b, f.framing)
    ensures var f := Inspect(cfg, head, headRequest);
            f.Final? ==> cfg.parse(head).status == Some(f.status) && cfg.parse(head).meta == f.meta
  {
    hide G.WellFormed, G.Decodable, G.Payload, G.Wire;
  }

  predicate EndsAtClose(t: Text) { if t.Interim? then EndsAtClose(t.rest) else t.body.ToClose? }

  /** The stream starts with `t`, and stops there when only the close ends the body. */
  ghost predicate Carries(s: Bytes, t: Text) { Wire(t) <= s && (EndsAtClose(t) ==> Wire(t) == s) }

  lemma BlockIs(b: Bytes)
    ensures IsBlock(b) <==> HeadEnd(b, 0) == Some(|b|) && |b| <= HEADER_BUDGET
  {
    hide HeadEnd, BlankLineAt, EndsAt;
    forall n | 4 <= n <= |b|
      ensures EndsAt(b, n) <==> BlankLineAt(b, n - 4)
    {
      BlankLineIs(b, n);
    }
    if IsBlock(b) {
      forall i | 0 <= i < |b| - 4
        ensures !BlankLineAt(b, i)
      {
        BlankLineIs(b, i + 4);
      }
      HeadEndIs(b, 0, |b|);
    }
  }

  lemma BlankLineIs(b: Bytes, n: nat)
    requires 4 <= n <= |b|
    ensures EndsAt(b, n) <==> BlankLineAt(b, n - 4)
  {
    var t := b[n - 4..n];
    assert t[0] == b[n - 4] && t[1] == b[n - 3] && t[2] == b[n - 2] && t[3] == b[n - 1];
  }

  lemma BlockEnds(b: Bytes, s: Bytes)
    requires IsBlock(b) && b <= s
    ensures HeadEnd(s, 0) == Some(|b|) && s[..|b|] == b && |b| <= HEADER_BUDGET
  {
    hide HeadEnd, IsBlock;
    BlockIs(b);
    assert forall i | 0 <= i < |b| :: s[i] == b[i];
    assert forall i | 0 <= i < |b| - 4 :: BlankLineAt(s, i) == BlankLineAt(b, i);
    HeadEndIs(s, 0, |b|);
  }

  lemma BlockRead(s: Bytes)
    requires HeadEnd(s, 0).Some? && HeadEnd(s, 0).value <= HEADER_BUDGET
    ensures IsBlock(s[..HeadEnd(s, 0).value])
  {
    hide HeadEnd, IsBlock;
    var h := HeadEnd(s, 0).value;
    var b := s[..h];
    assert forall i | 0 <= i < h - 4 :: BlankLineAt(b, i) == BlankLineAt(s, i);
    HeadEndIs(b, 0, h);
    BlockIs(b);
  }

  lemma FinishSays(cfg: Config, s: Bytes, head: Bytes, body: Body, f: Head)
    requires cfg.maxBody > 0 && f.Final? && FramedAs(cfg, |head|, body, f.framing)
    requires head + BodyWire(body) <= s && (body.ToClose? ==> head + BodyWire(body) == s)
    ensures Finish(cfg, s, |head|, f) ==
            Published(Reply(f.status, f.meta, Payload(body)), |head + BodyWire(body)|, !body.ToClose?)
  {
    hide Chunked.Scan, Chunked.Decode, G.WellFormed, G.Wire, G.Payload, G.Decodable;
    var h, w := |head|, BodyWire(body);
    assert s[h..h + |w|] == (head + w)[h..] == w;
    if body.Coded? {
      assert G.Wire(body.m) <= s[h..] by { assert s[h..][..|w|] == w; }
      G.ScannerIsGrammar(s[h..], cfg.maxBody);
      CodedDecodes(w, body.m);
    } else if body.ToClose? {
      assert s[h..] == w;
    }
  }

  lemma CodedDecodes(w: Bytes, m: G.Message)
    requires G.WellFormed(m) && G.Decodable(m) && w == G.Wire(m)
    ensures Chunked.Decode(w) == Some(G.Payload(m))
  {
    hide Chunked.Decode, G.WellFormed, G.Wire, G.Payload, G.Decodable;
    assert G.Holds(w, 0, G.Wire(m));
    G.DecodeOnWire(w, m);
  }

  /** A response on the stream is published as what it says, and nothing after it is used. */
  lemma {:induction false} TextIsPublished(cfg: Config, s: Bytes, headRequest: bool, n: nat, t: Text)
    requires cfg.maxBody > 0 && Says(cfg, headRequest, t, n) && Carries(s, t)
    ensures Expect(cfg, s, headRequest, n) == Published(ReplyOf(cfg, t), |Wire(t)|, !EndsAtClose(t))
    decreases t
  {
    hide Inspect, Finish, IsBlock, FramedAs, BodyWire, IsFinal, IsInterim;
    match t {
      case Interim(block, rest) =>
        InterimIs(cfg, block, headRequest);
        BlockEnds(block, s);
        assert Wire(rest) == Wire(t)[|block|..] <= s[|block|..];
        TextIsPublished(cfg, s[|block|..], headRequest, n + 1, rest);
      case Final(head, body) =>
        FinalIs(cfg, head, headRequest, |head|, body);
        BlockEnds(head, s);
        FinishSays(cfg, s, head, body, Inspect(cfg, head, headRequest));
    }
  }

  lemma FinishRead(cfg: Config, s: Bytes, h: nat, f: Head) returns (body: Body)
    requires cfg.maxBody > 0 && f.Final? && h <= |s| && Finish(cfg, s, h, f).Published?
    ensures FramedAs(cfg, h, body, f.framing)
    ensures s[..h] + BodyWire(body) <= s && (body.ToClose? ==> s[..h] + BodyWire(body) == s)
  {
    hide Chunked.Scan, Chunked.Decode, G.WellFormed, G.Wire, G.Payload, G.Decodable;
    match f.framing {
      case Length(n) =>
        body := Sized(s[h..h + n]);
        assert s[..h] + s[h..h + n] == s[..h + n];
      case UntilClose =>
        body := ToClose(s[h..]);
        assert s[..h] + s[h..] == s;
      case InChunks =>
        var raw := s[h..];
        var m := G.ScannerDecoderAgree(raw, cfg.maxBody);
        var end := Chunked.Scan(raw, cfg.maxBody).end;
        assert raw[..end] == s[h..h + end];
        G.DecodeIgnoresRest(raw, cfg.maxBody);
        body := Coded(m);
        assert s[..h] + G.Wire(m) == s[..h + end];
    }
  }

  lemma {:induction false} PublishedIsText(cfg: Config, s: Bytes, headRequest: bool, n: nat) returns (t: Text)
    requires cfg.maxBody > 0 && Expect(cfg, s, headRequest, n).Published?
    ensures Says(cfg, headRequest, t, n) && Carries(s, t)
    decreases |s|
  {
    hide Inspect, Finish, IsBlock, FramedAs, BodyWire, IsFinal, IsInterim;
    var h := HeadEnd(s, 0).value;
    BlockRead(s);
    InterimIs(cfg, s[..h], headRequest);
    var head := Inspect(cfg, s[..h], headRequest);
    if head.Interim? {
      var rest := PublishedIsText(cfg, s[h..], headRequest, n + 1);
      t := Text.Interim(s[..h], rest);
      assert s == s[..h] + s[h..];
    } else {
      var body := FinishRead(cfg, s, h, head);
      FinalIs(cfg, s[..h], headRequest, h, body);
      t := Text.Final(s[..h], body);
    }
  }

  /** Published exactly when the stream carries a response, and then exactly as that response. */
  lemma PublishedIff(cfg: Config, s: Bytes, headRequest: bool, o: Outcome)
    requires cfg.maxBody > 0 && o.Published?
    ensures Expect(cfg, s, headRequest, 0) == o <==>
            exists t: Text :: Says(cfg, headRequest, t, 0) && Carries(s, t) &&
              o == Published(ReplyOf(cfg, t), |Wire(t)|, !EndsAtClose(t))
  {
    hide Says, Carries, Expect, Wire, EndsAtClose, ReplyOf;
    if Expect(cfg, s, headRequest, 0) == o {
      var t := PublishedIsText(cfg, s, headRequest, 0);
      TextIsPublished(cfg, s, headRequest, 0, t);
    }
    forall t: Text | Says(cfg, headRequest, t, 0) && Carries(s, t)
      ensures Expect(cfg, s, headRequest, 0) == Published(ReplyOf(cfg, t), |Wire(t)|, !EndsAtClose(t))
    {
      TextIsPublished(cfg, s, headRequest, 0, t);
    }
  }

  // --- what is published for one head -----------------------------------------------------------

  lemma FinalReply(cfg: Config, headRequest: bool, head: Bytes, body: Body, rest: Bytes)
    requires cfg.maxBody > 0 && IsBlock(head) && IsFinal(cfg, headRequest, cfg.parse(head), |head|, body)
    requires body.ToClose? ==> rest == []
    ensures Expect(cfg, head + BodyWire(body) + rest, headRequest, 0) ==
            Published(Reply(cfg.parse(head).status.value, cfg.parse(head).meta, Payload(body)),
                      |head| + |BodyWire(body)|, !body.ToClose?)
  {
    hide Expect, IsBlock;
    var t := Text.Final(head, body);
    var s := head + BodyWire(body) + rest;
    assert Wire(t) <= s && (rest == [] ==> Wire(t) == s);
    TextIsPublished(cfg, s, headRequest, 0, t);
  }

  /** A chunked message is published decoded, and what follows its last CRLF stays for the next reply. */
  lemma ChunkedReply(cfg: Config, head: Bytes, status: int, length: int, meta: Meta, m: G.Message, rest: Bytes)
    requires cfg.maxBody > 0 && IsBlock(head) && cfg.parse(head) == HeadText(Some(status), true, length, meta)
    requires length <= cfg.maxBody && (status < 100 || status >= 200) && status != 204 && status != 304
    requires G.WellFormed(m) && G.Decodable(m)
    requires |G.Payload(m)| <= cfg.maxBody && |head| + |G.Wire(m)| <= cfg.maxBody + 8192
    ensures Expect(cfg, head + G.Wire(m) + rest, false, 0) ==
            Published(Reply(status, meta, G.Payload(m)), |head| + |G.Wire(m)|, true)
  {
    hide Expect, IsBlock, G.WellFormed, G.Decodable, G.Payload, G.Wire;
    FinalReply(cfg, false, head, Coded(m), rest);
  }

  /** A body with a length is that many bytes. */
  lemma SizedReply(cfg: Config, head: Bytes, status: int, meta: Meta, body: Bytes, rest: Bytes)
    requires cfg.maxBody > 0 && IsBlock(head) && cfg.parse(head) == HeadText(Some(status), false, |body|, meta)
    requires |body| <= cfg.maxBody && (status < 100 || status >= 200) && status != 204 && status != 304
    ensures Expect(cfg, head + body + rest, false, 0) == Published(Reply(status, meta, body), |head| + |body|, true)
  {
    hide Expect, IsBlock;
    FinalReply(cfg, false, head, Sized(body), rest);
  }

  /** Without either, the body is everything up to the close. */
  lemma CloseReply(cfg: Config, head: Bytes, status: int, length: int, meta: Meta, body: Bytes)
    requires cfg.maxBody > 0 && IsBlock(head) && cfg.parse(head) == HeadText(Some(status), false, length, meta)
    requires length < 0 && (status < 100 || status >= 200) && status != 204 && status != 304
    requires |body| <= cfg.maxBody
    ensures Expect(cfg, head + body, false, 0) == Published(Reply(status, meta, body), |head| + |body|, false)
  {
    hide Expect, IsBlock;
    assert head + body + [] == head + body;
    FinalReply(cfg, false, head, ToClose(body), []);
  }

  /** A reply to HEAD, a 204 and a 304 end with their head, whatever coding or length it names. */
  lemma BareReply(cfg: Config, head: Bytes, t: HeadText, status: int, headRequest: bool, rest: Bytes)
    requires cfg.maxBody > 0 && IsBlock(head) && cfg.parse(head) == t && t.status == Some(status)
    requires status == 204 || status == 304 || (headRequest && (status < 100 || status >= 200))
    ensures Expect(cfg, head + rest, headRequest, 0) == Published(Reply(status, t.meta, []), |head|, true)
  {
    hide Expect, IsBlock;
    assert head + [] + rest == head + rest;
    FinalReply(cfg, headRequest, head, Sized([]), rest);
  }

  /** A 100 and any of 102 to 199 is dropped, eight times at most. */
  lemma InterimSkipped(cfg: Config, block: Bytes, status: int, headRequest: bool, n: nat, rest: Bytes)
    requires IsBlock(block) && cfg.parse(block).status == Some(status) && (status == 100 || 102 <= status <= 199)
    ensures Expect(cfg, block + rest, headRequest, n) ==
            if n < 8 then Shift(Expect(cfg, rest, headRequest, n + 1), |block|) else Rejected
  {
    hide IsBlock, Finish, HeadEnd;
    BlockEnds(block, block + rest);
    assert (block + rest)[|block|..] == rest;
  }

  /** No status line, a 101, and a length over the cap on a body that is read are refused. */
  lemma HeadRefused(cfg: Config, head: Bytes, headRequest: bool, n: nat, rest: Bytes)
    requires IsBlock(head)
    requires var t := cfg.parse(head);
             || t.status == None || t.status == Some(101)
             || (t.contentLength > cfg.maxBody && !headRequest && t.status.value !in {204, 304}
                 && !(100 <= t.status.value <= 199))
    ensures Expect(cfg, head + rest, headRequest, n) == Rejected
  {
    hide IsBlock, Finish, HeadEnd;
    BlockEnds(head, head + rest);
  }
}
