/**
 * What one HTTP/1.1 response on a byte stream is, as a function of the stream
 * alone: interim blocks, the final head, and the body its framing delimits.
 */
module ResponseStream {
  import opened Bytes
  import opened Chunked
  import ChunkedGrammar

  const HEADER_BUDGET := 8192
  const MAX_INTERIM := 8

  /** What else of a head is published: the texts of its Content-Type and its Retry-After. */
  datatype Meta = Meta(contentType: Option<Bytes>, retryAfter: Option<Bytes>)

  /** What the text of a header block says; None for a status line that does not parse. */
  datatype HeadText = HeadText(status: Option<int>, chunked: bool, contentLength: int, meta: Meta)

  /** The session's reading of header text and its body cap, and the largest value of a size. */
  datatype Config = Config(parse: Bytes -> HeadText, maxBody: nat, wordMax: nat) {
    /** Sizes have at least 32 bits, and the cap is one. */
    predicate Sizes() { 0 < maxBody <= wordMax && wordMax >= 0xFFFF_FFFF }

    /** Cap and header budget together are still a size. */
    predicate Fits() { maxBody + HEADER_BUDGET <= wordMax }

    /** The most a session may ever hold. */
    function Bound(): nat { maxBody + HEADER_BUDGET }

    /** A sum as the machine computes it. */
    function Wrap(n: nat): (w: nat)
      ensures w <= n && w <= wordMax && (n <= wordMax ==> w == n)
    {
      n % (wordMax + 1)
    }
  }

  datatype Framing = Length(n: nat) | UntilClose | InChunks

  datatype Head = Refused | Interim | Final(status: int, framing: Framing, meta: Meta)

  /** Section 15.2 of RFC 9110; no final response follows a 101. */
  predicate StatusIsInterim(status: int) {
    100 <= status < 200 && status != 101
  }

  /** Section 6.3 of RFC 9112, for a final response. */
  predicate HasNoBody(status: int, headRequest: bool) {
    headRequest || status == 204 || status == 304
  }

  function Inspect(cfg: Config, block: Bytes, headRequest: bool): Head { Judged(cfg, cfg.parse(block), headRequest) }

  function Judged(cfg: Config, t: HeadText, headRequest: bool): Head {
    match t.status
    case None => Refused
    case Some(status) =>
      if status == 101 then Refused
      else if StatusIsInterim(status) then Interim
      else if HasNoBody(status, headRequest) then Final(status, Length(0), t.meta)
      else if t.contentLength >= 0 && t.contentLength > cfg.maxBody then Refused
      else if t.chunked then Final(status, InChunks, t.meta)
      else if t.contentLength >= 0 then Final(status, Length(t.contentLength), t.meta)
      else Final(status, UntilClose, t.meta)
  }

  predicate BlankLineAt(s: Bytes, i: int) {
    0 <= i && i + 3 < |s| && s[i] == CR && s[i + 1] == LF && s[i + 2] == CR && s[i + 3] == LF
  }

  /** Where the header block that starts `s` ends. */
  function HeadEnd(s: Bytes, from: nat): (r: Option<nat>)
    ensures r.Some? ==> from + 4 <= r.value <= |s| && BlankLineAt(s, r.value - 4)
    ensures r.Some? ==> forall i | from <= i < r.value - 4 :: !BlankLineAt(s, i)
    ensures r.None? ==> forall i | from <= i :: !BlankLineAt(s, i)
    decreases |s| - from
  {
    if from + 3 >= |s| then None
    else if BlankLineAt(s, from) then Some(from + 4)
    else HeadEnd(s, from + 1)
  }

  datatype Reply = Reply(status: int, meta: Meta, body: Bytes)

  /** `used` bytes of the stream are the response; `reusable` when they do not depend on the close. */
  datatype Outcome = Rejected | Published(reply: Reply, used: nat, reusable: bool)

  function Shift(o: Outcome, n: nat): Outcome {
    if o.Rejected? then Rejected else o.(used := o.used + n)
  }

  /** The body after a final head of `h` bytes, on a stream that closes after `s`. */
  function Finish(cfg: Config, s: Bytes, h: nat, head: Head): Outcome
    requires head.Final? && h <= |s|
  {
    match head.framing
    case Length(n) =>
      if |s| < h + n then Rejected
      else Published(Reply(head.status, head.meta, s[h..h + n]), h + n, true)
    case UntilClose =>
      if |s| - h > cfg.maxBody then Rejected
      else Published(Reply(head.status, head.meta, s[h..]), |s|, false)
    case InChunks =>
      match Scan(s[h..], cfg.maxBody)
      case More => Rejected
      case Malformed => Rejected
      case Complete(end, _) =>
        if h + end > cfg.Bound() then Rejected
        else
          match Decode(s[h..h + end])
          case None => Rejected
          case Some(body) => Published(Reply(head.status, head.meta, body), h + end, true)
  }

  /** The response on `s`, then close, after `interims` interim blocks were dropped. */
  function Expect(cfg: Config, s: Bytes, headRequest: bool, interims: nat): Outcome
    decreases |s|
  {
    match HeadEnd(s, 0)
    case None => Rejected
    case Some(h) =>
      if h > HEADER_BUDGET then Rejected
      else
        var head := Inspect(cfg, s[..h], headRequest);
        match head
        case Refused => Rejected
        case Interim =>
          if interims + 1 > MAX_INTERIM then Rejected
          else Shift(Expect(cfg, s[h..], headRequest, interims + 1), h)
        case Final(_, _, _) => Finish(cfg, s, h, head)
  }

  lemma HeadEndIs(s: Bytes, from: nat, h: nat)
    requires from + 4 <= h && BlankLineAt(s, h - 4) && forall i | from <= i < h - 4 :: !BlankLineAt(s, i)
    ensures HeadEnd(s, from) == Some(h)
  {
    assert HeadEnd(s, from).Some?;
  }

  // --- properties ------------------------------------------------------------

  /** No published body is over the cap, in any framing, and none uses bytes that are not there. */
  lemma {:induction false} PublishedBounds(cfg: Config, s: Bytes, headRequest: bool, interims: nat)
    requires cfg.maxBody > 0
    requires Expect(cfg, s, headRequest, interims).Published?
    ensures var o := Expect(cfg, s, headRequest, interims);
            |o.reply.body| <= cfg.maxBody && 0 < o.used <= |s| && !(100 <= o.reply.status <= 199)
    decreases |s|
  {
    hide Scan, Decode;
    var h := HeadEnd(s, 0).value;
    var head := Inspect(cfg, s[..h], headRequest);
    if head.Interim? {
      PublishedBounds(cfg, s[h..], headRequest, interims + 1);
    } else if head.framing.InChunks? {
      ChunkedGrammar.DecodeIgnoresRest(s[h..], cfg.maxBody);
      assert s[h..][..Scan(s[h..], cfg.maxBody).end] == s[h..h + Scan(s[h..], cfg.maxBody).end];
    }
  }

  /**
   * A response that does not end at the close is self-delimiting: any stream
   * that starts with its bytes carries the same response and ends it there.
   */
  lemma {:induction false} ReplyIsSelfDelimiting(cfg: Config, s: Bytes, headRequest: bool, interims: nat, other: Bytes)
    requires Expect(cfg, s, headRequest, interims).Published?
    requires Expect(cfg, s, headRequest, interims).reusable
    requires Expect(cfg, s, headRequest, interims).used <= |s|
    requires s[..Expect(cfg, s, headRequest, interims).used] <= other
    ensures Expect(cfg, other, headRequest, interims) == Expect(cfg, s, headRequest, interims)
    decreases |s|
  {
    hide Scan, Decode, Finish, Inspect;
    var o := Expect(cfg, s, headRequest, interims);
    var h := HeadEnd(s, 0).value;
    var head := Inspect(cfg, s[..h], headRequest);
    UsedCoversHead(cfg, s, headRequest, interims);
    assert forall i | 0 <= i < h :: other[i] == s[i];
    assert forall i | 0 <= i < h - 4 :: BlankLineAt(other, i) == BlankLineAt(s, i);
    HeadEndIs(other, 0, h);
    assert other[..h] == s[..h];
    if head.Interim? {
      assert s[h..][..o.used - h] == s[..o.used][h..];
      ReplyIsSelfDelimiting(cfg, s[h..], headRequest, interims + 1, other[h..]);
    } else {
      FinishIsSelfDelimiting(cfg, s, h, head, other);
    }
  }

  lemma UsedCoversHead(cfg: Config, s: Bytes, headRequest: bool, interims: nat)
    requires Expect(cfg, s, headRequest, interims).Published?
    ensures HeadEnd(s, 0).Some? && HeadEnd(s, 0).value <= Expect(cfg, s, headRequest, interims).used
  {}

  lemma FinishIsSelfDelimiting(cfg: Config, s: Bytes, h: nat, head: Head, other: Bytes)
    requires head.Final? && h <= |s| && h <= |other|
    requires Finish(cfg, s, h, head).Published? && Finish(cfg, s, h, head).reusable
    requires Finish(cfg, s, h, head).used <= |s| && s[..Finish(cfg, s, h, head).used] <= other
    ensures Finish(cfg, other, h, head) == Finish(cfg, s, h, head)
  {
    hide Scan, Decode;
    var used := Finish(cfg, s, h, head).used;
    assert other[h..used] == s[..used][h..] == s[h..used];
    if head.framing.InChunks? {
      var end := Scan(s[h..], cfg.maxBody).end;
      assert s[h..][..end] == s[h..used] == other[h..][..end];
      SelfDelimiting(s[h..], cfg.maxBody, s[h..used]);
      SelfDelimiting(s[h..used], cfg.maxBody, other[h..]);
    }
  }
}
