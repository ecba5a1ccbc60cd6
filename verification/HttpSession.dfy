/**
 * The resumable HTTP session: a request goes out and its response is read by a
 * state machine that may stop at any transport call and continue later.
 */
module HttpSession {
  import opened Bytes
  import opened Chunked
  import opened ChunkScanner
  import opened ChunkDecoder
  import opened ResponseStream
  import opened Transport
  import RetryAfter

  const READ_CHUNK := 2048
  const DEFAULT_MAX_BODY := 64 * 1024

  /** Return codes: the session's own, those of the layers above, and the code a request could not be built with. */
  datatype Rc =
    | Ok | WantRead | WantWrite | BadArg | ConnClosed | Protocol | Io | Tls | Memory
    | HttpError | AuthError | Unsupported | NotFound
    | NotBuilt(code: int)
  {
    predicate Want() { WantRead? || WantWrite? }
    predicate Failed() { Protocol? || Io? || Tls? || Memory? }
  }

  function WantRc(forRead: bool): Rc { if forRead then WantRead else WantWrite }

  /** What other code makes, or the code it fails with. */
  datatype Made<+T> = Made(value: T) | NotMade(code: int)

  /** `head` is the header block built for the request, or the code its URL or header is refused with. */
  datatype Request = Request(head: Made<Bytes>, body: Bytes, isHead: bool)

  /** What the caller sees of a reply whose head was read at `now`: the wait its Retry-After comes to by then. */
  datatype Answer = Answer(status: int, contentType: Option<Bytes>, retryAfter: nat, body: Bytes)

  function Publish(reply: Reply, now: int): Answer {
    Answer(reply.status, reply.meta.contentType, RetryAfter.Wait(reply.meta.retryAfter, now), reply.body)
  }

  /** The exchange sent exactly this request. */
  predicate Carried(x: Exchange, req: Request) {
    req.head.Made? && x.request == req.head.value + req.body && x.isHead == req.isHead
  }

  class Response {
    var status: int
    var contentType: Option<Bytes>
    var retryAfter: nat
    var body: Bytes

    constructor ()
      ensures status == 0 && contentType == None && retryAfter == 0 && body == []
    {
      status, contentType, retryAfter, body := 0, None, 0, [];
    }

    function Shown(): Answer
      reads this
    {
      Answer(status, contentType, retryAfter, body)
    }
  }

  /** Why a call that got as far as the transport failed. */
  datatype Cause =
    NoFailure | StreamRejected | TransportFailed | OutOfMemory | BoundWraps | WaitOnBlockingCall

  /** One completed exchange: what was sent, where and what its response was, and which reading of the clock it saw. */
  datatype Exchange = Exchange(request: Bytes, isHead: bool, start: nat, reply: Reply, used: nat, tick: nat)

  function End(log: seq<Exchange>): nat {
    if log == [] then 0 else log[|log| - 1].start + log[|log| - 1].used
  }

  function AllSent(log: seq<Exchange>): Bytes {
    if log == [] then [] else AllSent(log[..|log| - 1]) + log[|log| - 1].request
  }

  /** Each response is the one the stream carries where the one before it ended. */
  ghost predicate InStep(cfg: Config, peer: Bytes, log: seq<Exchange>)
    decreases |log|
  {
    log == [] ||
    (var init, x := log[..|log| - 1], log[|log| - 1];
     && InStep(cfg, peer, init)
     && x.start == End(init) <= |peer|
     && Expect(cfg, peer[x.start..], x.isHead, 0).Published?
     && Expect(cfg, peer[x.start..], x.isHead, 0).reply == x.reply
     && Expect(cfg, peer[x.start..], x.isHead, 0).used == x.used)
  }

  lemma Logged(cfg: Config, peer: Bytes, log: seq<Exchange>, x: Exchange)
    requires InStep(cfg, peer, log) && x.start == End(log) <= |peer|
    requires Expect(cfg, peer[x.start..], x.isHead, 0).Published?
    requires Expect(cfg, peer[x.start..], x.isHead, 0).reply == x.reply
    requires Expect(cfg, peer[x.start..], x.isHead, 0).used == x.used
    ensures InStep(cfg, peer, log + [x]) && End(log + [x]) == x.start + x.used
    ensures AllSent(log + [x]) == AllSent(log) + x.request
  {
    hide Expect;
    assert (log + [x])[..|log|] == log;
  }

  datatype SmState =
    Idle | Handshake | WriteHead | WriteBody | ReadHead | ReadBodyCl | ReadBodyEof | ReadBodyChunked | Done

  function Rank(s: SmState): nat {
    match s
    case Handshake => 7
    case WriteHead => 6
    case WriteBody => 5
    case ReadHead => 4
    case ReadBodyCl => 3
    case ReadBodyEof => 3
    case ReadBodyChunked => 3
    case Done => 1
    case Idle => 0
  }

  /** The search for the blank line has passed `scanned` offsets of a block within the budget. */
  ghost predicate AtHead(rx: Bytes, scanned: nat) {
    |rx| <= HEADER_BUDGET && forall i | 0 <= i < scanned :: i + 3 < |rx| && !BlankLineAt(rx, i)
  }

  /** The buffer's bound and the read-to-close limit, as the machine computes them. */
  function RxMax(cfg: Config): nat { cfg.Wrap(cfg.maxBody + HEADER_BUDGET) }
  function EofLimit(cfg: Config, h: nat): nat { cfg.Wrap(h + cfg.maxBody) }

  /** The limits are what they are meant to be, or fall short by the whole range of a size. */
  lemma LimitsAre(cfg: Config, h: nat)
    requires cfg.Sizes() && h <= HEADER_BUDGET
    ensures RxMax(cfg) == if cfg.Fits() then cfg.Bound() else cfg.Bound() - cfg.wordMax - 1
    ensures EofLimit(cfg, h) == if h + cfg.maxBody <= cfg.wordMax then h + cfg.maxBody
                                else h + cfg.maxBody - cfg.wordMax - 1
  {
    WrapOnce(cfg, cfg.maxBody + HEADER_BUDGET);
    WrapOnce(cfg, h + cfg.maxBody);
  }

  lemma WrapOnce(cfg: Config, n: nat)
    requires n <= 2 * cfg.wordMax
    ensures cfg.Wrap(n) == if n <= cfg.wordMax then n else n - cfg.wordMax - 1
  {
    var m := cfg.wordMax + 1;
    if n > cfg.wordMax {
      assert n == 1 * m + (n - m);
    }
  }

  /** Doubling up to what is wanted. */
  function Doubled(nc: nat, want: nat): (r: nat)
    requires nc > 0
    ensures r >= want && r >= nc
    decreases if nc < want then want - nc else 0
  {
    if nc >= want then nc else Doubled(nc * 2, want)
  }

  /** The capacity that follows `cap` when `want` bytes are needed. */
  function NextCap(cfg: Config, cap: nat, want: nat): (c: nat)
    ensures c <= RxMax(cfg) && (want <= RxMax(cfg) ==> want <= c)
  {
    var nc := Doubled(if cap != 0 then cap else 1024, want);
    if nc > RxMax(cfg) then RxMax(cfg) else nc
  }

  /** How much one read asks for while `len` bytes of at most `limit` are held. */
  function RoomAt(len: nat, limit: nat): nat
    requires len < limit
  {
    if limit - len > READ_CHUNK then READ_CHUNK else limit - len
  }

  /** The longest header block that always finds room, however it is delivered, when the bound wraps. */
  function Late(cfg: Config): nat { if RxMax(cfg) < READ_CHUNK then 0 else RxMax(cfg) - READ_CHUNK + 1 }

  /** Reads of `p` bytes get `total` bytes of header without ever asking for room past the bound. */
  ghost predicate Suits(cfg: Config, p: nat, total: nat) {
    0 < p <= READ_CHUNK && forall m | 0 <= m < total && m % p == 0 :: m + READ_CHUNK <= RxMax(cfg)
  }

  /** One step from a multiple of `p`: there is room, and the next place is a multiple too, or the end. */
  lemma StepSuits(cfg: Config, p: nat, total: nat, len: nat)
    requires cfg.Sizes() && !cfg.Fits() && Suits(cfg, p, total) && len < total && len % p == 0
    ensures len + READ_CHUNK <= RxMax(cfg) < HEADER_BUDGET && RoomAt(len, HEADER_BUDGET) == READ_CHUNK
    ensures p <= READ_CHUNK && (len + p) % p == 0
  {
    hide RxMax;
    LimitsAre(cfg, 0);
    NextMultiple(len, p);
  }

  lemma NextMultiple(n: nat, p: nat)
    requires p > 0 && n % p == 0
    ensures (n + p) % p == 0
  {
    QuotientIsUnique(n / p + 1, (n + p) / p, p, (n + p) % p);
  }

  lemma QuotientIsUnique(a: int, b: int, p: int, r: int)
    requires p > 0 && 0 <= r < p && a * p == b * p + r
    ensures a == b && r == 0
  {
    if a < b { AtLeastOnce(b - a, p); } else if b < a { AtLeastOnce(a - b, p); }
  }

  lemma AtLeastOnce(k: int, p: int)
    requires k >= 1 && p > 0
    ensures k * p >= p
  {}

  /** A head read asks for a chunk, or for the rest of the budget. */
  lemma RoomIs(len: nat)
    requires len < HEADER_BUDGET
    ensures RoomAt(len, HEADER_BUDGET) == READ_CHUNK || len + RoomAt(len, HEADER_BUDGET) == HEADER_BUDGET
    ensures 0 < RoomAt(len, HEADER_BUDGET) <= READ_CHUNK
  {}

  // --- the head, decided on a prefix of the stream ----------------------------

  lemma HeadFound(cfg: Config, s: Bytes, rx: Bytes, i: nat, headRequest: bool, interims: nat)
    requires rx <= s && AtHead(rx, i) && BlankLineAt(rx, i)
    ensures var head := Inspect(cfg, rx[..i + 4], headRequest);
            Expect(cfg, s, headRequest, interims) ==
            if head.Refused? then Rejected
            else if head.Final? then Finish(cfg, s, i + 4, head)
            else if interims + 1 > MAX_INTERIM then Rejected
            else Shift(Expect(cfg, s[i + 4..], headRequest, interims + 1), i + 4)
  {
    hide Finish, Inspect;
    assert forall j | 0 <= j <= i :: BlankLineAt(s, j) == BlankLineAt(rx, j);
    HeadEndIs(s, 0, i + 4);
    assert s[..i + 4] == rx[..i + 4];
  }

  lemma HeadMissing(cfg: Config, s: Bytes, rx: Bytes, i: nat, headRequest: bool, interims: nat)
    requires rx <= s && AtHead(rx, i) && i + 3 >= |rx| && (|rx| >= HEADER_BUDGET || rx == s)
    ensures Expect(cfg, s, headRequest, interims) == Rejected
  {
    hide Finish, Inspect;
    assert forall j | 0 <= j && j + 4 <= |rx| :: BlankLineAt(s, j) == BlankLineAt(rx, j);
  }

  lemma FirstBlock(s: Bytes, rx: Bytes, i: nat)
    requires rx <= s && AtHead(rx, i) && BlankLineAt(rx, i)
    ensures HeadEnd(s, 0) == Some(i + 4)
  {
    hide HeadEnd;
    assert forall j | 0 <= j <= i :: BlankLineAt(s, j) == BlankLineAt(rx, j);
    HeadEndIs(s, 0, i + 4);
  }

  lemma AtHeadGrows(rx: Bytes, more: Bytes, i: nat)
    requires rx <= more && |more| <= HEADER_BUDGET && AtHead(rx, i)
    ensures AtHead(more, i)
  {
    forall j | 0 <= j < i
      ensures j + 3 < |more| && !BlankLineAt(more, j)
    {
      assert !BlankLineAt(rx, j);
    }
  }

  /** Search for the blank line from `from` on; it stops where a later search resumes. */
  method FindBlankLine(rx: Bytes, from: nat) returns (i: nat)
    requires AtHead(rx, from)
    ensures AtHead(rx, i)
    ensures i + 3 < |rx| ==> BlankLineAt(rx, i)
  {
    i := from;
    while i + 3 < |rx| && !BlankLineAt(rx, i)
      invariant AtHead(rx, i)
    {
      i := i + 1;
    }
  }

  // --- the body, decided on a prefix of the stream ------------------------------

  lemma LengthBody(cfg: Config, s: Bytes, rx: Bytes, h: nat, n: nat, status: int, meta: Meta)
    requires rx <= s && h <= |rx|
    ensures h + n <= |rx| ==>
              Finish(cfg, s, h, Final(status, Length(n), meta))
              == Published(ResponseStream.Reply(status, meta, rx[h..h + n]), h + n, true)
    ensures |rx| < h + n && rx == s ==> Finish(cfg, s, h, Final(status, Length(n), meta)) == Rejected
  {
    if h + n <= |rx| { assert s[h..h + n] == rx[h..h + n]; }
  }

  lemma EofRejected(cfg: Config, s: Bytes, h: nat, status: int, meta: Meta)
    requires h <= |s| && |s| - h > cfg.maxBody
    ensures Finish(cfg, s, h, Final(status, UntilClose, meta)) == Rejected
  {}

  lemma ChunkedDone(cfg: Config, s: Bytes, rx: Bytes, h: nat, status: int, meta: Meta)
    requires cfg.maxBody > 0 && rx <= s && h <= |rx| <= cfg.Bound() && Scan(rx[h..], cfg.maxBody).Complete?
    ensures var end := Scan(rx[h..], cfg.maxBody).end;
            Finish(cfg, s, h, Final(status, InChunks, meta)) ==
            match Decode(rx[h..h + end])
            case None => Rejected
            case Some(b) => Published(ResponseStream.Reply(status, meta, b), h + end, true)
  {
    hide Scan, Decode;
    var end := Scan(rx[h..], cfg.maxBody).end;
    assert rx[h..] <= s[h..];
    SelfDelimiting(rx[h..], cfg.maxBody, s[h..]);
    assert s[h..h + end] == rx[h..h + end];
  }

  lemma ChunkedRejected(cfg: Config, s: Bytes, rx: Bytes, h: nat, status: int, meta: Meta)
    requires cfg.maxBody > 0 && rx <= s && h <= |rx|
    requires Scan(rx[h..], cfg.maxBody).Malformed?
             || (Scan(rx[h..], cfg.maxBody).More? && (rx == s || |rx| == cfg.Bound()))
    ensures Finish(cfg, s, h, Final(status, InChunks, meta)) == Rejected
  {
    hide Scan, Decode;
    assert rx[h..] <= s[h..];
    if Scan(rx[h..], cfg.maxBody).Malformed? {
      MalformedExtends(rx[h..], s[h..], cfg.maxBody);
    } else if Scan(s[h..], cfg.maxBody).Complete? {
      SelfDelimiting(s[h..], cfg.maxBody, rx[h..]);
    }
  }

  lemma MalformedExtends(raw: Bytes, ext: Bytes, max: nat)
    requires raw <= ext && Scan(raw, max).Malformed?
    ensures Scan(ext, max).Malformed?
  {
    ChunksExtend(raw, ext, 0, 0, max);
  }

  lemma SentOn(sent: Bytes, data: Bytes, off: nat, next: nat, rest: Bytes)
    requires off <= next <= |data|
    ensures sent + data[off..next] + (data[next..] + rest) == sent + (data[off..] + rest)
    ensures rest == [] ==> sent + data[off..next] + data[next..] == sent + data[off..]
  {
    assert data[off..] == data[off..next] + data[next..];
  }

  lemma ShiftNone(o: Outcome)
    ensures Shift(o, 0) == o
  {}

  class Session {
    const cfg: Config
    const conn: Conn
    var closed: bool
    var headRequest: bool
    var state: SmState
    var head: Bytes
    var txOff: nat
    var body: Bytes
    var rx: Bytes
    var rxCap: nat
    var hdrEnd: nat
    var hdrScan: nat
    var scan: ChunkScan
    var contentLength: int
    var contentType: Option<Bytes>
    var retryAfter: nat
    var status: int
    var interim: nat
    var resp: Response?

    /** Completed exchanges, and for the one in flight: its bytes, what was sent before it, where its response starts,
        where `rx` starts, the outcome the stream holds for it, how often the clock was read and the transport
        moved something before it, and the texts of its final head with the reading they were taken at. */
    ghost var log: seq<Exchange>
    ghost var request: Bytes
    ghost var sentBase: Bytes
    ghost var start: nat
    ghost var drop: nat
    ghost var goal: Outcome
    ghost var since: nat
    ghost var spent: nat
    ghost var meta: Meta
    ghost var tick: nat

    /** What the caller of a completed exchange saw. */
    function Answered(x: Exchange): Answer { Publish(x.reply, conn.clock(x.tick)) }

    // --- invariants ----------------------------------------------------------

    /** `rx` is what came since `drop`, within the buffer and its bound. */
    ghost predicate Buffered()
      reads this`start, this`drop, this`rx, this`rxCap, conn`taken
    {
      && cfg.Sizes() && conn.taken <= |conn.peer|
      && start <= drop && drop + |rx| == conn.taken
      && rx == conn.peer[drop..conn.taken]
      && |rx| <= rxCap <= cfg.Bound() && rxCap <= cfg.wordMax / 2
    }

    /** The bytes not yet accepted by the transport. */
    ghost function Unsent(): Bytes
      reads this`state, this`head, this`txOff, this`body
    {
      match state
      case Handshake => head + body
      case WriteHead => if txOff <= |head| then head[txOff..] + body else []
      case WriteBody => if txOff <= |body| then body[txOff..] else []
      case _ => []
    }

    ghost predicate Sending()
      reads this`state, this`head, this`txOff, this`body, this`sentBase, this`request, conn`sent
    {
      && (state == WriteHead ==> txOff <= |head|)
      && (state == WriteBody ==> txOff <= |body|)
      && (state == Handshake ==> txOff == 0)
      && conn.sent + Unsent() == sentBase + request
    }

    /** What is held of the final head's texts: the wait by a reading of the clock that was taken for this request. */
    ghost predicate Noted()
      reads this`contentType, this`retryAfter, this`since, this`meta, this`tick, conn`ticks
    {
      && contentType == meta.contentType && retryAfter == RetryAfter.Wait(meta.retryAfter, conn.clock(tick))
      && (RetryAfter.NeedsClock(meta.retryAfter) ==> since <= tick < conn.ticks)
    }

    /** The goal, seen from a final head of `hdrEnd` bytes and the framing it announced. */
    ghost predicate AtBody(framing: Framing)
      reads this`start, this`drop, this`rx, this`hdrEnd, this`goal, this`status, this`meta
    {
      && start <= drop && drop + |rx| <= |conn.peer| && hdrEnd <= |rx| && hdrEnd <= HEADER_BUDGET
      && goal == Shift(Finish(cfg, conn.peer[drop..], hdrEnd, Final(status, framing, meta)), drop - start)
    }

    /** The first header block of the response at `start` found room. */
    ghost predicate HeadHadRoom(start: nat) {
      && start <= |conn.peer| && READ_CHUNK <= RxMax(cfg)
      && var h := HeadEnd(conn.peer[start..], 0);
      && h.Some? && h.value <= RxMax(cfg) && (conn.steps == Some(1) && !cfg.Fits() ==> h.value <= Late(cfg))
    }

    /** The stream is one header block, and the transport delivers it in steps that suit the bound. */
    ghost predicate QuickAt(start: nat, goal: Outcome) {
      && !cfg.Fits() && conn.steps.Some? && start <= |conn.peer|
      && HeadEnd(conn.peer[start..], 0) == Some(|conn.peer| - start)
      && Suits(cfg, conn.steps.value, |conn.peer| - start)
      && (goal.Published? ==> goal.reusable)
    }

    ghost predicate Quick()
      reads this`start, this`goal
    {
      QuickAt(start, goal)
    }

    /** How far the reads of a header block got. */
    ghost predicate HeadPaced()
      reads this`start, this`drop, this`rx, this`rxCap, this`interim, this`goal, conn`taken
    {
      && rxCap <= RxMax(cfg) && (RxMax(cfg) < READ_CHUNK ==> rx == [])
      && (if interim > 0 then drop > start && HeadHadRoom(start)
          else drop == start && (conn.steps == Some(1) && !cfg.Fits() ==> |rx| <= Late(cfg)))
      && (Quick() && conn.taken < |conn.peer| ==> drop == start && |rx| % conn.steps.value == 0)
    }

    /** And of a body. */
    ghost predicate BodyPaced()
      reads this`start, this`goal, conn`taken
    {
      HeadHadRoom(start) && (Quick() ==> conn.taken == |conn.peer|)
    }

    /** Every completed exchange began with a header block that found room. */
    ghost predicate AllHadRoom()
      reads this`log
    {
      forall i | 0 <= i < |log| :: HeadHadRoom(log[i].start)
    }

    ghost predicate Reading()
      reads this`start, this`drop, this`goal, this`headRequest, this`interim
    {
      && start <= drop <= |conn.peer|
      && goal == Shift(Expect(cfg, conn.peer[drop..], headRequest, interim), drop - start)
    }

    ghost predicate Phase()
      reads this, conn
    {
      match state
      case Idle => false
      case Done => false
      case ReadHead => Reading() && AtHead(rx, hdrScan) && HeadPaced()
      case ReadBodyCl => 0 <= contentLength <= cfg.maxBody && AtBody(Length(contentLength)) && Noted() && BodyPaced()
      case ReadBodyEof => AtBody(UntilClose) && Noted() && BodyPaced()
      case ReadBodyChunked =>
        AtBody(InChunks) && Noted() && BodyPaced() && Scanning(rx[hdrEnd..], scan) && scan.max == cfg.maxBody
      case _ => Reading() && rx == [] && interim == 0 && hdrScan == 0 && HeadPaced()
    }

    /** A request is in flight and its response is not out yet. */
    ghost predicate Running()
      reads this, conn
    {
      && resp != null && !closed && state != Idle && state != Done && interim <= MAX_INTERIM
      && conn.Valid() && |rx| <= cfg.Bound() && Buffered() && Sending() && Phase() && since <= conn.ticks
    }

    /** The response is out, and it is the goal's. */
    ghost predicate Delivered()
      reads this, conn, resp
    {
      && resp != null && state == Done && conn.Valid() && interim <= MAX_INTERIM
      && conn.sent == sentBase + request && HeadHadRoom(start)
      && goal.Published? && resp.Shown() == Publish(goal.reply, conn.clock(tick))
      && (RetryAfter.NeedsClock(goal.reply.meta.retryAfter) ==> since <= tick < conn.ticks)
    }

    /** The session is closed exactly when more than the response was read, or only the close ended it. */
    ghost predicate Settled()
      reads this`closed, this`start, this`goal, conn`taken
    {
      && goal.Published? && start + goal.used <= conn.taken
      && (closed <==> start + goal.used < conn.taken || !goal.reusable)
    }

    /**
     * Between public calls: every completed exchange is in step with the stream;
     * an idle session that is not closed has read exactly those responses and
     * written exactly those requests; a held request is the next one.
     */
    ghost predicate Valid()
      reads this, conn
    {
      && cfg.Sizes() && conn.Valid() && InStep(cfg, conn.peer, log) && AllHadRoom()
      && (closed ==> resp == null)
      && (resp == null && !closed ==> Quiet())
      && (resp != null ==> Running() && Held() && Paid())
    }

    ghost predicate Quiet()
      reads this, conn
    {
      && state in {Idle, Handshake} && rx == [] && hdrScan == 0 && rxCap == 0
      && conn.taken == End(log) && conn.sent == AllSent(log)
    }

    ghost predicate Held()
      reads this`start, this`log, this`sentBase, this`goal, this`headRequest
    {
      && start == End(log) <= |conn.peer| && sentBase == AllSent(log)
      && goal == Expect(cfg, conn.peer[start..], headRequest, 0)
    }

    /** Opened with any limit a size can hold; 0 asks for the default. */
    constructor (parse: Bytes -> HeadText, maxResponseBytes: nat, wordMax: nat, conn: Conn)
      requires conn.Valid() && conn.taken == 0 && conn.sent == []
      requires maxResponseBytes <= wordMax && wordMax >= 0xFFFF_FFFF
      ensures Valid() && this.conn == conn && !closed && resp == null && log == []
      ensures cfg.parse == parse && cfg.wordMax == wordMax
      ensures cfg.maxBody == if maxResponseBytes != 0 then maxResponseBytes else 65536
    {
      this.cfg := Config(parse, if maxResponseBytes != 0 then maxResponseBytes else DEFAULT_MAX_BODY, wordMax);
      this.conn := conn;
      closed, headRequest := false, false;
      state := if conn.tls then Handshake else Idle;
      head, txOff, body := [], 0, [];
      rx, rxCap, hdrEnd, hdrScan := [], 0, 0, 0;
      scan := FreshScan(0);
      contentLength, contentType, retryAfter, status, interim := 0, None, 0, 0, 0;
      resp := null;
      log, request, sentBase, start, drop, goal := [], [], [], 0, 0, Rejected;
      since, spent, meta, tick := 0, 0, Meta(None, None), 0;
    }

    /** The transport was used, and memory asked for, no less than before. */
    twostate predicate Onward()
      reads conn
    {
      old(conn.at) <= conn.at && old(conn.asked) <= conn.asked
    }

    /** Each event that moved something moved a byte of the request or the response, or ended the handshake. */
    twostate predicate Pays()
      reads this`state, conn
    {
      conn.Moves(conn.at) + |old(conn.sent)| + old(conn.taken) + (if state == Handshake then 1 else 0)
      <= conn.Moves(old(conn.at)) + |conn.sent| + conn.taken + (if old(state) == Handshake then 1 else 0)
    }

    /** So it is for the request in flight, before which `spent` events moved something. */
    ghost predicate Paid()
      reads this`state, this`start, this`sentBase, this`spent, conn`at, conn`sent, conn`taken
    {
      conn.Moves(conn.at) + |sentBase| + start + (if state == Handshake then 1 else 0)
      <= spent + |conn.sent| + conn.taken + 1
    }

    twostate lemma PaidOn()
      requires old(Paid()) && Pays() && unchanged(this`start, this`sentBase, this`spent)
      ensures Paid()
    {}

    /** The transport has to be waited for as `rc` says. */
    ghost predicate Waits(rc: Rc, from: nat)
      reads conn`at
    {
      rc.Want() && conn.Waits(from, rc == WantRead)
    }

    // --- transport calls -------------------------------------------------------

    /** The allocator grants nothing over half the largest size. */
    predicate Grants(ask: nat, n: nat) { n <= cfg.wordMax / 2 && conn.grants(ask, n) }

    /** An allocation of at most `max` bytes was refused, after the first `from` of them. */
    ghost predicate Refused(from: nat, max: nat)
      reads conn`asked
    {
      exists k | from <= k < |conn.asked| :: conn.asked[k] <= max && !Grants(k, conn.asked[k])
    }

    lemma RefusedSince(from: nat, later: nat, max: nat, more: nat)
      requires from <= later && max <= more
      ensures Refused(later, max) ==> Refused(from, more)
    {}

    /** The most the session asks for: a header block, or all it may hold. */
    ghost function AskMax(start: nat, goal: Outcome): nat {
      if QuickAt(start, goal) && goal.Published? then HEADER_BUDGET + 1 else cfg.Bound()
    }

    lemma AskMaxIs(start: nat, goal: Outcome)
      requires cfg.Sizes()
      ensures RxMax(cfg) <= AskMax(start, goal) && HEADER_BUDGET + 1 <= AskMax(start, goal) <= cfg.Bound()
      ensures goal == Rejected || !QuickAt(start, goal) ==> AskMax(start, goal) == cfg.Bound()
    {
      hide RxMax, HeadEnd, Suits;
      LimitsAre(cfg, 0);
    }

    method Allocate(n: nat) returns (ok: bool)
      modifies conn`asked
      ensures ok == Grants(|old(conn.asked)|, n) && (ok ==> n <= cfg.wordMax / 2)
      ensures conn.asked == old(conn.asked) + [n] && (!ok ==> Refused(|old(conn.asked)|, n))
    {
      assert (conn.asked + [n])[|conn.asked|] == n;
      var granted := conn.Allocate(n);
      return n <= cfg.wordMax / 2 && granted;
    }

    /** Room for `need` more bytes; doubling, but never past the bound. The doubling itself never wraps. */
    method Reserve(need: nat) returns (rc: Rc)
      requires |rx| <= rxCap <= cfg.wordMax / 2 && need <= READ_CHUNK && cfg.Sizes()
      modifies this`rxCap, conn`asked
      ensures rc == if |rx| + need <= old(rxCap) then Ok
                    else if |rx| + need > RxMax(cfg) then Protocol
                    else if Grants(|old(conn.asked)|, NextCap(cfg, old(rxCap), |rx| + need)) then Ok else Memory
      ensures rxCap == if rc == Ok && |rx| + need > old(rxCap) then NextCap(cfg, old(rxCap), |rx| + need)
                       else old(rxCap)
      ensures rxCap <= cfg.wordMax / 2
      ensures old(conn.asked) <= conn.asked && (rc == Memory ==> Refused(|old(conn.asked)|, RxMax(cfg)))
    {
      hide RetryAfter.Wait, RxMax, NextCap, Grants, Refused;
      var want := cfg.Wrap(|rx| + need);
      if want <= rxCap {
        return Ok;
      }
      var max := RxMax(cfg);
      if want > max {
        return Protocol;
      }
      rc := Grow(want, max);
    }

    method Grow(want: nat, max: nat) returns (rc: Rc)
      requires rxCap < want <= max == RxMax(cfg) && want <= rxCap + READ_CHUNK
      requires rxCap <= cfg.wordMax / 2 && cfg.Sizes()
      modifies this`rxCap, conn`asked
      ensures rc == if Grants(|old(conn.asked)|, NextCap(cfg, old(rxCap), want)) then Ok else Memory
      ensures rxCap == (if rc == Ok then NextCap(cfg, old(rxCap), want) else old(rxCap)) <= cfg.wordMax / 2
      ensures old(conn.asked) <= conn.asked && (rc == Memory ==> Refused(|old(conn.asked)|, RxMax(cfg)))
    {
      hide Refused;
      var nc := if rxCap != 0 then rxCap else 1024;
      ghost var to := Doubled(nc, want);
      while nc < want
        invariant nc > 0 && rxCap <= nc && Doubled(nc, want) == to && (nc < want ==> nc <= cfg.wordMax / 2)
        decreases want - nc
      {
        nc := cfg.Wrap(nc * 2);
      }
      if nc > max {
        nc := max;
      }
      var granted := Allocate(nc);
      RefusedSince(|old(conn.asked)|, |old(conn.asked)|, nc, RxMax(cfg));
      if !granted {
        return Memory;
      }
      rxCap := nc;
      return Ok;
    }

    /** It failed because the transport did, or for an allocation that was refused. */
    ghost predicate LetDown(rc: Rc, from: nat, asked: nat)
      reads conn`at, conn`asked
    {
      (rc == Io && conn.Broke(from)) || (rc == Memory && Refused(asked, RxMax(cfg)))
    }

    /** Append to `rx` while it holds fewer than `limit` bytes; `ended` when the peer closed. */
    method ReadSome(limit: nat) returns (rc: Rc, ended: bool)
      requires Buffered() && conn.Valid() && limit <= cfg.Bound()
      modifies this`rx, this`rxCap, conn`at, conn`taken, conn`asked
      ensures rc.Want() || (rc == Ok && !ended) ==> Pays()
      ensures Onward()
      ensures rc == Ok || rc.Want() ==> Buffered()
      ensures rc == Ok && !ended ==> old(rx) < rx && |rx| <= limit && |old(rx)| < limit
      ensures rc == Ok && !ended ==>
                && var want := |old(rx)| + RoomAt(|old(rx)|, limit);
                && (want <= old(rxCap) || want <= RxMax(cfg))
                && (conn.steps.Some? ==>
                      |rx| == |old(rx)| + Least(Least(conn.steps.value, RoomAt(|old(rx)|, limit)),
                                                |conn.peer| - old(conn.taken)))
      ensures rxCap == old(rxCap) || rxCap <= RxMax(cfg)
      ensures rc == Ok && ended ==> rx == old(rx) && old(conn.taken) == conn.taken == |conn.peer| && |rx| <= limit
      ensures rc.Want() ==> rx == old(rx) && conn.taken == old(conn.taken)
                            && Waits(rc, old(conn.at))
      ensures conn.Valid() && old(conn.taken) <= conn.taken <= |conn.peer| && (rc == Ok || rc.Want() || rc.Failed())
      ensures rc.Failed() ==> rc == Protocol || LetDown(rc, old(conn.at), |old(conn.asked)|)
      ensures rc == Protocol ==>
                && ((limit <= |old(rx)| && (limit == |old(rx)| ==> old(conn.taken) < |conn.peer|))
                    || (!cfg.Fits() && |old(rx)| < limit
                        && |old(rx)| + RoomAt(|old(rx)|, limit) > RxMax(cfg)))
      ensures |old(rx)| > limit ==> rc == Protocol
    {
      hide RxMax, NextCap, Grants, Refused, Conn.Valid, Conn.Broke, Conn.Waits, Conn.Moves, Least;
      LimitsAre(cfg, 0);
      ended := false;
      if |rx| > limit {
        return Protocol, false;
      }
      if |rx| == limit {
        rc, ended := Probe();
        return;
      }
      var room := limit - |rx|;
      room := if room > READ_CHUNK then READ_CHUNK else room;
      rc := Reserve(room);
      if rc != Ok {
        return rc, false;
      }
      rc, ended := Receive(room);
    }

    /** Append what comes, up to `room` bytes. */
    method Receive(room: nat) returns (rc: Rc, ended: bool)
      requires Buffered() && conn.Valid() && room > 0 && |rx| + room <= rxCap
      modifies this`rx, conn`at, conn`taken
      ensures conn.Valid() && Buffered() && old(conn.at) <= conn.at && old(conn.taken) <= conn.taken
      ensures rc == Ok && !ended ==>
                && old(rx) < rx && |rx| <= |old(rx)| + room
                && (conn.steps.Some? ==>
                      |rx| == |old(rx)| + Least(Least(conn.steps.value, room), |conn.peer| - old(conn.taken)))
      ensures rc != Ok || ended ==> rx == old(rx) && conn.taken == old(conn.taken)
      ensures rc == Ok && ended ==> conn.taken == |conn.peer|
      ensures rc.Want() || (rc == Ok && !ended) ==> Pays()
      ensures rc == Ok || (rc.Want() && Waits(rc, old(conn.at))) || (rc == Io && conn.Broke(old(conn.at)))
    {
      hide Conn.Valid, Conn.Broke, Conn.Waits, Conn.Moves, Least;
      var r := conn.Read(room);
      match r
      case Data(data) =>
        rx := rx + data;
        return Ok, false;
      case Closed => return Ok, true;
      case ReadWait(forRead) => return WantRc(forRead), false;
      case ReadError => return Io, false;
    }

    /** At the limit, one byte more is one too many. */
    method Probe() returns (rc: Rc, ended: bool)
      requires conn.Valid()
      modifies conn`at, conn`taken
      ensures conn.Valid() && old(conn.at) <= conn.at && old(conn.taken) <= conn.taken <= |conn.peer|
      ensures rc == Ok ==> ended && conn.taken == old(conn.taken) == |conn.peer|
      ensures rc.Want() ==> conn.taken == old(conn.taken) && Waits(rc, old(conn.at)) && Pays()
      ensures rc == Protocol ==> old(conn.taken) < |conn.peer|
      ensures rc == Ok || rc.Want() || rc == Protocol || (rc == Io && conn.Broke(old(conn.at)))
    {
      hide Conn.Broke, Conn.Waits, Conn.Moves;
      var r := conn.Read(1);
      match r
      case Data(_) => return Protocol, false;
      case Closed => return Ok, true;
      case ReadWait(forRead) => return WantRc(forRead), false;
      case ReadError => return Io, false;
    }

    /** Hand `data[off..]` to the transport; `off` advances past what it accepted. */
    method WriteSome(data: Bytes, off: nat) returns (rc: Rc, next: nat)
      requires conn.Valid() && off <= |data|
      modifies conn`at, conn`sent
      ensures conn.Valid() && off <= next <= |data| && conn.sent == old(conn.sent) + data[off..next]
      ensures Onward()
      ensures rc == Ok ==> next == |data|
      ensures rc == Ok || rc.Want() ==> Pays()
      ensures rc.Want() ==> Waits(rc, old(conn.at))
      ensures rc == Ok || rc.Want() || (rc == Io && conn.Broke(old(conn.at)))
    {
      next := off;
      while next < |data|
        invariant off <= next <= |data| && conn.Valid()
        invariant conn.sent == old(conn.sent) + data[off..next]
        invariant old(conn.at) <= conn.at && Pays()
      {
        var rest := data[next..];
        var r := conn.Write(rest);
        match r
        case Accepted(n) =>
          assert data[off..next + n] == data[off..next] + rest[..n];
          next := next + n;
        case WriteWait(forRead) => return WantRc(forRead), next;
        case WriteError => return Io, next;
      }
      return Ok, next;
    }

    // --- the steps ---------------------------------------------------------------

    /**
     * Why a step may fail, after `from` transport calls and `asked` allocations: the transport did, an allocation was
     * refused, the stream holds no response, or the bound wraps.
     */
    ghost predicate Blamed(rc: Rc, from: nat, asked: nat)
      reads this`goal, this`start, conn`at, conn`asked
    {
      match rc
      case Memory => Refused(asked, AskMax(start, goal))
      case Tls => conn.Broke(from)
      case Io => conn.Broke(from) || goal == Rejected
      case Protocol => goal == Rejected || (!cfg.Fits() && !Quick())
      case _ => false
    }

    lemma LetDownIsBlamed(rc: Rc, from: nat, later: nat, asked: nat)
      requires cfg.Sizes() && asked <= later && LetDown(rc, from, later)
      ensures Blamed(rc, from, asked)
    {
      hide Refused, QuickAt, AskMax, Conn.Broke, RxMax;
      AskMaxIs(start, goal);
      RefusedSince(asked, later, RxMax(cfg), AskMax(start, goal));
    }

    /** A step went on: fewer interims left, a later state, or more bytes held. */
    twostate predicate Progress()
      reads this
    {
      || interim > old(interim)
      || (interim == old(interim) && Rank(state) < Rank(old(state)))
      || (interim == old(interim) && state == old(state) && |rx| > |old(rx)|)
    }

    /**
     * What every step leaves: it went on, or it waits with the request still in
     * flight, or it failed because the transport did or the stream holds no
     * response.
     */
    twostate predicate Stepped(rc: Rc)
      reads this, conn, resp
    {
      && Onward()
      && (rc == Ok ==> (if state == Done then Delivered() && Settled() else Running()) && interim <= MAX_INTERIM
                       && Progress())
      && (rc.Want() ==> Running()
                        && Waits(rc, old(conn.at)))
      && (rc.Want() || (rc == Ok && state != Done) ==> Pays())
      && (rc == Ok || rc.Want() || (rc.Failed() && conn.Valid() && Blamed(rc, old(conn.at), |old(conn.asked)|)))
    }

    /** The state that reads a body framed like this from its start. */
    ghost predicate Announced(framing: Framing)
      reads this`state, this`contentLength, this`scan
    {
      match framing
      case Length(n) => state == ReadBodyCl && contentLength == n <= cfg.maxBody
      case UntilClose => state == ReadBodyEof
      case InChunks => state == ReadBodyChunked && scan == FreshScan(cfg.maxBody)
    }

    method InspectHeaders() returns (rc: Rc)
      requires hdrEnd <= |rx| && hdrEnd <= HEADER_BUDGET && cfg.Sizes()
      modifies this`status, this`contentLength, this`contentType, this`retryAfter, this`scan, this`state, this`meta,
               this`tick, conn`asked, conn`ticks
      ensures rc == if !Grants(|old(conn.asked)|, hdrEnd + 1) then Memory
                    else if Inspect(cfg, rx[..hdrEnd], headRequest).Refused? then Protocol else Ok
      ensures old(conn.ticks) <= conn.ticks && old(conn.asked) <= conn.asked
      ensures rc == Memory ==> Refused(|old(conn.asked)|, HEADER_BUDGET + 1)
      ensures rc == Ok && Inspect(cfg, rx[..hdrEnd], headRequest).Interim? ==>
                state == old(state) && StatusIsInterim(status)
      ensures rc == Ok && Inspect(cfg, rx[..hdrEnd], headRequest).Final? ==>
                var h := Inspect(cfg, rx[..hdrEnd], headRequest);
                && status == h.status && meta == h.meta && !StatusIsInterim(status)
                && contentType == meta.contentType && retryAfter == RetryAfter.Wait(meta.retryAfter, conn.clock(tick))
                && (RetryAfter.NeedsClock(meta.retryAfter) ==> old(conn.ticks) <= tick < conn.ticks)
                && Announced(h.framing)
    {
      hide RetryAfter.Wait, Grants, Refused, Judged, Announced;
      var granted := Allocate(hdrEnd + 1);
      RefusedSince(|old(conn.asked)|, |old(conn.asked)|, hdrEnd + 1, HEADER_BUDGET + 1);
      if !granted {
        return Memory;
      }
      var t := cfg.parse(rx[..hdrEnd]);
      rc := Judge(t);
      if rc == Ok && !StatusIsInterim(status) {
        Note(t.meta);
      }
    }

    /** The status and the framing: refused, interim, or a body to read. */
    method Judge(t: HeadText) returns (rc: Rc)
      modifies this`status, this`contentLength, this`scan, this`state
      ensures rc == if Judged(cfg, t, headRequest).Refused? then Protocol else Ok
      ensures Judged(cfg, t, headRequest).Interim? ==> state == old(state) && StatusIsInterim(status)
      ensures Judged(cfg, t, headRequest).Final? ==>
                var h := Judged(cfg, t, headRequest);
                status == h.status && h.meta == t.meta && !StatusIsInterim(status) && Announced(h.framing)
    {
      if t.status.None? {
        return Protocol;
      }
      status := t.status.value;
      if status == 101 {
        return Protocol;
      }
      if StatusIsInterim(status) {
        return Ok;
      }
      var chunked := false;
      if HasNoBody(status, headRequest) {
        contentLength := 0;
      } else {
        chunked := t.chunked;
        contentLength := t.contentLength;
        if contentLength >= 0 && contentLength > cfg.maxBody {
          return Protocol;
        }
      }
      if chunked {
        scan := FreshScan(cfg.maxBody);
        state := ReadBodyChunked;
      } else if contentLength >= 0 {
        state := ReadBodyCl;
      } else {
        state := ReadBodyEof;
      }
      return Ok;
    }

    /** Hold the content type, and the wait as of now; the clock is read only for a value that may be a date. */
    method Note(m: Meta)
      modifies this`contentType, this`retryAfter, this`meta, this`tick, conn`ticks
      ensures meta == m && contentType == m.contentType
      ensures retryAfter == RetryAfter.Wait(m.retryAfter, conn.clock(tick))
      ensures tick == old(conn.ticks) && conn.ticks == tick + if RetryAfter.NeedsClock(m.retryAfter) then 1 else 0
    {
      hide RetryAfter.TextWait;
      contentType, retryAfter := m.contentType, 0;
      meta, tick := m, conn.ticks;
      if m.retryAfter.None? {
        return;
      }
      var v := m.retryAfter.value;
      if v != [] && IsDigit(v[0]) {
        retryAfter := RetryAfter.ParseDelta(v);
        RetryAfter.DeltaWait(v, conn.clock(tick));
      } else {
        var now := conn.Now();
        retryAfter := RetryAfter.ParseRetryAfter(v, now);
      }
    }

    // --- room ----------------------------------------------------------------------

    /** Steps that suit the bound find room for the next one. */
    lemma QuickFindsRoom()
      requires Buffered() && HeadPaced() && Quick() && conn.taken < |conn.peer|
      ensures |rx| + READ_CHUNK <= RxMax(cfg) < HEADER_BUDGET && drop == start && |rx| % conn.steps.value == 0
    {
      hide HeadHadRoom, HeadEnd, RxMax, Suits;
      StepSuits(cfg, conn.steps.value, |conn.peer| - start, |rx|);
    }

    /** A read that found room leaves the head at a pace. */
    twostate lemma HeadPaceKept()
      requires old(HeadPaced()) && old(Buffered()) && Buffered()
      requires unchanged(this`start, this`drop, this`interim, this`goal) && |old(rx)| < HEADER_BUDGET
      requires var want := |old(rx)| + RoomAt(|old(rx)|, HEADER_BUDGET);
               (want <= old(rxCap) || want <= RxMax(cfg)) && (rxCap == old(rxCap) || rxCap <= RxMax(cfg))
      requires conn.steps.Some? ==>
                 |rx| == |old(rx)| + Least(Least(conn.steps.value, RoomAt(|old(rx)|, HEADER_BUDGET)),
                                           |conn.peer| - old(conn.taken))
      ensures HeadPaced()
    {
      hide HeadHadRoom, HeadEnd, RxMax, Suits, RoomAt;
      LimitsAre(cfg, 0);
      RoomIs(|old(rx)|);
      assert rxCap <= RxMax(cfg) && READ_CHUNK <= RxMax(cfg);
      assert conn.steps == Some(1) && !cfg.Fits() ==> |rx| <= |old(rx)| + 1 <= Late(cfg);
      if Quick() && conn.taken < |conn.peer| {
        assert old(Quick());
        StepSuits(cfg, conn.steps.value, |conn.peer| - start, |old(rx)|);
        assert |rx| == |old(rx)| + conn.steps.value;
      }
    }

    twostate lemma HeadPaceStays()
      requires old(HeadPaced()) && unchanged(this`start, this`drop, this`interim, this`goal, this`rx)
      requires conn.taken == old(conn.taken) && (rxCap == old(rxCap) || rxCap <= RxMax(cfg))
      ensures HeadPaced()
    {
      hide HeadHadRoom, HeadEnd, RxMax, Suits;
    }

    lemma ClosedIsNotQuick()
      requires AtBody(UntilClose)
      ensures Quick() ==> goal == Rejected
    {
      hide HeadEnd, Suits;
    }

    lemma NotQuick()
      requires BodyPaced() && conn.taken < |conn.peer|
      ensures !Quick()
    {
      hide Quick;
    }

    /** More bytes of the stream do not move the body. */
    twostate lemma BodyGrows(framing: Framing)
      requires old(AtBody(framing)) && Buffered() && |rx| >= |old(rx)|
      requires unchanged(this`start, this`drop, this`hdrEnd, this`goal, this`status, this`meta)
      ensures AtBody(framing)
    {
      hide Finish;
    }

    /** With the whole stream read, steps do not matter to the rest. */
    twostate lemma BodyPaceKept()
      requires old(BodyPaced()) && unchanged(this`start, this`goal) && old(conn.taken) <= conn.taken <= |conn.peer|
      ensures BodyPaced()
    {
      hide HeadHadRoom, Suits, HeadEnd;
    }

    /** No blank line in the whole budget, or in the whole stream. */
    lemma NoHead(i: nat)
      requires Buffered() && Reading() && AtHead(rx, i) && i + 3 >= |rx|
      requires |rx| >= HEADER_BUDGET || conn.taken == |conn.peer|
      ensures goal == Rejected
    {
      hide Expect, AtHead;
      HeadMissing(cfg, conn.peer[drop..], rx, i, headRequest, interim);
    }

    lemma StillReadingHead()
      requires resp != null && !closed && interim <= MAX_INTERIM && since <= conn.ticks && state == ReadHead
      requires conn.Valid() && Buffered() && Sending() && Reading() && AtHead(rx, hdrScan) && HeadPaced()
      ensures Running()
    {
      hide Conn.Valid, Sending, Reading, AtHead, HeadPaced;
    }

    /** Read more of a header block, within the budget; in steps that suit the bound there is room for it. */
    method ReadHeadBytes() returns (rc: Rc, ended: bool)
      requires Buffered() && HeadPaced() && conn.Valid() && |rx| < HEADER_BUDGET
      modifies this`rx, this`rxCap, conn`at, conn`taken, conn`asked
      ensures rc.Want() || (rc == Ok && !ended) ==> Pays()
      ensures conn.Valid() && Onward() && (rc == Ok || rc.Want() || rc.Failed())
      ensures rc == Ok || rc.Want() ==> Buffered() && HeadPaced()
      ensures rc == Ok ==> if ended then rx == old(rx) && conn.taken == |conn.peer| else old(rx) < rx
      ensures rc == Ok && !ended ==> |rx| <= HEADER_BUDGET
      ensures rc.Want() ==> rx == old(rx) && Waits(rc, old(conn.at))
      ensures rc.Failed() ==> rc == Protocol || LetDown(rc, old(conn.at), |old(conn.asked)|)
      ensures rc == Protocol ==> !cfg.Fits() && (Quick() ==> old(conn.taken) == |conn.peer|)
    {
      hide HeadPaced, Quick, RxMax, RoomAt, Buffered, Conn.Valid, Least, LetDown;
      ghost var len, left := |rx|, |conn.peer| - conn.taken;
      if Quick() && left > 0 {
        QuickFindsRoom();
      }
      rc, ended := ReadSome(HEADER_BUDGET);
      if rc == Ok && !ended {
        HeadPaceKept();
      } else if rc == Ok || rc.Want() {
        HeadPaceStays();
      } else {
        RoomIs(len);
        TakenIsWithin();
      }
    }

    lemma TakenIsWithin()
      requires conn.Valid()
      ensures conn.taken <= |conn.peer|
    {}

    /** The block has no end yet: read on, within the header budget. */
    method MoreHead(i: nat) returns (rc: Rc)
      requires Running() && state == ReadHead && AtHead(rx, i) && i + 3 >= |rx|
      modifies this`rx, this`rxCap, this`hdrScan, conn`at, conn`taken, conn`asked
      ensures Onward()
      ensures rc == Ok || rc.Want() ==> Pays()
      ensures rc == Ok ==> Running() && |rx| > |old(rx)|
      ensures rc.Want() ==> Running()
                            && Waits(rc, old(conn.at))
      ensures rc == Ok || rc.Want() || (rc.Failed() && conn.Valid() && Blamed(rc, old(conn.at), |old(conn.asked)|))
    {
      hide Reading, AtHead, Sending, HeadPaced, Quick, Running, Phase, Buffered, Conn.Valid, Refused, Conn.Broke,
           AskMax, LetDown;
      ReadingHead();
      if |rx| >= HEADER_BUDGET || conn.taken == |conn.peer| {
        NoHead(i);
      }
      if |rx| >= HEADER_BUDGET {
        return Protocol;
      }
      hdrScan := i;
      ghost var was := rx;
      var ended;
      rc, ended := ReadHeadBytes();
      if rc.Failed() && rc != Protocol {
        LetDownIsBlamed(rc, old(conn.at), |old(conn.asked)|, |old(conn.asked)|);
      }
      if rc == Ok && ended {
        NoHead(i);
        return Io;
      }
      if rc == Ok {
        AtHeadGrows(was, rx, i);
      }
      if rc == Ok || rc.Want() {
        StillReadingHead();
      }
    }

    /** The block ends at `i + 4`: an interim one is dropped, a final one announces the body. */
    method HeadReceived(i: nat) returns (rc: Rc)
      requires Running() && state == ReadHead && AtHead(rx, i) && BlankLineAt(rx, i)
      modifies this`rx, this`hdrScan, this`hdrEnd, this`state, this`status, this`contentLength,
               this`contentType, this`retryAfter, this`scan, this`interim, this`drop, this`meta, this`tick,
               conn`asked, conn`ticks
      ensures rc == Ok ==> Running() && (interim > old(interim) || (interim == old(interim) && Rank(state) < 4))
      ensures rc == Ok ==> state != Handshake
      ensures old(conn.asked) <= conn.asked
      ensures rc == Ok || (rc == Protocol && goal == Rejected)
              || (rc == Memory && Refused(|old(conn.asked)|, AskMax(start, goal)))
    {
      hide RetryAfter.Wait, Expect, Finish, Inspect, Running, Phase, Buffered, Sending, AtHead, Announced,
           HeadPaced, BodyPaced, Conn.Valid, Refused, AskMax, QuickAt;
      ReadingHead();
      HeadFoundRoom(i);
      ghost var s := conn.peer[drop..];
      HeadFound(cfg, s, rx, i, headRequest, interim);
      hdrEnd := i + 4;
      rc := InspectHeaders();
      AskMaxIs(start, goal);
      RefusedSince(|old(conn.asked)|, |old(conn.asked)|, HEADER_BUDGET + 1, AskMax(start, goal));
      if rc != Ok {
        return rc;
      }
      if !StatusIsInterim(status) {
        BodyStarts(Inspect(cfg, rx[..hdrEnd], headRequest).framing);
        return Ok;
      }
      rc := NextBlock();
    }

    /** An interim block is dropped, unless it is one too many. */
    method NextBlock() returns (rc: Rc)
      requires resp != null && !closed && Buffered() && Sending() && state == ReadHead && interim <= MAX_INTERIM
      requires since <= conn.ticks && conn.Valid() && HeadPaced() && BodyPaced()
      requires 0 < hdrEnd <= |rx| <= HEADER_BUDGET
      requires goal == if interim + 1 > MAX_INTERIM then Rejected
                       else Shift(Shift(Expect(cfg, conn.peer[drop..][hdrEnd..], headRequest, interim + 1), hdrEnd),
                                  drop - start)
      modifies this`rx, this`hdrScan, this`hdrEnd, this`interim, this`drop
      ensures if rc == Ok then Running() && interim > old(interim) else rc == Protocol && goal == Rejected
    {
      hide Expect, Running, Buffered, Sending, Conn.Valid, HeadPaced, BodyPaced;
      if interim + 1 > MAX_INTERIM {
        interim := interim + 1;
        return Protocol;
      }
      DropInterim();
      return Ok;
    }

    lemma ReadingHead()
      requires Running() && state == ReadHead
      ensures resp != null && !closed && interim <= MAX_INTERIM && since <= conn.ticks && Buffered() && Sending()
      ensures Reading() && conn.sent == sentBase + request && drop + |rx| <= |conn.peer| && rx <= conn.peer[drop..]
      ensures |rx| <= HEADER_BUDGET && HeadPaced() && conn.Valid() && conn.taken <= |conn.peer|
      ensures AtHead(rx, hdrScan) && cfg.Sizes()
    {
      hide Expect, HeadPaced, Conn.Valid;
      assert conn.sent + [] == conn.sent;
    }

    /** The block that ends at `i + 4` found room, and in steps that suit the bound the stream ends there. */
    lemma HeadFoundRoom(i: nat)
      requires Buffered() && HeadPaced() && AtHead(rx, i) && BlankLineAt(rx, i)
      ensures BodyPaced()
    {
      hide Suits, RxMax, HeadEnd;
      if interim == 0 {
        assert rx == conn.peer[start..][..|rx|];
        FirstBlock(conn.peer[start..], rx, i);
      }
    }

    lemma BodyStarts(framing: Framing)
      requires resp != null && !closed && interim <= MAX_INTERIM && since <= conn.ticks && Buffered() && conn.Valid()
      requires conn.sent == sentBase + request && AtBody(framing) && Noted() && Announced(framing) && BodyPaced()
      ensures Running() && Rank(state) < 4
    {
      hide Finish, Noted, BodyPaced, Conn.Valid;
      ScanningStarts(cfg.maxBody, rx[hdrEnd..]);
      hide Scanning;
      assert conn.sent + [] == conn.sent;
    }

    /** Without its interim block the stream still holds the goal. */
    method DropInterim()
      requires resp != null && !closed && Buffered() && Sending() && state == ReadHead && interim < MAX_INTERIM
      requires since <= conn.ticks && conn.Valid() && HeadPaced() && BodyPaced()
      requires 0 < hdrEnd <= |rx| <= HEADER_BUDGET
      requires goal == Shift(Shift(Expect(cfg, conn.peer[drop..][hdrEnd..], headRequest, interim + 1), hdrEnd),
                             drop - start)
      modifies this`rx, this`hdrScan, this`hdrEnd, this`interim, this`drop
      ensures Running() && interim == old(interim) + 1
    {
      hide Noted, Expect, Finish, Scanning, Sending, AtBody, Conn.Valid, Quick, HeadHadRoom, RxMax, Late;
      assert conn.peer[drop..][hdrEnd..] == conn.peer[drop + hdrEnd..];
      interim := interim + 1;
      rx := rx[hdrEnd..];
      drop := drop + hdrEnd;
      hdrEnd := 0;
      hdrScan := 0;
    }

    method SmReadHead() returns (rc: Rc)
      requires Running() && state == ReadHead
      modifies this`rx, this`rxCap, this`hdrScan, this`hdrEnd, this`state, this`status, this`contentLength,
               this`contentType, this`retryAfter, this`scan, this`interim, this`drop, this`meta, this`tick,
               conn`at, conn`taken, conn`asked, conn`ticks
      ensures Stepped(rc)
    {
      hide AtHead, Phase, Buffered, Sending, Reading, HeadPaced, Conn.Valid, Delivered, Quick;
      ReadingHead();
      var i := FindBlankLine(rx, hdrScan);
      if i + 3 >= |rx| {
        rc := MoreHead(i);
      } else {
        rc := HeadReceived(i);
      }
    }

    /** Read more of a body, up to `limit` bytes held. */
    method ReadBody(limit: nat, ghost framing: Framing) returns (rc: Rc, ended: bool)
      requires Buffered() && conn.Valid() && AtBody(framing) && BodyPaced() && limit <= cfg.Bound()
      modifies this`rx, this`rxCap, conn`at, conn`taken, conn`asked
      ensures rc.Want() || (rc == Ok && !ended) ==> Pays()
      ensures conn.Valid() && Onward() && (rc == Ok || rc.Want() || rc.Failed())
      ensures rc == Ok || rc.Want() ==> Buffered() && AtBody(framing) && BodyPaced()
      ensures rc == Ok ==> |rx| <= limit && if ended then rx == old(rx) && conn.taken == |conn.peer| else old(rx) < rx
      ensures rc.Want() ==> rx == old(rx) && Waits(rc, old(conn.at))
      ensures rc.Failed() ==> rc == Protocol || LetDown(rc, old(conn.at), |old(conn.asked)|)
      ensures rc == Protocol ==>
                && ((limit <= |old(rx)| && (limit == |old(rx)| ==> old(conn.taken) < |conn.peer|)) || !cfg.Fits())
      ensures |old(rx)| > limit ==> rc == Protocol
    {
      hide AtBody, BodyPaced, RxMax, RoomAt, Buffered, Conn.Valid, Least, LetDown;
      rc, ended := ReadSome(limit);
      BodyPaceKept();
      if rc == Ok || rc.Want() {
        BodyGrows(framing);
      }
    }

    /** What is known in each of the states that read a body. */
    lemma InBody()
      requires Running() && state in {ReadBodyCl, ReadBodyEof, ReadBodyChunked}
      ensures resp != null && !closed && interim <= MAX_INTERIM && since <= conn.ticks && conn.Valid()
      ensures Buffered() && Sending() && Noted() && BodyPaced() && conn.taken <= |conn.peer|
      ensures state == ReadBodyCl ==> 0 <= contentLength <= cfg.maxBody && AtBody(Length(contentLength))
      ensures state == ReadBodyEof ==> AtBody(UntilClose)
      ensures state == ReadBodyChunked ==>
                AtBody(InChunks) && hdrEnd <= |rx| && Scanning(rx[hdrEnd..], scan) && scan.max == cfg.maxBody
      ensures cfg.Sizes() && hdrEnd <= HEADER_BUDGET && |rx| <= cfg.Bound()
    {
      hide Conn.Valid, Sending, Noted, BodyPaced, Finish, Scanning;
    }

    lemma StillInBody(framing: Framing)
      requires resp != null && !closed && interim <= MAX_INTERIM && since <= conn.ticks && conn.Valid()
      requires Buffered() && Sending() && Noted() && BodyPaced() && AtBody(framing)
      requires match framing
               case Length(n) => state == ReadBodyCl && n == contentLength <= cfg.maxBody
               case UntilClose => state == ReadBodyEof
               case InChunks => state == ReadBodyChunked && Scanning(rx[hdrEnd..], scan) && scan.max == cfg.maxBody
      ensures Running()
    {
      hide Conn.Valid, Sending, Noted, BodyPaced, Finish, Scanning;
    }

    /** Publish the response, with its body taken out of the receive buffer. */
    method SmPublish(payload: Bytes)
      requires resp != null && conn.Valid() && interim <= MAX_INTERIM && conn.sent == sentBase + request
      requires HeadHadRoom(start)
      requires goal.Published? && goal.reply == ResponseStream.Reply(status, meta, payload) && Noted()
      modifies this`state, this`rx, this`rxCap, this`contentType, resp
      ensures Delivered()
    {
      hide RetryAfter.Wait, HeadHadRoom, Conn.Valid;
      resp.status := status;
      resp.contentType, resp.retryAfter := contentType, retryAfter;
      resp.body := payload;
      if payload != [] {
        rx := [];
        rxCap := 0;
      }
      contentType := None;
      state := Done;
    }

    method SmReadBodyCl() returns (rc: Rc)
      requires Running() && state == ReadBodyCl
      modifies this`rx, this`rxCap, this`state, this`contentType, this`closed, resp,
               conn`at, conn`taken, conn`asked
      ensures Stepped(rc)
    {
      hide RetryAfter.Wait, Expect, Scanning, Finish, Reading, HeadHadRoom, Quick, Conn.Valid;
      var end := hdrEnd + contentLength;
      ghost var s := conn.peer[drop..];
      if |rx| < end {
        rc := MoreLength(end);
        return rc;
      }
      LengthBody(cfg, s, rx, hdrEnd, contentLength, status, meta);
      if |rx| > end {
        closed := true;
      }
      SmPublish(rx[hdrEnd..end]);
      return Ok;
    }

    /** The announced length is not in the whole stream. */
    lemma LengthMissing()
      requires Buffered() && 0 <= contentLength && AtBody(Length(contentLength)) && |rx| < hdrEnd + contentLength
      requires conn.taken == |conn.peer|
      ensures goal == Rejected
    {
      hide Finish;
      LengthBody(cfg, conn.peer[drop..], rx, hdrEnd, contentLength, status, meta);
    }

    /** Room for the head and the whole announced body, at once. */
    method ReserveAll(end: nat) returns (rc: Rc)
      requires Buffered() && end <= cfg.Bound()
      modifies this`rxCap, conn`asked
      ensures Buffered() && rxCap >= old(rxCap) && old(conn.asked) <= conn.asked
      ensures rc == Ok || (rc == Memory && Refused(|old(conn.asked)|, cfg.Bound()))
    {
      hide Grants, Refused;
      if rxCap < end {
        var granted := Allocate(end);
        RefusedSince(|old(conn.asked)|, |old(conn.asked)|, end, cfg.Bound());
        if !granted {
          return Memory;
        }
        rxCap := end;
      }
      return Ok;
    }

    method MoreLength(end: nat) returns (rc: Rc)
      requires Running() && state == ReadBodyCl && end == hdrEnd + contentLength && |rx| < end
      modifies this`rx, this`rxCap, conn`at, conn`taken, conn`asked
      ensures Onward()
      ensures rc == Ok || rc.Want() ==> Pays()
      ensures rc == Ok ==> Running() && |rx| > |old(rx)|
      ensures rc.Want() ==> Running()
                            && Waits(rc, old(conn.at))
      ensures rc == Ok || rc.Want() || (rc.Failed() && conn.Valid() && Blamed(rc, old(conn.at), |old(conn.asked)|))
    {
      hide Noted, AtBody, Sending, BodyPaced, QuickAt, Running, Phase, Conn.Valid, Buffered, Refused, AskMax, LetDown;
      InBody();
      if conn.taken == |conn.peer| {
        LengthMissing();
      } else {
        NotQuick();
      }
      AskMaxIs(start, goal);
      rc := ReserveAll(end);
      if rc != Ok {
        return rc;
      }
      ghost var asked := |conn.asked|;
      var ended;
      rc, ended := ReadBody(end, Length(contentLength));
      if rc.Failed() && rc != Protocol {
        LetDownIsBlamed(rc, old(conn.at), asked, |old(conn.asked)|);
      }
      if rc == Ok && ended {
        LengthMissing();
        return Io;
      }
      if rc == Ok || rc.Want() {
        StillInBody(Length(contentLength));
      }
    }

    method SmReadBodyEof() returns (rc: Rc)
      requires Running() && state == ReadBodyEof
      modifies this`rx, this`rxCap, this`state, this`contentType, this`closed, resp,
               conn`at, conn`taken, conn`asked
      ensures Stepped(rc)
      ensures hdrEnd + cfg.maxBody > cfg.wordMax ==> rc == Protocol
    {
      hide Noted, Expect, Scanning, Finish, Reading, Buffered, Sending, AtBody, HeadHadRoom, Quick, BodyPaced,
           Conn.Valid;
      var ended;
      rc, ended := MoreUntilClose();
      if rc != Ok || !ended {
        return rc;
      }
      AllReceived();
      return Ok;
    }

    method MoreUntilClose() returns (rc: Rc, ended: bool)
      requires Running() && state == ReadBodyEof
      modifies this`rx, this`rxCap, conn`at, conn`taken, conn`asked
      ensures Onward()
      ensures rc.Want() || (rc == Ok && !ended) ==> Pays()
      ensures rc == Ok ==> Running()
      ensures rc == Ok ==> if ended then conn.taken == |conn.peer| && |rx| - hdrEnd <= cfg.maxBody else |rx| > |old(rx)|
      ensures rc.Want() ==> Running()
                            && Waits(rc, old(conn.at))
      ensures rc == Ok || rc.Want() || (rc.Failed() && conn.Valid() && Blamed(rc, old(conn.at), |old(conn.asked)|))
      ensures hdrEnd + cfg.maxBody > cfg.wordMax ==> rc == Protocol
    {
      hide Noted, Sending, EofLimit, RxMax, BodyPaced, Quick, Conn.Valid, Running, Phase, Finish, Refused, AskMax,
           LetDown;
      InBody();
      LimitsAre(cfg, hdrEnd);
      if conn.taken < |conn.peer| {
        NotQuick();
      } else {
        ClosedIsNotQuick();
      }
      rc, ended := ReadBody(EofLimit(cfg, hdrEnd), UntilClose);
      if rc.Failed() && rc != Protocol {
        LetDownIsBlamed(rc, old(conn.at), |old(conn.asked)|, |old(conn.asked)|);
      }
      if |conn.peer| - drop - hdrEnd > cfg.maxBody {
        EofRejected(cfg, conn.peer[drop..], hdrEnd, status, meta);
      }
      if rc == Ok || rc.Want() {
        StillInBody(UntilClose);
      }
    }

    /** The peer closed within the cap: everything after the head is the body. */
    method AllReceived()
      requires Running() && state == ReadBodyEof && conn.taken == |conn.peer| && |rx| - hdrEnd <= cfg.maxBody
      modifies this`rx, this`rxCap, this`state, this`contentType, this`closed, resp
      ensures Delivered() && Settled()
    {
      hide RetryAfter.Wait, Expect, Scanning, HeadHadRoom, Quick, Conn.Valid;
      assert rx == conn.peer[drop..];
      SmPublish(rx[hdrEnd..]);
      closed := true;
    }

    method SmReadBodyChunked() returns (rc: Rc)
      requires Running() && state == ReadBodyChunked
      modifies this`rx, this`rxCap, this`hdrEnd, this`state, this`scan, this`contentType, this`closed, resp,
               conn`at, conn`taken, conn`asked
      ensures Stepped(rc)
    {
      hide RetryAfter.Wait, Expect, Scanning, Finish, Scan, Decode, Sending, Reading, HeadHadRoom, Quick, Conn.Valid;
      ghost var s := conn.peer[drop..];
      var framed;
      framed, scan := ChunkedComplete(rx[hdrEnd..], scan);
      if framed < 0 {
        ChunkedRejected(cfg, s, rx, hdrEnd, status, meta);
        return Protocol;
      }
      if framed == 0 {
        rc := MoreChunks();
        return rc;
      }
      rc := ChunksReceived();
    }

    method ChunksReceived() returns (rc: Rc)
      requires resp != null && !closed && state == ReadBodyChunked && interim <= MAX_INTERIM
      requires Buffered() && Sending() && AtBody(InChunks) && Noted() && conn.Valid() && HeadHadRoom(start)
      requires Scan(rx[hdrEnd..], cfg.maxBody).Complete? && Scan(rx[hdrEnd..], cfg.maxBody).end == scan.pos
      modifies this`rx, this`rxCap, this`hdrEnd, this`state, this`contentType, this`closed, resp
      ensures rc == Ok || (rc == Protocol && goal == Rejected)
      ensures rc == Ok ==> Delivered() && Settled() && interim == old(interim)
    {
      hide RetryAfter.Wait, Expect, Finish, Scan, Decode, HeadHadRoom, Conn.Valid, Noted;
      var end := hdrEnd + scan.pos;
      ChunkedDone(cfg, conn.peer[drop..], rx, hdrEnd, status, meta);
      var ok, payload := DecodeBody(end);
      if !ok {
        return Protocol;
      }
      if |rx| > end {
        closed := true;
      }
      hdrEnd := 0;
      SmPublish(payload);
      return Ok;
    }

    /** Decode `rx[hdrEnd..end]` to the front of the buffer it lies in. */
    method DecodeBody(end: nat) returns (ok: bool, payload: Bytes)
      requires hdrEnd <= end <= |rx|
      ensures Decode(rx[hdrEnd..end]) == if ok then Some(payload) else None
    {
      hide RetryAfter.Wait, Decode;
      var content := rx;
      var buf := new Byte[|content|](i requires 0 <= i < |content| => content[i]);
      assert buf[..] == content;
      assert buf[hdrEnd..hdrEnd + (end - hdrEnd)] == content[hdrEnd..end];
      var len;
      ok, len := DecodeInto(buf, 0, buf, hdrEnd, end - hdrEnd);
      payload := buf[0..len];
    }

    method MoreChunks() returns (rc: Rc)
      requires Running() && state == ReadBodyChunked && Scan(rx[hdrEnd..], cfg.maxBody).More?
      modifies this`rx, this`rxCap, conn`at, conn`taken, conn`asked
      ensures Onward()
      ensures rc == Ok || rc.Want() ==> Pays()
      ensures rc == Ok ==> Running() && |rx| > |old(rx)|
      ensures rc.Want() ==> Running()
                            && Waits(rc, old(conn.at))
      ensures rc == Ok || rc.Want() || (rc.Failed() && conn.Valid() && Blamed(rc, old(conn.at), |old(conn.asked)|))
    {
      hide Noted, Scanning, Scan, Sending, BodyPaced, Quick, RxMax, Conn.Valid, Running, Phase, AtBody, Buffered,
           Refused, AskMax, LetDown;
      InBody();
      ghost var was := rx;
      if conn.taken == |conn.peer| || |rx| == cfg.Bound() {
        ChunksMissing();
      }
      if conn.taken < |conn.peer| {
        NotQuick();
      }
      LimitsAre(cfg, 0);
      var ended;
      rc, ended := ReadBody(RxMax(cfg), InChunks);
      if rc.Failed() && rc != Protocol {
        LetDownIsBlamed(rc, old(conn.at), |old(conn.asked)|, |old(conn.asked)|);
      }
      if rc == Ok && ended {
        ChunksMissing();
        return Io;
      }
      if rc == Ok {
        ScanningExtends(was[hdrEnd..], rx[hdrEnd..], scan);
      }
      if rc == Ok || rc.Want() {
        StillInBody(InChunks);
      }
    }

    /** The chunks do not end in the whole stream, or within the bound. */
    lemma ChunksMissing()
      requires Buffered() && AtBody(InChunks) && Scan(rx[hdrEnd..], cfg.maxBody).More?
      requires conn.taken == |conn.peer| || |rx| == cfg.Bound()
      ensures goal == Rejected
    {
      hide Finish, Scan;
      ChunkedRejected(cfg, conn.peer[drop..], rx, hdrEnd, status, meta);
    }

    /** What is known until the response is read, and what is enough. */
    lemma BeforeReading()
      requires Running() && state in {Handshake, WriteHead, WriteBody}
      ensures resp != null && !closed && interim == 0 && since <= conn.ticks && conn.Valid() && Buffered() && Sending()
      ensures Reading() && HeadPaced() && rx == [] && hdrScan == 0
    {
      hide Conn.Valid, Sending, Reading, HeadPaced;
    }

    lemma StillRunning()
      requires resp != null && !closed && interim == 0 && since <= conn.ticks && conn.Valid() && Buffered() && Sending()
      requires Reading() && HeadPaced() && rx == [] && hdrScan == 0
      requires state in {Handshake, WriteHead, WriteBody, ReadHead}
      ensures Running()
    {
      hide Conn.Valid, Sending, Reading, HeadPaced;
    }

    method SmHandshake() returns (rc: Rc)
      requires Running() && state == Handshake
      modifies this`state, conn`at
      ensures Stepped(rc)
    {
      hide Buffered, Reading, HeadPaced, Quick, Conn.Valid, Delivered, Running, Phase;
      BeforeReading();
      var r := conn.Connect();
      match r
      case Connected =>
        assert head[0..] == head;
        state := WriteHead;
        StillRunning();
        return Ok;
      case ConnectWait(forRead) =>
        StillRunning();
        return WantRc(forRead);
      case ConnectError => return Tls;
    }

    method SmWriteHead() returns (rc: Rc)
      requires Running() && state == WriteHead
      modifies this`head, this`txOff, this`state, conn`at, conn`sent
      ensures Stepped(rc)
    {
      hide Buffered, Reading, HeadPaced, Quick, Conn.Valid, Delivered, Running, Phase;
      BeforeReading();
      ghost var sent, off := conn.sent, txOff;
      rc, txOff := WriteSome(head, txOff);
      SentOn(sent, head, off, txOff, body);
      if rc == Ok {
        assert head[txOff..] + body == body;
        HeadIsOut();
      }
      if rc == Ok || rc.Want() {
        StillRunning();
      }
    }

    method HeadIsOut()
      requires conn.sent + body == sentBase + request
      modifies this`head, this`txOff, this`state
      ensures Sending() && state == if |body| > 0 then WriteBody else ReadHead
    {
      assert body[0..] == body;
      head := [];
      txOff := 0;
      state := if |body| > 0 then WriteBody else ReadHead;
    }

    method SmWriteBody() returns (rc: Rc)
      requires Running() && state == WriteBody
      modifies this`txOff, this`state, conn`at, conn`sent
      ensures Stepped(rc)
    {
      hide Buffered, Reading, HeadPaced, Quick, Conn.Valid, Delivered, Running, Phase;
      BeforeReading();
      ghost var sent, off := conn.sent, txOff;
      rc, txOff := WriteSome(body, txOff);
      SentOn(sent, body, off, txOff, []);
      if rc == Ok {
        assert body[txOff..] == [];
        state := ReadHead;
      }
      if rc == Ok || rc.Want() {
        StillRunning();
      }
    }

    /** One turn of the loop in `SmRun`. */
    method SmStep() returns (rc: Rc)
      requires Running()
      modifies this`head, this`txOff, this`rx, this`rxCap, this`hdrScan, this`hdrEnd, this`state, this`status,
               this`contentLength, this`contentType, this`retryAfter, this`scan, this`interim, this`closed, this`drop,
               this`meta, this`tick, resp, conn`at, conn`taken, conn`sent, conn`asked, conn`ticks
      ensures Stepped(rc)
    {
      hide Noted, Expect, Finish, Scanning, AtHead, Buffered, Sending, Reading, AtBody, HeadPaced, BodyPaced, Quick,
           Conn.Valid;
      match state
      case Handshake => rc := SmHandshake();
      case WriteHead => rc := SmWriteHead();
      case WriteBody => rc := SmWriteBody();
      case ReadHead => rc := SmReadHead();
      case ReadBodyCl => rc := SmReadBodyCl();
      case ReadBodyEof => rc := SmReadBodyEof();
      case ReadBodyChunked => rc := SmReadBodyChunked();
    }

    method Clear()
      modifies this`head, this`rx, this`rxCap, this`hdrEnd, this`hdrScan
      ensures rx == [] && rxCap == hdrScan == 0
    {
      hide *;
      head := [];
      rx, rxCap, hdrEnd, hdrScan := [], 0, 0, 0;
    }

    /** The response is out: forget the request and log the exchange. */
    method SmDone()
      requires Delivered() && Settled() && Held() && cfg.Sizes() && InStep(cfg, conn.peer, log) && AllHadRoom()
      modifies this`head, this`rx, this`rxCap, this`hdrEnd, this`hdrScan, this`resp, this`state, this`log
      ensures Valid() && resp == null && conn.sent == AllSent(log)
      ensures goal.Published? && old(resp).Shown() == Publish(goal.reply, conn.clock(tick))
      ensures RetryAfter.NeedsClock(goal.reply.meta.retryAfter) ==> since <= tick < conn.ticks
      ensures log == old(log) + [Exchange(request, headRequest, start, goal.reply, goal.used, tick)]
      ensures End(log) <= conn.taken && (closed <==> End(log) < conn.taken || !goal.reusable)
    {
      hide RetryAfter.Wait, Expect, InStep, AllSent, Running, Sending, Buffered, Reading, AtBody, Phase, HeadHadRoom,
           Conn.Valid;
      Clear();
      ghost var x := Exchange(request, headRequest, start, goal.reply, goal.used, tick);
      Logged(cfg, conn.peer, log, x);
      log := log + [x];
      resp := null;
      state := Idle;
    }

    /** Forget the request. */
    method SmReset()
      modifies this
      ensures resp == null && closed == old(closed) && log == old(log)
    {
      hide *;
      head, body, txOff := [], [], 0;
      rx, rxCap, hdrEnd, hdrScan := [], 0, 0, 0;
      contentLength, contentType, retryAfter, status := -1, None, 0, 0;
      resp := null;
      headRequest, interim, scan := false, 0, FreshScan(0);
    }

    method SmFail()
      requires cfg.Sizes() && conn.Valid() && InStep(cfg, conn.peer, log) && AllHadRoom()
      modifies this
      ensures Valid() && closed && resp == null && log == old(log)
    {
      hide RetryAfter.Wait, InStep, Running, Quiet, Held, AllHadRoom, Conn.Valid;
      closed := true;
      SmReset();
    }

    /**
     * A request failed, after `from` transport calls and `asked` allocations, and the session is closed: the stream
     * holds no response to it, the transport failed, it asked a blocking call to wait, an allocation was refused, or
     * the bound wraps.
     */
    ghost predicate Failure(rc: Rc, cause: Cause, isHead: bool, nb: bool, from: nat, asked: nat)
      reads this`closed, this`resp, this`log, conn`at, conn`asked
    {
      && closed && resp == null && End(log) <= |conn.peer|
      && var goal := Expect(cfg, conn.peer[End(log)..], isHead, 0);
         match cause
         case TransportFailed => (rc == Io || rc == Tls) && conn.Broke(from)
         case OutOfMemory => rc == Memory && Refused(asked, AskMax(End(log), goal))
         case WaitOnBlockingCall => rc == Io && !nb && (conn.Waits(from, true) || conn.Waits(from, false))
         case StreamRejected => (rc == Io || rc == Protocol) && goal == Rejected
         case BoundWraps => rc == Protocol && !cfg.Fits() && !QuickAt(End(log), goal)
         case NoFailure => false
    }

    /** A call for `req` ended without a reply: the session was closed, its head could not be built, or it failed. */
    ghost predicate Unanswered(rc: Rc, cause: Cause, req: Request, nb: bool, wasClosed: bool, from: nat, asked: nat)
      reads this`closed, this`resp, this`log, conn`at, conn`asked
    {
      if wasClosed then rc == ConnClosed
      else if req.head.NotMade? then rc == NotBuilt(req.head.code)
      else rc.Failed() && Failure(rc, cause, req.isHead, nb, from, asked)
    }

    lemma FailureSince(rc: Rc, cause: Cause, isHead: bool, at: nat, asked: nat, from: nat, fromAsked: nat)
      requires from <= at && fromAsked <= asked && Failure(rc, cause, isHead, true, at, asked)
      ensures Failure(rc, cause, isHead, true, from, fromAsked)
    {
      hide Expect, QuickAt, Refused, AskMax;
      var most := AskMax(End(log), Expect(cfg, conn.peer[End(log)..], isHead, 0));
      RefusedSince(fromAsked, asked, most, most);
    }

    /** Close the session for a step that failed. */
    method GiveUp(rc: Rc, ghost at: nat, ghost asked: nat) returns (ghost cause: Cause)
      requires cfg.Sizes() && conn.Valid() && InStep(cfg, conn.peer, log) && AllHadRoom() && Held()
      requires rc.Failed() && Blamed(rc, at, asked)
      modifies this
      ensures Valid() && log == old(log) && Failure(rc, cause, old(headRequest), true, at, asked)
    {
      hide Expect, InStep, AllHadRoom, Conn.Valid, Conn.Broke, Refused, Running, Quiet, AskMax, QuickAt;
      cause := if rc == Memory then OutOfMemory
               else if rc == Protocol then (if goal == Rejected then StreamRejected else BoundWraps)
               else if conn.Broke(at) then TransportFailed else StreamRejected;
      SmFail();
    }

    /** One turn of the loop, and the end of the session if it failed. */
    method SmTurn() returns (rc: Rc, ghost cause: Cause)
      requires Running() && Held() && Paid() && cfg.Sizes() && InStep(cfg, conn.peer, log) && AllHadRoom()
      modifies this, conn`at, conn`taken, conn`sent, conn`asked, conn`ticks, resp
      ensures Onward() && (rc == Ok || rc.Want() || rc.Failed())
      ensures rc == Ok ==>
                && Progress() && interim <= MAX_INTERIM
                && if state == Done then Delivered() && Settled() else Running() && Paid()
      ensures rc.Want() ==> Running() && Paid() && Waits(rc, old(conn.at))
      ensures !rc.Failed() ==>
                && unchanged(this`resp, this`log, this`start, this`goal, this`since, this`spent, this`request,
                             this`headRequest, this`sentBase)
      ensures rc.Failed() ==>
                && Valid() && log == old(log)
                && Failure(rc, cause, old(headRequest), true, old(conn.at), |old(conn.asked)|)
    {
      hide Phase, Buffered, Sending, Delivered, InStep, Conn.Valid, AllHadRoom, Refused, Settled, Paid, Pays, Failure,
           Conn.Waits, Quick, AskMax;
      cause := NoFailure;
      rc := SmStep();
      if rc.Want() || (rc == Ok && state != Done) {
        PaidOn();
      }
      if rc.Failed() {
        cause := GiveUp(rc, old(conn.at), |old(conn.asked)|);
      }
    }

    /** Run the held request until it completes, fails or waits. */
    method SmRun() returns (rc: Rc, ghost cause: Cause)
      requires Valid() && resp != null
      modifies this, conn`at, conn`taken, conn`sent, conn`asked, conn`ticks, resp
      ensures Valid() && Onward()
      ensures rc == Ok ==> resp == null && goal == old(goal) && goal.Published? && conn.sent == AllSent(log)
                           && old(resp).Shown() == Publish(goal.reply, conn.clock(tick))
                           && (RetryAfter.NeedsClock(goal.reply.meta.retryAfter) ==> old(since) <= tick < conn.ticks)
                           && End(log) <= conn.taken && (closed <==> End(log) < conn.taken || !goal.reusable)
                           && log == old(log) + [Exchange(old(request), old(headRequest), old(start), goal.reply,
                                                          goal.used, tick)]
      ensures rc.Want() ==> resp == old(resp) && log == old(log) && !closed && request == old(request)
                            && headRequest == old(headRequest) && since == old(since) && spent == old(spent)
                            && Waits(rc, old(conn.at))
      ensures rc == Ok || rc.Want() || rc.Failed()
      ensures rc.Failed() ==>
                && log == old(log)
                && Failure(rc, cause, old(headRequest), true, old(conn.at), |old(conn.asked)|)
    {
      hide Noted, Publish, Expect, Scanning, Buffered, Sending, Phase, Delivered, InStep, Quiet, AllSent, HeadPaced,
           BodyPaced, QuickAt, Conn.Valid, AllHadRoom, Refused, Settled, Paid, Pays,
           Conn.Moves, Failure, AskMax;
      cause := NoFailure;
      ghost var r := resp;
      while state != Done
        invariant resp == r && cfg.Sizes() && InStep(cfg, conn.peer, log) && AllHadRoom()
        invariant if state == Done then Delivered() && Settled() else Running()
        invariant Held() && start == old(start) && goal == old(goal) && since == old(since)
        invariant spent == old(spent) && (state != Done ==> Paid())
        invariant log == old(log) && request == old(request) && headRequest == old(headRequest)
        invariant Onward()
        invariant interim <= MAX_INTERIM
        decreases MAX_INTERIM - interim, Rank(state), if |rx| <= cfg.Bound() then cfg.Bound() - |rx| else 0
      {
        ghost var at, asked := conn.at, |conn.asked|;
        rc, cause := SmTurn();
        if rc.Failed() {
          FailureSince(rc, cause, old(headRequest), at, asked, old(conn.at), |old(conn.asked)|);
        }
        if rc != Ok {
          return rc, cause;
        }
      }
      SmDone();
      return Ok, NoFailure;
    }

    method Hold(block: Bytes, req: Request, r: Response)
      modifies this`head, this`body, this`txOff, this`resp, this`headRequest, this`interim, this`state
      ensures head == block && body == req.body && txOff == 0 && resp == r && headRequest == req.isHead && interim == 0
      ensures state == if old(state) == Handshake then Handshake else WriteHead
    {
      hide *;
      head, body, txOff := block, req.body, 0;
      resp := r;
      headRequest, interim := req.isHead, 0;
      if state != Handshake {
        state := WriteHead;
      }
    }

    /** Note where the response to a request starts, and what the stream holds for it. */
    ghost method Aim(block: Bytes, req: Request)
      requires conn.taken <= |conn.peer|
      modifies this`request, this`sentBase, this`start, this`drop, this`goal, this`since, this`spent
      ensures spent == conn.Moves(conn.at)
      ensures since == conn.ticks && request == block + req.body && sentBase == conn.sent && start == drop == conn.taken
      ensures goal == Expect(cfg, conn.peer[conn.taken..], req.isHead, 0)
    {
      hide *;
      request, sentBase := block + req.body, conn.sent;
      start, drop, since, spent := conn.taken, conn.taken, conn.ticks, conn.Moves(conn.at);
      goal := Expect(cfg, conn.peer[conn.taken..], req.isHead, 0);
    }

    /** Take a new request: hold its header block, its body and the caller's response. */
    method SmBegin(req: Request, r: Response) returns (rc: Rc)
      requires Valid() && !closed && resp == null
      modifies this, r
      ensures Valid() && !closed && log == old(log)
      ensures rc == if req.head.Made? then Ok else NotBuilt(req.head.code)
      ensures rc == Ok ==> resp == r && request == req.head.value + req.body && headRequest == req.isHead
                           && since == conn.ticks && spent == conn.Moves(conn.at)
      ensures rc != Ok ==> resp == null && r.Shown() == Answer(0, None, 0, [])
    {
      hide RetryAfter.Wait, Expect, InStep, AllSent, Scanning, AtHead, Finish, Suits, HeadEnd, AllHadRoom;
      r.status, r.contentType, r.retryAfter, r.body := 0, None, 0, [];
      if req.head.NotMade? {
        return NotBuilt(req.head.code);
      }
      Hold(req.head.value, req, r);
      Aim(req.head.value, req);
      assert head[0..] == head && conn.peer[drop..conn.taken] == [];
      ShiftNone(goal);
      return Ok;
    }

    /**
     * Send `req`, or continue the request in flight when `r` is the response it
     * writes to. A blocking call that is asked to wait fails.
     */
    method Call(req: Request, r: Response, nb: bool) returns (rc: Rc, ghost cause: Cause)
      requires Valid()
      modifies this, conn`at, conn`taken, conn`sent, conn`asked, conn`ticks, r
      ensures Valid() && Onward()
      ensures rc == Ok || rc.Want() || rc.Failed() || rc == ConnClosed || rc == BadArg || rc.NotBuilt?
      ensures rc == ConnClosed <==> old(closed)
      ensures rc == ConnClosed ==> resp == null
      ensures rc == BadArg <==> !old(closed) && old(resp) != null && (!nb || r != old(resp))
      ensures rc.NotBuilt? <==> !old(closed) && old(resp) == null && req.head.NotMade?
      ensures rc.NotBuilt? ==> rc.code == req.head.code
      ensures rc == ConnClosed || rc == BadArg ==> unchanged(this) && unchanged(conn) && unchanged(r)
      ensures rc.NotBuilt? ==>
                && log == old(log) && !closed && resp == null && unchanged(conn) && r.Shown() == Answer(0, None, 0, [])
      ensures rc == Ok ==>
                && resp == null && log != [] && log[..|log| - 1] == old(log) && conn.sent == AllSent(log)
                && var x := log[|log| - 1];
                && r.Shown() == Answered(x) && r.status == x.reply.status && r.body == x.reply.body
                && r.contentType == x.reply.meta.contentType
                && (RetryAfter.NeedsClock(x.reply.meta.retryAfter) ==>
                      (if old(resp) == null then old(conn.ticks) else old(since)) <= x.tick < conn.ticks)
                && End(log) <= conn.taken
                && (closed <==> End(log) < conn.taken || !Expect(cfg, conn.peer[x.start..], x.isHead, 0).reusable)
                && (old(resp) == null ==> Carried(log[|log| - 1], req))
                && (old(resp) != null ==>
                      log[|log| - 1].isHead == old(headRequest) && log[|log| - 1].request == old(request))
      ensures rc.Want() ==>
                && nb && resp == r && log == old(log) && !closed
                && (if old(resp) == null then
                      && headRequest == req.isHead && req.head.Made? && request == req.head.value + req.body
                      && since == old(conn.ticks) && spent == old(conn.Moves(conn.at))
                    else
                      && headRequest == old(headRequest) && request == old(request)
                      && since == old(since) && spent == old(spent))
                && Waits(rc, old(conn.at))
      ensures rc.Failed() ==>
                && closed && resp == null && log == old(log)
                && var isHead := if old(resp) == null then req.isHead else old(headRequest);
                Failure(rc, cause, isHead, nb, old(conn.at), |old(conn.asked)|)
    {
      hide RetryAfter.Wait, Expect, InStep, AllSent, Running, Quiet, AllHadRoom, Conn.Valid, QuickAt, Refused,
           AskMax, Failure, Paid;
      cause := NoFailure;
      if closed {
        return ConnClosed, cause;
      }
      if resp != null && (!nb || r != resp) {
        return BadArg, cause;
      }
      if resp == null {
        rc := SmBegin(req, r);
        if rc != Ok {
          return rc, cause;
        }
      }
      ghost var isHead := headRequest;
      rc, cause := SmRun();
      if rc.Failed() {
        FailureOfBlocking(rc, cause, isHead, nb, old(conn.at), |old(conn.asked)|);
      }
      if !nb && rc.Want() {
        cause := FailWaiting(rc, old(conn.at), |old(conn.asked)|);
        return Io, cause;
      }
    }

    lemma FailureOfBlocking(rc: Rc, cause: Cause, isHead: bool, nb: bool, from: nat, asked: nat)
      requires Failure(rc, cause, isHead, true, from, asked)
      ensures Failure(rc, cause, isHead, nb, from, asked) && closed && resp == null
    {
      hide Expect, QuickAt, Refused, AskMax;
    }

    /** A blocking call is not to be told to wait. */
    method FailWaiting(rc: Rc, ghost from: nat, ghost asked: nat) returns (ghost cause: Cause)
      requires Valid() && resp != null && rc.Want() && Waits(rc, from)
      modifies this
      ensures Valid() && log == old(log) && closed && resp == null
      ensures Failure(Io, cause, old(headRequest), false, from, asked)
    {
      hide Expect, InStep, AllSent, Running, Quiet, AllHadRoom, Conn.Valid, QuickAt, Refused, AskMax, Paid, Conn.Waits;
      cause := WaitOnBlockingCall;
      SmFail();
    }
  }
}
