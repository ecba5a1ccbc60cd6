/** What holds over whole runs of a session, whatever the transport's schedule. */
module HttpRuns {
  import opened Bytes
  import opened ResponseStream
  import opened HttpSession
  import opened Transport
  import opened CivilDate
  import R = RetryAfter
  import G = ResponseGrammar

  predicate SameRequests(a: seq<Exchange>, b: seq<Exchange>) {
    |a| == |b| && forall i | 0 <= i < |a| :: a[i].isHead == b[i].isHead
  }

  predicate SameReplies(a: seq<Exchange>, b: seq<Exchange>) {
    && |a| == |b|
    && forall i | 0 <= i < |a| :: a[i].reply == b[i].reply && a[i].start == b[i].start && a[i].used == b[i].used
  }

  /**
   * The k-th reply is a function of the stream and of which requests were HEAD:
   * two runs over the same stream, however it was cut up, log the same replies
   * at the same places. What their callers saw may differ in the wait alone.
   */
  lemma {:induction false} RepliesDependOnStream(cfg: Config, peer: Bytes, a: seq<Exchange>, b: seq<Exchange>)
    requires InStep(cfg, peer, a) && InStep(cfg, peer, b) && SameRequests(a, b)
    ensures SameReplies(a, b) && End(a) == End(b)
    decreases |a|
  {
    hide Expect;
    if a != [] {
      RepliesDependOnStream(cfg, peer, a[..|a| - 1], b[..|b| - 1]);
      var x, y := a[|a| - 1], b[|b| - 1];
      assert x.start == y.start && x.isHead == y.isHead;
      forall i | 0 <= i < |a|
        ensures a[i].reply == b[i].reply && a[i].start == b[i].start && a[i].used == b[i].used
      {
        if i < |a| - 1 { assert a[i] == a[..|a| - 1][i] && b[i] == b[..|b| - 1][i]; }
      }
    }
  }

  /**
   * Replies lie one after the other, each over the bytes that are its response:
   * none skips, repeats or shares a byte of the stream.
   */
  lemma {:induction false} RepliesTileStream(cfg: Config, peer: Bytes, log: seq<Exchange>, k: nat)
    requires cfg.maxBody > 0 && InStep(cfg, peer, log) && k < |log|
    ensures log[k].start == End(log[..k]) && log[k].start + log[k].used <= |peer|
    ensures End(log[..k]) < End(log[..k + 1])
    ensures |log[k].reply.body| <= cfg.maxBody
    decreases |log|
  {
    hide Expect;
    var init := log[..|log| - 1];
    if k < |log| - 1 {
      RepliesTileStream(cfg, peer, init, k);
      assert init[..k] == log[..k] && init[..k + 1] == log[..k + 1];
    } else {
      assert log[..k] == init && log[..k + 1] == log;
      PublishedBounds(cfg, peer[log[k].start..], log[k].isHead, 0);
    }
  }

  /** Every reply of a run is what a response text on the stream says, over exactly the bytes of that text. */
  lemma {:induction false} RepliesAreTexts(cfg: Config, peer: Bytes, log: seq<Exchange>, k: nat) returns (t: G.Text)
    requires cfg.maxBody > 0 && InStep(cfg, peer, log) && k < |log|
    ensures log[k].start <= |peer|
    ensures G.Says(cfg, log[k].isHead, t, 0) && G.Carries(peer[log[k].start..], t)
    ensures log[k].reply == G.ReplyOf(cfg, t) && log[k].used == |G.Wire(t)|
    decreases |log|
  {
    hide Expect, G.Says, G.Carries, G.ReplyOf, G.Wire;
    var init := log[..|log| - 1];
    if k < |log| - 1 {
      t := RepliesAreTexts(cfg, peer, init, k);
    } else {
      var s := peer[log[k].start..];
      t := G.PublishedIsText(cfg, s, log[k].isHead, 0);
      G.TextIsPublished(cfg, s, log[k].isHead, 0, t);
    }
  }

  lemma LastInStep(s: Session)
    requires s.Valid() && s.log != []
    ensures var init, x := s.log[..|s.log| - 1], s.log[|s.log| - 1];
            && x.start == End(init) <= |s.conn.peer|
            && Expect(s.cfg, s.conn.peer[x.start..], x.isHead, 0).Published?
            && Expect(s.cfg, s.conn.peer[x.start..], x.isHead, 0).reply == x.reply
            && AllSent(s.log) == AllSent(init) + x.request
  {
    hide Expect;
  }

  lemma IdleIsInStep(s: Session)
    requires s.Valid() && !s.closed && s.resp == null
    ensures s.conn.taken == End(s.log) <= |s.conn.peer|
  {
    hide InStep;
  }

  lemma WithinPlan(s: Session)
    requires s.Valid()
    ensures s.conn.at <= |s.conn.plan|
  {
    hide InStep;
  }

  /** The rest of the plan moves more often than there are bytes to send and to receive. */
  ghost predicate Ample(conn: Conn, req: Request)
    requires req.head.Made?
    reads conn`at, conn`taken
  {
    conn.Moves(|conn.plan|) > conn.Moves(conn.at) + |req.head.value + req.body| + (|conn.peer| - conn.taken) + 1
  }

  /** A request that waits has used up no more of the plan than it has bytes. */
  lemma WaitingIsPaid(s: Session)
    requires s.Valid() && s.resp != null
    ensures End(s.log) <= |s.conn.peer|
    ensures s.conn.Moves(s.conn.at) <= s.spent + |s.request| + (|s.conn.peer| - End(s.log)) + 1
  {
    hide InStep, Expect, Session.Phase, Session.AllHadRoom, Conn.Moves;
    assert |s.conn.sent + s.Unsent()| == |s.sentBase + s.request|;
  }

  /** Carry one request to its end by resuming it until it no longer waits. */
  method Drive(s: Session, req: Request, r: Response) returns (rc: Rc, ghost cause: Cause)
    requires s.Valid() && !s.closed && s.resp == null && req.head.Made?
    modifies s, s.conn, r
    ensures s.Valid()
    ensures rc == Ok || rc.Want() || rc.Failed()
    ensures rc.Want() ==> s.conn.at == |s.conn.plan| && !old(Ample(s.conn, req))
    ensures rc == Ok ==>
              End(old(s.log)) <= |s.conn.peer| && s.conn.sent == AllSent(old(s.log)) + (req.head.value + req.body)
    ensures rc == Ok ==> s.log != [] && s.log[..|s.log| - 1] == old(s.log)
    ensures rc == Ok ==> var o, x := Expect(s.cfg, s.conn.peer[End(old(s.log))..], req.isHead, 0), s.log[|s.log| - 1];
                         && o.Published? && o.reply == x.reply && r.Shown() == s.Answered(x)
                         && (R.NeedsClock(x.reply.meta.retryAfter) ==> old(s.conn.ticks) <= x.tick < s.conn.ticks)
    ensures rc.Failed() ==>
              s.log == old(s.log) && s.Failure(rc, cause, req.isHead, true, old(s.conn.at), |old(s.conn.asked)|)
    ensures old(s.conn.at) <= s.conn.at && old(s.conn.asked) <= s.conn.asked
  {
    hide Expect, Publish, AllSent, Session.Valid, Session.Failure, Conn.Moves;
    ghost var log := s.log;
    IdleIsInStep(s);
    rc, cause := s.Call(req, r, true);
    WithinPlan(s);
    while rc.Want() && s.conn.at < |s.conn.plan|
      invariant s.Valid() && (rc == Ok || rc.Want() || rc.Failed())
      invariant rc.Want() ==> !s.closed && s.resp == r && s.log == log && s.headRequest == req.isHead
                              && s.request == req.head.value + req.body && s.since == old(s.conn.ticks)
                              && s.spent == s.conn.Moves(old(s.conn.at))
      invariant rc == Ok ==> s.log != [] && s.log[..|s.log| - 1] == log && s.log[|s.log| - 1].isHead == req.isHead
                             && r.Shown() == s.Answered(s.log[|s.log| - 1]) && s.conn.sent == AllSent(s.log)
                             && (R.NeedsClock(s.log[|s.log| - 1].reply.meta.retryAfter) ==>
                                   old(s.conn.ticks) <= s.log[|s.log| - 1].tick < s.conn.ticks)
                             && s.log[|s.log| - 1].request == req.head.value + req.body
      invariant rc.Failed() ==>
                  s.log == log && s.Failure(rc, cause, req.isHead, true, old(s.conn.at), |old(s.conn.asked)|)
      invariant old(s.conn.at) <= s.conn.at <= |s.conn.plan| && old(s.conn.asked) <= s.conn.asked
      decreases if rc.Want() then 1 else 0, |s.conn.plan| - s.conn.at
    {
      ghost var at, asked := s.conn.at, |s.conn.asked|;
      rc, cause := s.Call(req, r, true);
      WithinPlan(s);
      if rc.Failed() {
        s.FailureSince(rc, cause, req.isHead, at, asked, old(s.conn.at), |old(s.conn.asked)|);
      }
    }
    if rc == Ok {
      LastInStep(s);
    } else if rc.Want() {
      WaitingIsPaid(s);
    }
  }

  /** The transport did not fail, and every allocation asked for was granted. */
  ghost predicate Served(s: Session, from: nat, asked: nat)
    reads s.conn
  {
    !s.conn.Broke(from) && !s.Refused(asked, s.cfg.Bound())
  }

  /** A served request that fails with a cap that fits found no response on the stream. */
  lemma Unserved(s: Session, rc: Rc, cause: Cause, isHead: bool, from: nat, asked: nat)
    requires s.Valid()
    ensures rc.Failed() && s.Failure(rc, cause, isHead, true, from, asked) && s.cfg.Fits() && Served(s, from, asked) ==>
              End(s.log) <= |s.conn.peer| && Expect(s.cfg, s.conn.peer[End(s.log)..], isHead, 0) == Rejected
  {
    hide Expect, InStep, Session.Refused, Session.AskMax, Conn.Broke, Session.Running, Session.QuickAt;
    if End(s.log) <= |s.conn.peer| {
      var goal := Expect(s.cfg, s.conn.peer[End(s.log)..], isHead, 0);
      s.AskMaxIs(End(s.log), goal);
      s.RefusedSince(asked, asked, s.AskMax(End(s.log), goal), s.cfg.Bound());
    }
  }

  /** The same reply, seen by two readings of the clock. */
  ghost predicate SameReply(one: Answer, other: Answer, reply: Reply, now1: int, now2: int) {
    one == Publish(reply, now1) && other == Publish(reply, now2)
  }

  /**
   * Segmentation independence: the same request over the same stream under two
   * schedules, each with its own clock and allocator. With a body cap that leaves
   * room for the header budget, if both schedules are long enough and neither run
   * was refused memory or had its transport fail, both publish the same reply or
   * both fail. Its
   * Retry-After comes to what each run's clock said while it read the head.
   */
  method TwoSchedules(s1: Session, s2: Session, req: Request, r1: Response, r2: Response)
    returns (rc1: Rc, rc2: Rc, ghost reply: Reply, ghost tick1: nat, ghost tick2: nat)
    requires s1.Valid() && !s1.closed && s1.resp == null && s2.Valid() && !s2.closed && s2.resp == null
    requires s1 != s2 && s1.conn != s2.conn && r1 != r2 && req.head.Made?
    requires s1.cfg == s2.cfg && s1.conn.peer == s2.conn.peer && SameRequests(s1.log, s2.log)
    modifies s1, s2, s1.conn, s2.conn, r1, r2
    ensures s1.Valid() && s2.Valid()
    ensures s1.cfg.Fits() && old(Ample(s1.conn, req)) && Served(s1, old(s1.conn.at), |old(s1.conn.asked)|)
            && old(Ample(s2.conn, req)) && Served(s2, old(s2.conn.at), |old(s2.conn.asked)|) ==>
              (rc1 == Ok && rc2 == Ok) || (rc1.Failed() && rc2.Failed())
    ensures rc1 == Ok && rc2 == Ok ==>
              && SameReply(r1.Shown(), r2.Shown(), reply, s1.conn.clock(tick1), s2.conn.clock(tick2))
              && (R.NeedsClock(reply.meta.retryAfter) ==>
                    && old(s1.conn.ticks) <= tick1 < s1.conn.ticks
                    && old(s2.conn.ticks) <= tick2 < s2.conn.ticks)
  {
    hide Expect, Publish, AllSent, Session.QuickAt, Session.Running, Session.Quiet, Session.AllHadRoom,
         Session.Refused, Conn.Broke, Conn.Moves, Ample, Served, Session.Failure;
    RepliesDependOnStream(s1.cfg, s1.conn.peer, s1.log, s2.log);
    reply, tick1, tick2 := Reply(0, Meta(None, None), []), 0, 0;
    ghost var c1, c2;
    rc1, c1 := Drive(s1, req, r1);
    rc2, c2 := Drive(s2, req, r2);
    Unserved(s1, rc1, c1, req.isHead, old(s1.conn.at), |old(s1.conn.asked)|);
    Unserved(s2, rc2, c2, req.isHead, old(s2.conn.at), |old(s2.conn.asked)|);
    if rc1 == Ok && rc2 == Ok {
      reply, tick1, tick2 := s1.log[|s1.log| - 1].reply, s1.log[|s1.log| - 1].tick, s2.log[|s2.log| - 1].tick;
    }
  }

  /** One reply is seen alike under all clocks exactly when its Retry-After text does not depend on one. */
  lemma SeenAlikeIff(reply: Reply)
    ensures (forall a: int, b: int :: Publish(reply, a) == Publish(reply, b)) <==>
            reply.meta.retryAfter.None? || R.ClockFree(reply.meta.retryAfter.value)
  {
    hide R.Wait, R.ClockFree;
    R.WaitsAgreeIff(reply.meta.retryAfter);
    if forall a: int, b: int :: Publish(reply, a) == Publish(reply, b) {
      forall a: int, b: int
        ensures R.Wait(reply.meta.retryAfter, a) == R.Wait(reply.meta.retryAfter, b)
      {
        assert Publish(reply, a) == Publish(reply, b);
      }
    }
  }

  /** All but the wait is always seen alike. */
  lemma SeenButTheWait(reply: Reply, now1: int, now2: int)
    ensures Publish(reply, now2) == Publish(reply, now1).(retryAfter := R.Wait(reply.meta.retryAfter, now2))
  {}

  /**
   * One stream, one request, and clocks a second apart: a reply that names a date
   * a minute ahead asks one caller to wait 60 seconds and the other 59.
   */
  method DatedReplyDiffers(s1: Session, s2: Session, req: Request, r1: Response, r2: Response)
    returns (rc1: Rc, rc2: Rc, ghost reply: Reply)
    requires s1.Valid() && !s1.closed && s1.resp == null && s2.Valid() && !s2.closed && s2.resp == null
    requires s1 != s2 && s1.conn != s2.conn && r1 != r2 && req.head.Made?
    requires s1.cfg == s2.cfg && s1.conn.peer == s2.conn.peer && SameRequests(s1.log, s2.log)
    requires forall k: nat :: s1.conn.clock(k) == CLOCK_FLOOR && s2.conn.clock(k) == CLOCK_FLOOR + 1
    modifies s1, s2, s1.conn, s2.conn, r1, r2
    ensures R.Dated().Valid()
    ensures rc1 == Ok && rc2 == Ok && reply.meta.retryAfter == Some(R.Dated().Wire()) ==>
              && r1.retryAfter == 60 && r2.retryAfter == 59
              && r1.status == r2.status && r1.contentType == r2.contentType && r1.body == r2.body
  {
    hide Expect, R.Wait;
    ghost var tick1, tick2;
    R.DatedWaits();
    rc1, rc2, reply, tick1, tick2 := TwoSchedules(s1, s2, req, r1, r2);
  }

  /** What a session holds is bounded in every state it can be in. */
  lemma MemoryIsBounded(s: Session)
    requires s.Valid()
    ensures s.resp != null || !s.closed ==> |s.rx| <= s.cfg.maxBody + HEADER_BUDGET
    ensures s.resp != null ==> |s.rx| <= s.rxCap <= s.cfg.maxBody + HEADER_BUDGET && s.rxCap <= s.cfg.wordMax / 2
    ensures s.resp != null ==> s.interim <= MAX_INTERIM
    ensures s.resp != null && (s.state.ReadBodyCl? || s.state.ReadBodyEof? || s.state.ReadBodyChunked?) ==>
              s.hdrEnd <= HEADER_BUDGET && s.hdrEnd <= |s.rx|
  {}
}
