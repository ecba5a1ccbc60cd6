/** Which body caps leave the session's limits intact: sizes wrap, and nothing checks the cap. */
module HttpLimits {
  import opened Bytes
  import opened ResponseStream
  import opened HttpSession
  import opened HttpRuns
  import opened Transport

  /** How many bytes one read of a header block asks for. */
  function Room(len: nat): nat
    requires len < HEADER_BUDGET
  {
    RoomAt(len, HEADER_BUDGET)
  }

  /** Reads that deliver a header block piece by piece, after `len` bytes of it. */
  predicate Schedule(len: nat, pieces: seq<nat>)
    decreases |pieces|
  {
    pieces == [] || (len < HEADER_BUDGET && 1 <= pieces[0] <= Room(len) && Schedule(len + pieces[0], pieces[1..]))
  }

  /** Every read of the schedule finds room, as far as the bound goes: `Session.Reserve` refuses none of them. */
  predicate Roomy(cfg: Config, len: nat, cap: nat, pieces: seq<nat>)
    requires Schedule(len, pieces)
    decreases |pieces|
  {
    pieces == [] ||
    (var want := len + Room(len);
     && (want <= cap || want <= RxMax(cfg))
     && Roomy(cfg, len + pieces[0], if want <= cap then cap else NextCap(cfg, cap, want), pieces[1..]))
  }

  lemma {:induction false} FitIsRoomy(cfg: Config, len: nat, cap: nat, pieces: seq<nat>)
    requires cfg.Sizes() && cfg.Fits() && Schedule(len, pieces)
    ensures Roomy(cfg, len, cap, pieces)
    decreases |pieces|
  {
    hide NextCap, RxMax;
    LimitsAre(cfg, 0);
    if pieces != [] {
      var want := len + Room(len);
      FitIsRoomy(cfg, len + pieces[0], if want <= cap then cap else NextCap(cfg, cap, want), pieces[1..]);
    }
  }

  /** One byte at a time. */
  function Ones(k: nat): (s: seq<nat>)
    ensures |s| == k
  {
    if k == 0 then [] else [1] + Ones(k - 1)
  }

  lemma {:induction false} OnesSchedule(len: nat, k: nat)
    requires len + k <= HEADER_BUDGET
    ensures Schedule(len, Ones(k))
    decreases k
  {
    if k > 0 {
      OnesSchedule(len + 1, k - 1);
      assert Ones(k)[1..] == Ones(k - 1);
    }
  }

  /** Byte by byte, a read comes to ask for one byte more than a bound below the budget allows. */
  lemma {:induction false} OnesFail(cfg: Config, len: nat, cap: nat, k: nat, n: nat)
    requires cap <= RxMax(cfg) < HEADER_BUDGET && k < n && len + n <= HEADER_BUDGET
    requires len + k + Room(len + k) > RxMax(cfg)
    ensures Schedule(len, Ones(n)) && !Roomy(cfg, len, cap, Ones(n))
    decreases k
  {
    hide NextCap, RxMax;
    OnesSchedule(len, n);
    if k > 0 {
      var want := len + Room(len);
      assert Ones(n)[1..] == Ones(n - 1);
      OnesFail(cfg, len + 1, if want <= cap then cap else NextCap(cfg, cap, want), k - 1, n - 1);
    }
  }

  /** Header blocks within the budget always find room, however they are delivered, exactly when cap and budget fit. */
  lemma HeadRoomIff(cfg: Config)
    requires cfg.Sizes()
    ensures (forall pieces | Schedule(0, pieces) :: Roomy(cfg, 0, 0, pieces)) <==> cfg.Fits()
  {
    hide RxMax, Roomy, Schedule;
    LimitsAre(cfg, 0);
    if cfg.Fits() {
      forall pieces | Schedule(0, pieces)
        ensures Roomy(cfg, 0, 0, pieces)
      {
        FitIsRoomy(cfg, 0, 0, pieces);
      }
    } else {
      var k := if RxMax(cfg) < READ_CHUNK then 0 else RxMax(cfg) - READ_CHUNK + 1;
      OnesFail(cfg, 0, 0, k, k + 1);
    }
  }

  // --- which header blocks, when cap and budget do not fit ------------------------------------------------

  function Sum(pieces: seq<nat>): nat { if pieces == [] then 0 else pieces[0] + Sum(pieces[1..]) }

  /** A delivery of a header block of `n` bytes. */
  predicate Delivers(pieces: seq<nat>, n: nat) { Schedule(0, pieces) && Sum(pieces) == n }

  lemma {:induction false} OnesSum(k: nat)
    ensures Sum(Ones(k)) == k
  {
    if k > 0 {
      OnesSum(k - 1);
      assert Ones(k)[1..] == Ones(k - 1);
    }
  }

  lemma {:induction false} ShortIsRoomy(cfg: Config, len: nat, cap: nat, pieces: seq<nat>)
    requires Schedule(len, pieces) && len + Sum(pieces) <= Late(cfg)
    ensures Roomy(cfg, len, cap, pieces)
    decreases |pieces|
  {
    hide NextCap, RxMax;
    if pieces != [] {
      var want := len + Room(len);
      ShortIsRoomy(cfg, len + pieces[0], if want <= cap then cap else NextCap(cfg, cap, want), pieces[1..]);
    }
  }

  lemma {:induction false} RoomyIsWithin(cfg: Config, len: nat, cap: nat, pieces: seq<nat>)
    requires cap <= RxMax(cfg) && Schedule(len, pieces) && Roomy(cfg, len, cap, pieces) && pieces != []
    ensures len + Room(len) <= RxMax(cfg) && len + Sum(pieces) <= RxMax(cfg)
    decreases |pieces|
  {
    hide NextCap, RxMax;
    if |pieces| > 1 {
      var want := len + Room(len);
      RoomyIsWithin(cfg, len + pieces[0], if want <= cap then cap else NextCap(cfg, cap, want), pieces[1..]);
    }
  }

  /** Byte by byte at first, then the rest at once. */
  lemma {:induction false} RestAtOnce(cfg: Config, len: nat, cap: nat, k: nat, last: nat)
    requires RxMax(cfg) < HEADER_BUDGET && len + k + READ_CHUNK <= RxMax(cfg) && 0 < last <= READ_CHUNK
    ensures Schedule(len, Ones(k) + [last]) && Roomy(cfg, len, cap, Ones(k) + [last])
    ensures Sum(Ones(k) + [last]) == k + last
    decreases k
  {
    hide NextCap, RxMax;
    if k > 0 {
      var want := len + Room(len);
      assert (Ones(k) + [last])[1..] == Ones(k - 1) + [last];
      RestAtOnce(cfg, len + 1, if want <= cap then cap else NextCap(cfg, cap, want), k - 1, last);
    }
  }

  /** A block finds room under every delivery exactly when it is `Late(cfg)` bytes or fewer. */
  lemma AlwaysRoomIff(cfg: Config, n: nat)
    requires cfg.Sizes() && !cfg.Fits() && 0 < n <= HEADER_BUDGET
    ensures (forall pieces | Delivers(pieces, n) :: Roomy(cfg, 0, 0, pieces)) <==> n <= Late(cfg)
  {
    hide RxMax, Roomy, Schedule, Sum;
    LimitsAre(cfg, 0);
    if n <= Late(cfg) {
      forall pieces | Delivers(pieces, n)
        ensures Roomy(cfg, 0, 0, pieces)
      {
        ShortIsRoomy(cfg, 0, 0, pieces);
      }
    } else {
      OnesSum(n);
      OnesFail(cfg, 0, 0, Late(cfg), n);
      assert Delivers(Ones(n), n);
    }
  }

  /** And under some delivery exactly when the bound has room for one read and for the block. */
  lemma SometimesRoomIff(cfg: Config, n: nat)
    requires cfg.Sizes() && !cfg.Fits() && n > 0
    ensures (exists pieces :: Delivers(pieces, n) && Roomy(cfg, 0, 0, pieces)) <==>
            READ_CHUNK <= RxMax(cfg) && n <= RxMax(cfg)
  {
    hide RxMax, Roomy, Schedule;
    LimitsAre(cfg, 0);
    if READ_CHUNK <= RxMax(cfg) && n <= RxMax(cfg) {
      var k := if n <= READ_CHUNK then 0 else n - READ_CHUNK;
      RestAtOnce(cfg, 0, 0, k, n - k);
      assert Delivers(Ones(k) + [n - k], n);
    }
    forall pieces | Delivers(pieces, n) && Roomy(cfg, 0, 0, pieces)
      ensures READ_CHUNK <= RxMax(cfg) && n <= RxMax(cfg)
    {
      RoomyIsWithin(cfg, 0, 0, pieces);
    }
  }

  // --- on sessions ---------------------------------------------------------------------------------------------

  /** Whatever the schedule, every reply a session ever published began with a header block that found room. */
  lemma EveryHeadHadRoom(s: Session, k: nat)
    requires s.Valid() && k < |s.log|
    ensures s.log[k].start <= |s.conn.peer| && HeadEnd(s.conn.peer[s.log[k].start..], 0).Some?
    ensures var h := HeadEnd(s.conn.peer[s.log[k].start..], 0).value;
            && READ_CHUNK <= RxMax(s.cfg) && h <= RxMax(s.cfg)
            && (s.conn.steps == Some(1) && !s.cfg.Fits() ==> h <= Late(s.cfg))
  {
    hide HeadEnd, RxMax;
    assert s.HeadHadRoom(s.log[k].start);
  }

  /** The stream is one header block, and a reply that does not need the close. */
  ghost predicate HeadOnly(cfg: Config, s: Bytes, isHead: bool) {
    && HeadEnd(s, 0) == Some(|s|)
    && Expect(cfg, s, isHead, 0).Published? && Expect(cfg, s, isHead, 0).reusable
  }

  /** A session that may send its next request, on a stream that is such a reply to it. */
  ghost predicate Ready(s: Session, req: Request, n: nat)
    reads s, s.conn
  {
    && s.Valid() && !s.closed && s.resp == null && req.head.Made? && !s.cfg.Fits()
    && End(s.log) + n == |s.conn.peer| && HeadOnly(s.cfg, s.conn.peer[End(s.log)..], req.isHead)
  }

  /** Byte by byte, a head that does not always find room is never published. */
  method Bytewise(s: Session, req: Request, r: Response, ghost n: nat) returns (rc: Rc)
    requires Ready(s, req, n) && Late(s.cfg) < n && s.conn.steps == Some(1)
    modifies s, s.conn, r
    ensures s.Valid() && rc != Ok && (old(Ample(s.conn, req)) ==> rc.Failed())
  {
    hide Expect, HeadEnd, RxMax, Late, Publish, Session.Valid, Ample;
    ghost var cause;
    rc, cause := Drive(s, req, r);
    if rc == Ok {
      EveryHeadHadRoom(s, |s.log| - 1);
      LastStart(s);
    }
  }

  lemma LastStart(s: Session)
    requires s.Valid() && s.log != []
    ensures s.log[|s.log| - 1].start == End(s.log[..|s.log| - 1])
  {
    hide Expect;
  }

  /** In steps that suit the bound, it is never refused for lack of room. */
  method Stepwise(s: Session, req: Request, r: Response, ghost n: nat) returns (rc: Rc)
    requires Ready(s, req, n) && s.conn.steps.Some? && Suits(s.cfg, s.conn.steps.value, n)
    modifies s, s.conn, r
    ensures s.Valid() && (rc.Failed() ==> rc == Memory && s.Refused(|old(s.conn.asked)|, HEADER_BUDGET + 1))
    ensures old(Ample(s.conn, req)) && !s.Refused(|old(s.conn.asked)|, HEADER_BUDGET + 1) ==> rc == Ok
  {
    hide Expect, HeadEnd, RxMax, Suits, Publish, Session.Valid, Session.Refused, Conn.Broke, Ample;
    ghost var cause;
    rc, cause := Drive(s, req, r);
    if rc.Failed() {
      NoTransportFailure(s, old(s.conn.at));
    }
  }

  lemma NoTransportFailure(s: Session, from: nat)
    requires s.Valid() && s.conn.steps.Some?
    ensures !s.conn.Broke(from)
  {
    hide InStep;
  }

  /**
   * One request and one stream, which is a reply without a body, longer than what
   * always finds room: two schedules, two outcomes.
   */
  method SchedulesDiffer(s1: Session, s2: Session, req: Request, r1: Response, r2: Response, ghost n: nat)
    returns (rc1: Rc, rc2: Rc)
    requires s1 != s2 && s1.conn != s2.conn && r1 != r2 && s1.cfg == s2.cfg && s1.conn.peer == s2.conn.peer
    requires Ready(s1, req, n) && Ready(s2, req, n) && Late(s1.cfg) < n
    requires s1.conn.steps == Some(1) && s2.conn.steps.Some? && Suits(s2.cfg, s2.conn.steps.value, n)
    modifies s1, s2, s1.conn, s2.conn, r1, r2
    ensures s1.Valid() && s2.Valid()
    ensures old(Ample(s1.conn, req)) ==> rc1.Failed()
    ensures old(Ample(s2.conn, req)) && !s2.Refused(|old(s2.conn.asked)|, HEADER_BUDGET + 1) ==> rc2 == Ok
  {
    hide Session.Valid, HeadOnly, Suits, Late, Ample, Session.Refused;
    rc1 := Bytewise(s1, req, r1, n);
    rc2 := Stepwise(s2, req, r2, n);
  }

  /** The step with which most of a header block finds room, and how much does. */
  function Step(cfg: Config): nat { if RxMax(cfg) % READ_CHUNK == READ_CHUNK - 1 then READ_CHUNK - 1 else READ_CHUNK }

  function Reach(cfg: Config): nat
    requires READ_CHUNK <= RxMax(cfg)
  {
    (RxMax(cfg) - READ_CHUNK) / Step(cfg) * Step(cfg) + Step(cfg)
  }

  /** For every cap that does not fit and has room for one read, some blocks come through one way and not another. */
  lemma SomeBlocksDiffer(cfg: Config, n: nat)
    requires cfg.Sizes() && !cfg.Fits() && READ_CHUNK <= RxMax(cfg)
    ensures Late(cfg) < Reach(cfg) <= RxMax(cfg)
    ensures n <= Reach(cfg) ==> Suits(cfg, Step(cfg), n)
  {
    hide RxMax;
    LimitsAre(cfg, 0);
  }

  /** And for the others no request is ever answered. */
  lemma NothingIsAnswered(s: Session)
    requires s.Valid() && RxMax(s.cfg) < READ_CHUNK
    ensures s.log == []
  {
    if s.log != [] {
      EveryHeadHadRoom(s, 0);
    }
  }

  /** A read-to-close limit is past its head exactly when head and cap fit; past that point every such reply fails. */
  lemma ReadToCloseIff(cfg: Config, h: nat)
    requires cfg.Sizes() && h <= HEADER_BUDGET
    ensures EofLimit(cfg, h) >= h <==> h + cfg.maxBody <= cfg.wordMax
    ensures EofLimit(cfg, h) >= h ==> EofLimit(cfg, h) == h + cfg.maxBody
  {
    hide EofLimit;
    LimitsAre(cfg, h);
  }

  /**
   * "No limit" as the largest size: a header block of 6200 bytes finds room when it comes 1000 bytes at a time and
   * none when it comes 2048 bytes at a time, and no reply can be read to the close.
   */
  lemma NoLimitFails(cfg: Config)
    requires cfg.Sizes() && cfg.maxBody == cfg.wordMax
    ensures Schedule(0, [1000, 1000, 1000, 1000, 1000, 1000, 200])
    ensures Roomy(cfg, 0, 0, [1000, 1000, 1000, 1000, 1000, 1000, 200])
    ensures Schedule(0, [2048, 2048, 2048, 56]) && !Roomy(cfg, 0, 0, [2048, 2048, 2048, 56])
    ensures Late(cfg) < 6200 && Suits(cfg, 1000, 6200)
    ensures forall h | 0 < h <= HEADER_BUDGET :: EofLimit(cfg, h) < h
  {
    hide RxMax, EofLimit, NextCap, Doubled;
    forall h | 0 < h <= HEADER_BUDGET
      ensures EofLimit(cfg, h) < h
    {
      LimitsAre(cfg, h);
    }
    LimitsAre(cfg, 0);
    assert RxMax(cfg) == 8191;
    SmallSteps(cfg);
    LargeSteps(cfg);
  }

  /** The capacities a bound of 8191 leads through. */
  lemma Capacities(cfg: Config)
    requires RxMax(cfg) == 8191
    ensures NextCap(cfg, 0, 2048) == 2048 && NextCap(cfg, 2048, 3048) == 4096 && NextCap(cfg, 4096, 5048) == 8191
    ensures NextCap(cfg, 2048, 4096) == 4096 && NextCap(cfg, 4096, 6144) == 8191
  {
    hide RxMax;
    assert Doubled(1024, 2048) == Doubled(2048, 2048);
    assert Doubled(2048, 3048) == Doubled(4096, 3048) && Doubled(2048, 4096) == Doubled(4096, 4096);
    assert Doubled(4096, 5048) == Doubled(8192, 5048) && Doubled(4096, 6144) == Doubled(8192, 6144);
  }

  lemma SmallSteps(cfg: Config)
    requires RxMax(cfg) == 8191
    ensures Schedule(0, [1000, 1000, 1000, 1000, 1000, 1000, 200])
    ensures Roomy(cfg, 0, 0, [1000, 1000, 1000, 1000, 1000, 1000, 200])
  {
    hide RxMax, NextCap;
    Capacities(cfg);
    var p := [1000, 1000, 1000, 1000, 1000, 1000, 200];
    assert Schedule(6200, p[7..]) && Roomy(cfg, 6200, 8191, p[7..]);
    assert p[6..][1..] == p[7..] && Schedule(6000, p[6..]) && Roomy(cfg, 6000, 8191, p[6..]);
    assert p[5..][1..] == p[6..] && Schedule(5000, p[5..]) && Roomy(cfg, 5000, 8191, p[5..]);
    assert p[4..][1..] == p[5..] && Schedule(4000, p[4..]) && Roomy(cfg, 4000, 8191, p[4..]);
    assert p[3..][1..] == p[4..] && Schedule(3000, p[3..]) && Roomy(cfg, 3000, 4096, p[3..]);
    assert p[2..][1..] == p[3..] && Schedule(2000, p[2..]) && Roomy(cfg, 2000, 4096, p[2..]);
    assert p[1..][1..] == p[2..] && Schedule(1000, p[1..]) && Roomy(cfg, 1000, 2048, p[1..]);
  }

  lemma LargeSteps(cfg: Config)
    requires RxMax(cfg) == 8191
    ensures Schedule(0, [2048, 2048, 2048, 56]) && !Roomy(cfg, 0, 0, [2048, 2048, 2048, 56])
  {
    hide RxMax, NextCap;
    Capacities(cfg);
    var p := [2048, 2048, 2048, 56];
    assert Schedule(6200, p[4..]);
    assert p[3..][1..] == p[4..] && Schedule(6144, p[3..]) && !Roomy(cfg, 6144, 8191, p[3..]);
    assert p[2..][1..] == p[3..] && Schedule(4096, p[2..]) && !Roomy(cfg, 4096, 4096, p[2..]);
    assert p[1..][1..] == p[2..] && Schedule(2048, p[1..]) && !Roomy(cfg, 2048, 2048, p[1..]);
  }

  /** A session opened without a limit, whose transport moves `p` bytes at a time. */
  method OpenUnlimited(parse: Bytes -> HeadText, wordMax: nat, head: Bytes, req: Request, p: nat, events: nat,
                       clock: nat -> int, grants: (nat, nat) -> bool)
    returns (s: Session)
    requires wordMax >= 0xFFFF_FFFF && p > 0 && req.head.Made? && events > |req.head.value + req.body| + |head| + 1
    requires HeadOnly(Config(parse, wordMax, wordMax), head, req.isHead)
    ensures fresh(s) && fresh(s.conn) && s.conn.steps == Some(p) && s.conn.peer == head && s.conn.grants == grants
    ensures s.cfg == Config(parse, wordMax, wordMax) && Ready(s, req, |head|) && Ample(s.conn, req)
    ensures s.conn.asked == []
  {
    hide HeadOnly, Session.Valid, Steady;
    var plan := seq(events, _ => Move(p));
    assert Steady(plan, p) by { SteadyPlan(plan, p); }
    var conn := new Conn(head, false, plan, clock, grants);
    s := new Session(parse, wordMax, wordMax, conn);
    assert head[0..] == head;
    AllMove(conn, p, |plan|);
  }

  lemma SteadyPlan(plan: seq<Event>, p: nat)
    requires p > 0 && forall i | 0 <= i < |plan| :: plan[i] == Move(p)
    ensures Steady(plan, p)
  {}

  lemma {:induction false} AllMove(conn: Conn, p: nat, k: nat)
    requires Steady(conn.plan, p) && k <= |conn.plan|
    ensures conn.Moves(k) == k
    decreases k
  {
    if k > 0 { AllMove(conn, p, k - 1); }
  }

  lemma NothingRefused(s: Session)
    requires s.cfg.Sizes() && forall k: nat, n: nat | n <= HEADER_BUDGET + 1 :: s.conn.grants(k, n)
    ensures !s.Refused(0, HEADER_BUDGET + 1)
  {}

  /**
   * The same on sessions opened without a limit, for a head of 6200 bytes and an
   * allocator that grants at least a header block: byte by byte it is refused, in
   * steps of 1000 it is published.
   */
  method NoLimitDiffers(parse: Bytes -> HeadText, wordMax: nat, head: Bytes, req: Request, events: nat,
                        clock: nat -> int, grants: (nat, nat) -> bool)
    returns (rc1: Rc, rc2: Rc)
    requires wordMax >= 0xFFFF_FFFF && req.head.Made? && |head| == 6200
    requires events > |req.head.value + req.body| + 6201
    requires forall k: nat, n: nat | n <= HEADER_BUDGET + 1 :: grants(k, n)
    requires HeadOnly(Config(parse, wordMax, wordMax), head, req.isHead)
    ensures rc1.Failed() && rc2 == Ok
  {
    hide HeadOnly, Ready, Suits, Late, Session.Valid, Schedule, Roomy, EofLimit, Ample, Session.Refused;
    var s1 := OpenUnlimited(parse, wordMax, head, req, 1, events, clock, grants);
    var s2 := OpenUnlimited(parse, wordMax, head, req, 1000, events, clock, grants);
    var r1 := new Response();
    var r2 := new Response();
    NoLimitFails(s1.cfg);
    rc1, rc2 := SchedulesDiffer(s1, s2, req, r1, r2, 6200);
    NothingRefused(s2);
  }
}
