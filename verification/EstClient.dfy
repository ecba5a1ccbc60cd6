/** The EST session over an HTTP session: one operation in flight, resumed by the call that began it. */
module EstClient {
  import opened Bytes
  import opened ResponseStream
  import opened HttpSession

  datatype EstOp = GetCaCerts | GetCsrAttrs | SimpleEnroll | SimpleReenroll {
    predicate IsEnroll() { SimpleEnroll? || SimpleReenroll? }
  }

  datatype Encoding = Pem | Der | UnknownEncoding

  datatype EstStatus = Unset | Pending | Failure | Success

  /** An output's contents, and those of a cleared one. */
  datatype Seen = Seen(data: Option<Bytes>, status: EstStatus, retryAfter: nat)

  const CLEARED := Seen(None, Unset, 0)

  /** The caller's output: the buffer, and for an enrolment its status and how long to wait when it is pending. */
  class Output {
    var data: Option<Bytes>
    var status: EstStatus
    var retryAfter: nat

    constructor ()
      ensures Shown() == CLEARED
    {
      data, status, retryAfter := None, Unset, 0;
    }

    function Shown(): Seen
      reads this
    {
      Seen(data, status, retryAfter)
    }
  }

  /** What code outside the session does: build a request, and decode the body of a 200 reply. */
  datatype Foreign = Foreign(build: (EstOp, Bytes) -> Made<Request>,
                             decode: (EstOp, Encoding, Bytes) -> (Rc, Bytes))

  /** What a reply makes of the output: a code, the data, and the enrolment status and wait it sets. */
  datatype Finished = Finished(rc: Rc, data: Option<Bytes>, status: EstStatus, retryAfter: nat)

  function EstFinish(f: Foreign, op: EstOp, enc: Encoding, reply: Answer): Finished {
    if op.IsEnroll() && reply.status == 202 then Finished(Ok, None, Pending, reply.retryAfter)
    else if op == GetCsrAttrs
            && (reply.status in {204, 404, 405, 501} || (reply.status == 200 && reply.body == [])) then
      Finished(Ok, Some([]), Unset, 0)
    else if reply.status != 200 then
      Finished(if reply.status in {401, 403} then AuthError else HttpError, None,
               if op.IsEnroll() then Failure else Unset, 0)
    else if reply.body == [] then Finished(HttpError, None, Unset, 0)
    else
      var (rc, data) := f.decode(op, enc, reply.body);
      Finished(rc, if rc == Ok then Some(data) else None, if rc == Ok && op.IsEnroll() then Success else Unset, 0)
  }

  // --- what the caller is told --------------------------------------------------------------

  /** The code of a reply that is no success. */
  function RefusalCode(status: int): Rc { if status == 401 || status == 403 then AuthError else HttpError }

  /** A 200 with a body, decoded by code outside the session. */
  predicate Decoded(f: Foreign, op: EstOp, enc: Encoding, reply: Answer, rc: Rc, data: Option<Bytes>) {
    var (code, bytes) := f.decode(op, enc, reply.body);
    rc == code && data == if code == Ok then Some(bytes) else None
  }

  /** Sections 4.2.3 and 4.2.1 of RFC 7030: granted, pending with a wait, or failed. */
  predicate EnrolmentTold(f: Foreign, op: EstOp, enc: Encoding, reply: Answer, rc: Rc, out: Seen) {
    var granted := reply.status == 200 && reply.body != [] && f.decode(op, enc, reply.body).0 == Ok;
    && (out.status == Success <==> granted)
    && (out.status == Pending <==> reply.status == 202)
    && (out.status == Failure <==> reply.status != 200 && reply.status != 202)
    && (rc == Ok <==> granted || reply.status == 202)
    && (!granted ==> out.data == None)
    && out.retryAfter == (if reply.status == 202 then reply.retryAfter else 0)
    && (reply.status != 200 && reply.status != 202 ==> rc == RefusalCode(reply.status))
    && (reply.status == 200 && reply.body == [] ==> rc == HttpError)
    && (reply.status == 200 && reply.body != [] ==> Decoded(f, op, enc, reply, rc, out.data))
  }

  /** Section 4.5.2 of RFC 7030: a server without attributes says so in several ways, and none of them is an error. */
  predicate AttributesTold(f: Foreign, enc: Encoding, reply: Answer, rc: Rc, out: Seen) {
    var none := reply.status == 204 || reply.status == 404 || reply.status == 405 || reply.status == 501
                || (reply.status == 200 && reply.body == []);
    && out.status == Unset && out.retryAfter == 0
    && (none ==> rc == Ok && out.data == Some([]))
    && (!none && reply.status != 200 ==> rc == RefusalCode(reply.status) && out.data == None)
    && (!none && reply.status == 200 ==> Decoded(f, GetCsrAttrs, enc, reply, rc, out.data))
  }

  predicate CertificatesTold(f: Foreign, enc: Encoding, reply: Answer, rc: Rc, out: Seen) {
    && out.status == Unset && out.retryAfter == 0
    && (reply.status != 200 ==> rc == RefusalCode(reply.status) && out.data == None)
    && (reply.status == 200 && reply.body == [] ==> rc == HttpError && out.data == None)
    && (reply.status == 200 && reply.body != [] ==> Decoded(f, GetCaCerts, enc, reply, rc, out.data))
  }

  predicate Told(f: Foreign, op: EstOp, enc: Encoding, reply: Answer, rc: Rc, out: Seen) {
    match op
    case GetCaCerts => CertificatesTold(f, enc, reply, rc, out)
    case GetCsrAttrs => AttributesTold(f, enc, reply, rc, out)
    case _ => EnrolmentTold(f, op, enc, reply, rc, out)
  }

  /** Every reply to every operation is told so. */
  lemma FinishTells(f: Foreign, op: EstOp, enc: Encoding, reply: Answer)
    ensures var r := EstFinish(f, op, enc, reply);
            Told(f, op, enc, reply, r.rc, Seen(r.data, r.status, if r.status == Pending then r.retryAfter else 0))
  {}

  class EstSession {
    const http: Session
    const foreign: Foreign
    const hasClientIdentity: bool
    var inActive: bool
    var inReq: Request
    const inResp: Response
    var inOut: Output?
    var inOp: EstOp
    var inEnc: Encoding

    /**
     * The two layers move in lockstep: an operation is in flight here exactly
     * when the HTTP session holds a request, and that one is this session's.
     */
    ghost predicate Valid()
      reads this, http, http.conn
    {
      && http.Valid()
      && (inActive <==> http.resp != null)
      && (inActive ==>
            && http.resp == inResp && inOut != null
            && inReq.head.Made? && http.request == inReq.head.value + inReq.body && http.headRequest == inReq.isHead)
    }

    constructor (http: Session, foreign: Foreign, hasClientIdentity: bool)
      requires http.Valid() && http.resp == null
      ensures Valid() && !inActive && this.http == http && fresh(inResp)
    {
      this.http, this.foreign, this.hasClientIdentity := http, foreign, hasClientIdentity;
      inActive, inReq, inOut, inOp, inEnc := false, Request(NotMade(0), [], false), null, GetCaCerts, Pem;
      var r := new Response();
      inResp := r;
    }

    /** The call that is in flight, as a later call must name it. */
    predicate Names(op: EstOp, enc: Encoding, out: Output?)
      reads this
    {
      op == inOp && out == inOut && enc == inEnc
    }

    method Reset()
      modifies this`inActive, this`inReq, this`inOut, inResp
      ensures !inActive && inOut == null
    {
      inReq := Request(NotMade(0), [], false);
      inResp.status, inResp.contentType, inResp.retryAfter, inResp.body := 0, None, 0, [];
      inOut := null;
      inActive := false;
    }

    /** Clear the caller's output, unless it is the in-flight request's. */
    method CallClear(out: Output?)
      modifies out
      ensures out != null && !(inActive && out == inOut) ==> out.Shown() == CLEARED
      ensures out != null && inActive && out == inOut ==> unchanged(out)
    {
      if inActive && out == inOut {
        return;
      }
      if out != null {
        out.data, out.status, out.retryAfter := None, Unset, 0;
      }
    }

    method Begin(op: EstOp, csr: Bytes, enc: Encoding, out: Output) returns (rc: Rc)
      requires !inActive
      modifies this`inActive, this`inReq, this`inOut, this`inOp, this`inEnc, inResp
      ensures rc == if foreign.build(op, csr).Made? then Ok else NotBuilt(foreign.build(op, csr).code)
      ensures rc == Ok ==> inActive && inReq == foreign.build(op, csr).value && Names(op, enc, out) && unchanged(inResp)
      ensures rc != Ok ==> !inActive
    {
      var built := foreign.build(op, csr);
      if built.NotMade? {
        Reset();
        return NotBuilt(built.code);
      }
      inReq, inOp, inEnc, inOut, inActive := built.value, op, enc, out, true;
      return Ok;
    }

    method Deliver(op: EstOp, enc: Encoding, out: Output) returns (rc: Rc)
      modifies out
      ensures var f := EstFinish(foreign, op, enc, inResp.Shown());
              && rc == f.rc
              && out.data == (if f.data.Some? then f.data else old(out.data))
              && out.status == (if f.status != Unset then f.status else old(out.status))
              && out.retryAfter == (if f.status == Pending then f.retryAfter else old(out.retryAfter))
      ensures old(out.Shown()) == CLEARED ==> Told(foreign, op, enc, inResp.Shown(), rc, out.Shown())
    {
      FinishTells(foreign, op, enc, inResp.Shown());
      hide EstFinish, Told;
      var f := EstFinish(foreign, op, enc, inResp.Shown());
      if f.data.Some? {
        out.data := f.data;
      }
      if f.status != Unset {
        out.status := f.status;
      }
      if f.status == Pending {
        out.retryAfter := f.retryAfter;
      }
      return f.rc;
    }

    /** Send or continue the request in flight, then parse the reply and end it. */
    method Send(op: EstOp, enc: Encoding, out: Output, nb: bool) returns (rc: Rc, ghost cause: Cause)
      requires http.Valid() && inActive && Names(op, enc, out)
      requires http.resp == null
            || (http.resp == inResp && nb && http.headRequest == inReq.isHead
                && inReq.head.Made? && http.request == inReq.head.value + inReq.body)
      modifies this, http, http.conn, inResp, out
      ensures Valid()
      ensures inActive ==> && http.Waits(rc, old(http.conn.at)) && nb && Names(op, enc, out) && inReq == old(inReq)
                           && http.log == old(http.log)
      ensures http.log == old(http.log) ==> unchanged(out)
      ensures !inActive && http.log == old(http.log) ==>
                http.Unanswered(rc, cause, old(inReq), nb, old(http.closed), old(http.conn.at), |old(http.conn.asked)|)
      ensures http.log != old(http.log) ==>
                && !inActive && |http.log| == |old(http.log)| + 1 && http.log[..|old(http.log)|] == old(http.log)
                && Carried(http.log[|old(http.log)|], old(inReq)) && http.conn.sent == AllSent(http.log)
                && var f := EstFinish(foreign, op, enc, http.Answered(http.log[|old(http.log)|]));
                && rc == f.rc && (f.data.Some? ==> out.data == f.data) && (f.status != Unset ==> out.status == f.status)
                && (f.status == Pending ==> out.retryAfter == f.retryAfter)
                && (old(out.Shown()) == CLEARED ==>
                      Told(foreign, op, enc, http.Answered(http.log[|old(http.log)|]), rc, out.Shown()))
    {
      hide Session.Valid, AllSent, Expect, EstFinish, Session.Failure, Told;
      rc, cause := http.Call(inReq, inResp, nb);
      if nb && rc.Want() {
        return;
      }
      if rc == Ok {
        rc := Deliver(op, enc, out);
      }
      Reset();
    }

    /** Whether a call in the present state is refused before the HTTP session is involved. */
    predicate Refuses(op: EstOp, csr: Bytes, enc: Encoding, out: Output?, nb: bool)
      reads this
    {
      if inActive then !nb || !Names(op, enc, out)
      else
        out == null || enc == UnknownEncoding || (op.IsEnroll() && csr == []) ||
        (op == SimpleReenroll && !hasClientIdentity)
    }

    /**
     * Run `op`, or continue the operation in flight, and parse the reply into
     * `out`. An empty `csr` stands for none.
     */
    method Call(op: EstOp, csr: Bytes, enc: Encoding, out: Output?, nb: bool) returns (rc: Rc, ghost cause: Cause)
      requires Valid()
      modifies this, http, http.conn, inResp, out
      ensures Valid()
      // A refused call changes nothing but its own output, and never the in-flight one's.
      ensures old(Refuses(op, csr, enc, out, nb)) ==>
                && rc == BadArg && unchanged(this) && unchanged(http) && unchanged(http.conn) && unchanged(inResp)
                && (inActive && out == inOut && out != null ==> unchanged(out))
      // A new call needs an output, a known encoding, a CSR to enrol, and a client identity to re-enrol.
      ensures !old(inActive) ==>
                (old(Refuses(op, csr, enc, out, nb)) <==>
                   || out == null || (enc != Pem && enc != Der)
                   || ((op == SimpleEnroll || op == SimpleReenroll) && csr == [])
                   || (op == SimpleReenroll && !hasClientIdentity))
      // One that continues must be an _nb call for the same operation, encoding and output.
      ensures old(inActive) ==>
                (old(Refuses(op, csr, enc, out, nb)) <==>
                   !nb || op != old(inOp) || enc != old(inEnc) || out != old(inOut))
      // A call that waits leaves its operation in flight, with the request that was built for it.
      ensures !old(Refuses(op, csr, enc, out, nb)) && rc.Want() && inActive ==>
                && nb && Names(op, enc, out) && http.log == old(http.log)
                && Made(inReq) == if old(inActive) then Made(old(inReq)) else foreign.build(op, csr)
      ensures !old(Refuses(op, csr, enc, out, nb)) && inActive ==> http.Waits(rc, old(http.conn.at))
      // One that ends without a reply could not build its request, or the HTTP session says why.
      ensures !old(Refuses(op, csr, enc, out, nb)) && !inActive && http.log == old(http.log) ==>
                match if old(inActive) then Made(old(inReq)) else foreign.build(op, csr)
                case NotMade(code) => rc == NotBuilt(code) && unchanged(http) && unchanged(http.conn)
                case Made(req) =>
                  http.Unanswered(rc, cause, req, nb, old(http.closed), old(http.conn.at), |old(http.conn.asked)|)
      // A call that ends the exchange sent exactly that request, and delivers the reply the stream held for it.
      ensures http.log != old(http.log) ==>
                && !inActive && out != null
                && |http.log| == |old(http.log)| + 1 && http.log[..|old(http.log)|] == old(http.log)
                && var req := if old(inActive) then Made(old(inReq)) else foreign.build(op, csr);
                && req.Made? && Carried(http.log[|old(http.log)|], req.value) && http.conn.sent == AllSent(http.log)
                && var f := EstFinish(foreign, op, enc, http.Answered(http.log[|old(http.log)|]));
                && rc == f.rc && (f.data.Some? ==> out.data == f.data) && (f.status != Unset ==> out.status == f.status)
                && (f.status == Pending ==> out.retryAfter == f.retryAfter)
      // Without a reply the output stays clear. With one it tells of that, if it was still clear.
      ensures !old(Refuses(op, csr, enc, out, nb)) && http.log == old(http.log) ==>
                out != null && out.Shown() == if old(inActive) then old(out.Shown()) else CLEARED
      ensures http.log != old(http.log) && (!old(inActive) || old(out.Shown()) == CLEARED) ==>
                Told(foreign, op, enc, http.Answered(http.log[|http.log| - 1]), rc, out.Shown())
    {
      hide Session.Valid, AllSent, Expect, EstFinish, Session.Failure, Session.Unanswered, Told;
      cause := NoFailure;
      CallClear(out);
      if inActive && !nb {
        return BadArg, cause;
      }
      if inActive {
        if !Names(op, enc, out) {
          return BadArg, cause;
        }
      } else {
        if out == null || enc == UnknownEncoding || (op.IsEnroll() && csr == []) {
          return BadArg, cause;
        }
        if op == SimpleReenroll && !hasClientIdentity {
          return BadArg, cause;
        }
        rc := Begin(op, csr, enc, out);
        if rc != Ok {
          return rc, cause;
        }
      }
      rc, cause := Send(op, enc, out, nb);
    }
  }
}
