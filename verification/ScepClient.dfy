/**
 * The SCEP session over an HTTP session: one operation in flight, with its own
 * copies of what a later call still needs.
 */
module ScepClient {
  import opened Bytes
  import opened ResponseStream
  import opened HttpSession

  datatype ScepOp = GetCaCaps | GetCaCert | GetNextCaCert | PkcsReq | Renewal | GetCertInitial | GetCert {
    predicate IsPki() { PkcsReq? || Renewal? || GetCertInitial? || GetCert? }
  }

  datatype Encoding = Pem | Der | UnknownEncoding

  /** An output's contents, and those of a cleared one. */
  datatype Seen = Seen(data: Option<Bytes>, status: int, failInfo: int)

  const CLEARED := Seen(None, 0, -1)

  /** The caller's output, cleared with failInfo -1. */
  class Output {
    var data: Option<Bytes>
    var status: int
    var failInfo: int

    constructor ()
      ensures Shown() == CLEARED
    {
      data, status, failInfo := None, 0, -1;
    }

    function Shown(): Seen
      reads this
    {
      Seen(data, status, failInfo)
    }
  }

  datatype KeyKind = NoKey | RsaKey | OtherKey

  /** One call's arguments; `cert` and `bundle` are buffers of the caller's, the rest are values with [] for absent. */
  datatype ScepCall = ScepCall(op: ScepOp, enc: Encoding, out: Output?, cert: array?<Byte>, bundle: array?<Byte>,
                               raCert: Bytes, csr: Bytes, txid: Bytes, txidPrintable: bool, serial: Bytes,
                               key: KeyKind, entropy: Bytes)

  /** The request and what its reply is checked against: transactionID, nonce and the name asked for. */
  datatype Prepared = Prepared(request: Request, txid: Bytes, nonce: Bytes, ias: Bytes)

  /** All a reply is judged against. */
  datatype Basis = Basis(signer: Bytes, bundle: Bytes, prepared: Prepared)

  datatype Parsed = Parsed(rc: Rc, data: Option<Bytes>, status: int, failInfo: int)

  /** What a request is made from. */
  datatype Ask = Ask(op: ScepOp, signer: Bytes, bundle: Bytes, raCert: Bytes, csr: Bytes, txid: Bytes, serial: Bytes,
                     entropy: Bytes)

  /** Code outside the session: a self-signed signer, the signed request, and the parsing of a reply. */
  datatype Foreign = Foreign(selfSigned: Bytes -> Made<Bytes>,
                             prepare: Ask -> Made<Prepared>,
                             parse: (ScepOp, Encoding, Answer, Basis) -> Parsed)

  /** A buffer in use: none, a copy of the session's own, or the caller's. */
  datatype Held = Nothing | Owned(bytes: Bytes) | Borrowed(buffer: array<Byte>)

  function Contents(h: Held): Bytes
    reads if h.Borrowed? then {h.buffer} else {}
  {
    match h
    case Nothing => []
    case Owned(b) => b
    case Borrowed(a) => a[..]
  }

  /** The checks on a new call. */
  function CallCheck(c: ScepCall): Rc
    reads c.cert, c.bundle
  {
    var encOk := c.enc == Pem || c.enc == Der;
    var ok := match c.op
              case GetCaCaps => true
              case GetCaCert => encOk
              case GetNextCaCert => encOk && c.bundle != null && c.bundle.Length > 0
              case PkcsReq => c.csr != []
              case Renewal => c.cert != null && c.cert.Length > 0 && c.csr != []
              case GetCertInitial =>
                (c.cert == null || c.cert.Length > 0) && c.csr != [] && c.txid != [] && c.txidPrintable
              case GetCert => c.cert != null && c.cert.Length > 0 && c.serial != [];
    if !ok || (c.op.IsPki() && (c.raCert == [] || c.bundle == null || c.bundle.Length == 0 || c.key == NoKey)) then
      BadArg
    else if c.op.IsPki() && c.key != RsaKey then Unsupported
    else Ok
  }

  /** The reply to `op`, judged against the request it answers. */
  function ScepFinish(f: Foreign, op: ScepOp, enc: Encoding, reply: Answer, b: Basis): Parsed {
    if op == GetNextCaCert && reply.status == 404 then Parsed(NotFound, None, 0, -1)
    else if reply.status != 200 then Parsed(HttpError, None, 0, -1)
    else f.parse(op, enc, reply, b)
  }

  /** What the caller of an operation is told of a reply; only a 200 is looked into. */
  predicate Told(f: Foreign, op: ScepOp, enc: Encoding, reply: Answer, b: Basis, rc: Rc, out: Seen) {
    if reply.status == 200 then
      var p := f.parse(op, enc, reply, b);
      rc == p.rc && out == Seen(p.data, p.status, p.failInfo)
    else
      && out == Seen(None, 0, -1)
      && (rc == NotFound <==> reply.status == 404 && op == GetNextCaCert)
      && (rc == HttpError <==> reply.status != 404 || op != GetNextCaCert)
  }

  /** Every reply to every operation is told so. */
  lemma FinishTells(f: Foreign, op: ScepOp, enc: Encoding, reply: Answer, b: Basis)
    ensures var p := ScepFinish(f, op, enc, reply, b);
            Told(f, op, enc, reply, b, p.rc, Seen(p.data, p.status, p.failInfo))
  {}

  // --- what a call must bring ---------------------------------------------------------------

  datatype Arg = KnownEncoding | TrustBundle | Certificate | CertificateOrNone | Csr | TransactionId | Serial
               | RaCertificate | SigningKey

  /** What every signed and encrypted message takes. */
  const PKI_ARGS := {RaCertificate, TrustBundle, SigningKey}

  function Needs(op: ScepOp): set<Arg> {
    match op
    case GetCaCaps => {}
    case GetCaCert => {KnownEncoding}
    case GetNextCaCert => {KnownEncoding, TrustBundle}
    case PkcsReq => PKI_ARGS + {Csr}
    case Renewal => PKI_ARGS + {Certificate, Csr}
    case GetCertInitial => PKI_ARGS + {CertificateOrNone, Csr, TransactionId}
    case GetCert => PKI_ARGS + {Certificate, Serial}
  }

  predicate Brings(c: ScepCall, a: Arg)
    reads c.cert, c.bundle
  {
    match a
    case KnownEncoding => c.enc != UnknownEncoding
    case TrustBundle => c.bundle != null && c.bundle[..] != []
    case Certificate => c.cert != null && c.cert[..] != []
    case CertificateOrNone => c.cert != null ==> c.cert[..] != []
    case Csr => c.csr != []
    case TransactionId => c.txid != [] && c.txidPrintable
    case Serial => c.serial != []
    case RaCertificate => c.raCert != []
    case SigningKey => c.key != NoKey
  }

  /** A call is taken exactly when it brings what its operation needs, and any key it signs with is RSA. */
  lemma CheckIs(c: ScepCall)
    ensures CallCheck(c) ==
            if !(forall a | a in Needs(c.op) :: Brings(c, a)) then BadArg
            else if SigningKey in Needs(c.op) && c.key != RsaKey then Unsupported
            else Ok
  {
    assert c.bundle != null ==> |c.bundle[..]| == c.bundle.Length;
    assert c.cert != null ==> |c.cert[..]| == c.cert.Length;
    var needs := Needs(c.op);
    if forall a | a in needs :: Brings(c, a) {
      assert forall a :: a in needs ==> Brings(c, a);
    }
  }

  class ScepSession {
    const http: Session
    const foreign: Foreign
    var inActive: bool
    var inOp: ScepOp
    var inEnc: Encoding
    var inReq: Request
    const inResp: Response
    var inSigner: Held
    var inBundle: Held
    var inPrepared: Prepared
    var inOut: Output?

    /**
     * Lockstep with the HTTP session, and an operation in flight between calls
     * holds no buffer of the caller's.
     */
    ghost predicate Valid()
      reads this, http, http.conn
    {
      && http.Valid()
      && (inActive <==> http.resp != null)
      && (inActive ==>
            && http.resp == inResp && inOut != null
            && inReq.head.Made? && http.request == inReq.head.value + inReq.body && http.headRequest == inReq.isHead
            && inReq == inPrepared.request && !inSigner.Borrowed? && !inBundle.Borrowed?)
    }

    constructor (http: Session, foreign: Foreign)
      requires http.Valid() && http.resp == null
      ensures Valid() && !inActive && this.http == http && fresh(inResp)
    {
      this.http, this.foreign := http, foreign;
      inActive, inOp, inEnc, inReq, inOut := false, GetCaCaps, Pem, Request(NotMade(0), [], false), null;
      inSigner, inBundle, inPrepared := Nothing, Nothing, Prepared(Request(NotMade(0), [], false), [], [], []);
      var r := new Response();
      inResp := r;
    }

    predicate Names(c: ScepCall)
      reads this
    {
      c.op == inOp && c.out == inOut && c.enc == inEnc
    }

    method Reset()
      modifies this`inActive, this`inReq, this`inOut, this`inSigner, this`inBundle, this`inPrepared, inResp
      ensures !inActive && inOut == null
    {
      hide *;
      inReq, inOut := Request(NotMade(0), [], false), null;
      inResp.status, inResp.contentType, inResp.retryAfter, inResp.body := 0, None, 0, [];
      inSigner, inBundle, inPrepared := Nothing, Nothing, Prepared(Request(NotMade(0), [], false), [], [], []);
      inActive := false;
    }

    method CallClear(out: Output)
      modifies out
      ensures !(inActive && out == inOut) ==> out.Shown() == CLEARED
      ensures inActive && out == inOut ==> unchanged(out)
    {
      if inActive && out == inOut {
        return;
      }
      out.data, out.status, out.failInfo := None, 0, -1;
    }

    function HeldBasis(): Basis
      reads this, if inSigner.Borrowed? then {inSigner.buffer} else {},
            if inBundle.Borrowed? then {inBundle.buffer} else {}
    {
      Basis(Contents(inSigner), Contents(inBundle), inPrepared)
    }

    /** The signer a new call uses, and the bundle its reply is checked against. */
    function SignerFor(c: ScepCall): Made<Bytes>
      reads c.cert
    {
      if !c.op.IsPki() then Made([]) else if c.cert == null then foreign.selfSigned(c.csr) else Made(c.cert[..])
    }

    function BundleFor(c: ScepCall): Bytes
      reads c.bundle
    {
      if (c.op.IsPki() || c.op == GetNextCaCert) && c.bundle != null then c.bundle[..] else []
    }

    /** What a new call's request is made from, given its signer and bundle. */
    function AskFor(c: ScepCall, signer: Bytes, bundle: Bytes): Ask {
      Ask(c.op, signer, bundle, c.raCert, c.csr, c.txid, c.serial, c.entropy)
    }

    /** What the reply to a new call is to be judged against, or the code its request cannot be built with. */
    function NewBasis(c: ScepCall): Made<Basis>
      reads c.cert, c.bundle
    {
      match SignerFor(c)
      case NotMade(code) => NotMade(code)
      case Made(signer) =>
        match foreign.prepare(AskFor(c, signer, BundleFor(c)))
        case NotMade(code) => NotMade(code)
        case Made(p) => Made(Basis(signer, BundleFor(c), p))
    }

    /** Build the request and put it in flight; an _nb one takes copies of the caller's buffers. */
    method Begin(c: ScepCall, nb: bool) returns (rc: Rc)
      requires !inActive && c.out != null && CallCheck(c) == Ok
      modifies this`inActive, this`inReq, this`inOut, this`inOp, this`inEnc, this`inSigner, this`inBundle,
               this`inPrepared, inResp
      ensures rc == if NewBasis(c).Made? then Ok else NotBuilt(NewBasis(c).code)
      ensures rc == Ok ==>
                && inActive && Names(c) && unchanged(inResp)
                && NewBasis(c) == Made(HeldBasis()) && inReq == inPrepared.request
                && (nb ==> !inSigner.Borrowed? && !inBundle.Borrowed?)
      ensures rc != Ok ==> !inActive
    {
      var signer := Nothing;
      if c.op.IsPki() && c.cert == null {
        var own := foreign.selfSigned(c.csr);
        if own.NotMade? {
          Reset();
          return NotBuilt(own.code);
        }
        signer := Owned(own.value);
      } else if c.op.IsPki() {
        signer := if nb then Owned(c.cert[..]) else Borrowed(c.cert);
      }
      var bundle := Nothing;
      if c.op.IsPki() || c.op == GetNextCaCert {
        bundle := if nb then Owned(c.bundle[..]) else Borrowed(c.bundle);
      }
      var p := foreign.prepare(AskFor(c, Contents(signer), Contents(bundle)));
      if p.NotMade? {
        Reset();
        return NotBuilt(p.code);
      }
      inSigner, inBundle, inPrepared := signer, bundle, p.value;
      inReq, inOp, inEnc, inOut, inActive := p.value.request, c.op, c.enc, c.out, true;
      return Ok;
    }

    method Deliver(c: ScepCall) returns (rc: Rc)
      requires c.out != null
      modifies c.out
      ensures var p := ScepFinish(foreign, inOp, c.enc, inResp.Shown(), HeldBasis());
              rc == p.rc && c.out.status == p.status && c.out.failInfo == p.failInfo
              && c.out.data == (if p.data.Some? then p.data else old(c.out.data))
      ensures old(c.out.Shown()) == CLEARED ==>
                Told(foreign, inOp, c.enc, inResp.Shown(), HeldBasis(), rc, c.out.Shown())
    {
      FinishTells(foreign, inOp, c.enc, inResp.Shown(), HeldBasis());
      hide ScepFinish, Told;
      var p := ScepFinish(foreign, inOp, c.enc, inResp.Shown(), HeldBasis());
      if p.data.Some? {
        c.out.data := p.data;
      }
      c.out.status, c.out.failInfo := p.status, p.failInfo;
      return p.rc;
    }

    predicate Refuses(c: ScepCall, nb: bool)
      reads this, c.cert, c.bundle
    {
      c.out == null || (if inActive then !nb || !Names(c) else CallCheck(c) != Ok)
    }

    /**
     * Run `c`, or continue the operation in flight, and parse the reply. The
     * reply to an operation is judged with the signer and bundle bytes its first
     * call saw, whatever became of the caller's buffers since.
     */
    method Call(c: ScepCall, nb: bool) returns (rc: Rc, ghost cause: Cause)
      requires Valid()
      modifies this, http, http.conn, inResp, c.out
      ensures Valid()
      ensures old(Refuses(c, nb)) ==>
                && unchanged(this) && unchanged(http) && unchanged(http.conn) && unchanged(inResp)
                && rc == (if c.out == null || inActive then BadArg else old(CallCheck(c)))
                && (inActive && c.out == inOut && c.out != null ==> unchanged(c.out))
      ensures old(inActive) ==>
                (old(Refuses(c, nb)) <==>
                   c.out == null || !nb || c.op != old(inOp) || c.enc != old(inEnc) || c.out != old(inOut))
      ensures !old(Refuses(c, nb)) && inActive ==>
                && http.Waits(rc, old(http.conn.at)) && nb && Names(c) && http.log == old(http.log)
                && Made(HeldBasis()) == if old(inActive) then Made(old(HeldBasis())) else old(NewBasis(c))
      ensures !old(Refuses(c, nb)) && !inActive && http.log == old(http.log) ==>
                match if old(inActive) then Made(old(HeldBasis())) else old(NewBasis(c))
                case NotMade(code) => rc == NotBuilt(code) && unchanged(http) && unchanged(http.conn)
                case Made(b) =>
                  http.Unanswered(rc, cause, b.prepared.request, nb, old(http.closed), old(http.conn.at),
                                  |old(http.conn.asked)|)
      ensures http.log != old(http.log) ==>
                && !inActive && c.out != null
                && |http.log| == |old(http.log)| + 1 && http.log[..|old(http.log)|] == old(http.log)
                && var basis := if old(inActive) then Made(old(HeldBasis())) else old(NewBasis(c));
                && basis.Made? && Carried(http.log[|old(http.log)|], basis.value.prepared.request)
                && http.conn.sent == AllSent(http.log)
                && var p := ScepFinish(foreign, c.op, c.enc, http.Answered(http.log[|old(http.log)|]), basis.value);
                && rc == p.rc && (p.data.Some? ==> c.out.data == p.data)
                && c.out.status == p.status && c.out.failInfo == p.failInfo
                && (!old(inActive) || old(c.out.Shown()) == CLEARED ==>
                      Told(foreign, c.op, c.enc, http.Answered(http.log[|old(http.log)|]), basis.value, rc,
                           c.out.Shown()))
      ensures !old(Refuses(c, nb)) && http.log == old(http.log) ==>
                c.out != null && c.out.Shown() == if old(inActive) then old(c.out.Shown()) else CLEARED
    {
      hide Session.Valid, AllSent, Expect, ScepFinish, CallCheck, NewBasis, Session.Failure, Session.Unanswered, Told;
      cause := NoFailure;
      if c.out == null {
        return BadArg, cause;
      }
      CallClear(c.out);
      if inActive && !nb {
        return BadArg, cause;
      }
      if inActive {
        if !Names(c) {
          return BadArg, cause;
        }
      } else {
        rc := CallCheck(c);
        if rc != Ok {
          CheckCodes(c);
          return rc, cause;
        }
        rc := Begin(c, nb);
        if rc != Ok {
          return rc, cause;
        }
      }
      rc, cause := Send(c, nb);
    }

    /** Send or continue the request in flight, then parse the reply and end it. */
    method Send(c: ScepCall, nb: bool) returns (rc: Rc, ghost cause: Cause)
      requires http.Valid() && inActive && c.out != null && Names(c) && inReq == inPrepared.request
      requires nb ==> !inSigner.Borrowed? && !inBundle.Borrowed?
      requires http.resp == null
            || (http.resp == inResp && nb && http.request == RequestBytes() && http.headRequest == inReq.isHead
                && inReq.head.Made?)
      modifies this, http, http.conn, inResp, c.out
      ensures Valid()
      ensures inActive ==> && http.Waits(rc, old(http.conn.at)) && nb && Names(c) && http.log == old(http.log)
                           && inSigner == old(inSigner) && inBundle == old(inBundle) && inPrepared == old(inPrepared)
      ensures !inActive && http.log == old(http.log) ==>
                http.Unanswered(rc, cause, old(inReq), nb, old(http.closed), old(http.conn.at), |old(http.conn.asked)|)
      ensures http.log != old(http.log) ==>
                && !inActive && |http.log| == |old(http.log)| + 1 && http.log[..|old(http.log)|] == old(http.log)
                && Carried(http.log[|old(http.log)|], old(inReq)) && http.conn.sent == AllSent(http.log)
                && var answer := http.Answered(http.log[|old(http.log)|]);
                && var p := ScepFinish(foreign, c.op, c.enc, answer, old(HeldBasis()));
                && rc == p.rc && (p.data.Some? ==> c.out.data == p.data)
                && c.out.status == p.status && c.out.failInfo == p.failInfo
                && (old(c.out.Shown()) == CLEARED ==>
                      Told(foreign, c.op, c.enc, answer, old(HeldBasis()), rc, c.out.Shown()))
      ensures http.log == old(http.log) ==> unchanged(c.out)
    {
      hide Session.Valid, AllSent, Expect, ScepFinish, CallCheck, Session.Failure, Told;
      rc, cause := http.Call(inReq, inResp, nb);
      if nb && rc.Want() {
        return;
      }
      if rc == Ok {
        rc := Deliver(c);
      }
      Reset();
    }

    ghost function RequestBytes(): Bytes
      reads this
    {
      if inReq.head.Made? then inReq.head.value + inReq.body else []
    }
  }

  /**
   * What a new call's reply is judged against: the certificate the call brings, or one made from the CSR when it
   * brings none, and its bundle; and that is also what its request is made from.
   */
  lemma BasisIs(s: ScepSession, c: ScepCall, b: Basis)
    requires s.NewBasis(c) == Made(b)
    ensures SigningKey in Needs(c.op) ==>
              if c.cert != null then b.signer == c.cert[..] else Made(b.signer) == s.foreign.selfSigned(c.csr)
    ensures TrustBundle in Needs(c.op) && c.bundle != null ==> b.bundle == c.bundle[..]
    ensures SigningKey !in Needs(c.op) ==> b.signer == []
    ensures TrustBundle !in Needs(c.op) ==> b.bundle == []
    ensures s.foreign.prepare(Ask(c.op, b.signer, b.bundle, c.raCert, c.csr, c.txid, c.serial, c.entropy))
            == Made(b.prepared)
  {}

  lemma CheckCodes(c: ScepCall)
    ensures CallCheck(c) == Ok || CallCheck(c) == BadArg || CallCheck(c) == Unsupported
  {}
}
