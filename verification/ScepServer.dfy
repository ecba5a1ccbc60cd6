/** The SCEP server's manual-approval queue and its registry of issued certificates. */
module ScepServer {
  import opened Bytes
  import opened ApprovalTrace
  import opened IssuerAnd
  import Der

  const ISSUED_MAX := 16

  /** A request held for approval; the server owns its copies. */
  datatype Pending = Pending(tid: Bytes, entry: Entry, polls: nat)

  datatype Minting = Minted(cert: Bytes) | NoMemory | Refused

  /** What happens outside the server while it handles one message; `mint` is what the CA makes of a CSR. */
  datatype Luck = Luck(keyMemory: bool, resendMemory: bool, caLoads: bool, verifyMemory: bool, queueMemory: bool,
                       nameMemory: bool, mint: Bytes -> Minting, registryMemory: bool, sends: bool) {
    /** Nothing but a lack of room for it keeps a message from its proper answer. */
    predicate Calm() { keyMemory && resendMemory && caLoads && verifyMemory && nameMemory && sends }
  }

  datatype Reply = ServerError | FailureRep(failInfo: nat) | PendingRep | SuccessRep(cert: Bytes, to: Bytes)

  const BAD_REQUEST := 2
  const BAD_CERT_ID := 4

  datatype Kind = Enroll(renewal: bool) | Poll | Fetch | OtherKind

  /** A pkiMessage after its signature and envelope were opened. */
  datatype Message = Message(kind: Kind, payload: Bytes, signer: Option<Bytes>, tid: Bytes, luck: Luck)

  /** A CertRep that cannot be built or signed is a plain server error instead. */
  function Sent(luck: Luck, reply: Reply): Reply { if luck.sends then reply else ServerError }

  datatype Check = Pass | AuthError | ParseError | MemoryError | CryptoError

  // --- the queue as a list of entries with distinct IDs ---------------------------------

  ghost predicate HasTid(items: seq<Pending>, t: Bytes) {
    exists i :: 0 <= i < |items| && items[i].tid == t
  }

  ghost predicate Distinct(items: seq<Pending>) {
    forall i, j | 0 <= i < j < |items| :: items[i].tid != items[j].tid
  }

  ghost predicate Mapped(items: seq<Pending>, q: map<Bytes, Entry>) {
    forall i | 0 <= i < |items| :: items[i].tid in q && q[items[i].tid] == items[i].entry
  }

  ghost predicate Covers(items: seq<Pending>, q: map<Bytes, Entry>) {
    forall t | t in q :: HasTid(items, t)
  }

  ghost predicate Listed(items: seq<Pending>, q: map<Bytes, Entry>) {
    |items| == |q| && Distinct(items) && Mapped(items, q) && Covers(items, q)
  }

  lemma ListedAdd(items: seq<Pending>, q: map<Bytes, Entry>, p: Pending)
    requires Listed(items, q) && p.tid !in q
    ensures Listed(items + [p], q[p.tid := p.entry])
  {
    hide HasTid;
    var more, q' := items + [p], q[p.tid := p.entry];
    assert q'.Keys == q.Keys + {p.tid};
    forall t | t in q'
      ensures HasTid(more, t)
    {
      if t == p.tid { Has(more, |items|); }
      else {
        var i := Index(items, t);
        Has(more, i);
      }
    }
  }

  lemma Has(items: seq<Pending>, i: nat)
    requires i < |items|
    ensures HasTid(items, items[i].tid)
  {}

  lemma Index(items: seq<Pending>, t: Bytes) returns (i: nat)
    requires HasTid(items, t)
    ensures i < |items| && items[i].tid == t
  {
    i :| 0 <= i < |items| && items[i].tid == t;
  }

  /** Removing by moving the last entry into the gap. */
  function SwapRemove(items: seq<Pending>, idx: nat): (r: seq<Pending>)
    requires idx < |items|
    ensures |r| == |items| - 1 && forall i | 0 <= i < |r| :: r[i] == if i == idx then items[|items| - 1] else items[i]
  {
    items[idx := items[|items| - 1]][..|items| - 1]
  }

  lemma ListedRemove(items: seq<Pending>, q: map<Bytes, Entry>, idx: nat)
    requires Listed(items, q) && idx < |items|
    ensures Listed(SwapRemove(items, idx), q - {items[idx].tid})
  {
    hide HasTid, Distinct, SwapRemove, Mapped, Covers;
    var tid := items[idx].tid;
    assert tid in q by { MappedAt(items, q, idx); }
    assert (q - {tid}).Keys == q.Keys - {tid};
    RemoveDistinct(items, idx);
    RemoveMapped(items, q, idx);
    RemoveCovers(items, q, idx);
  }

  lemma MappedAt(items: seq<Pending>, q: map<Bytes, Entry>, i: nat)
    requires Mapped(items, q) && i < |items|
    ensures items[i].tid in q && q[items[i].tid] == items[i].entry
  {}

  lemma DistinctAt(items: seq<Pending>, i: nat, j: nat)
    requires Distinct(items) && i < |items| && j < |items| && i != j
    ensures items[i].tid != items[j].tid
  {}

  lemma RemoveDistinct(items: seq<Pending>, idx: nat)
    requires Distinct(items) && idx < |items|
    ensures Distinct(SwapRemove(items, idx))
  {
    hide SwapRemove;
  }

  lemma RemoveMapped(items: seq<Pending>, q: map<Bytes, Entry>, idx: nat)
    requires Mapped(items, q) && Distinct(items) && idx < |items|
    ensures Mapped(SwapRemove(items, idx), q - {items[idx].tid})
  {
    hide SwapRemove, Distinct;
    var less := SwapRemove(items, idx);
    forall i | 0 <= i < |less|
      ensures less[i].tid in q - {items[idx].tid} && q[less[i].tid] == less[i].entry
    {
      var k := if i == idx then |items| - 1 else i;
      DistinctAt(items, k, idx);
    }
  }

  lemma RemoveCovers(items: seq<Pending>, q: map<Bytes, Entry>, idx: nat)
    requires Covers(items, q) && idx < |items|
    ensures Covers(SwapRemove(items, idx), q - {items[idx].tid})
  {
    hide SwapRemove, HasTid;
    var less := SwapRemove(items, idx);
    forall t | t in q - {items[idx].tid}
      ensures HasTid(less, t)
    {
      var i := Index(items, t);
      Has(less, if i == |items| - 1 then idx else i);
    }
  }

  /** The newest `n` of a sequence. */
  function Newest<T>(s: seq<T>, n: nat): seq<T> {
    if |s| <= n then s else s[|s| - n..]
  }

  lemma NewestOn<T>(s: seq<T>, x: T, n: nat)
    requires n > 0
    ensures Newest(Newest(s, n) + [x], n) == Newest(s + [x], n)
  {}

  // --- what one message does to the history ------------------------------------------------

  /** Whom a reply to an enrolment is for. */
  function SignerOf(c: Crypto, signer: Option<Bytes>): Bytes { if signer.Some? then signer.value else c.caCert }

  function BindingOf(renewal: bool, signer: Option<Bytes>): Binding {
    if renewal then RenewalSigner else if signer.Some? then CsrKeySigner else NoSigner
  }

  /** The payload of a poll is the name of this CA and the subject of the parked CSR. */
  predicate PollNames(c: Crypto, ias: Bytes, e: Entry) {
    && c.caName != [] && c.csrSubject(e.csr).Some?
    && ParseIssuerAndSubject(ias) == Some((c.caName, c.csrSubject(e.csr).value))
  }

  /** The event is about this message, and an issue has the certificate the CA minted for exactly its CSR. */
  ghost predicate About(c: Crypto, lookup: bool, m: Message, q: map<Bytes, Entry>, ev: Event) {
    && (ev.Issue() ==> m.luck.mint(ev.csr) == Minted(ev.cert) && ev.kept == (lookup && m.luck.registryMemory))
    && match m.kind
       case Enroll(renewal) =>
         || ev == Parked(m.tid, Entry(m.payload, SignerOf(c, m.signer)), BindingOf(renewal, m.signer))
         || (ev.IssuedDirectly? && ev.csr == m.payload)
       case Poll =>
         && m.tid in q && m.signer.Some? && PollNames(c, m.payload, q[m.tid])
         && ((ev.IssuedOnPoll? && ev.tid == m.tid && ev.csr == q[m.tid].csr && ev.pollSigner == m.signer.value) ||
             (ev == Released(m.tid) && m.luck.mint(q[m.tid].csr).Refused?))
       case _ => false
  }

  /** Whom a new certificate is for: the signer of an enrolment, or the one that parked what a poll releases. */
  ghost function Recipient(c: Crypto, m: Message, q: map<Bytes, Entry>): Bytes {
    if m.kind.Poll? && m.tid in q then q[m.tid].signer else SignerOf(c, m.signer)
  }

  /** What one message may add to the history, and what a new certificate sent for it is. */
  ghost predicate Answers(c: Crypto, lookup: bool, m: Message, reply: Reply, before: seq<Event>, after: seq<Event>) {
    && (after == before ||
        (before < after && |after| == |before| + 1 && About(c, lookup, m, Queue(before), after[|before|])))
    && (reply.SuccessRep? && (m.kind.Enroll? || m.kind.Poll?) ==>
          && |after| > |before| && after[|before|].Issue()
          && reply == SuccessRep(after[|before|].cert, Recipient(c, m, Queue(before))))
  }

  ghost predicate Marked(c: Crypto, lookup: bool, messages: seq<Message>, replies: seq<Reply>, trace: seq<Event>,
                         marks: seq<nat>) {
    && |replies| == |messages| && |marks| == |messages| + 1
    && (forall k | 0 <= k < |marks| :: marks[k] <= |trace|)
    && (forall k | 0 <= k < |messages| ::
          Answers(c, lookup, messages[k], replies[k], trace[..marks[k]], trace[..marks[k + 1]]))
  }

  /**
   * With approval on, message `k` of a run is answered with a new certificate only if it polls. An earlier event had
   * parked a CSR under its transactionID, by the key that signs the poll, and the poll names this CA and the subject
   * of that CSR; the certificate sent is the one the CA minted for exactly that CSR, and it goes to the signer that
   * parked it.
   */
  lemma CertificateWasApproved(c: Crypto, lookup: bool, messages: seq<Message>, replies: seq<Reply>,
                               trace: seq<Event>, marks: seq<nat>, k: nat)
    returns (j: nat)
    requires Safe(c, true, trace) && Marked(c, lookup, messages, replies, trace, marks) && k < |messages|
    requires replies[k].SuccessRep? && (messages[k].kind.Enroll? || messages[k].kind.Poll?)
    ensures messages[k].kind.Poll? && messages[k].signer.Some? && j < marks[k] < |trace| && trace[j].Parked?
    ensures ParkedSince(c, trace, j, marks[k], messages[k].tid, trace[j].entry)
    ensures SameKey(c, messages[k].signer.value, trace[j].entry.signer)
    ensures PollNames(c, messages[k].payload, trace[j].entry)
    ensures messages[k].luck.mint(trace[j].entry.csr) == Minted(replies[k].cert)
    ensures replies[k].to == trace[j].entry.signer
  {
    hide Safe, Queue, ParkedSince, PollNames;
    var m, before, after := messages[k], trace[..marks[k]], trace[..marks[k + 1]];
    assert Answers(c, lookup, m, replies[k], before, after);
    assert trace[marks[k]] == after[|before|];
    j := IssueNeedsApproval(c, trace, marks[k]);
    ParkedAt(c, trace, j, marks[k], m.tid, trace[j].entry);
  }

  lemma ParkedAt(c: Crypto, t: seq<Event>, j: nat, i: nat, tid: Bytes, e: Entry)
    requires ParkedSince(c, t, j, i, tid, e)
    ensures tid in Queue(t[..i]) && Queue(t[..i])[tid] == e
  {
    hide Queue, Bound;
  }

  lemma MarkedOn(c: Crypto, lookup: bool, messages: seq<Message>, replies: seq<Reply>, before: seq<Event>,
                 marks: seq<nat>, r: Reply, after: seq<Event>, i: nat)
    requires i < |messages| && before <= after && Marked(c, lookup, messages[..i], replies, before, marks)
    requires marks[i] == |before| && Answers(c, lookup, messages[i], r, before, after)
    ensures Marked(c, lookup, messages[..i + 1], replies + [r], after, marks + [|after|])
  {
    hide Answers;
    var ms, rs, ks := messages[..i + 1], replies + [r], marks + [|after|];
    forall k | 0 <= k < i + 1
      ensures Answers(c, lookup, ms[k], rs[k], after[..ks[k]], after[..ks[k + 1]])
    {
      if k < i {
        assert after[..ks[k]] == before[..marks[k]] && after[..ks[k + 1]] == before[..marks[k + 1]];
        assert ms[k] == messages[..i][k];
      } else {
        assert after[..ks[k]] == before && after[..ks[k + 1]] == after;
      }
    }
  }

  /** With lookup on and memory for it, every certificate of a run was taken into the registry. */
  lemma {:induction false} RunIsTaken(c: Crypto, messages: seq<Message>, replies: seq<Reply>, trace: seq<Event>,
                                      marks: seq<nat>, n: nat)
    requires Marked(c, true, messages, replies, trace, marks) && n <= |messages|
    requires forall k | 0 <= k < |messages| :: messages[k].luck.registryMemory
    ensures marks[0] <= marks[n] && forall i | marks[0] <= i < marks[n] && trace[i].Issue() :: trace[i].kept
  {
    hide Queue, Safe;
    if n > 0 {
      RunIsTaken(c, messages, replies, trace, marks, n - 1);
      var before, after := trace[..marks[n - 1]], trace[..marks[n]];
      assert Answers(c, true, messages[n - 1], replies[n - 1], before, after);
      assert |after| > |before| ==> after[|before|] == trace[marks[n - 1]];
    }
  }

  class Server {
    const crypto: Crypto
    const requireApproval: bool
    const enableGetCert: bool
    var items: seq<Pending>
    var issued: seq<Bytes>

    ghost var trace: seq<Event>

    ghost predicate Valid()
      reads this
    {
      && Listed(items, Queue(trace)) && Safe(crypto, requireApproval, trace)
      && issued == Newest(Taken(trace), ISSUED_MAX)
    }

    constructor (crypto: Crypto, requireApproval: bool, enableGetCert: bool)
      ensures Valid() && trace == []
    {
      this.crypto, this.requireApproval, this.enableGetCert := crypto, requireApproval, enableGetCert;
      items, issued, trace := [], [], [];
    }

    method PendingFind(tid: Bytes) returns (idx: Option<nat>)
      requires Valid()
      ensures idx.Some? <==> tid in Queue(trace)
      ensures idx.Some? ==>
                idx.value < |items| && items[idx.value].tid == tid && items[idx.value].entry == Queue(trace)[tid]
    {
      hide Safe, Queue;
      for i := 0 to |items|
        invariant forall j | 0 <= j < i :: items[j].tid != tid
      {
        if items[i].tid == tid {
          MappedAt(items, Queue(trace), i);
          return Some(i);
        }
      }
      return None;
    }

    method PendingAdd(tid: Bytes, e: Entry, memory: bool) returns (ok: bool)
      requires Listed(items, Queue(trace)) && tid !in Queue(trace)
      modifies this`items
      ensures ok == (|old(items)| < PENDING_MAX && memory)
      ensures items == if ok then old(items) + [Pending(tid, e, 0)] else old(items)
    {
      if |items| >= PENDING_MAX {
        return false;
      }
      if !memory {
        return false;
      }
      items := items + [Pending(tid, e, 0)];
      return true;
    }

    method PendingRemove(idx: nat)
      modifies this`items
      ensures items == if idx < |old(items)| then SwapRemove(old(items), idx) else old(items)
    {
      if idx >= |items| {
        return;
      }
      if idx != |items| - 1 {
        items := items[idx := items[|items| - 1]];
      }
      items := items[..|items| - 1];
    }

    /** Keep a copy of the certificate, dropping the oldest once full. */
    method IssuedRecord(cert: Bytes)
      requires |issued| <= ISSUED_MAX
      modifies this`issued
      ensures issued == Newest(old(issued) + [cert], ISSUED_MAX)
    {
      if |issued| == ISSUED_MAX {
        issued := issued[1..];
      }
      issued := issued + [cert];
    }

    method IssuedFind(serial: Bytes) returns (hit: Option<Bytes>)
      ensures hit.Some? ==> hit.value in issued && crypto.certSerial(hit.value) == Some(serial) && serial != []
      ensures hit.None? ==> forall c | c in issued :: crypto.certSerial(c) != Some(serial) || serial == []
    {
      for i := 0 to |issued|
        invariant forall j | 0 <= j < i :: crypto.certSerial(issued[j]) != Some(serial) || serial == []
      {
        var s := crypto.certSerial(issued[i]);
        if s.Some? && |s.value| > 0 && s.value == serial {
          return Some(issued[i]);
        }
      }
      return None;
    }

    /** Whether two keys match, as far as memory allows to tell. */
    static function KeysMatch(a: Option<Bytes>, b: Option<Bytes>, memory: bool): Check {
      if !memory then MemoryError
      else if a.None? || b.None? then ParseError
      else if a == b then Pass else AuthError
    }

    /** The signer check of an enrolment. */
    function SignerCheck(renewal: bool, csr: Bytes, signer: Option<Bytes>, luck: Luck): Check {
      if renewal then
        if signer.None? then AuthError
        else if !luck.keyMemory then MemoryError
        else if !luck.caLoads then CryptoError
        else if crypto.issuedByCa(signer.value) then Pass else AuthError
      else if signer.Some? then KeysMatch(crypto.certKey(signer.value), crypto.csrKey(csr), luck.keyMemory)
      else Pass
    }

    /** Whether a resent request is the parked one, from the signer that parked it. */
    function ResendCheck(e: Entry, csr: Bytes, signer: Option<Bytes>, luck: Luck): Check {
      if signer.None? then AuthError
      else
        var k := KeysMatch(crypto.certKey(signer.value), crypto.certKey(e.signer), luck.resendMemory);
        if k == Pass && csr != e.csr then AuthError else k
    }

    /** Have the CA mint for `csr` and answer; `did` once it has issued, whatever became of the reply. */
    method IssueAndReply(csr: Bytes, to: Bytes, luck: Luck) returns (reply: Reply, did: bool)
      requires |issued| <= ISSUED_MAX
      modifies this`issued
      ensures did == luck.mint(csr).Minted?
      ensures reply == match luck.mint(csr)
                       case NoMemory => ServerError
                       case Refused => Sent(luck, FailureRep(BAD_REQUEST))
                       case Minted(cert) => Sent(luck, SuccessRep(cert, to))
      ensures issued == if did && enableGetCert && luck.registryMemory
                        then Newest(old(issued) + [luck.mint(csr).cert], ISSUED_MAX) else old(issued)
    {
      match luck.mint(csr) {
        case NoMemory => return ServerError, false;
        case Refused => return Sent(luck, FailureRep(BAD_REQUEST)), false;
        case Minted(cert) =>
          if enableGetCert && luck.registryMemory {
            IssuedRecord(cert);
          }
          return Sent(luck, SuccessRep(cert, to)), true;
      }
    }

    /** Whether the registry takes a certificate minted under `luck`. */
    ghost function Kept(luck: Luck): bool { enableGetCert && luck.registryMemory }

    /**
     * A request that knows the challenge, signed by a certificate of this CA to renew it, or by the key it asks a
     * certificate for, or by nobody.
     */
    predicate Admitted(renewal: bool, csr: Bytes, signer: Option<Bytes>, luck: Luck) {
      && crypto.challengeOk(csr)
      && if renewal then signer.Some? && crypto.issuedByCa(signer.value) && luck.keyMemory && luck.caLoads
         else
           signer.Some? ==>
             luck.keyMemory && crypto.csrKey(csr).Some? && crypto.certKey(signer.value) == crypto.csrKey(csr)
    }

    lemma AdmittedIs(renewal: bool, csr: Bytes, signer: Option<Bytes>, luck: Luck)
      ensures Admitted(renewal, csr, signer, luck) <==>
              SignerCheck(renewal, csr, signer, luck) == Pass && crypto.challengeOk(csr)
    {}

    /** The parked request itself, sent again by the key that parked it. */
    predicate Resent(e: Entry, csr: Bytes, signer: Option<Bytes>) {
      csr == e.csr && signer.Some? && SameKey(crypto, signer.value, e.signer)
    }

    /** What an enrolment does to the history, and how it is answered. */
    ghost predicate Enrolled(renewal: bool, csr: Bytes, signer: Option<Bytes>, tid: Bytes, luck: Luck,
                             before: seq<Event>, after: seq<Event>, reply: Reply) {
      && (reply.FailureRep? ==> reply == FailureRep(2))
      && (luck.Calm() && (requireApproval || !luck.mint(csr).NoMemory?) ==> reply != ServerError)
      && if requireApproval then
           var q := Queue(before);
           var verified := Admitted(renewal, csr, signer, luck) && luck.verifyMemory && crypto.csrVerifies(csr);
           var parks := verified && tid !in q && |q| < 16 && luck.queueMemory;
           var again := verified && tid in q && luck.resendMemory && Resent(q[tid], csr, signer);
           var entry := Entry(csr, SignerOf(crypto, signer));
           && after == before + (if parks then [Parked(tid, entry, BindingOf(renewal, signer))] else [])
           && !reply.SuccessRep? && (reply == PendingRep <==> luck.sends && (parks || again))
         else if Admitted(renewal, csr, signer, luck) && luck.mint(csr).Minted? then
           var cert := luck.mint(csr).cert;
           && after == before + [IssuedDirectly(csr, cert, Kept(luck))]
           && reply == Sent(luck, SuccessRep(cert, SignerOf(crypto, signer)))
         else after == before && (reply.FailureRep? || reply.ServerError?)
    }

    /**
     * PKCSReq or RenewalReq. With approval on nothing is issued: a new request is parked when it passes every check
     * and there is room, and PENDING also answers the parking signer's resend of the same CSR. Otherwise the CA is
     * given exactly this CSR.
     */
    method HandleEnroll(renewal: bool, csr: Bytes, signer: Option<Bytes>, tid: Bytes, luck: Luck) returns (reply: Reply)
      requires Valid()
      modifies this
      ensures Valid()
      ensures Enrolled(renewal, csr, signer, tid, luck, old(trace), trace, reply)
      ensures requireApproval ==> issued == old(issued)
    {
      hide Listed, Safe, Queue, Taken, Newest, Enrolled, Admitted;
      AdmittedIs(renewal, csr, signer, luck);
      var mrc := SignerCheck(renewal, csr, signer, luck);
      if mrc == MemoryError || mrc == CryptoError {
        TurnedAway(renewal, csr, signer, tid, luck, trace, ServerError);
        return ServerError;
      }
      if mrc != Pass || !crypto.challengeOk(csr) {
        reply := Sent(luck, FailureRep(BAD_REQUEST));
        TurnedAway(renewal, csr, signer, tid, luck, trace, reply);
        return;
      }
      if requireApproval {
        reply := Park(renewal, csr, signer, tid, luck);
      } else {
        reply := IssueAtOnce(renewal, csr, signer, tid, luck);
      }
    }

    lemma TurnedAway(renewal: bool, csr: Bytes, signer: Option<Bytes>, tid: Bytes, luck: Luck, t: seq<Event>,
                     reply: Reply)
      requires !Admitted(renewal, csr, signer, luck)
      requires var mrc := SignerCheck(renewal, csr, signer, luck);
               reply == if mrc == MemoryError || mrc == CryptoError then ServerError
                        else Sent(luck, FailureRep(BAD_REQUEST))
      ensures Enrolled(renewal, csr, signer, tid, luck, t, t, reply)
    {
      hide Queue;
    }

    /** Without approval the CA is given the CSR right away. */
    method IssueAtOnce(renewal: bool, csr: Bytes, signer: Option<Bytes>, tid: Bytes, luck: Luck) returns (reply: Reply)
      requires Valid() && !requireApproval && Admitted(renewal, csr, signer, luck)
      modifies this
      ensures Valid() && Enrolled(renewal, csr, signer, tid, luck, old(trace), trace, reply)
    {
      hide Listed, Safe, Queue, Taken, Newest, Resent, Admitted;
      NewestBound(Taken(trace), ISSUED_MAX);
      var did;
      reply, did := IssueAndReply(csr, SignerOf(crypto, signer), luck);
      if did {
        ghost var ev := IssuedDirectly(csr, luck.mint(csr).cert, Kept(luck));
        Extends(crypto, requireApproval, trace, ev);
        QueueAfter(trace, ev);
        TakenAfter(trace, ev);
        NewestOn(Taken(trace), ev.cert, ISSUED_MAX);
        trace := trace + [ev];
      }
    }

    method Park(renewal: bool, csr: Bytes, signer: Option<Bytes>, tid: Bytes, luck: Luck) returns (reply: Reply)
      requires Valid() && requireApproval && Admitted(renewal, csr, signer, luck)
      modifies this`items, this`trace
      ensures Valid() && Enrolled(renewal, csr, signer, tid, luck, old(trace), trace, reply)
    {
      hide Safe, Queue, Listed, Taken, Newest, Admitted;
      if !luck.verifyMemory {
        return ServerError;
      }
      if !crypto.csrVerifies(csr) {
        return Sent(luck, FailureRep(BAD_REQUEST));
      }
      assert |items| == |Queue(trace)| by { ListedParts(items, Queue(trace)); }
      var at := PendingFind(tid);
      if at.None? {
        var ok := ParkNew(renewal, csr, signer, tid, luck);
        if !ok {
          return Sent(luck, FailureRep(BAD_REQUEST));
        }
      } else {
        var krc := ResendCheck(items[at.value].entry, csr, signer, luck);
        if krc == MemoryError {
          return ServerError;
        }
        if krc != Pass {
          return Sent(luck, FailureRep(BAD_REQUEST));
        }
      }
      return Sent(luck, PendingRep);
    }

    method ParkNew(renewal: bool, csr: Bytes, signer: Option<Bytes>, tid: Bytes, luck: Luck) returns (ok: bool)
      requires Valid() && Admitted(renewal, csr, signer, luck) && crypto.csrVerifies(csr) && tid !in Queue(trace)
      modifies this`items, this`trace
      ensures Valid() && ok == (|old(Queue(trace))| < PENDING_MAX && luck.queueMemory)
      ensures trace == if !ok then old(trace) else
                       old(trace) + [Parked(tid, Entry(csr, SignerOf(crypto, signer)), BindingOf(renewal, signer))]
    {
      hide Safe, Queue, Listed, Taken, Newest;
      var e := Entry(csr, SignerOf(crypto, signer));
      ghost var ev := Parked(tid, e, BindingOf(renewal, signer));
      ghost var before := items;
      assert |before| == |Queue(trace)| by { ListedParts(before, Queue(trace)); }
      ok := PendingAdd(tid, e, luck.queueMemory);
      if ok {
        ListedAdd(before, Queue(trace), Pending(tid, e, 0));
        Extends(crypto, requireApproval, trace, ev);
        QueueAfter(trace, ev);
        TakenAfter(trace, ev);
        trace := trace + [ev];
      }
    }

    /** A name was parsed out of the payload, so it is compared with the CA's. */
    static predicate NamesSomeCa(parsed: Option<(Bytes, Bytes)>) {
      parsed.Some? && parsed.value.0 != []
    }

    /** 1 when the payload names this CA and the parked CSR's subject. */
    function NamesEntry(ias: Bytes, e: Entry): bool {
      match ParseIssuerAndSubject(ias)
      case None => false
      case Some((issuer, subject)) =>
        issuer != [] && issuer == crypto.caName && crypto.csrSubject(e.csr) == Some(subject)
    }

    lemma NamesEntryIs(ias: Bytes, e: Entry)
      ensures NamesEntry(ias, e) <==> PollNames(crypto, ias, e)
    {
      hide ParseIssuerAndSubject;
    }

    /** The poll that may release a parked request: it names it, and the key that parked it signed it. */
    predicate MayRelease(q: map<Bytes, Entry>, ias: Bytes, signer: Option<Bytes>, tid: Bytes) {
      tid in q && PollNames(crypto, ias, q[tid]) && signer.Some? && SameKey(crypto, signer.value, q[tid].signer)
    }

    /** What a poll does to the history, and how it is answered. */
    ghost predicate Polled(ias: Bytes, signer: Option<Bytes>, tid: Bytes, luck: Luck,
                           before: seq<Event>, after: seq<Event>, reply: Reply) {
      var q := Queue(before);
      if MayRelease(q, ias, signer, tid) && luck.nameMemory && luck.keyMemory then
        match luck.mint(q[tid].csr)
        case NoMemory => reply == ServerError && after == before
        case Refused => reply == Sent(luck, FailureRep(2)) && after == before + [Released(tid)]
        case Minted(cert) =>
          && after == before + [IssuedOnPoll(tid, q[tid].csr, signer.value, cert, Kept(luck))]
          && reply == Sent(luck, SuccessRep(cert, q[tid].signer))
      else
        && after == before && (reply == FailureRep(4) || reply == ServerError)
        && (luck.nameMemory && luck.keyMemory ==> reply == Sent(luck, FailureRep(4)))
    }

    /**
     * GetCertInitial. A poll that may release its request has the CA mint for exactly the parked CSR and ends its
     * stay, unless memory ran out before issuing; every other poll leaves the queue as it was.
     */
    method HandleGetCertInitial(ias: Bytes, signer: Option<Bytes>, tid: Bytes, luck: Luck) returns (reply: Reply)
      requires Valid()
      modifies this
      ensures Valid()
      ensures Polled(ias, signer, tid, luck, old(trace), trace, reply)
    {
      hide Safe, Queue, Listed, ParseIssuerAndSubject, Taken, Newest;
      var at := PendingFind(tid);
      var named := at.Some? && NamesEntry(ias, items[at.value].entry);
      if at.Some? {
        NamesEntryIs(ias, items[at.value].entry);
      }
      if at.Some? && NamesSomeCa(ParseIssuerAndSubject(ias)) && !luck.nameMemory {
        return ServerError;
      }
      if !named {
        return Sent(luck, FailureRep(BAD_CERT_ID));
      }
      var e := items[at.value].entry;
      var mrc := if signer.None? then AuthError
                 else KeysMatch(crypto.certKey(signer.value), crypto.certKey(e.signer), luck.keyMemory);
      if mrc == MemoryError {
        return ServerError;
      }
      if mrc != Pass {
        return Sent(luck, FailureRep(BAD_CERT_ID));
      }
      reply := Release(at.value, signer.value, luck);
    }

    method Release(idx: nat, signer: Bytes, luck: Luck) returns (reply: Reply)
      requires Valid() && idx < |items| && SameKey(crypto, signer, items[idx].entry.signer)
      modifies this
      ensures Valid()
      ensures var p := old(items)[idx];
              match luck.mint(p.entry.csr)
              case NoMemory => reply == ServerError && trace == old(trace)
              case Refused => reply == Sent(luck, FailureRep(BAD_REQUEST)) && trace == old(trace) + [Released(p.tid)]
              case Minted(cert) =>
                && trace == old(trace) + [IssuedOnPoll(p.tid, p.entry.csr, signer, cert, Kept(luck))]
                && reply == Sent(luck, SuccessRep(cert, p.entry.signer))
    {
      hide Safe, Queue, SameKey, Listed, SwapRemove, Taken, Newest;
      var p := items[idx];
      assert Mapped(items, Queue(trace)) by { ListedParts(items, Queue(trace)); }
      MappedAt(items, Queue(trace), idx);
      ghost var q := Queue(trace);
      PolledStaysListed(items, q, idx);
      items := items[idx := p.(polls := p.polls + 1)];
      NewestBound(Taken(trace), ISSUED_MAX);
      var did;
      reply, did := IssueAndReply(p.entry.csr, p.entry.signer, luck);
      if luck.mint(p.entry.csr).NoMemory? {
        return reply;
      }
      ListedRemove(items, q, idx);
      PendingRemove(idx);
      ghost var ev := if did then IssuedOnPoll(p.tid, p.entry.csr, signer, luck.mint(p.entry.csr).cert, Kept(luck))
                      else Released(p.tid);
      Extends(crypto, requireApproval, trace, ev);
      QueueAfter(trace, ev);
      TakenAfter(trace, ev);
      if did {
        NewestOn(Taken(trace), ev.cert, ISSUED_MAX);
      }
      trace := trace + [ev];
    }

    /** How a request for a certificate is answered while the registry holds `held`. */
    ghost predicate Fetched(ias: Bytes, to: Option<Bytes>, luck: Luck, held: seq<Bytes>, reply: Reply) {
      if to == None || to == Some([]) then reply == Sent(luck, FailureRep(BAD_REQUEST))
      else
        && (reply.SuccessRep? ==> to == Some(reply.to) && reply.cert in held && AsksFor(ias, reply.cert))
        && (reply.SuccessRep? || reply == FailureRep(4) || reply == ServerError)
        && (luck.nameMemory && luck.sends ==>
              reply != ServerError && (reply.SuccessRep? <==> exists c :: c in held && AsksFor(ias, c)))
    }

    /** GetCert: the newest certificates by issuer and serial. */
    method HandleGetCert(ias: Bytes, to: Option<Bytes>, luck: Luck) returns (reply: Reply)
      requires Valid()
      ensures Fetched(ias, to, luck, issued, reply)
    {
      hide ParseIssuerAndSerial, Listed, Safe, Queue;
      if to.None? || to.value == [] {
        return Sent(luck, FailureRep(BAD_REQUEST));
      }
      var asked := ParseIssuerAndSerial(ias);
      var named := asked.Some? && asked.value.0 != [] && asked.value.0 == crypto.caName;
      if NamesSomeCa(asked) && !luck.nameMemory {
        return ServerError;
      }
      var hit: Option<Bytes> := None;
      if named {
        hit := IssuedFind(asked.value.1);
      }
      if hit.None? {
        return Sent(luck, FailureRep(BAD_CERT_ID));
      }
      assert AsksFor(ias, hit.value);
      return Sent(luck, SuccessRep(hit.value, to.value));
    }

    /** What one message does, by its type, after the history `before`. */
    ghost predicate Handled(m: Message, before: seq<Event>, after: seq<Event>, reply: Reply) {
      match m.kind
      case Enroll(renewal) => Enrolled(renewal, m.payload, m.signer, m.tid, m.luck, before, after, reply)
      case Poll => Polled(m.payload, m.signer, m.tid, m.luck, before, after, reply)
      case Fetch =>
        && after == before
        && if enableGetCert then Fetched(m.payload, m.signer, m.luck, Newest(Taken(before), 16), reply)
           else reply == Sent(m.luck, FailureRep(BAD_REQUEST))
      case OtherKind => after == before && reply == Sent(m.luck, FailureRep(BAD_REQUEST))
    }

    /** One pkiMessage, by its message type. */
    method HandlePkiOp(m: Message) returns (reply: Reply)
      requires Valid()
      modifies this
      ensures Valid() && old(trace) <= trace && Handled(m, old(trace), trace, reply)
      ensures Answers(crypto, enableGetCert, m, reply, old(trace), trace)
    {
      hide Listed, Safe, Queue, Taken, Newest, AsksFor, PollNames, SignerCheck, SameKey, Admitted, Resent, Luck.Calm;
      match m.kind {
        case Enroll(renewal) =>
          reply := HandleEnroll(renewal, m.payload, m.signer, m.tid, m.luck);
        case Poll =>
          reply := HandleGetCertInitial(m.payload, m.signer, m.tid, m.luck);
        case Fetch =>
          if !enableGetCert {
            return Sent(m.luck, FailureRep(BAD_REQUEST));
          }
          reply := HandleGetCert(m.payload, m.signer, m.luck);
        case OtherKind =>
          reply := Sent(m.luck, FailureRep(BAD_REQUEST));
      }
    }

    /**
     * Any run of the server, whatever arrives in any order: the invariant holds throughout, and message `k` did
     * `trace[marks[k]..marks[k + 1]]`, at most one event, and exactly one when a new certificate answered it. Each
     * message is handled by its type, after what those before it did.
     */
    method Serve(messages: seq<Message>) returns (replies: seq<Reply>, ghost marks: seq<nat>)
      requires Valid()
      modifies this
      ensures Valid() && |replies| == |messages| && old(trace) <= trace
      ensures Marked(crypto, enableGetCert, messages, replies, trace, marks)
      ensures marks[0] == |old(trace)| && marks[|messages|] == |trace|
      ensures forall k | 0 <= k < |messages| ::
                Handled(messages[k], trace[..marks[k]], trace[..marks[k + 1]], replies[k])
    {
      hide Listed, Safe, Queue, Answers, Taken, Newest, Handled;
      replies, marks := [], [|trace|];
      assert messages[..0] == [];
      for i := 0 to |messages|
        invariant Valid() && |replies| == i && old(trace) <= trace
        invariant Marked(crypto, enableGetCert, messages[..i], replies, trace, marks)
        invariant marks[0] == |old(trace)| && marks[i] == |trace|
        invariant forall k | 0 <= k < i :: Handled(messages[k], trace[..marks[k]], trace[..marks[k + 1]], replies[k])
      {
        ghost var before := trace;
        var r := HandlePkiOp(messages[i]);
        HandledOn(messages, replies, before, marks, r, trace, i);
        MarkedOn(crypto, enableGetCert, messages, replies, before, marks, r, trace, i);
        replies := replies + [r];
        marks := marks + [|trace|];
      }
      assert messages[..|messages|] == messages;
    }

    lemma HandledOn(messages: seq<Message>, replies: seq<Reply>, before: seq<Event>, marks: seq<nat>, r: Reply,
                    after: seq<Event>, i: nat)
      requires i < |messages| && before <= after && |replies| == i && |marks| == i + 1 && marks[i] == |before|
      requires forall k | 0 <= k <= i :: marks[k] <= |before|
      requires forall k | 0 <= k < i :: Handled(messages[k], before[..marks[k]], before[..marks[k + 1]], replies[k])
      requires Handled(messages[i], before, after, r)
      ensures var rs, ks := replies + [r], marks + [|after|];
              forall k | 0 <= k <= i :: Handled(messages[k], after[..ks[k]], after[..ks[k + 1]], rs[k])
    {
      hide Handled;
      var rs, ks := replies + [r], marks + [|after|];
      forall k | 0 <= k <= i
        ensures Handled(messages[k], after[..ks[k]], after[..ks[k + 1]], rs[k])
      {
        if k < i {
          assert after[..ks[k]] == before[..marks[k]] && after[..ks[k + 1]] == before[..marks[k + 1]];
        } else {
          assert after[..ks[k]] == before && after[..ks[k + 1]] == after;
        }
      }
    }

    /** A message that does not release the entry parked under `tid` leaves it there. */
    lemma StaysParked(m: Message, before: seq<Event>, after: seq<Event>, reply: Reply, tid: Bytes, e: Entry)
      requires Handled(m, before, after, reply) && tid in Queue(before) && Queue(before)[tid] == e
      requires !PollBy(m, tid, e.signer)
      ensures tid in Queue(after) && Queue(after)[tid] == e
    {
      hide Queue, Admitted, Resent, Newest, PollNames, Luck.Calm, SameKey;
      if after != before {
        assert after == before + [after[|before|]];
        QueueAfter(before, after[|before|]);
      }
    }

    /** A poll for `tid` by the key of `signer`. */
    predicate PollBy(m: Message, tid: Bytes, signer: Bytes) {
      m.kind.Poll? && m.tid == tid && m.signer.Some? && SameKey(crypto, m.signer.value, signer)
    }

    lemma {:induction false} RunLeavesParked(messages: seq<Message>, replies: seq<Reply>, trace: seq<Event>,
                                             marks: seq<nat>, n: nat, tid: Bytes, e: Entry)
      requires n <= |messages| && |replies| == |messages| && |marks| == |messages| + 1
      requires forall k | 0 <= k < |marks| :: marks[k] <= |trace|
      requires forall k | 0 <= k < |messages| ::
                 Handled(messages[k], trace[..marks[k]], trace[..marks[k + 1]], replies[k])
      requires forall k | 0 <= k < |messages| :: !PollBy(messages[k], tid, e.signer)
      requires tid in Queue(trace[..marks[0]]) && Queue(trace[..marks[0]])[tid] == e
      ensures tid in Queue(trace[..marks[n]]) && Queue(trace[..marks[n]])[tid] == e
    {
      hide Queue, Handled, PollBy;
      if n > 0 {
        RunLeavesParked(messages, replies, trace, marks, n - 1, tid, e);
        StaysParked(messages[n - 1], trace[..marks[n - 1]], trace[..marks[n]], replies[n - 1], tid, e);
      }
    }

    /** An enrolment that every check lets pass: the challenge, the signer's binding, and the CSR's own signature. */
    predicate Proper(m: Message) {
      && m.kind.Enroll? && m.signer.Some? && crypto.challengeOk(m.payload) && crypto.csrVerifies(m.payload)
      && (if m.kind.renewal then crypto.issuedByCa(m.signer.value)
          else crypto.csrKey(m.payload).Some? && crypto.certKey(m.signer.value) == crypto.csrKey(m.payload))
    }

    /** A poll as a client writes it, for a request that `enroll` parked. */
    ghost predicate PollsFor(poll: Message, enroll: Message, subject: Bytes) {
      && enroll.signer.Some? && PollBy(poll, enroll.tid, enroll.signer.value)
      && crypto.caName != [] && crypto.csrSubject(enroll.payload) == Some(subject) && Fits(crypto.caName, subject)
      && poll.payload == Pair(crypto.caName, Der.SEQUENCE, subject)
    }

    /**
     * With approval on and room, a proper enrolment is answered PENDING. Whatever others send in between, its own
     * poll then gets the certificate that the CA mints for exactly its CSR.
     */
    method EnrollThenPoll(enroll: Message, between: seq<Message>, poll: Message, ghost subject: Bytes)
      returns (first: Reply, last: Reply)
      requires Valid() && requireApproval && enroll.tid !in Queue(trace) && |Queue(trace)| < 16
      requires Proper(enroll) && enroll.luck.Calm() && enroll.luck.queueMemory
      requires forall k | 0 <= k < |between| :: !PollBy(between[k], enroll.tid, enroll.signer.value)
      requires PollsFor(poll, enroll, subject) && poll.luck.Calm()
      modifies this
      ensures Valid() && first == PendingRep
      ensures match poll.luck.mint(enroll.payload)
              case Minted(cert) => last == SuccessRep(cert, enroll.signer.value)
              case Refused => last == FailureRep(2)
              case NoMemory => last == ServerError
    {
      hide Listed, Safe, Queue, Taken, Newest, Answers, Marked, Handled, Pair, Fits, Polled, Enrolled, PollNames;
      var e := Entry(enroll.payload, enroll.signer.value);
      ghost var before := trace;
      first := HandlePkiOp(enroll);
      ProperIsParked(enroll, before, trace, first);
      ghost var parked := trace;
      var replies;
      ghost var marks;
      replies, marks := Serve(between);
      ghost var ran := trace;
      RunBounds(between, replies, ran, marks);
      assert ran[..marks[0]] == parked && ran[..marks[|between|]] == ran;
      RunLeavesParked(between, replies, ran, marks, |between|, enroll.tid, e);
      ClientPollsFor(this, subject, e);
      last := HandlePkiOp(poll);
      PollIsGranted(poll, ran, trace, last, e);
    }

    lemma RunBounds(messages: seq<Message>, replies: seq<Reply>, trace: seq<Event>, marks: seq<nat>)
      requires Marked(crypto, enableGetCert, messages, replies, trace, marks)
      ensures |marks| == |messages| + 1 && |replies| == |messages| && forall k | 0 <= k < |marks| :: marks[k] <= |trace|
    {
      hide Answers;
    }

    lemma ProperIsParked(m: Message, before: seq<Event>, after: seq<Event>, reply: Reply)
      requires Handled(m, before, after, reply) && requireApproval && Proper(m) && m.luck.Calm() && m.luck.queueMemory
      requires m.tid !in Queue(before) && |Queue(before)| < 16
      ensures reply == PendingRep
      ensures m.tid in Queue(after) && Queue(after)[m.tid] == Entry(m.payload, m.signer.value)
    {
      hide Queue;
      var entry := Entry(m.payload, m.signer.value);
      QueueAfter(before, Parked(m.tid, entry, BindingOf(m.kind.renewal, m.signer)));
    }

    /**
     * Sent again while it is parked, the same CSR by the key that parked it is PENDING still; another CSR, or
     * another key, gets badRequest. Either way the queue stays as it was.
     */
    lemma ResendIsChecked(m: Message, before: seq<Event>, after: seq<Event>, reply: Reply, e: Entry)
      requires Handled(m, before, after, reply) && requireApproval && Proper(m) && m.luck.Calm()
      requires m.tid in Queue(before) && Queue(before)[m.tid] == e
      ensures after == before
      ensures m.payload == e.csr && SameKey(crypto, m.signer.value, e.signer) ==> reply == PendingRep
      ensures m.payload != e.csr || !SameKey(crypto, m.signer.value, e.signer) ==> reply == FailureRep(2)
    {
      hide Queue, SameKey;
    }

    lemma PollIsGranted(m: Message, before: seq<Event>, after: seq<Event>, reply: Reply, e: Entry)
      requires Handled(m, before, after, reply) && m.kind.Poll? && m.luck.Calm()
      requires m.tid in Queue(before) && Queue(before)[m.tid] == e && PollNames(crypto, m.payload, e)
      requires PollBy(m, m.tid, e.signer)
      ensures match m.luck.mint(e.csr)
              case Minted(cert) => reply == SuccessRep(cert, e.signer)
              case Refused => reply == FailureRep(2)
              case NoMemory => reply == ServerError
    {
      hide Queue, PollNames, SameKey;
    }

    /** A request for a certificate that nothing outside the registry keeps from being answered. */
    predicate Fetchable(m: Message) { m.signer.Some? && m.signer.value != [] && m.luck.nameMemory && m.luck.sends }

    /**
     * After any run with memory for the registry, asking for the serial of any of the last 16 certificates issued,
     * as a client encodes it, is answered with a certificate of that serial.
     */
    method ServeThenFetch(messages: seq<Message>, serial: Bytes, fetch: Message) returns (reply: Reply)
      requires Valid() && enableGetCert && crypto.caName != []
      requires forall k | 0 <= k < |messages| :: messages[k].luck.registryMemory
      requires serial != [] && Fits(crypto.caName, IntContent(serial))
      requires fetch.kind.Fetch? && Fetchable(fetch)
      requires fetch.payload == Pair(crypto.caName, Der.INTEGER, IntContent(serial))
      modifies this
      ensures Valid() && old(trace) <= trace
      ensures (exists cert :: cert in Newest(Certs(trace[|old(trace)|..]), 16) &&
                              crypto.certSerial(cert) == Some(Magnitude(serial))) ==>
                && reply.SuccessRep? && fetch.signer == Some(reply.to)
                && crypto.certSerial(reply.cert) == Some(Magnitude(serial))
    {
      hide Listed, Safe, Queue, Answers, Marked, Taken, Certs, Newest, ParseIssuerAndSerial, Pair, Fits, IntContent;
      ghost var from := |trace|;
      var replies;
      ghost var marks;
      replies, marks := Serve(messages);
      RecentAreHeld(crypto, messages, replies, trace, marks, from);
      ghost var was, held := trace, issued;
      forall cert
        ensures AsksFor(fetch.payload, cert) <==> crypto.certSerial(cert) == Some(Magnitude(serial))
      {
        ClientAsksForSerial(this, serial, cert);
      }
      reply := HandlePkiOp(fetch);
      assert trace == was by { FetchAddsNothing(crypto, enableGetCert, fetch, reply, was, trace); }
    }

    /** The request names this CA and the serial of `cert`. */
    predicate AsksFor(ias: Bytes, cert: Bytes) {
      match ParseIssuerAndSerial(ias)
      case None => false
      case Some((issuer, serial)) =>
        issuer != [] && issuer == crypto.caName && serial != [] && crypto.certSerial(cert) == Some(serial)
    }
  }

  lemma ListedParts(items: seq<Pending>, q: map<Bytes, Entry>)
    requires Listed(items, q)
    ensures |items| == |q| && Mapped(items, q)
  {}

  lemma PolledStaysListed(items: seq<Pending>, q: map<Bytes, Entry>, idx: nat)
    requires Listed(items, q) && idx < |items|
    ensures Listed(items[idx := items[idx].(polls := items[idx].polls + 1)], q)
  {
    hide HasTid;
    var more := items[idx := items[idx].(polls := items[idx].polls + 1)];
    assert forall i | 0 <= i < |items| :: more[i].tid == items[i].tid && more[i].entry == items[i].entry;
    forall t | t in q
      ensures HasTid(more, t)
    {
      var i := Index(items, t);
      Has(more, i);
    }
  }

  /**
   * A client that asks for a serial, however many zeros lead it, asks for
   * exactly the certificates with that serial.
   */
  lemma ClientAsksForSerial(s: Server, serial: Bytes, cert: Bytes)
    requires s.crypto.caName != [] && serial != [] && Fits(s.crypto.caName, IntContent(serial))
    ensures s.AsksFor(Pair(s.crypto.caName, Der.INTEGER, IntContent(serial)), cert)
            <==> s.crypto.certSerial(cert) == Some(Magnitude(serial))
  {
    hide ParseIssuerAndSerial, Pair, Fits, IntContent;
    SerialRoundTrip(s.crypto.caName, serial);
  }

  /** A client that polls with the CA's name and a subject asks for exactly the parked CSRs with that subject. */
  lemma ClientPollsFor(s: Server, subject: Bytes, e: Entry)
    requires s.crypto.caName != [] && Fits(s.crypto.caName, subject)
    ensures PollNames(s.crypto, Pair(s.crypto.caName, Der.SEQUENCE, subject), e)
            <==> s.crypto.csrSubject(e.csr) == Some(subject)
    ensures s.NamesEntry(Pair(s.crypto.caName, Der.SEQUENCE, subject), e)
            <==> s.crypto.csrSubject(e.csr) == Some(subject)
  {
    hide ParseIssuerAndSubject, Pair, Fits;
    SubjectRoundTrip(s.crypto.caName, subject);
  }

  lemma NewestBound<T>(s: seq<T>, n: nat)
    ensures |Newest(s, n)| <= n
  {}

  lemma NewestOfBoth<T>(a: seq<T>, b: seq<T>, n: nat)
    ensures forall x | x in Newest(b, n) :: x in Newest(a + b, n)
  {
    forall x | x in Newest(b, n)
      ensures x in Newest(a + b, n)
    {
      var all, tail := Newest(a + b, n), Newest(b, n);
      assert tail == all[|all| - |tail|..];
      var i :| 0 <= i < |tail| && tail[i] == x;
      assert all[|all| - |tail| + i] == x;
    }
  }

  /** After a run with memory the registry holds the last 16 certificates the run issued. */
  lemma RecentAreHeld(c: Crypto, messages: seq<Message>, replies: seq<Reply>, trace: seq<Event>, marks: seq<nat>,
                      from: nat)
    requires Marked(c, true, messages, replies, trace, marks) && marks[0] == from && marks[|messages|] == |trace|
    requires forall k | 0 <= k < |messages| :: messages[k].luck.registryMemory
    ensures from <= |trace|
    ensures forall x | x in Newest(Certs(trace[from..]), 16) :: x in Newest(Taken(trace), 16)
  {
    hide Newest, Taken, Certs, Answers;
    RunIsTaken(c, messages, replies, trace, marks, |messages|);
    AllTaken(trace, from);
    NewestOfBoth(Taken(trace[..from]), Certs(trace[from..]), ISSUED_MAX);
  }

  lemma FetchAddsNothing(c: Crypto, lookup: bool, m: Message, reply: Reply, before: seq<Event>, after: seq<Event>)
    requires m.kind.Fetch? && Answers(c, lookup, m, reply, before, after)
    ensures after == before
  {
    hide Queue;
  }

  /** The registry holds whichever of the newest 16 certificates it took. */
  lemma NewestAreKept(s: Server, k: nat)
    requires s.Valid() && k < |Taken(s.trace)| && |Taken(s.trace)| - k <= 16
    ensures Taken(s.trace)[k] in s.issued
  {
    hide Listed, Safe, Queue, Taken;
    var taken := Taken(s.trace);
    if |taken| > ISSUED_MAX { assert s.issued[k - (|taken| - ISSUED_MAX)] == taken[k]; }
  }
}
