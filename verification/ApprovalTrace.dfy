/** What a SCEP server with manual approval does, as a trace of events, and the safety of such traces. */
module ApprovalTrace {
  import opened Bytes

  const PENDING_MAX := 16

  /** Code outside the server: what certificates and requests say, and whether they verify. */
  datatype Crypto = Crypto(certKey: Bytes -> Option<Bytes>, csrKey: Bytes -> Option<Bytes>,
                           issuedByCa: Bytes -> bool, challengeOk: Bytes -> bool, csrVerifies: Bytes -> bool,
                           csrSubject: Bytes -> Option<Bytes>, certSerial: Bytes -> Option<Bytes>,
                           caName: Bytes, caCert: Bytes)

  /** How a request was bound to its signer: a renewal by a certificate of this CA, or a signer with the CSR's
      own key, or no signer certificate, when the CA's stands in for it. */
  datatype Binding = RenewalSigner | CsrKeySigner | NoSigner

  datatype Entry = Entry(csr: Bytes, signer: Bytes)

  /** An issue carries the CSR given to the CA, the certificate it minted, and whether the registry took that. */
  datatype Event =
    | Parked(tid: Bytes, entry: Entry, binding: Binding)
    | IssuedOnPoll(tid: Bytes, csr: Bytes, pollSigner: Bytes, cert: Bytes, kept: bool)
    | Released(tid: Bytes)
    | IssuedDirectly(csr: Bytes, cert: Bytes, kept: bool)
  {
    predicate Issue() { IssuedOnPoll? || IssuedDirectly? }
  }

  predicate Bound(c: Crypto, e: Entry, b: Binding) {
    match b
    case RenewalSigner => c.issuedByCa(e.signer)
    case CsrKeySigner => c.certKey(e.signer).Some? && c.certKey(e.signer) == c.csrKey(e.csr)
    case NoSigner => e.signer == c.caCert
  }

  predicate SameKey(c: Crypto, a: Bytes, b: Bytes) {
    c.certKey(a).Some? && c.certKey(a) == c.certKey(b)
  }

  /** The requests parked after a trace. */
  function Queue(t: seq<Event>): map<Bytes, Entry> {
    if t == [] then map[] else After(Queue(t[..|t| - 1]), t[|t| - 1])
  }

  function After(q: map<Bytes, Entry>, ev: Event): map<Bytes, Entry> {
    if ev.Parked? then q[ev.tid := ev.entry] else if ev.IssuedDirectly? then q else q - {ev.tid}
  }

  /** The event may happen when `q` is parked. */
  predicate Allowed(c: Crypto, approval: bool, q: map<Bytes, Entry>, ev: Event) {
    match ev
    case Parked(tid, e, b) =>
      tid !in q && |q| < PENDING_MAX && Bound(c, e, b) && c.challengeOk(e.csr) && c.csrVerifies(e.csr)
    case IssuedOnPoll(tid, csr, p, _, _) => tid in q && csr == q[tid].csr && SameKey(c, p, q[tid].signer)
    case Released(tid) => tid in q
    case IssuedDirectly(_, _, _) => !approval
  }

  predicate Safe(c: Crypto, approval: bool, t: seq<Event>) {
    t == [] || (Safe(c, approval, t[..|t| - 1]) && Allowed(c, approval, Queue(t[..|t| - 1]), t[|t| - 1]))
  }

  lemma Extends(c: Crypto, approval: bool, t: seq<Event>, ev: Event)
    requires Safe(c, approval, t) && Allowed(c, approval, Queue(t), ev)
    ensures Safe(c, approval, t + [ev])
  {
    assert (t + [ev])[..|t|] == t;
  }

  lemma QueueAfter(t: seq<Event>, ev: Event)
    ensures Queue(t + [ev]) == After(Queue(t), ev)
  {
    assert (t + [ev])[..|t|] == t;
  }

  // --- certificates -------------------------------------------------------------------

  /** Every certificate issued, oldest first. */
  function Certs(t: seq<Event>): seq<Bytes> {
    if t == [] then [] else Certs(t[..|t| - 1]) + if t[|t| - 1].Issue() then [t[|t| - 1].cert] else []
  }

  /** Every certificate the registry took, oldest first. */
  function Taken(t: seq<Event>): seq<Bytes> {
    if t == [] then []
    else Taken(t[..|t| - 1]) + if t[|t| - 1].Issue() && t[|t| - 1].kept then [t[|t| - 1].cert] else []
  }

  lemma TakenAfter(t: seq<Event>, ev: Event)
    ensures Taken(t + [ev]) == if ev.Issue() && ev.kept then Taken(t) + [ev.cert] else Taken(t)
  {
    assert (t + [ev])[..|t|] == t;
  }

  /** While the registry takes every certificate, what it took since is what was issued since. */
  lemma {:induction false} AllTaken(t: seq<Event>, from: nat)
    requires from <= |t| && forall i | from <= i < |t| && t[i].Issue() :: t[i].kept
    ensures Taken(t) == Taken(t[..from]) + Certs(t[from..])
    decreases |t|
  {
    if from == |t| {
      assert t[..from] == t && t[from..] == [];
    } else {
      var init, last := t[..|t| - 1], t[|t| - 1];
      AllTaken(init, from);
      assert init[..from] == t[..from];
      assert t[from..][..|t| - from - 1] == init[from..] && t[from..][|t| - from - 1] == last;
    }
  }

  // --- consequences, for every run ------------------------------------------------

  function Parks(t: seq<Event>, tid: Bytes): nat {
    if t == [] then 0
    else Parks(t[..|t| - 1], tid) + if t[|t| - 1].Parked? && t[|t| - 1].tid == tid then 1 else 0
  }

  function Issues(t: seq<Event>, tid: Bytes): nat {
    if t == [] then 0
    else Issues(t[..|t| - 1], tid) + if t[|t| - 1].IssuedOnPoll? && t[|t| - 1].tid == tid then 1 else 0
  }

  function Releases(t: seq<Event>, tid: Bytes): nat {
    if t == [] then 0
    else Releases(t[..|t| - 1], tid) + if t[|t| - 1].Released? && t[|t| - 1].tid == tid then 1 else 0
  }

  /** Conservation: each park of an ID is issued once, released once, or still parked; so issues never exceed parks. */
  lemma {:induction false} ParksAreAccounted(c: Crypto, approval: bool, t: seq<Event>, tid: Bytes)
    requires Safe(c, approval, t)
    ensures Parks(t, tid) == Issues(t, tid) + Releases(t, tid) + if tid in Queue(t) then 1 else 0
    ensures Issues(t, tid) <= Parks(t, tid)
    decreases |t|
  {
    if t != [] { ParksAreAccounted(c, approval, t[..|t| - 1], tid); }
  }

  /** The queue never holds more than its capacity. */
  lemma {:induction false} QueueIsBounded(c: Crypto, approval: bool, t: seq<Event>)
    requires Safe(c, approval, t)
    ensures |Queue(t)| <= 16
    decreases |t|
  {
    if t != [] {
      QueueIsBounded(c, approval, t[..|t| - 1]);
      var q, ev := Queue(t[..|t| - 1]), t[|t| - 1];
      if ev.Parked? {
        assert Queue(t).Keys == q.Keys + {ev.tid};
      } else if !ev.IssuedDirectly? {
        assert Queue(t).Keys == q.Keys - {ev.tid};
      }
    }
  }

  /** Where a parked entry came from: one park event, after which it stayed as it was. */
  ghost predicate ParkedSince(c: Crypto, t: seq<Event>, j: nat, i: nat, tid: Bytes, e: Entry) {
    && j < i <= |t| && t[j].Parked? && t[j].tid == tid && t[j].entry == e
    && Bound(c, e, t[j].binding) && c.challengeOk(e.csr) && c.csrVerifies(e.csr)
    && forall k | j < k <= i :: tid in Queue(t[..k]) && Queue(t[..k])[tid] == e
  }

  lemma {:induction false} ParkedEntryHasOrigin(c: Crypto, approval: bool, t: seq<Event>, tid: Bytes) returns (j: nat)
    requires Safe(c, approval, t) && tid in Queue(t)
    ensures ParkedSince(c, t, j, |t|, tid, Queue(t)[tid])
    decreases |t|
  {
    hide Safe, Bound, ParkedSince, Queue, SameKey;
    ParkedNeedsEvents(t, tid);
    var init, last := t[..|t| - 1], t[|t| - 1];
    SafeSplits(c, approval, t);
    assert init + [last] == t;
    QueueAfter(init, last);
    if last.Parked? && last.tid == tid {
      j := |t| - 1;
      JustParked(c, t);
    } else {
      j := ParkedEntryHasOrigin(c, approval, init, tid);
      StillParked(c, t, j, tid, Queue(t)[tid]);
    }
  }

  lemma ParkedNeedsEvents(t: seq<Event>, tid: Bytes)
    requires tid in Queue(t)
    ensures t != []
  {}

  lemma JustParked(c: Crypto, t: seq<Event>)
    requires t != [] && t[|t| - 1].Parked?
    requires var e := t[|t| - 1].entry; Bound(c, e, t[|t| - 1].binding) && c.challengeOk(e.csr) && c.csrVerifies(e.csr)
    ensures ParkedSince(c, t, |t| - 1, |t|, t[|t| - 1].tid, t[|t| - 1].entry)
  {
    hide Bound;
    assert t[..|t|] == t;
  }

  lemma StillParked(c: Crypto, t: seq<Event>, j: nat, tid: Bytes, e: Entry)
    requires t != [] && ParkedSince(c, t[..|t| - 1], j, |t| - 1, tid, e) && tid in Queue(t) && Queue(t)[tid] == e
    ensures ParkedSince(c, t, j, |t|, tid, e)
  {
    hide Queue, Bound;
    forall k | j < k <= |t|
      ensures tid in Queue(t[..k]) && Queue(t[..k])[tid] == e
    {
      if k < |t| { assert t[..k] == t[..|t| - 1][..k]; } else { assert t[..k] == t; }
    }
  }

  lemma SafeSplits(c: Crypto, approval: bool, t: seq<Event>)
    requires Safe(c, approval, t) && t != []
    ensures Safe(c, approval, t[..|t| - 1]) && Allowed(c, approval, Queue(t[..|t| - 1]), t[|t| - 1])
  {}

  lemma {:induction false} SafePrefix(c: Crypto, approval: bool, t: seq<Event>, i: nat)
    requires Safe(c, approval, t) && i < |t|
    ensures Safe(c, approval, t[..i]) && Allowed(c, approval, Queue(t[..i]), t[i])
    decreases |t|
  {
    hide Allowed, Queue;
    SafeSplits(c, approval, t);
    if i < |t| - 1 {
      SafePrefix(c, approval, t[..|t| - 1], i);
      assert t[..|t| - 1][..i] == t[..i];
    }
  }

  /**
   * With approval on, every certificate was issued for a request that had been
   * parked under that ID after passing its signer binding, the challenge and
   * CSR verification, that stayed parked unchanged until then, and on a poll
   * signed with the key that parked it.
   */
  lemma IssueNeedsApproval(c: Crypto, t: seq<Event>, i: nat) returns (j: nat)
    requires Safe(c, true, t) && i < |t| && (t[i].IssuedOnPoll? || t[i].IssuedDirectly?)
    ensures t[i].IssuedOnPoll? && j < i && t[j].Parked? && t[j].entry.csr == t[i].csr
    ensures ParkedSince(c, t, j, i, t[i].tid, t[j].entry) && SameKey(c, t[i].pollSigner, t[j].entry.signer)
  {
    hide Safe, Bound, SameKey;
    SafePrefix(c, true, t, i);
    j := ParkedEntryHasOrigin(c, true, t[..i], t[i].tid);
    assert t[..i][..i] == t[..i];
    forall k | j < k <= i
      ensures t[..i][..k] == t[..k]
    {
    }
  }
}
