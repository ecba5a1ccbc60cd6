/** The EST server's approval queue: a new CSR is parked with a 202, its re-POST is put to the CA. */
module EstServer {
  import opened Bytes

  const PENDING_CAP := 8

  datatype Event = Accepted(hash: Bytes) | Attempt(hash: Bytes)

  datatype Reply = Http(status: nat) | ToCa

  /** 202s minus issue attempts for a hash. */
  function Owed(t: seq<Event>, h: Bytes): int {
    if t == [] then 0
    else
      Owed(t[..|t| - 1], h) +
      (if t[|t| - 1].hash != h then 0 else if t[|t| - 1].Accepted? then 1 else -1)
  }

  /** At every moment the replies and attempts for a hash have strictly alternated, a 202 first. */
  ghost predicate Alternates(t: seq<Event>, h: Bytes) {
    forall n | 0 <= n <= |t| :: Owed(t[..n], h) == 0 || Owed(t[..n], h) == 1
  }

  lemma AlternatesOn(t: seq<Event>, ev: Event, h: Bytes)
    requires Alternates(t, h)
    requires ev.hash == h ==> Owed(t, h) == (if ev.Accepted? then 0 else 1)
    ensures Alternates(t + [ev], h)
    ensures Owed(t + [ev], h) == Owed(t, h) + (if ev.hash != h then 0 else if ev.Accepted? then 1 else -1)
  {
    var u := t + [ev];
    assert u[..|t|] == t && t[..|t|] == t;
    forall n | 0 <= n <= |u|
      ensures Owed(u[..n], h) == 0 || Owed(u[..n], h) == 1
    {
      if n <= |t| { assert u[..n] == t[..n]; } else { assert u[..n] == u; }
    }
  }

  class Queue {
    var items: seq<Bytes>
    ghost var trace: seq<Event>

    ghost predicate Valid()
      reads this
    {
      && |items| <= PENDING_CAP
      && (forall i, j | 0 <= i < j < |items| :: items[i] != items[j])
      && (forall h :: Alternates(trace, h))
      && (forall h :: Owed(trace, h) == if h in items then 1 else 0)
    }

    constructor ()
      ensures Valid() && trace == []
    {
      items, trace := [], [];
    }

    method Find(hash: Bytes) returns (idx: int)
      ensures if hash in items then 0 <= idx < |items| && items[idx] == hash else idx == -1
    {
      for i := 0 to |items|
        invariant hash !in items[..i]
      {
        if items[i] == hash {
          return i;
        }
      }
      return -1;
    }

    method Add(hash: Bytes) returns (ok: bool)
      modifies this`items
      ensures ok == (|old(items)| < PENDING_CAP) && items == if ok then old(items) + [hash] else old(items)
    {
      if |items| >= PENDING_CAP {
        return false;
      }
      items := items + [hash];
      return true;
    }

    method Remove(idx: int)
      requires forall i, j | 0 <= i < j < |items| :: items[i] != items[j]
      modifies this`items
      ensures forall i, j | 0 <= i < j < |items| :: items[i] != items[j]
      ensures 0 <= idx < |old(items)| ==> |items| == |old(items)| - 1
      ensures 0 <= idx < |old(items)| ==> forall h :: h in items <==> h in old(items) && h != old(items)[idx]
      ensures !(0 <= idx < |old(items)|) ==> items == old(items)
    {
      if idx < 0 || idx >= |items| {
        return;
      }
      var last := |items| - 1;
      ghost var was := items;
      if idx < last {
        items := items[idx := items[last]];
      }
      items := items[..last];
      forall h
        ensures h in items <==> h in was && h != was[idx]
      {
        if h in was && h != was[idx] {
          var k :| 0 <= k < |was| && was[k] == h;
          assert items[if k == last then idx else k] == h;
        }
      }
    }

    /**
     * One enrolment whose CSR was decoded and accepted by policy. Whatever the
     * run, per CSR hash 202 replies and issue attempts strictly alternate,
     * starting with a 202, and at most 8 requests are parked.
     */
    method Enroll(hash: Bytes, reenroll: bool, verifies: bool, memory: bool) returns (reply: Reply)
      requires Valid()
      modifies this
      ensures Valid()
      ensures !reenroll && !memory ==> reply == Http(500) && trace == old(trace)
      ensures !reenroll && memory && !verifies ==> reply == Http(400) && trace == old(trace)
      ensures reenroll || (memory && verifies) ==>
                if hash in old(items) then reply == ToCa && trace == old(trace) + [Attempt(hash)]
                else if |old(items)| >= 8 then reply == Http(503) && trace == old(trace)
                else reply == Http(202) && trace == old(trace) + [Accepted(hash)]
    {
      hide Alternates, Owed;
      if !reenroll && !memory {
        return Http(500);
      }
      if !reenroll && !verifies {
        return Http(400);
      }
      var idx := Find(hash);
      if idx < 0 {
        var ok := Add(hash);
        if !ok {
          return Http(503);
        }
        Log(Accepted(hash));
        return Http(202);
      }
      Remove(idx);
      Log(Attempt(hash));
      return ToCa;
    }

    ghost method Log(ev: Event)
      requires (forall h :: Alternates(trace, h)) && Owed(trace, ev.hash) == if ev.Accepted? then 0 else 1
      modifies this`trace
      ensures trace == old(trace) + [ev]
      ensures forall h :: Alternates(trace, h)
      ensures forall h :: Owed(trace, h) == old(Owed(trace, h))
                                            + (if ev.hash != h then 0 else if ev.Accepted? then 1 else -1)
    {
      hide Alternates, Owed;
      forall h
        ensures Alternates(trace + [ev], h)
        ensures Owed(trace + [ev], h) == Owed(trace, h) + (if ev.hash != h then 0 else if ev.Accepted? then 1 else -1)
      {
        AlternatesOn(trace, ev, h);
      }
      trace := trace + [ev];
    }
  }
}
