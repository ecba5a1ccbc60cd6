/**
 * What a session runs against: a byte transport, the clock and the allocator. A
 * plan fixes what every transport call does, and functions of the count of their
 * calls what the other two answer, so a statement about all of them is one about
 * every schedule.
 */
module Transport {
  import opened Bytes

  /** One transport call: move at most `n` bytes, ask to wait, fail, or claim more than was asked for. */
  datatype Event = Move(n: nat) | WaitRead | WaitWrite | Fail | Overrun {
    predicate Breaks() { Fail? || Overrun? }
  }

  datatype ReadResult = Data(data: Bytes) | Closed | ReadWait(forRead: bool) | ReadError
  datatype WriteResult = Accepted(n: nat) | WriteWait(forRead: bool) | WriteError
  datatype ConnectResult = Connected | ConnectWait(forRead: bool) | ConnectError

  function Least(a: nat, b: nat): nat { if a < b then a else b }

  /** Every event moves `p` bytes, as far as there are that many. */
  ghost predicate Steady(plan: seq<Event>, p: nat) { p > 0 && forall i | 0 <= i < |plan| :: plan[i] == Move(p) }

  class Conn {
    /** All the peer sends before it closes. */
    const peer: Bytes
    const tls: bool
    /** What the clock says when it is read for the k-th time. */
    const clock: nat -> int
    /** Whether the k-th allocation is granted, of that many bytes. */
    const grants: (nat, nat) -> bool
    /** What each transport call does; when it has run out, every further one waits for ever. */
    const plan: seq<Event>
    /** How many bytes every event moves, if all move the same. */
    ghost const steps: Option<nat>
    var at: nat
    var taken: nat
    var sent: Bytes
    var ticks: nat
    /** The sizes asked of the allocator so far. */
    var asked: seq<nat>

    ghost predicate Valid()
      reads this`taken, this`at
    {
      taken <= |peer| && at <= |plan| && (steps.Some? ==> Steady(plan, steps.value))
    }

    /** The last call of those since `from` was told to wait: to read, or to write. */
    ghost predicate Waits(from: nat, forRead: bool)
      reads this`at
    {
      (forRead && at == |plan|) || (from < at <= |plan| && plan[at - 1] == if forRead then WaitRead else WaitWrite)
    }

    /** The last call of those since `from` failed. */
    ghost predicate Broke(from: nat)
      reads this`at
    {
      from < at <= |plan| && plan[at - 1].Breaks()
    }

    /** How many of the first `k` events move something. */
    ghost function Moves(k: nat): nat {
      if k == 0 then 0 else Moves(k - 1) + if k <= |plan| && plan[k - 1].Move? then 1 else 0
    }

    constructor (peer: Bytes, tls: bool, plan: seq<Event>, clock: nat -> int, grants: (nat, nat) -> bool)
      ensures Valid() && this.peer == peer && this.tls == tls && this.plan == plan
      ensures this.clock == clock && this.grants == grants && ticks == 0 && asked == []
      ensures at == taken == 0 && sent == []
      ensures forall p: nat | plan != [] && Steady(plan, p) :: steps == Some(p)
    {
      this.peer, this.tls, this.plan := peer, tls, plan;
      this.clock, this.grants := clock, grants;
      at, taken, sent := 0, 0, [];
      ticks, asked := 0, [];
      steps := if plan != [] && plan[0].Move? && Steady(plan, plan[0].n) then Some(plan[0].n) else None;
    }

    method Now() returns (now: int)
      modifies this`ticks
      ensures now == clock(old(ticks)) && ticks == old(ticks) + 1
    {
      now, ticks := clock(ticks), ticks + 1;
    }

    method Allocate(n: nat) returns (ok: bool)
      modifies this`asked
      ensures ok == grants(|old(asked)|, n) && asked == old(asked) + [n]
    {
      ok := grants(|asked|, n);
      asked := asked + [n];
    }

    method Next() returns (e: Event)
      requires Valid()
      modifies this`at
      ensures Valid() && at == if old(at) == |plan| then old(at) else old(at) + 1
      ensures e == if old(at) == |plan| then WaitRead else plan[old(at)]
    {
      if at == |plan| {
        return WaitRead;
      }
      e := plan[at];
      at := at + 1;
    }

    method Read(room: nat) returns (r: ReadResult)
      requires Valid() && room > 0
      modifies this`at, this`taken
      ensures Valid() && old(at) <= at
      ensures r.Data? ==> 0 < |r.data| <= room && taken == old(taken) + |r.data| && r.data == peer[old(taken)..taken]
      ensures !r.Data? ==> taken == old(taken)
      ensures r.Closed? ==> taken == |peer|
      ensures r.Data? && steps.Some? ==> |r.data| == Least(Least(steps.value, room), |peer| - old(taken))
      ensures r.ReadWait? ==> Waits(old(at), r.forRead) && Moves(at) == Moves(old(at))
      ensures r.Data? ==> Moves(at) == Moves(old(at)) + 1
      ensures r.ReadError? ==> Broke(old(at))
    {
      var e := Next();
      match e
      case Move(n) =>
        var left := |peer| - taken;
        if left == 0 {
          return Closed;
        }
        var k := if n == 0 then 1 else n;
        k := if k > room then room else k;
        k := if k > left then left else k;
        r := Data(peer[taken..taken + k]);
        taken := taken + k;
      case WaitRead => r := ReadWait(true);
      case WaitWrite => r := ReadWait(false);
      case Fail => r := ReadError;
      case Overrun => r := ReadError;
    }

    method Write(data: Bytes) returns (r: WriteResult)
      requires Valid() && |data| > 0
      modifies this`at, this`sent
      ensures Valid() && old(at) <= at
      ensures r.Accepted? ==> 0 < r.n <= |data| && sent == old(sent) + data[..r.n]
      ensures !r.Accepted? ==> sent == old(sent)
      ensures r.WriteWait? ==> Waits(old(at), r.forRead) && Moves(at) == Moves(old(at))
      ensures r.Accepted? ==> Moves(at) == Moves(old(at)) + 1
      ensures r.WriteError? ==> Broke(old(at))
    {
      var e := Next();
      match e
      case Move(n) =>
        var k := if n == 0 then 1 else n;
        k := if k > |data| then |data| else k;
        sent := sent + data[..k];
        r := Accepted(k);
      case WaitRead => r := WriteWait(true);
      case WaitWrite => r := WriteWait(false);
      case Fail => r := WriteError;
      case Overrun => r := WriteError;
    }

    method Connect() returns (r: ConnectResult)
      requires Valid()
      modifies this`at
      ensures Valid() && old(at) <= at
      ensures r.ConnectWait? ==> Waits(old(at), r.forRead) && Moves(at) == Moves(old(at))
      ensures r.Connected? ==> Moves(at) == Moves(old(at)) + 1
      ensures r.ConnectError? ==> Broke(old(at))
    {
      var e := Next();
      match e
      case Move(_) => r := Connected;
      case WaitRead => r := ConnectWait(true);
      case WaitWrite => r := ConnectWait(false);
      case Fail => r := ConnectError;
      case Overrun => r := ConnectError;
    }
  }
}
