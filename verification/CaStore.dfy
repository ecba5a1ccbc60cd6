/** The server's CA in its store: loading it, minting it once, and never replacing it. */
module CaStore {
  import opened Bytes

  datatype Slot = CertSlot | KeySlot

  type Contents = map<Slot, Bytes>

  /** What one store operation does: it works, or reports `code` and a change was or was not made. */
  datatype Fault = Works | Fails(code: int, applied: bool) {
    predicate Applies() { Works? || applied }
  }

  datatype Rc = Ok | NotFound | Parse | NoKey | StoreError(code: int)

  function Answer(f: Fault): Rc { if f.Works? then Ok else StoreError(f.code) }

  datatype Ca = Ca(cert: Bytes, key: Bytes) {
    function Half(s: Slot): Bytes { if s.CertSlot? then cert else key }
    function Stored(): Contents { map[CertSlot := cert, KeySlot := key] }
  }

  /** A key algorithm: whether it decodes a private key, and whether a certificate is a CA's for that key. */
  datatype KeyAlg = KeyAlg(decodes: Bytes -> bool, pairs: (Bytes, Bytes) -> bool)

  function Head(script: seq<Fault>): Fault { if script == [] then Works else script[0] }
  function Tail(script: seq<Fault>): seq<Fault> { if script == [] then [] else script[1..] }

  /** A slot is written or removed atomically, and read as missing only when it is. */
  class Store {
    var slots: Contents
    var script: seq<Fault>
    const canRemove: bool

    /** No operation from here on fails. */
    ghost predicate Healthy()
      reads this
    {
      forall i | 0 <= i < |script| :: script[i] == Works
    }

    method Next() returns (f: Fault)
      modifies `script
      ensures f == Head(old(script)) && script == Tail(old(script))
      ensures old(Healthy()) ==> Healthy() && f == Works
    {
      f, script := Head(script), Tail(script);
    }

    method Read(slot: Slot) returns (rc: Rc, data: Bytes)
      modifies `script
      ensures script == Tail(old(script)) && (old(Healthy()) ==> Healthy())
      ensures rc == if Head(old(script)).Fails? then Answer(Head(old(script)))
                    else if slot in slots then Ok else NotFound
      ensures rc == Ok ==> data == slots[slot]
    {
      var f := Next();
      if f.Fails? {
        return StoreError(f.code), [];
      }
      if slot in slots {
        return Ok, slots[slot];
      }
      return NotFound, [];
    }

    method Write(slot: Slot, data: Bytes) returns (rc: Rc)
      modifies `script, `slots
      ensures script == Tail(old(script)) && rc == Answer(Head(old(script)))
      ensures slots == if Head(old(script)).Applies() then old(slots)[slot := data] else old(slots)
      ensures old(Healthy()) ==> Healthy() && rc == Ok
    {
      var f := Next();
      if f.Applies() {
        slots := slots[slot := data];
      }
      return Answer(f);
    }

    method Remove(slot: Slot) returns (rc: Rc)
      modifies `script, `slots
      ensures script == Tail(old(script)) && rc == Answer(Head(old(script)))
      ensures slots == if Head(old(script)).Applies() then old(slots) - {slot} else old(slots)
    {
      var f := Next();
      if f.Applies() {
        slots := slots - {slot};
      }
      return Answer(f);
    }
  }

  /** The first algorithm that decodes the key decides; None when no algorithm does. */
  function Decoder(algs: seq<KeyAlg>, key: Bytes): (a: Option<KeyAlg>)
    ensures a.Some? ==> a.value.decodes(key) && a.value in algs
    ensures a.None? <==> forall b | b in algs :: !b.decodes(key)
  {
    if algs == [] then None
    else if algs[0].decodes(key) then Some(algs[0])
    else Decoder(algs[1..], key)
  }

  predicate Usable(algs: seq<KeyAlg>, ca: Ca) {
    var a := Decoder(algs, ca.key);
    a.Some? && a.value.pairs(ca.cert, ca.key)
  }

  /** Two faults of the reads decide before the contents do: nothing, a usable pair, or something else. */
  function LoadRc(script: seq<Fault>, slots: Contents, algs: seq<KeyAlg>): Rc {
    if Head(script).Fails? then Answer(Head(script))
    else if Head(Tail(script)).Fails? then Answer(Head(Tail(script)))
    else if slots == map[] then NotFound
    else if CertSlot in slots && KeySlot in slots && Usable(algs, Ca(slots[CertSlot], slots[KeySlot])) then Ok
    else Parse
  }

  method Load(store: Store, algs: seq<KeyAlg>) returns (rc: Rc, ca: Ca)
    modifies store`script
    ensures rc == LoadRc(old(store.script), store.slots, algs) && store.script == Tail(Tail(old(store.script)))
    ensures rc == Ok ==> store.slots == ca.Stored() && Usable(algs, ca)
    ensures rc == NotFound ==> store.slots == map[]
    ensures old(store.Healthy()) ==> store.Healthy()
  {
    ca := Ca([], []);
    var certRc, cert := store.Read(CertSlot);
    var keyRc, key := store.Read(KeySlot);
    assert store.slots == map[] || CertSlot in store.slots || KeySlot in store.slots by { SlotsAre(store.slots); }
    if certRc != Ok || keyRc != Ok {
      if certRc == NotFound && keyRc == NotFound {
        return NotFound, ca;
      }
      if certRc != Ok && certRc != NotFound {
        return certRc, ca;
      }
      if keyRc != Ok && keyRc != NotFound {
        return keyRc, ca;
      }
      return Parse, ca;
    }
    assert store.slots == Ca(cert, key).Stored() by { SlotsAre(store.slots); }
    for i := 0 to |algs|
      invariant Decoder(algs, key) == Decoder(algs[i..], key)
    {
      if algs[i].decodes(key) {
        if !algs[i].pairs(cert, key) {
          return Parse, ca;
        }
        return Ok, Ca(cert, key);
      }
      assert algs[i..][1..] == algs[i + 1..];
    }
    return Parse, ca;
  }

  lemma SlotsAre(slots: Contents)
    ensures slots == map[] || CertSlot in slots || KeySlot in slots
    ensures CertSlot in slots && KeySlot in slots ==> slots == Ca(slots[CertSlot], slots[KeySlot]).Stored()
  {
    forall s | s in slots
      ensures s == CertSlot || s == KeySlot
    {}
    if CertSlot !in slots && KeySlot !in slots {
      assert slots.Keys == {};
    }
  }

  /** The first write that fails is what is reported. */
  function SaveRc(script: seq<Fault>): Rc {
    if Head(script).Fails? then Answer(Head(script)) else Answer(Head(Tail(script)))
  }

  /** What is stored then: a key that was not stored takes the certificate with it, if the store can. */
  function Saved(script: seq<Fault>, slots: Contents, ca: Ca, canRemove: bool): Contents {
    var first, second, third := Head(script), Head(Tail(script)), Head(Tail(Tail(script)));
    var one := if first.Applies() then slots[CertSlot := ca.cert] else slots;
    if first.Fails? then one
    else
      var two := if second.Applies() then one[KeySlot := ca.key] else one;
      if second.Fails? && canRemove && third.Applies() then two - {CertSlot} else two
  }

  /** Certificate, then key; only what was there or this CA's halves is in the store afterwards. */
  method Save(store: Store, ca: Ca) returns (rc: Rc)
    modifies store`script, store`slots
    ensures rc == SaveRc(old(store.script)) && (rc == Ok || rc.StoreError?)
    ensures store.slots == Saved(old(store.script), old(store.slots), ca, store.canRemove)
    ensures rc == Ok ==> store.slots == old(store.slots) + ca.Stored()
    ensures old(store.Healthy()) ==> rc == Ok
    ensures forall s | s in store.slots ::
              (s in old(store.slots) && store.slots[s] == old(store.slots)[s]) || store.slots[s] == ca.Half(s)
    ensures var first, rest := Head(old(store.script)), Tail(old(store.script));
            var second, third := Head(rest), Head(Tail(rest));
            first.Works? && second.Fails? && !second.applied && third.Works? && store.canRemove ==>
              rc != Ok && store.slots == old(store.slots) - {CertSlot}
  {
    rc := store.Write(CertSlot, ca.cert);
    if rc != Ok {
      return;
    }
    rc := store.Write(KeySlot, ca.key);
    if rc == Ok {
      return;
    }
    if store.canRemove {
      var _ := store.Remove(CertSlot);
    }
  }

  // --- starting the server -------------------------------------------------------------------

  /** What one start did to the store, and the CA it runs if it got that far. */
  ghost predicate Start(before: Contents, after: Contents, ca: Option<Ca>) {
    && (before != map[] ==> after == before)
    && (ca.Some? ==> after == ca.value.Stored())
  }

  /** A start never writes to a store that holds either half, and past this point the store holds the running CA. */
  method SetUpCa(store: Store, algs: seq<KeyAlg>, minted: Option<Ca>) returns (rc: Rc, ca: Ca)
    modifies store`script, store`slots
    ensures Start(old(store.slots), store.slots, if rc == Ok then Some(ca) else None)
    ensures var load, rest := LoadRc(old(store.script), old(store.slots), algs), Tail(Tail(old(store.script)));
            rc == if load != NotFound then load else if minted.None? then NoKey else SaveRc(rest)
    ensures rc == Ok ==> if old(store.slots) == map[] then Some(ca) == minted else Usable(algs, ca)
    ensures forall s | s in store.slots && old(store.slots) == map[] ::
              minted.Some? && store.slots[s] == minted.value.Half(s)
    ensures old(store.Healthy()) ==>
              (rc == Ok <==> if old(store.slots) == map[] then minted.Some?
                             else exists c: Ca :: old(store.slots) == c.Stored() && Usable(algs, c))
  {
    rc, ca := Load(store, algs);
    if rc == Ok {
      assert CertSlot in ca.Stored();
      return;
    }
    if rc != NotFound {
      assert old(store.Healthy()) ==> forall c: Ca :: store.slots == c.Stored() ==> !Usable(algs, c);
      return;
    }
    if minted.None? {
      return NoKey, ca;
    }
    ca := minted.value;
    rc := Save(store, ca);
    assert rc == Ok ==> store.slots == map[] + ca.Stored() == ca.Stored();
  }

  // --- any number of starts ---------------------------------------------------------------------

  /** `stores[i]` is the store before start `i`, `ran[i]` the CA that start runs, None when it failed. */
  ghost predicate Run(stores: seq<Contents>, ran: seq<Option<Ca>>) {
    |stores| == |ran| + 1 && forall i | 0 <= i < |ran| :: Start(stores[i], stores[i + 1], ran[i])
  }

  lemma {:induction false} NeverReplaced(stores: seq<Contents>, ran: seq<Option<Ca>>, i: nat, j: nat)
    requires Run(stores, ran) && i <= j < |stores| && stores[i] != map[]
    ensures stores[j] == stores[i]
    decreases j - i
  {
    if i < j {
      NeverReplaced(stores, ran, i, j - 1);
      assert Start(stores[j - 1], stores[j], ran[j - 1]);
    }
  }

  /** Every start that succeeds, in any run with any failures, runs the same CA. */
  lemma OneCa(stores: seq<Contents>, ran: seq<Option<Ca>>, i: nat, j: nat)
    requires Run(stores, ran) && i < |ran| && j < |ran| && ran[i].Some? && ran[j].Some?
    ensures ran[i] == ran[j]
  {
    assert Start(stores[i], stores[i + 1], ran[i]) && Start(stores[j], stores[j + 1], ran[j]);
    var a, b := ran[i].value, ran[j].value;
    assert CertSlot in a.Stored() && CertSlot in b.Stored();
    if i <= j {
      NeverReplaced(stores, ran, i + 1, j + 1);
    } else {
      NeverReplaced(stores, ran, j + 1, i + 1);
    }
    assert a.Stored()[CertSlot] == b.Stored()[CertSlot] && a.Stored()[KeySlot] == b.Stored()[KeySlot];
  }

  /** A store with one half of a pair stays as it is, and every start on it fails. */
  lemma HalfStaysHalf(stores: seq<Contents>, ran: seq<Option<Ca>>, i: nat, j: nat)
    requires Run(stores, ran) && i <= j < |ran|
    requires CertSlot in stores[i] <==> KeySlot !in stores[i]
    ensures ran[j].None? && stores[j + 1] == stores[i]
  {
    assert Start(stores[j], stores[j + 1], ran[j]);
    NeverReplaced(stores, ran, i, j);
    NeverReplaced(stores, ran, i, j + 1);
  }

  /** One start after another on the same store. */
  method Starts(store: Store, algs: seq<KeyAlg>, minted: seq<Option<Ca>>)
    returns (ran: seq<Option<Ca>>, ghost stores: seq<Contents>)
    modifies store`script, store`slots
    ensures |ran| == |minted| && Run(stores, ran)
    ensures stores[0] == old(store.slots) && stores[|ran|] == store.slots
    ensures forall i, j | 0 <= i < |ran| && 0 <= j < |ran| && ran[i].Some? && ran[j].Some? :: ran[i] == ran[j]
  {
    ran, stores := [], [store.slots];
    for n := 0 to |minted|
      invariant |ran| == n && Run(stores, ran)
      invariant stores[0] == old(store.slots) && stores[n] == store.slots
    {
      var rc, ca := SetUpCa(store, algs, minted[n]);
      ran := ran + [if rc == Ok then Some(ca) else None];
      stores := stores + [store.slots];
    }
    forall i, j | 0 <= i < |ran| && 0 <= j < |ran| && ran[i].Some? && ran[j].Some?
      ensures ran[i] == ran[j]
    {
      OneCa(stores, ran, i, j);
    }
  }
}
