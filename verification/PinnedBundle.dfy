/** The command-line client's trust in a GetCACert answer, and whom it lets receive a request. */
module PinnedBundle {
  import opened Bytes
  import opened RaSelect
  import Der

  /** RA pins exist only beside a CA pin. */
  datatype Pin = Unpinned | Pinned(ca: Bytes, ras: seq<Bytes>)

  /** Fingerprints, signatures, the length reader and the certificate parser, as they are from outside. */
  datatype Foreign = Foreign(
    matches: (Bytes, Bytes) -> bool,
    signedBy: (Bytes, Bytes) -> bool,
    lengthOk: Bytes -> bool,
    parse: Parser)

  datatype Rc = Ok | ParseFailed | Auth | NoRecipient(o: Outcome)

  // --- what is served ---------------------------------------------------------------------

  /** The client's own length reader may refuse what the library's accepts, and never measures differently. */
  function CertLen(s: Bytes, lengthOk: Bytes -> bool): nat { if lengthOk(s) then SeqLen(s) else 0 }

  function Served(der: Bytes, lengthOk: Bytes -> bool): seq<Bytes> {
    var n := CertLen(der, lengthOk);
    if n == 0 then [] else [der[..n]] + Served(der[n..], lengthOk)
  }

  lemma {:induction false} ServedAreCerts(der: Bytes, lengthOk: Bytes -> bool)
    ensures forall i | 0 <= i < |Served(der, lengthOk)| :: IsCert(Served(der, lengthOk)[i])
    decreases |der|
  {
    var n := CertLen(der, lengthOk);
    if n > 0 {
      SeqLenIgnoresRest(der[..n], der[n..], der);
      ServedAreCerts(der[n..], lengthOk);
    }
  }

  /** Whole certificates that the length reader takes are served one by one, up to what it takes no more. */
  lemma {:induction false} ServedIs(certs: seq<Bytes>, rest: Bytes, lengthOk: Bytes -> bool)
    requires forall i | 0 <= i < |certs| :: IsCert(certs[i]) && lengthOk(Join(certs[i..]) + rest)
    requires !lengthOk(rest) || SeqLen(rest) == 0
    ensures Served(Join(certs) + rest, lengthOk) == certs
    decreases |certs|
  {
    hide SeqLen, IsCert;
    if certs == [] {
      assert Join(certs) + rest == rest;
    } else {
      var der, more := Join(certs) + rest, Join(certs[1..]) + rest;
      assert certs[0..] == certs;
      assert der == certs[0] + more;
      SeqLenIgnoresRest(certs[0], more, der);
      CertNotEmpty(certs[0]);
      assert der[..|certs[0]|] == certs[0] && der[|certs[0]|..] == more;
      forall i | 0 <= i < |certs[1..]|
        ensures IsCert(certs[1..][i]) && lengthOk(Join(certs[1..][i..]) + rest)
      {
        assert certs[1..][i..] == certs[i + 1..];
      }
      ServedIs(certs[1..], rest, lengthOk);
    }
  }

  lemma CertNotEmpty(c: Bytes)
    requires IsCert(c)
    ensures c != []
  {}

  lemma {:induction false} ServedStep(der: Bytes, off: nat, lengthOk: Bytes -> bool)
    requires off <= |der|
    ensures var n := CertLen(der[off..], lengthOk);
            Served(der[off..], lengthOk)
            == if n == 0 then [] else [der[off..off + n]] + Served(der[off + n..], lengthOk)
  {
    hide SeqLen;
    var rest := der[off..];
    var n := CertLen(rest, lengthOk);
    assert rest[..n] == der[off..off + n] && rest[n..] == der[off + n..];
  }

  /** All served certificates, or None once there are more than `max`. */
  method Collect(der: Bytes, lengthOk: Bytes -> bool, max: nat) returns (certs: Option<seq<Bytes>>)
    ensures var served := Served(der, lengthOk);
            certs == if |served| <= max then Some(served) else None
  {
    hide SeqLen, Served;
    var off, got := 0, [];
    assert der[off..] == der;
    while off < |der|
      invariant off <= |der| && |got| <= max
      invariant Served(der, lengthOk) == got + Served(der[off..], lengthOk)
    {
      ServedStep(der, off, lengthOk);
      var clen := CertLen(der[off..], lengthOk);
      if clen == 0 {
        break;
      }
      if |got| == max {
        return None;
      }
      got := got + [der[off..off + clen]];
      off := off + clen;
    }
    ServedStep(der, off, lengthOk);
    assert got + [] == got;
    return Some(got);
  }

  // --- what is kept -----------------------------------------------------------------------

  ghost predicate NamesRa(f: Foreign, ras: seq<Bytes>, cert: Bytes) {
    exists k :: 0 <= k < |ras| && f.matches(cert, ras[k])
  }

  /** The certificates among the first `n`, other than number `p`, that are wanted, in order. */
  ghost function Kept(want: Bytes -> bool, served: seq<Bytes>, p: nat, n: nat): seq<Bytes>
    requires n <= |served|
  {
    if n == 0 then []
    else Kept(want, served, p, n - 1) + if n - 1 != p && want(served[n - 1]) then [served[n - 1]] else []
  }

  ghost function Named(f: Foreign, ras: seq<Bytes>): Bytes -> bool { cert => NamesRa(f, ras, cert) }

  /** Number `p` is the first certificate the CA pin names. */
  ghost predicate IsPinned(f: Foreign, ca: Bytes, served: seq<Bytes>, p: nat) {
    p < |served| && f.matches(served[p], ca) && forall i | 0 <= i < p :: !f.matches(served[i], ca)
  }

  ghost predicate AllSigned(f: Foreign, ras: seq<Bytes>, served: seq<Bytes>, p: nat)
    requires p < |served|
  {
    forall i | 0 <= i < |served| && i != p && NamesRa(f, ras, served[i]) :: f.signedBy(served[i], served[p])
  }

  ghost predicate AllNamed(f: Foreign, ras: seq<Bytes>, served: seq<Bytes>) {
    forall k | 0 <= k < |ras| :: Hit(f, ras[k], served)
  }

  ghost predicate Hit(f: Foreign, ra: Bytes, served: seq<Bytes>) {
    exists i :: 0 <= i < |served| && f.matches(served[i], ra)
  }

  /** The trusted bundle and whether its first certificate is itself named as RA. */
  datatype CaSet = CaSet(bundle: Bytes, caIsRa: bool)

  ghost predicate Narrows(f: Foreign, pin: Pin, served: seq<Bytes>, cs: CaSet) {
    match pin
    case Unpinned => served != [] && cs == CaSet(Join(served), false)
    case Pinned(ca, ras) =>
      exists p: nat :: IsPinned(f, ca, served, p) && AllSigned(f, ras, served, p) && AllNamed(f, ras, served) &&
        cs == CaSet(Join([served[p]] + Kept(Named(f, ras), served, p, |served|)), NamesRa(f, ras, served[p]))
  }

  // --- narrowing ------------------------------------------------------------------------------

  /** Does an RA pin name `cert`? Every pin that does is marked. */
  method RaPinned(f: Foreign, ras: seq<Bytes>, cert: Bytes, hit: array<bool>) returns (matched: bool)
    requires hit.Length == |ras|
    modifies hit
    ensures matched == NamesRa(f, ras, cert)
    ensures forall k | 0 <= k < |ras| :: hit[k] == (old(hit[k]) || f.matches(cert, ras[k]))
  {
    matched := false;
    for k := 0 to |ras|
      invariant matched <==> exists j :: 0 <= j < k && f.matches(cert, ras[j])
      invariant forall j | 0 <= j < k :: hit[j] == (old(hit[j]) || f.matches(cert, ras[j]))
      invariant forall j | k <= j < |ras| :: hit[j] == old(hit[j])
    {
      if f.matches(cert, ras[k]) {
        hit[k] := true;
        matched := true;
      }
    }
  }

  method FindPinned(f: Foreign, ca: Bytes, served: seq<Bytes>) returns (p: nat)
    ensures p <= |served| && (p < |served| ==> IsPinned(f, ca, served, p))
    ensures p == |served| ==> forall i | 0 <= i < p :: !f.matches(served[i], ca)
  {
    p := 0;
    while p < |served|
      invariant p <= |served| && forall i | 0 <= i < p :: !f.matches(served[i], ca)
    {
      if f.matches(served[p], ca) {
        break;
      }
      p := p + 1;
    }
  }

  /** Mark what is kept; fail when a kept certificate is not the pinned CA's or an RA pin named none. */
  method Mark(f: Foreign, ras: seq<Bytes>, served: seq<Bytes>, p: nat, keep: array<bool>)
    returns (ok: bool, caIsRa: bool)
    requires p < |served| == keep.Length
    modifies keep
    ensures ok <==> AllSigned(f, ras, served, p) && AllNamed(f, ras, served)
    ensures caIsRa == NamesRa(f, ras, served[p])
    ensures forall i | 0 <= i < |served| :: keep[i] == (i == p || NamesRa(f, ras, served[i]))
  {
    hide NamesRa;
    var hit := new bool[|ras|](_ => false);
    ok := true;
    keep[p] := true;
    caIsRa := RaPinned(f, ras, served[p], hit);
    for i := 0 to |served|
      invariant forall k | 0 <= k < |ras| ::
          hit[k] <==> exists j :: 0 <= j < |served| && (j < i || j == p) && f.matches(served[j], ras[k])
      invariant ok <==>
          forall j | 0 <= j < i && j != p && NamesRa(f, ras, served[j]) :: f.signedBy(served[j], served[p])
      invariant keep[p] && forall j | 0 <= j < i :: keep[j] == (j == p || NamesRa(f, ras, served[j]))
    {
      if i != p {
        keep[i] := RaPinned(f, ras, served[i], hit);
        if keep[i] && ok && !f.signedBy(served[i], served[p]) {
          ok := false;
        }
      }
    }
    assert forall k | 0 <= k < |ras| :: hit[k] == Hit(f, ras[k], served);
    var k := 0;
    while ok && k < |ras|
      invariant 0 <= k <= |ras|
      invariant ok <==> AllSigned(f, ras, served, p) && forall j | 0 <= j < k :: hit[j]
    {
      ok := hit[k];
      k := k + 1;
    }
  }

  // --- the bundle kept ------------------------------------------------------------------------

  lemma {:induction false} JoinAppend(certs: seq<Bytes>, more: seq<Bytes>)
    ensures Join(certs + more) == Join(certs) + Join(more)
  {
    if certs == [] {
      assert certs + more == more;
    } else {
      assert (certs + more)[1..] == certs[1..] + more;
      JoinAppend(certs[1..], more);
    }
  }

  lemma JoinOne(cert: Bytes)
    ensures Join([cert]) == cert
  {}

  /** The kept bytes grow with every certificate looked at. */
  lemma {:induction false} KeptGrows(want: Bytes -> bool, served: seq<Bytes>, p: nat, i: nat, n: nat)
    requires i <= n <= |served|
    ensures |Join(Kept(want, served, p, i))| <= |Join(Kept(want, served, p, n))|
    decreases n
  {
    hide Kept, Join;
    if i < n {
      KeptGrows(want, served, p, i, n - 1);
      KeptStep(want, served, p, n - 1);
    }
  }

  lemma KeptStep(want: Bytes -> bool, served: seq<Bytes>, p: nat, i: nat)
    requires i < |served|
    ensures Join(Kept(want, served, p, i + 1)) ==
            Join(Kept(want, served, p, i)) + if i != p && want(served[i]) then served[i] else []
  {
    hide Join;
    var more := if i != p && want(served[i]) then [served[i]] else [];
    JoinAppend(Kept(want, served, p, i), more);
    JoinOne(served[i]);
    assert Join([]) == [] by { JoinAppend([], []); JoinNone(); }
  }

  lemma JoinNone()
    ensures Join([]) == []
  {}

  method KeptLength(ghost want: Bytes -> bool, served: seq<Bytes>, p: nat, keep: seq<bool>) returns (n: nat)
    requires p < |served| == |keep|
    requires forall i | 0 <= i < |served| :: keep[i] == (i == p || want(served[i]))
    ensures n == |served[p]| + |Join(Kept(want, served, p, |served|))|
  {
    hide Kept, Join;
    n := 0;
    JoinNone();
    assert Kept(want, served, p, 0) == [] by { KeptNone(want, served, p); }
    for i := 0 to |served|
      invariant n == (if p < i then |served[p]| else 0) + |Join(Kept(want, served, p, i))|
    {
      KeptStep(want, served, p, i);
      if keep[i] {
        n := n + |served[i]|;
      }
    }
  }

  lemma KeptNone(want: Bytes -> bool, served: seq<Bytes>, p: nat)
    ensures Kept(want, served, p, 0) == []
  {}

  /** The pinned certificate, then the others kept in the order served, in a buffer of exactly their size. */
  method Assemble(ghost want: Bytes -> bool, served: seq<Bytes>, p: nat, keep: seq<bool>) returns (bundle: Bytes)
    requires p < |served| == |keep|
    requires forall i | 0 <= i < |served| :: keep[i] == (i == p || want(served[i]))
    ensures bundle == served[p] + Join(Kept(want, served, p, |served|))
  {
    hide Kept, Join;
    var total := KeptLength(want, served, p, keep);
    var buf := new Byte[total];
    JoinNone();
    KeptNone(want, served, p);
    Der.Put(buf, 0, served[p]);
    var off := |served[p]|;
    ghost var done := served[p];
    assert buf[..off] == done;
    for i := 0 to |served|
      invariant done == served[p] + Join(Kept(want, served, p, i))
      invariant off == |done| <= total && buf[..off] == done
    {
      KeptStep(want, served, p, i);
      KeptGrows(want, served, p, i + 1, |served|);
      if keep[i] && i != p {
        Der.Put(buf, off, served[i]);
        off := off + |served[i]|;
        done := done + served[i];
      }
    }
    assert buf[..off] == buf[..];
    bundle := buf[..];
  }

  lemma {:induction false} KeptAll(served: seq<Bytes>, n: nat)
    requires 0 < n <= |served|
    ensures [served[0]] + Kept(_ => true, served, 0, n) == served[..n]
  {
    if n == 1 {
      assert Kept(_ => true, served, 0, 1) == Kept(_ => true, served, 0, 0) + [] == [];
    } else {
      KeptAll(served, n - 1);
      assert served[..n] == served[..n - 1] + [served[n - 1]];
    }
  }

  /** Narrow what was served to what is trusted. */
  method CaSetFromDer(f: Foreign, der: Bytes, pin: Pin, max: nat) returns (rc: Rc, cs: CaSet)
    ensures var served := Served(der, f.lengthOk);
            if served == [] || |served| > max then rc == ParseFailed
            else if exists c :: Narrows(f, pin, served, c) then rc == Ok && Narrows(f, pin, served, cs)
            else rc == Auth
  {
    hide Served, Kept, Join, NamesRa, AllSigned, AllNamed, IsPinned;
    cs := CaSet([], false);
    var got := Collect(der, f.lengthOk, max);
    if got.None? || got.value == [] {
      return ParseFailed, cs;
    }
    var served := got.value;
    var keep := new bool[|served|](_ => true);
    match pin {
      case Unpinned =>
        var bundle := Assemble(_ => true, served, 0, keep[..]);
        KeptAll(served, |served|);
        JoinHead(served[0], Kept(_ => true, served, 0, |served|));
        assert served[..|served|] == served;
        cs := CaSet(bundle, false);
        assert Narrows(f, pin, served, cs);
        return Ok, cs;
      case Pinned(ca, ras) =>
        var p := FindPinned(f, ca, served);
        if p == |served| {
          assert forall q: nat :: !IsPinned(f, ca, served, q) by { NoPinned(f, ca, served); }
          return Auth, cs;
        }
        var ok, caIsRa := Mark(f, ras, served, p, keep);
        if !ok {
          forall q: nat | IsPinned(f, ca, served, q)
            ensures q == p
          {
            PinnedIsUnique(f, ca, served, p, q);
          }
          return Auth, cs;
        }
        var bundle := Assemble(Named(f, ras), served, p, keep[..]);
        JoinHead(served[p], Kept(Named(f, ras), served, p, |served|));
        cs := CaSet(bundle, caIsRa);
        assert Narrows(f, pin, served, cs);
        return Ok, cs;
    }
  }

  lemma JoinHead(cert: Bytes, certs: seq<Bytes>)
    ensures Join([cert] + certs) == cert + Join(certs)
  {
    assert ([cert] + certs)[1..] == certs;
  }

  lemma NoPinned(f: Foreign, ca: Bytes, served: seq<Bytes>)
    requires forall i | 0 <= i < |served| :: !f.matches(served[i], ca)
    ensures forall p: nat :: !IsPinned(f, ca, served, p)
  {}

  lemma PinnedIsUnique(f: Foreign, ca: Bytes, served: seq<Bytes>, p: nat, q: nat)
    requires IsPinned(f, ca, served, p) && IsPinned(f, ca, served, q)
    ensures p == q
  {}

  // --- the recipient ----------------------------------------------------------------------------

  lemma {:induction false} KeptAreWanted(want: Bytes -> bool, served: seq<Bytes>, p: nat, n: nat)
    requires n <= |served|
    ensures forall c | c in Kept(want, served, p, n) ::
              exists i :: 0 <= i < n && i != p && served[i] == c && want(c)
  {
    if n > 0 { KeptAreWanted(want, served, p, n - 1); }
  }

  lemma {:induction false} OnlyFirstAtZero(certs: seq<Bytes>, i: nat)
    requires i < |certs| && forall c | c in certs :: |c| > 0
    ensures Offset(certs, i) == 0 <==> i == 0
  {
    if i > 0 { OnlyFirstAtZero(certs, i - 1); }
  }

  /** The trusted bundle splits again into the certificates it was put together from. */
  lemma TrustedSplits(f: Foreign, ras: seq<Bytes>, der: Bytes, p: nat)
    requires p < |Served(der, f.lengthOk)|
    ensures var served := Served(der, f.lengthOk);
            var trusted := [served[p]] + Kept(Named(f, ras), served, p, |served|);
            Split(Join(trusted)) == trusted && forall c | c in trusted :: |c| > 0
  {
    hide Split, Join, SeqLen, NamesRa, Kept, Served;
    var served := Served(der, f.lengthOk);
    var trusted := [served[p]] + Kept(Named(f, ras), served, p, |served|);
    ServedAreCerts(der, f.lengthOk);
    KeptAreWanted(Named(f, ras), served, p, |served|);
    forall c | c in trusted
      ensures IsCert(c)
    {
      if c != served[p] {
        var i :| 0 <= i < |served| && served[i] == c;
      }
    }
    SplitJoin(trusted);
  }

  ghost predicate Trusts(f: Foreign, pin: Pin, served: seq<Bytes>, cert: Bytes) {
    match pin
    case Unpinned => cert in served
    case Pinned(ca, ras) =>
      exists p: nat :: IsPinned(f, ca, served, p) &&
        (cert == served[p] || (cert in served && NamesRa(f, ras, cert) && f.signedBy(cert, served[p])))
  }

  /** Which answer goes with which input. */
  ghost predicate Resolves(f: Foreign, pin: Pin, served: seq<Bytes>, max: nat, rc: Rc, cs: CaSet, ra: Bytes) {
    var certs := Split(cs.bundle);
    match rc
    case ParseFailed => served == [] || |served| > max
    case Ok =>
      0 < |served| <= max && Narrows(f, pin, served, cs) && Selects(certs, f.parse, max, Recipient(ra)) &&
      !FirstRefused(f, pin, cs, max)
    case NoRecipient(o) =>
      0 < |served| <= max && Narrows(f, pin, served, cs) && !o.Recipient? && Selects(certs, f.parse, max, o)
    case Auth =>
      0 < |served| <= max &&
      (!(exists c :: Narrows(f, pin, served, c)) || (Narrows(f, pin, served, cs) && FirstRefused(f, pin, cs, max)))
  }

  /** The pinned CA could receive the request, and the RA pins do not name it. */
  ghost predicate FirstRefused(f: Foreign, pin: Pin, cs: CaSet, max: nat) {
    var certs := Split(cs.bundle);
    pin.Pinned? && pin.ras != [] && !cs.caIsRa && certs != [] && Selects(certs, f.parse, max, Recipient(certs[0]))
  }

  /**
   * Whoever receives a request was served, is the pinned CA or an RA that is pinned and signed by it, and once
   * RA pins are given is one of those RAs.
   */
  method ResolveCa(f: Foreign, der: Bytes, pin: Pin, max: nat) returns (rc: Rc, cs: CaSet, ra: Bytes)
    ensures rc == Ok ==> Trusts(f, pin, Served(der, f.lengthOk), ra)
    ensures rc == Ok && pin.Pinned? && pin.ras != [] ==> NamesRa(f, pin.ras, ra)
    ensures Resolves(f, pin, Served(der, f.lengthOk), max, rc, cs, ra)
  {
    hide Served, Narrows, Selects, NamesRa, Split, Trusts, Offset, CanReceive;
    ra := [];
    rc, cs := CaSetFromDer(f, der, pin, max);
    if rc != Ok {
      return;
    }
    TrustedIsNotEmpty(f, der, pin, cs);
    var o, at := SelectRaCert(cs.bundle, f.parse, max);
    if !o.Recipient? {
      rc := NoRecipient(o);
      return;
    }
    ra := o.cert;
    var certs := Split(cs.bundle);
    ghost var i :| 0 <= i < |certs| && at == Offset(certs, i) && certs[i] == ra &&
      forall j | 0 <= j < i :: !CanReceive(certs, f.parse, certs[j]);
    RecipientIsTrusted(f, der, pin, cs, ra, i);
    if pin.Pinned? && pin.ras != [] && at == 0 && !cs.caIsRa {
      rc := Auth;
    } else if i > 0 && Selects(certs, f.parse, max, Recipient(certs[0])) {
      RecipientCan(certs, f.parse, max, certs[0]);
      assert false;
    }
  }

  lemma RecipientCan(certs: seq<Bytes>, parse: Parser, max: nat, ra: Bytes)
    requires Selects(certs, parse, max, Recipient(ra))
    ensures CanReceive(certs, parse, ra)
  {
    hide CanReceive, Chooses;
  }

  lemma TrustedIsNotEmpty(f: Foreign, der: Bytes, pin: Pin, cs: CaSet)
    requires Narrows(f, pin, Served(der, f.lengthOk), cs)
    ensures cs.bundle != []
  {
    hide Served, NamesRa, Kept;
    var served := Served(der, f.lengthOk);
    match pin {
      case Unpinned =>
        ServedAreCerts(der, f.lengthOk);
        SplitJoin(served);
      case Pinned(ca, ras) =>
        var p: nat :| IsPinned(f, ca, served, p) &&
          cs == CaSet(Join([served[p]] + Kept(Named(f, ras), served, p, |served|)), NamesRa(f, ras, served[p]));
        TrustedSplits(f, ras, der, p);
    }
  }

  lemma RecipientIsTrusted(f: Foreign, der: Bytes, pin: Pin, cs: CaSet, ra: Bytes, i: nat)
    requires Narrows(f, pin, Served(der, f.lengthOk), cs)
    requires i < |Split(cs.bundle)| && ra == Split(cs.bundle)[i]
    ensures Trusts(f, pin, Served(der, f.lengthOk), ra)
    ensures pin.Pinned? && (Offset(Split(cs.bundle), i) != 0 || cs.caIsRa) ==> NamesRa(f, pin.ras, ra)
    ensures pin.Pinned? ==> (Offset(Split(cs.bundle), i) == 0 <==> i == 0)
  {
    hide Served, NamesRa, Split, Join, Offset, Kept;
    var served := Served(der, f.lengthOk);
    match pin {
      case Unpinned =>
        ServedAreCerts(der, f.lengthOk);
        SplitJoin(served);
      case Pinned(ca, ras) =>
        var p: nat :| IsPinned(f, ca, served, p) && AllSigned(f, ras, served, p) &&
          cs == CaSet(Join([served[p]] + Kept(Named(f, ras), served, p, |served|)), NamesRa(f, ras, served[p]));
        TrustedSplits(f, ras, der, p);
        KeptAreWanted(Named(f, ras), served, p, |served|);
        OnlyFirstAtZero(Split(cs.bundle), i);
        if i > 0 {
          assert ra == Kept(Named(f, ras), served, p, |served|)[i - 1];
          assert ra in Kept(Named(f, ras), served, p, |served|);
          var j :| 0 <= j < |served| && j != p && served[j] == ra && Named(f, ras)(ra);
          assert NamesRa(f, ras, served[j]);
        }
    }
  }
}
