/** Which certificate of a GetCACert bundle receives the request. */
module RaSelect {
  import opened Bytes
  import opened Der

  datatype KeyUsage = KeyUsage(keyEncipherment: bool, digitalSignature: bool, dataEncipherment: bool)

  /** What a certificate says; names and key stand for their hashes. */
  datatype Info = Info(subject: Bytes, issuer: Bytes, key: Bytes, isCa: bool, rsa: bool, usage: Option<KeyUsage>) {
    predicate SelfIssued() { subject == issuer }
    predicate KeyEncipher() { usage.Some? && usage.value.keyEncipherment }

    /** Non-CA RSA ranks 4 to 1, an RSA CA 0, anything else -1. */
    function Rank(): (r: int)
      ensures -1 <= r <= 4 && (r == 0 <==> rsa && isCa)
    {
      if !rsa then -1
      else if isCa then 0
      else if usage.None? then 2
      else if KeyEncipher() then (if usage.value.digitalSignature then 3 else 4)
      else if usage.value.dataEncipherment then 1
      else -1
    }

    /** A non-CA RSA key for key transport; its certificate may name signing too. */
    predicate Enciphers() { rsa && !isCa && KeyEncipher() }
    predicate OnlyEnciphers() { Enciphers() && !usage.value.digitalSignature }

    predicate Unrestricted() { rsa && !isCa && usage.None? }
    predicate EnciphersData() { rsa && !isCa && usage.Some? && usage.value.dataEncipherment }

    /** A non-CA certificate a request can be encrypted to. */
    predicate Usable() { Enciphers() || Unrestricted() || EnciphersData() }
  }

  // --- the choice, as a function of the set of certificates ---------------------------

  /** Another CA certificate of the set, itself issued by someone else, was issued by `x`. */
  ghost predicate IssuedCa(s: set<Info>, x: Info) {
    exists y :: y in s && y.isCa && !y.SelfIssued() && y.issuer == x.subject
  }

  /**
   * The best use of the set: keyEncipherment, without digitalSignature if one is; else no keyUsage; else
   * dataEncipherment; and a CA only when no other certificate is usable.
   */
  ghost predicate Preferred(s: set<Info>, x: Info) {
    x in s && x.rsa &&
    if x.isCa then forall y | y in s :: !y.Usable()
    else
      || x.OnlyEnciphers()
      || (x.Enciphers() && forall y | y in s :: !y.OnlyEnciphers())
      || (x.Unrestricted() && forall y | y in s :: !y.Enciphers())
      || (x.EnciphersData() && forall y | y in s :: !y.Enciphers() && !y.Unrestricted())
  }

  /** Preferred, and among CAs only those that issued no subordinate. */
  ghost predicate Lowest(s: set<Info>, x: Info) {
    Preferred(s, x) && (x.isCa ==> !IssuedCa(s, x))
  }

  /** Of those, a self-issued CA only when there is no subordinate. */
  ghost predicate Subordinate(s: set<Info>, x: Info) {
    Lowest(s, x) && (x.isCa && x.SelfIssued() ==> forall y | Lowest(s, y) :: y.SelfIssued())
  }

  /** Of those, a CA without keyEncipherment only when none has it. */
  ghost predicate Eligible(s: set<Info>, x: Info) {
    Subordinate(s, x) && (x.isCa && !x.KeyEncipher() ==> forall y | Subordinate(s, y) :: !y.KeyEncipher())
  }

  datatype Choice = NoneEligible | Ambiguous | Chosen(key: Bytes)

  ghost predicate Chooses(s: set<Info>, c: Choice) {
    match c
    case NoneEligible => forall x | x in s :: !Eligible(s, x)
    case Ambiguous => exists x, y :: Eligible(s, x) && Eligible(s, y) && x.key != y.key
    case Chosen(k) => (exists x :: Eligible(s, x)) && forall x | Eligible(s, x) :: x.key == k
  }

  /** There is exactly one choice. */
  lemma ChoiceIsUnique(s: set<Info>, c: Choice, d: Choice)
    requires Chooses(s, c) && Chooses(s, d)
    ensures c == d
  {
    hide Subordinate;
    assert forall x | Eligible(s, x) :: x in s by { EligibleIsMember(s); }
  }

  lemma EligibleIsMember(s: set<Info>)
    ensures forall x | Eligible(s, x) :: x in s
  {}

  /** A CA is eligible only when no other RSA certificate lacks a keyUsage or has one that enciphers. */
  lemma CaOnlyAsLastResort(s: set<Info>, x: Info)
    requires Eligible(s, x) && x.isCa
    ensures forall y | y in s && y.rsa && !y.isCa ::
              y.usage.Some? && !y.usage.value.keyEncipherment && !y.usage.value.dataEncipherment
  {
    assert forall y | y in s :: !y.Usable();
  }

  /** Whom a request goes to when it goes to no CA. */
  lemma LeafIsFit(s: set<Info>, x: Info)
    requires Eligible(s, x) && !x.isCa
    ensures x in s && x.rsa && (x.usage.None? || x.usage.value.keyEncipherment || x.usage.value.dataEncipherment)
    ensures (exists y :: y in s && y.Enciphers()) ==> x.usage.Some? && x.usage.value.keyEncipherment
    ensures (exists y :: y in s && y.OnlyEnciphers()) ==> x.usage.Some? && !x.usage.value.digitalSignature
    ensures (forall y | y in s :: !y.Enciphers()) && (exists y :: y in s && y.Unrestricted()) ==> x.usage.None?
  {
    hide Subordinate;
    assert Preferred(s, x) by { EligibleIsPreferred(s, x); }
  }

  /**
   * Which CA it is then: none that issued a subordinate CA of the set, and a root only when every subordinate CA
   * of the set issued another.
   */
  lemma CaIsLowest(s: set<Info>, x: Info)
    requires Eligible(s, x) && x.isCa
    ensures x in s && x.rsa
    ensures forall y | y in s && y.isCa && y.issuer != y.subject :: y.issuer != x.subject
    ensures x.subject == x.issuer ==>
              forall y | y in s && y.rsa && y.isCa && y.subject != y.issuer ::
                exists z :: z in s && z.isCa && z.subject != z.issuer && z.issuer == y.subject
  {
    if x.subject == x.issuer {
      forall y | y in s && y.rsa && y.isCa && y.subject != y.issuer
        ensures exists z :: z in s && z.isCa && z.subject != z.issuer && z.issuer == y.subject
      {
        assert Preferred(s, y);
        assert !Lowest(s, y);
      }
    }
  }

  lemma EligibleIsPreferred(s: set<Info>, x: Info)
    requires Eligible(s, x)
    ensures Preferred(s, x)
  {}

  /** The ranks of the source order the certificates that way. */
  lemma RankPrefers(s: set<Info>, x: Info)
    requires x in s
    ensures Preferred(s, x) <==> x.Rank() >= 0 && forall y | y in s :: y.Rank() <= x.Rank()
  {
    if x.Rank() >= 0 && forall y | y in s :: y.Rank() <= x.Rank() {
      assert forall y | y in s && y.OnlyEnciphers() :: y.Rank() == 4;
      assert forall y | y in s && y.Enciphers() :: y.Rank() >= 3;
      assert forall y | y in s && y.Unrestricted() :: y.Rank() == 2;
      assert forall y | y in s && y.Usable() :: y.Rank() >= 1;
    }
  }

  // --- the bundle -------------------------------------------------------------------------

  /** Size of the DER SEQUENCE at the start of `s`, 0 if there is none. */
  function SeqLen(s: Bytes): (n: nat)
    ensures n <= |s| && (n > 0 <==> ReadTlv(s).Some? && ReadTlv(s).value.tag == SEQUENCE)
  {
    match ReadTlv(s)
    case None => 0
    case Some(h) => if h.tag != SEQUENCE then 0 else h.hdr + h.len
  }

  /** The leading run of whole certificates. */
  function Split(bundle: Bytes): seq<Bytes> {
    var n := SeqLen(bundle);
    if n == 0 then [] else [bundle[..n]] + Split(bundle[n..])
  }

  predicate IsCert(c: Bytes) { 0 < SeqLen(c) == |c| }

  /** A certificate is one SEQUENCE. */
  lemma CertIs(c: Bytes)
    ensures IsCert(c) <==> exists content :: IsElement(c, 0x30, content)
  {
    hide ReadTlv, IsElement;
    if IsCert(c) {
      ReadIsElement(c);
      assert c[..|c|] == c;
    }
    forall content | IsElement(c, 0x30, content)
      ensures IsCert(c)
    {
      ElementReads(c, 0x30, content, []);
      assert c + [] == c;
    }
  }

  function Join(certs: seq<Bytes>): Bytes {
    if certs == [] then [] else certs[0] + Join(certs[1..])
  }

  lemma SeqLenIgnoresRest(c: Bytes, rest: Bytes, whole: Bytes)
    requires whole == c + rest
    ensures IsCert(c) ==> SeqLen(whole) == |c|
    ensures 0 < SeqLen(whole) == |c| ==> IsCert(c)
  {
    if |c| >= 2 {
      assert whole[0] == c[0] && whole[1] == c[1];
      if c[1] > 0x80 {
        var nb := c[1] - 0x80;
        if nb <= 4 && |c| >= 2 + nb {
          assert whole[2..2 + nb] == c[2..2 + nb];
        }
      }
    }
  }

  lemma {:induction false} SplitJoin(certs: seq<Bytes>)
    requires forall i | 0 <= i < |certs| :: IsCert(certs[i])
    ensures Split(Join(certs)) == certs
  {
    if certs == [] {
    } else {
      var whole, rest := Join(certs), Join(certs[1..]);
      SeqLenIgnoresRest(certs[0], rest, whole);
      assert whole[..|certs[0]|] == certs[0] && whole[|certs[0]|..] == rest;
      SplitJoin(certs[1..]);
    }
  }

  // --- selection ------------------------------------------------------------------------------

  type Parser = Bytes -> Option<Info>

  ghost function Infos(certs: seq<Bytes>, parse: Parser): set<Info> {
    set i | 0 <= i < |certs| && parse(certs[i]).Some? :: parse(certs[i]).value
  }

  ghost predicate CanReceive(certs: seq<Bytes>, parse: Parser, cert: Bytes) {
    parse(cert).Some? && Eligible(Infos(certs, parse), parse(cert).value)
  }

  function Offset(certs: seq<Bytes>, i: nat): nat
    requires i <= |certs|
  {
    if i == 0 then 0 else Offset(certs, i - 1) + |certs[i - 1]|
  }

  datatype Outcome = BadArg | ParseError | Unsupported | Protocol | Recipient(cert: Bytes)

  /** What selection answers for a bundle's certificates, up to which of those with the chosen key it names. */
  ghost predicate Selects(certs: seq<Bytes>, parse: Parser, max: nat, o: Outcome) {
    var s := Infos(certs, parse);
    if certs == [] then o == ParseError
    else if |certs| > max then o == BadArg
    else match o
      case Unsupported => Chooses(s, NoneEligible)
      case Protocol => Chooses(s, Ambiguous)
      case Recipient(cert) =>
        cert in certs && CanReceive(certs, parse, cert) && Chooses(s, Chosen(parse(cert).value.key))
      case _ => false
  }

  /** The recipient is fit: an RSA key, of a CA only when no other certificate of the bundle is usable. */
  lemma RecipientIsFit(certs: seq<Bytes>, parse: Parser, max: nat, o: Outcome, c: Bytes)
    requires Selects(certs, parse, max, o) && o.Recipient? && c in certs && parse(c).Some?
    ensures var x, y := parse(o.cert).value, parse(c).value;
            && x.rsa
            && (!x.isCa ==> x.usage.None? || x.usage.value.keyEncipherment || x.usage.value.dataEncipherment)
            && (y.rsa && !y.isCa && (y.usage.None? || y.usage.value.keyEncipherment || y.usage.value.dataEncipherment)
                ==> !x.isCa)
            && (y.rsa && !y.isCa && y.usage.Some? && y.usage.value.keyEncipherment ==>
                  && x.usage.Some? && x.usage.value.keyEncipherment
                  && (!y.usage.value.digitalSignature ==> !x.usage.value.digitalSignature))
  {
    hide Subordinate, Chooses;
    var s, x, y := Infos(certs, parse), parse(o.cert).value, parse(c).value;
    assert y in s by {
      var i :| 0 <= i < |certs| && certs[i] == c;
    }
    EligibleIsPreferred(s, x);
    assert y.Usable() ==> !x.isCa;
    if !x.isCa { LeafIsFit(s, x); }
  }

  /** The same certificates in another order: the same answer, and the same key. */
  lemma OrderIsIrrelevant(certs: seq<Bytes>, perm: seq<Bytes>, parse: Parser, max: nat, o: Outcome, p: Outcome)
    requires forall c | c in certs + perm :: IsCert(c)
    requires multiset(certs) == multiset(perm)
    requires Selects(Split(Join(certs)), parse, max, o) && Selects(Split(Join(perm)), parse, max, p)
    ensures o.Recipient? == p.Recipient?
    ensures if o.Recipient? then
              parse(o.cert).Some? && parse(p.cert).Some? && parse(o.cert).value.key == parse(p.cert).value.key
            else o == p
  {
    hide Split, Join, IsCert, Eligible;
    assert Split(Join(certs)) == certs && Split(Join(perm)) == perm by {
      assert forall i | 0 <= i < |certs| :: certs[i] in certs + perm;
      assert forall i | 0 <= i < |perm| :: perm[i] in certs + perm;
      SplitJoin(certs);
      SplitJoin(perm);
    }
    SameLength(certs, perm);
    SameInfos(certs, perm, parse);
    var s := Infos(certs, parse);
    if certs != [] && |certs| <= max {
      ChoiceIsUnique(s, OutcomeChoice(o, parse), OutcomeChoice(p, parse));
    }
  }

  ghost function OutcomeChoice(o: Outcome, parse: Parser): Choice {
    match o
    case Recipient(cert) => if parse(cert).Some? then Chosen(parse(cert).value.key) else NoneEligible
    case Protocol => Ambiguous
    case _ => NoneEligible
  }

  lemma SameLength(a: seq<Bytes>, b: seq<Bytes>)
    requires multiset(a) == multiset(b)
    ensures |a| == |b|
  {
    assert |multiset(a)| == |a| && |multiset(b)| == |b|;
  }

  lemma SameInfos(a: seq<Bytes>, b: seq<Bytes>, parse: Parser)
    requires multiset(a) == multiset(b)
    ensures Infos(a, parse) == Infos(b, parse)
  {
    InfosWithin(a, b, parse);
    InfosWithin(b, a, parse);
  }

  lemma InfosWithin(a: seq<Bytes>, b: seq<Bytes>, parse: Parser)
    requires multiset(a) == multiset(b)
    ensures Infos(a, parse) <= Infos(b, parse)
  {
    forall x | x in Infos(a, parse)
      ensures x in Infos(b, parse)
    {
      var i :| 0 <= i < |a| && parse(a[i]) == Some(x);
      assert a[i] in multiset(a) && a[i] in multiset(b);
      var j :| 0 <= j < |b| && b[j] == a[i];
    }
  }

  // --- the passes over the candidates -----------------------------------------------------------

  datatype Candidate = Candidate(at: nat, cert: Bytes, info: Option<Info>) {
    function Rank(): (r: int)
      ensures -1 <= r <= 4
    {
      if info.Some? then info.value.Rank() else -1
    }
  }

  ghost function InfoSet(cs: seq<Candidate>): set<Info> {
    set i | 0 <= i < |cs| && cs[i].info.Some? :: cs[i].info.value
  }

  ghost predicate IsLowest(cs: seq<Candidate>, i: int) {
    0 <= i < |cs| && cs[i].info.Some? && Lowest(InfoSet(cs), cs[i].info.value)
  }

  ghost predicate IsSubordinate(cs: seq<Candidate>, i: int) {
    0 <= i < |cs| && cs[i].info.Some? && Subordinate(InfoSet(cs), cs[i].info.value)
  }

  ghost predicate IsEligible(cs: seq<Candidate>, i: int) {
    0 <= i < |cs| && cs[i].info.Some? && Eligible(InfoSet(cs), cs[i].info.value)
  }

  ghost predicate IsBest(cs: seq<Candidate>, best: int) {
    && best >= -1 && (forall i | 0 <= i < |cs| :: cs[i].Rank() <= best)
    && (best >= 0 ==> exists i :: 0 <= i < |cs| && cs[i].Rank() == best)
  }

  lemma BestIs(cs: seq<Candidate>, best: int, i: nat)
    requires IsBest(cs, best) && i < |cs|
    ensures best >= 0 && cs[i].Rank() == best <==> cs[i].info.Some? && Preferred(InfoSet(cs), cs[i].info.value)
  {
    hide Preferred, Info.Rank;
    var s := InfoSet(cs);
    if cs[i].info.Some? { RankPrefers(s, cs[i].info.value); }
    forall y | y in s
      ensures y.Rank() <= best
    {
      var j :| 0 <= j < |cs| && cs[j].info == Some(y);
      assert cs[j].Rank() == y.Rank();
    }
    if best >= 0 {
      var j :| 0 <= j < |cs| && cs[j].Rank() == best;
      assert cs[j].info.Some? ==> cs[j].info.value in s;
    }
  }

  /** Skipping the candidate itself changes nothing: no certificate is another CA's subordinate by its own name. */
  method CandidateIssuedCa(cs: seq<Candidate>, i: nat) returns (b: bool)
    requires i < |cs| && cs[i].info.Some?
    ensures b == IssuedCa(InfoSet(cs), cs[i].info.value)
  {
    var x := cs[i].info.value;
    for k := 0 to |cs|
      invariant forall j | 0 <= j < k && cs[j].info.Some? ::
          var y := cs[j].info.value; !(y.isCa && !y.SelfIssued() && y.issuer == x.subject)
    {
      if k != i && cs[k].info.Some? && cs[k].info.value.isCa && !cs[k].info.value.SelfIssued() &&
         cs[k].info.value.issuer == x.subject {
        assert cs[k].info.value in InfoSet(cs);
        return true;
      }
    }
    return false;
  }

  method KeepLowest(cs: seq<Candidate>, best: int, keep: array<bool>) returns (anySub: bool)
    requires IsBest(cs, best) && keep.Length == |cs|
    modifies keep
    ensures forall i | 0 <= i < |cs| :: keep[i] == IsLowest(cs, i)
    ensures anySub <==> best == 0 && exists i :: IsLowest(cs, i) && !cs[i].info.value.SelfIssued()
  {
    anySub := false;
    for i := 0 to |cs|
      invariant forall j | 0 <= j < i :: keep[j] == IsLowest(cs, j)
      invariant anySub <==> best == 0 && exists j :: j < i && IsLowest(cs, j) && !cs[j].info.value.SelfIssued()
    {
      BestIs(cs, best, i);
      if best >= 0 && cs[i].Rank() == best {
        if best > 0 {
          keep[i] := true;
        } else {
          var issued := CandidateIssuedCa(cs, i);
          keep[i] := !issued;
        }
        if keep[i] && best == 0 && !cs[i].info.value.SelfIssued() {
          anySub := true;
        }
      } else {
        keep[i] := false;
      }
    }
  }

  lemma SubordinateIs(cs: seq<Candidate>, best: int, anySub: bool, i: nat)
    requires IsBest(cs, best) && i < |cs|
    requires anySub <==> best == 0 && exists k :: IsLowest(cs, k) && !cs[k].info.value.SelfIssued()
    ensures IsLowest(cs, i) && !(anySub && cs[i].info.value.SelfIssued()) <==> IsSubordinate(cs, i)
  {
    hide Info.SelfIssued;
    var s := InfoSet(cs);
    BestIs(cs, best, i);
    if IsLowest(cs, i) && !anySub {
      forall y | Lowest(s, y)
        ensures best == 0 ==> y.SelfIssued()
      {
        var k :| 0 <= k < |cs| && cs[k].info == Some(y);
        assert IsLowest(cs, k);
      }
    }
  }

  method KeepSubordinate(cs: seq<Candidate>, best: int, anySub: bool, keep: array<bool>) returns (anyKe: bool)
    requires IsBest(cs, best) && keep.Length == |cs|
    requires forall i | 0 <= i < |cs| :: keep[i] == IsLowest(cs, i)
    requires anySub <==> best == 0 && exists i :: IsLowest(cs, i) && !cs[i].info.value.SelfIssued()
    modifies keep
    ensures forall i | 0 <= i < |cs| :: keep[i] == IsSubordinate(cs, i)
    ensures anyKe <==> exists i :: IsSubordinate(cs, i) && cs[i].info.value.KeyEncipher()
  {
    anyKe := false;
    for i := 0 to |cs|
      invariant forall j | 0 <= j < i :: keep[j] == IsSubordinate(cs, j)
      invariant forall j | i <= j < |cs| :: keep[j] == IsLowest(cs, j)
      invariant anyKe <==> exists j :: j < i && IsSubordinate(cs, j) && cs[j].info.value.KeyEncipher()
    {
      hide Lowest, Subordinate;
      SubordinateIs(cs, best, anySub, i);
      if anySub && cs[i].info.Some? && cs[i].info.value.SelfIssued() {
        keep[i] := false;
      }
      if keep[i] && cs[i].info.Some? && cs[i].info.value.KeyEncipher() {
        anyKe := true;
      }
    }
  }

  lemma EligibleIs(cs: seq<Candidate>, best: int, anyKe: bool, i: nat)
    requires IsBest(cs, best) && i < |cs|
    requires anyKe <==> exists k :: IsSubordinate(cs, k) && cs[k].info.value.KeyEncipher()
    ensures IsSubordinate(cs, i) && !(best == 0 && anyKe && !cs[i].info.value.KeyEncipher()) <==> IsEligible(cs, i)
  {
    hide Info.KeyEncipher;
    var s := InfoSet(cs);
    BestIs(cs, best, i);
    if IsSubordinate(cs, i) {
      forall y | Subordinate(s, y)
        ensures y.KeyEncipher() ==> anyKe
      {
        var k :| 0 <= k < |cs| && cs[k].info == Some(y);
        assert IsSubordinate(cs, k);
      }
    }
  }

  datatype Pick = NoPick | Conflict | First(i: nat)

  /** The first eligible candidate, when every other one has its key. */
  ghost predicate Picks(cs: seq<Candidate>, p: Pick) {
    match p
    case NoPick => forall i :: !IsEligible(cs, i)
    case Conflict =>
      exists i, j :: IsEligible(cs, i) && IsEligible(cs, j) && cs[i].info.value.key != cs[j].info.value.key
    case First(k) =>
      IsEligible(cs, k) && forall i | IsEligible(cs, i) :: k <= i && cs[i].info.value.key == cs[k].info.value.key
  }

  method PickFirst(cs: seq<Candidate>, best: int, anyKe: bool, keep: array<bool>) returns (p: Pick)
    requires IsBest(cs, best) && keep.Length == |cs|
    requires forall i | 0 <= i < |cs| :: keep[i] == IsSubordinate(cs, i)
    requires anyKe <==> exists i :: IsSubordinate(cs, i) && cs[i].info.value.KeyEncipher()
    ensures Picks(cs, p)
  {
    p := NoPick;
    for i := 0 to |cs|
      invariant p.NoPick? ==> forall j | IsEligible(cs, j) :: i <= j
      invariant !p.Conflict?
      invariant p.First? ==> IsEligible(cs, p.i) && p.i < i
      invariant p.First? ==>
          forall j | IsEligible(cs, j) && j < i :: p.i <= j && cs[j].info.value.key == cs[p.i].info.value.key
    {
      hide Subordinate, Eligible;
      EligibleIs(cs, best, anyKe, i);
      if keep[i] && !(best == 0 && anyKe && !cs[i].info.value.KeyEncipher()) {
        if p.NoPick? {
          p := First(i);
        } else if cs[p.i].info.value.key != cs[i].info.value.key {
          return Conflict;
        }
      }
    }
  }

  method BestOf(cs: seq<Candidate>) returns (best: int)
    ensures IsBest(cs, best)
  {
    best := -1;
    for i := 0 to |cs|
      invariant best >= -1 && forall j | 0 <= j < i :: cs[j].Rank() <= best
      invariant best >= 0 ==> exists j :: 0 <= j < i && cs[j].Rank() == best
    {
      if cs[i].Rank() > best {
        best := cs[i].Rank();
      }
    }
  }

  // --- the whole call --------------------------------------------------------------------------------

  /** How many certificates lead the bundle; None once there are more than `max`. */
  method CountCerts(bundle: Bytes, max: nat) returns (n: Option<nat>)
    ensures n == if |Split(bundle)| <= max then Some(|Split(bundle)|) else None
  {
    hide ReadTlv;
    var off, k := 0, 0;
    while off < |bundle|
      invariant off <= |bundle| && k <= max
      invariant |Split(bundle)| == k + |Split(bundle[off..])|
    {
      var clen := SeqLen(bundle[off..]);
      if clen == 0 {
        break;
      }
      assert bundle[off..][clen..] == bundle[off + clen..];
      k := k + 1;
      if k > max {
        return None;
      }
      off := off + clen;
    }
    return Some(k);
  }

  ghost predicate CandidatesOf(cs: seq<Candidate>, bundle: Bytes, parse: Parser) {
    var certs := Split(bundle);
    && |cs| <= |certs|
    && forall i | 0 <= i < |cs| :: CandidateOf(cs[i], bundle, certs, i, parse)
  }

  ghost predicate CandidateOf(c: Candidate, bundle: Bytes, certs: seq<Bytes>, i: nat, parse: Parser)
    requires i < |certs|
  {
    && c == Candidate(Offset(certs, i), certs[i], parse(certs[i]))
    && c.at + |c.cert| <= |bundle| && bundle[c.at..c.at + |c.cert|] == c.cert
  }

  lemma SplitHead(bundle: Bytes)
    requires Split(bundle) != []
    ensures Split(bundle)[0] == bundle[..SeqLen(bundle)]
    ensures Split(bundle)[1..] == Split(bundle[SeqLen(bundle)..])
  {}

  lemma SplitStep(bundle: Bytes, off: nat, certs: seq<Bytes>, i: nat)
    requires off <= |bundle| && i < |certs| && Split(bundle[off..]) == certs[i..]
    ensures var n := SeqLen(bundle[off..]);
            bundle[off..off + n] == certs[i] && Split(bundle[off + n..]) == certs[i + 1..]
  {
    hide Split, SeqLen;
    var rest := bundle[off..];
    var n := SeqLen(rest);
    SplitHead(rest);
    assert rest[n..] == bundle[off + n..] && rest[..n] == bundle[off..off + n];
    assert certs[i..][0] == certs[i] && certs[i..][1..] == certs[i + 1..];
  }

  method ParseCandidates(bundle: Bytes, parse: Parser, n: nat) returns (cs: seq<Candidate>)
    requires n == |Split(bundle)|
    ensures |cs| == n && CandidatesOf(cs, bundle, parse)
  {
    hide Split, SeqLen;
    cs := [];
    var off := 0;
    ghost var certs := Split(bundle);
    assert bundle[off..] == bundle;
    for i := 0 to n
      invariant off <= |bundle| && |cs| == i && off == Offset(certs, i)
      invariant Split(bundle[off..]) == certs[i..]
      invariant CandidatesOf(cs, bundle, parse)
    {
      SplitStep(bundle, off, certs, i);
      var clen := SeqLen(bundle[off..]);
      var cert := bundle[off..off + clen];
      cs := cs + [Candidate(off, cert, parse(cert))];
      off := off + clen;
    }
  }

  lemma InfosAgree(cs: seq<Candidate>, bundle: Bytes, parse: Parser)
    requires CandidatesOf(cs, bundle, parse) && |cs| == |Split(bundle)|
    ensures InfoSet(cs) == Infos(Split(bundle), parse)
    ensures forall i | 0 <= i < |cs| :: IsEligible(cs, i) == CanReceive(Split(bundle), parse, Split(bundle)[i])
  {
    hide Eligible, Split, Offset;
    var certs := Split(bundle);
    assert forall i | 0 <= i < |cs| :: cs[i].info == parse(certs[i]);
    assert InfoSet(cs) == Infos(certs, parse);
  }

  lemma PickedIsChosen(cs: seq<Candidate>, p: Pick)
    requires Picks(cs, p)
    ensures p.NoPick? ==> Chooses(InfoSet(cs), NoneEligible)
    ensures p.Conflict? ==> Chooses(InfoSet(cs), Ambiguous)
    ensures p.First? ==> Chooses(InfoSet(cs), Chosen(cs[p.i].info.value.key))
  {
    hide Subordinate, Preferred, Info.Rank, Info.KeyEncipher;
    var s := InfoSet(cs);
    EligibleIsMember(s);
    forall x | Eligible(s, x)
      ensures exists i :: IsEligible(cs, i) && cs[i].info == Some(x)
    {
      var i :| 0 <= i < |cs| && cs[i].info == Some(x);
      assert IsEligible(cs, i);
    }
  }

  /**
   * Choose the certificate that receives the request. It is the first that can, and every other that can
   * has the same key.
   */
  method SelectRaCert(bundle: Bytes, parse: Parser, max: nat) returns (o: Outcome, at: nat)
    ensures if bundle == [] then o == BadArg else Selects(Split(bundle), parse, max, o)
    ensures o.Recipient? ==>
              var certs := Split(bundle);
              exists i :: 0 <= i < |certs| && at == Offset(certs, i) && certs[i] == o.cert &&
                at + |o.cert| <= |bundle| && bundle[at..at + |o.cert|] == o.cert &&
                forall j | 0 <= j < i :: !CanReceive(certs, parse, certs[j])
  {
    hide Split, Offset, Picks, Chooses, CanReceive, Eligible;
    at := 0;
    if bundle == [] {
      return BadArg, at;
    }
    ghost var certs := Split(bundle);
    var n := CountCerts(bundle, max);
    if n.None? {
      return BadArg, at;
    }
    if n.value == 0 {
      return ParseError, at;
    }
    var cs := ParseCandidates(bundle, parse, n.value);
    var best := BestOf(cs);
    var keep := new bool[|cs|];
    var anySub := KeepLowest(cs, best, keep);
    var anyKe := KeepSubordinate(cs, best, anySub, keep);
    var p := PickFirst(cs, best, anyKe, keep);
    InfosAgree(cs, bundle, parse);
    PickedIsChosen(cs, p);
    match p {
      case NoPick =>
        o := Unsupported;
      case Conflict =>
        o := Protocol;
      case First(k) =>
        FirstIs(cs, k);
        o, at := Recipient(cs[k].cert), cs[k].at;
    }
  }

  lemma FirstIs(cs: seq<Candidate>, k: nat)
    requires Picks(cs, First(k))
    ensures k < |cs| && IsEligible(cs, k) && forall j | 0 <= j < k :: !IsEligible(cs, j)
  {
    hide Eligible;
  }

  /** A CertRep's signer is accepted exactly when it has the key of a certificate of the bundle. */
  method VerifyRepSigner(signer: Bytes, bundle: Bytes, spki: Bytes -> Option<Bytes>) returns (ok: bool)
    ensures ok <==> spki(signer).Some? && exists c :: c in Split(bundle) && spki(c) == spki(signer)
  {
    hide SeqLen;
    var key := spki(signer);
    if key.None? {
      return false;
    }
    var off := 0;
    assert bundle[off..] == bundle;
    while off < |bundle|
      invariant off <= |bundle|
      invariant (exists c :: c in Split(bundle) && spki(c) == key) <==>
                (exists c :: c in Split(bundle[off..]) && spki(c) == key)
    {
      var clen := SeqLen(bundle[off..]);
      if clen == 0 {
        break;
      }
      SplitHead(bundle[off..]);
      assert bundle[off..][..clen] == bundle[off..off + clen] && bundle[off..][clen..] == bundle[off + clen..];
      ghost var rest := Split(bundle[off..]);
      assert forall c :: c in rest <==> c == rest[0] || c in rest[1..];
      if spki(bundle[off..off + clen]) == key {
        assert rest[0] in rest;
        return true;
      }
      off := off + clen;
    }
    return false;
  }
}
