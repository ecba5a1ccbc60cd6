/** IPv6 text (section 2.2 of RFC 4291): the strings the parser takes are exactly the renderings of its result. */
module Ipv6Text {
  import opened Bytes
  import opened Chunked
  import opened IpText
  import opened Numerals

  const GAP: Bytes := [COLON, COLON]

  // --- renderings ---------------------------------------------------------------------------

  predicate IsGroup(g: Bytes) { 1 <= |g| <= 4 && AllHex(g) }

  lemma {:induction false} HexBound(g: Bytes)
    requires AllHex(g) && |g| <= 4
    ensures HexValue(g) < 0x1_0000
    ensures |g| < 4 ==> HexValue(g) < 0x1000
    ensures |g| < 3 ==> HexValue(g) < 0x100
    ensures |g| < 2 ==> HexValue(g) < 0x10
    decreases |g|
  {
    if g != [] { HexBound(g[..|g| - 1]); }
  }

  /** A group's two bytes. */
  function GroupValue(g: Bytes): (v: Bytes)
    requires IsGroup(g)
    ensures |v| == 2
  {
    HexBound(g);
    [HexValue(g) / 256, HexValue(g) % 256]
  }

  /** Groups with colons between them, the last perhaps a dotted quad. */
  datatype Groups = Last(g: Bytes) | Quad(q: Bytes) | More(g: Bytes, rest: Groups) {
    predicate Valid() {
      match this
      case Last(g) => IsGroup(g)
      case Quad(q) => |q| == 4
      case More(g, rest) => IsGroup(g) && rest.Valid()
    }

    function Text(): Bytes
      requires Valid()
    {
      match this
      case Last(g) => g
      case Quad(q) => Dotted(q)
      case More(g, rest) => g + [COLON] + rest.Text()
    }

    function Value(): Bytes
      requires Valid()
    {
      match this
      case Last(g) => GroupValue(g)
      case Quad(q) => q
      case More(g, rest) => GroupValue(g) + rest.Value()
    }
  }

  /** Hexadecimal groups only, as before a "::". */
  datatype Hexes = One(g: Bytes) | Then(g: Bytes, rest: Hexes) {
    predicate Valid() { IsGroup(g) && (Then? ==> rest.Valid()) }

    function Text(): Bytes { if One? then g else g + [COLON] + rest.Text() }

    function Value(): Bytes
      requires Valid()
    {
      if One? then GroupValue(g) else GroupValue(g) + rest.Value()
    }
  }

  function Zeros(n: nat): (z: Bytes)
    ensures |z| == n && forall i | 0 <= i < n :: z[i] == 0
  {
    seq(n, _ => 0)
  }

  datatype Rendering = Plain(groups: Groups) | Compressed(left: Option<Hexes>, right: Option<Groups>) {
    predicate Valid() {
      match this
      case Plain(gs) => gs.Valid() && |gs.Value()| == 16
      case Compressed(l, r) =>
        (l.Some? ==> l.value.Valid()) && (r.Some? ==> r.value.Valid()) && |Left()| + |Right()| < 16
    }

    function Left(): Bytes
      requires Compressed? && (left.Some? ==> left.value.Valid())
    {
      if left.None? then [] else left.value.Value()
    }

    function Right(): Bytes
      requires Compressed? && (right.Some? ==> right.value.Valid())
    {
      if right.None? then [] else right.value.Value()
    }

    function Text(): Bytes
      requires Valid()
    {
      match this
      case Plain(gs) => gs.Text()
      case Compressed(l, r) =>
        (if l.None? then [] else l.value.Text()) + GAP + if r.None? then [] else r.value.Text()
    }

    function Address(): (a: Bytes)
      requires Valid()
      ensures |a| == 16
    {
      match this
      case Plain(gs) => gs.Value()
      case Compressed(_, _) => Left() + Zeros(16 - |Left()| - |Right()|) + Right()
    }
  }

  // --- the scan -------------------------------------------------------------------------------

  /** Is there a dot before the next colon? */
  function GroupIsIpv4(s: Bytes): bool {
    s != [] && s[0] != COLON && (s[0] == DOT || GroupIsIpv4(s[1..]))
  }

  function GroupWidth(s: Bytes): (n: nat)
    ensures n <= |s| && n <= 4 && (n > 0 ==> IsGroup(s[..n]))
  {
    var n := HexRun(s);
    if n > 4 then 4 else n
  }

  datatype Scanned = Scanned(bytes: Bytes, gap: Option<nat>)

  function ScanText(s: Bytes, bytes: Bytes, gap: Option<nat>): Option<Scanned> {
    if s == [] then Some(Scanned(bytes, gap))
    else if GroupIsIpv4(s) then
      (if |bytes| > 12 || ReadDotted(s, 4).None? then None else Some(Scanned(bytes + ReadDotted(s, 4).value, gap)))
    else
      var n := GroupWidth(s);
      if n == 0 || |bytes| > 14 then None
      else
        var b := bytes + GroupValue(s[..n]);
        if |s| == n then Some(Scanned(b, gap))
        else if s[n] != COLON then None
        else if |s| == n + 1 then None
        else if s[n + 1] != COLON then ScanText(s[n + 1..], b, gap)
        else if gap.Some? then None
        else ScanText(s[n + 2..], b, Some(|b|))
  }

  function Expand(r: Scanned): Option<Bytes> {
    match r.gap
    case None => if |r.bytes| == 16 then Some(r.bytes) else None
    case Some(g) => if g <= |r.bytes| < 16 then Some(r.bytes[..g] + Zeros(16 - |r.bytes|) + r.bytes[g..]) else None
  }

  function Start(s: Bytes): Option<Scanned> {
    if s == [] || s[0] != COLON then ScanText(s, [], None)
    else if |s| < 2 || s[1] != COLON then None
    else ScanText(s[2..], [], Some(0))
  }

  function ReadIpv6(s: Bytes): (a: Option<Bytes>)
    ensures a.Some? ==> |a.value| == 16
  {
    match Start(s)
    case None => None
    case Some(r) => Expand(r)
  }

  // --- every rendering is read ------------------------------------------------------------------

  lemma {:induction false} NoDotInHex(g: Bytes, t: Bytes)
    requires AllHex(g) && (t == [] || t[0] == COLON)
    ensures !GroupIsIpv4(g + t)
  {
    if g == [] {
      assert g + t == t;
    } else {
      assert (g + t)[1..] == g[1..] + t;
      NoDotInHex(g[1..], t);
    }
  }

  lemma WidthOfGroup(g: Bytes, t: Bytes)
    requires IsGroup(g) && (t == [] || t[0] == COLON)
    ensures GroupWidth(g + t) == |g| && (g + t)[..|g|] == g && (g + t)[|g|..] == t
  {
    var s := g + t;
    var n := HexRun(s);
    assert forall i | 0 <= i < |g| :: s[i] == g[i];
    assert t != [] ==> s[|g|] == COLON;
  }

  /** One group, up to the colon or the end after it. */
  lemma ScanGroup(g: Bytes, t: Bytes, bytes: Bytes, gap: Option<nat>)
    requires IsGroup(g) && (t == [] || t[0] == COLON) && |bytes| <= 14
    ensures var b := bytes + GroupValue(g);
            ScanText(g + t, bytes, gap) ==
            if t == [] then Some(Scanned(b, gap))
            else if |t| == 1 then None
            else if t[1] != COLON then ScanText(t[1..], b, gap)
            else if gap.Some? then None
            else ScanText(t[2..], b, Some(|b|))
  {
    hide ReadDotted, GroupIsIpv4, GroupWidth, GroupValue, AllHex;
    var s := g + t;
    NoDotInHex(g, t);
    WidthOfGroup(g, t);
    if |t| >= 2 {
      assert s[|g| + 1] == t[1] && s[|g| + 1..] == t[1..] && s[|g| + 2..] == t[2..];
    }
  }

  lemma DottedHasDot(q: Bytes)
    requires |q| == 4
    ensures GroupIsIpv4(Dotted(q)) && Dotted(q) != []
  {
    hide Dotted, ReadDotted;
    var d := Dec(q[0]);
    var rest := Dotted(q[1..]);
    assert Dotted(q) == d + [DOT] + rest by { DottedSplits(q); }
    NoColonInDec(q[0], rest);
  }

  lemma DottedSplits(q: Bytes)
    requires |q| == 4
    ensures Dotted(q) == Dec(q[0]) + [DOT] + Dotted(q[1..])
  {}

  lemma NoColonInDec(v: Byte, rest: Bytes)
    ensures GroupIsIpv4(Dec(v) + [DOT] + rest)
  {
    var s := Dec(v) + [DOT] + rest;
    assert GroupIsIpv4([DOT] + rest);
    DotAfterDigits(Dec(v), rest);
  }

  lemma {:induction false} DotAfterDigits(d: Bytes, rest: Bytes)
    requires forall i | 0 <= i < |d| :: IsDigit(d[i])
    ensures GroupIsIpv4(d + [DOT] + rest)
  {
    var s := d + [DOT] + rest;
    if d == [] {
      assert s[0] == DOT;
    } else {
      assert s[1..] == d[1..] + [DOT] + rest;
      DotAfterDigits(d[1..], rest);
    }
  }

  /** The text of groups is not empty and starts with no colon. */
  lemma GroupsStart(gs: Groups)
    requires gs.Valid()
    ensures gs.Text() != [] && gs.Text()[0] != COLON && |gs.Value()| >= 2
  {
    match gs {
      case Last(g) =>
      case Quad(q) =>
        DottedSplits(q);
        assert IsDigit(Dec(q[0])[0]);
      case More(g, rest) =>
        assert gs.Text()[0] == g[0];
    }
  }

  lemma {:induction false} GroupsScan(gs: Groups, bytes: Bytes, gap: Option<nat>)
    requires gs.Valid() && |bytes| + |gs.Value()| <= 16
    ensures ScanText(gs.Text(), bytes, gap) == Some(Scanned(bytes + gs.Value(), gap))
    decreases gs
  {
    hide ScanText, GroupValue, IsGroup, Dotted, ReadDotted;
    match gs {
      case Last(g) =>
        ScanGroup(g, [], bytes, gap);
        assert g + [] == g;
      case Quad(q) =>
        DottedHasDot(q);
        Ipv4TextIs(Dotted(q), q);
        ScanQuad(Dotted(q), bytes, gap);
      case More(g, rest) =>
        GroupsStart(rest);
        var t := [COLON] + rest.Text();
        ScanGroup(g, t, bytes, gap);
        assert gs.Text() == g + t && t[1..] == rest.Text() && t[1] == rest.Text()[0];
        GroupsScan(rest, bytes + GroupValue(g), gap);
        assert bytes + GroupValue(g) + rest.Value() == bytes + (GroupValue(g) + rest.Value());
    }
  }

  lemma ScanQuad(s: Bytes, bytes: Bytes, gap: Option<nat>)
    requires GroupIsIpv4(s) && |bytes| <= 12 && ReadDotted(s, 4).Some?
    ensures ScanText(s, bytes, gap) == Some(Scanned(bytes + ReadDotted(s, 4).value, gap))
  {
    hide ReadDotted;
  }

  lemma {:induction false} HexesScan(h: Hexes, rest: Bytes, bytes: Bytes)
    requires h.Valid() && |bytes| + |h.Value()| <= 16
    ensures ScanText(h.Text() + GAP + rest, bytes, None) == ScanText(rest, bytes + h.Value(), Some(|bytes + h.Value()|))
    decreases h
  {
    hide ScanText, GroupValue, AllHex;
    if h.One? {
      var t := GAP + rest;
      assert h.Text() + GAP + rest == h.g + t && t[2..] == rest;
      ScanGroup(h.g, t, bytes, None);
    } else {
      var t := [COLON] + (h.rest.Text() + GAP + rest);
      assert h.Text() + GAP + rest == h.g + t && t[1..] == h.rest.Text() + GAP + rest;
      HexesStart(h.rest);
      assert t[1] == h.rest.Text()[0];
      ScanGroup(h.g, t, bytes, None);
      HexesScan(h.rest, rest, bytes + GroupValue(h.g));
      assert bytes + GroupValue(h.g) + h.rest.Value() == bytes + h.Value();
    }
  }

  lemma HexesStart(h: Hexes)
    requires h.Valid()
    ensures h.Text() != [] && h.Text()[0] != COLON
  {
    assert h.Text()[0] == h.g[0];
  }

  /** Whatever the rendering, the parser returns the address it renders. */
  lemma RenderingReads(r: Rendering)
    requires r.Valid()
    ensures ReadIpv6(r.Text()) == Some(r.Address())
  {
    hide ScanText, GroupValue, AllHex, Groups.Text, Hexes.Text, Groups.Value, Hexes.Value;
    match r {
      case Plain(gs) =>
        GroupsStart(gs);
        GroupsScan(gs, [], None);
        assert [] + gs.Value() == gs.Value();
      case Compressed(l, rt) =>
        CompressedReads(r);
    }
  }

  lemma CompressedReads(r: Rendering)
    requires r.Valid() && r.Compressed?
    ensures ReadIpv6(r.Text()) == Some(r.Address())
  {
    hide Start, ScanText, GroupValue, AllHex, Groups.Text, Hexes.Text, Groups.Value, Hexes.Value, Rendering.Text;
    var l, v := r.Left(), r.Right();
    CompressedStarts(r);
    assert (l + v)[..|l|] == l && (l + v)[|l|..] == v;
  }

  lemma CompressedStarts(r: Rendering)
    requires r.Valid() && r.Compressed?
    ensures Start(r.Text()) == Some(Scanned(r.Left() + r.Right(), Some(|r.Left()|)))
  {
    hide ScanText, GroupValue, AllHex, Groups.Text, Hexes.Text, Groups.Value, Hexes.Value;
    var rest := if r.right.None? then [] else r.right.value.Text();
    var l := r.Left();
    if r.left.None? {
      assert r.Text() == GAP + rest && r.Text()[2..] == rest;
    } else {
      HexesStart(r.left.value);
      assert r.Text()[0] == r.left.value.Text()[0];
      HexesScan(r.left.value, rest, []);
      assert [] + l == l;
    }
    if r.right.Some? {
      GroupsScan(r.right.value, l, Some(|l|));
    } else {
      ScanEnd(l, Some(|l|));
      assert l + [] == l;
    }
  }

  lemma ScanEnd(bytes: Bytes, gap: Option<nat>)
    ensures ScanText([], bytes, gap) == Some(Scanned(bytes, gap))
  {}

  // --- nothing else is read -----------------------------------------------------------------------

  /** The first group of a text that scans, when it is not a dotted quad. */
  lemma FirstGroup(s: Bytes, bytes: Bytes, gap: Option<nat>) returns (g: Bytes, t: Bytes)
    requires s != [] && !GroupIsIpv4(s) && ScanText(s, bytes, gap).Some?
    ensures IsGroup(g) && s == g + t && (t == [] || t[0] == COLON) && |bytes| <= 14
  {
    hide ReadDotted, GroupIsIpv4, GroupValue, AllHex;
    var n := GroupWidth(s);
    g, t := s[..n], s[n..];
  }

  lemma LastQuad(s: Bytes, bytes: Bytes, gap: Option<nat>) returns (gs: Groups)
    requires GroupIsIpv4(s) && ScanText(s, bytes, gap).Some?
    ensures gs.Valid() && s == gs.Text() && ScanText(s, bytes, gap) == Some(Scanned(bytes + gs.Value(), gap))
  {
    hide ReadDotted, Dotted;
    var q := ReadDotted(s, 4).value;
    Ipv4TextIs(s, q);
    gs := Quad(q);
  }

  lemma {:induction false} UnscanTail(s: Bytes, bytes: Bytes, k: nat) returns (gs: Groups)
    requires s != [] && ScanText(s, bytes, Some(k)).Some?
    ensures gs.Valid() && s == gs.Text() && ScanText(s, bytes, Some(k)) == Some(Scanned(bytes + gs.Value(), Some(k)))
    decreases |s|
  {
    hide ScanText, ReadDotted, GroupIsIpv4, GroupValue, AllHex;
    if GroupIsIpv4(s) {
      gs := LastQuad(s, bytes, Some(k));
    } else {
      var g, t := FirstGroup(s, bytes, Some(k));
      ScanGroup(g, t, bytes, Some(k));
      var b := bytes + GroupValue(g);
      if t == [] {
        gs := Last(g);
      } else {
        assert t == [COLON] + t[1..];
        var rest := UnscanTail(t[1..], b, k);
        gs := Groups.More(g, rest);
        assert b + rest.Value() == bytes + gs.Value();
        assert s == gs.Text();
      }
    }
  }

  datatype Parts = Whole(gs: Groups) | Parted(l: Hexes, r: Option<Groups>)

  ghost predicate Unscans(s: Bytes, bytes: Bytes, p: Parts) {
    match p
    case Whole(gs) =>
      gs.Valid() && s == gs.Text() && ScanText(s, bytes, None) == Some(Scanned(bytes + gs.Value(), None))
    case Parted(l, r) =>
      && l.Valid() && (r.Some? ==> r.value.Valid())
      && s == l.Text() + GAP + (if r.None? then [] else r.value.Text())
      && ScanText(s, bytes, None) ==
         Some(Scanned(bytes + l.Value() + (if r.None? then [] else r.value.Value()), Some(|bytes + l.Value()|)))
  }

  lemma AddGroup(g: Bytes, t: Bytes, bytes: Bytes, p: Parts) returns (q: Parts)
    requires IsGroup(g) && |t| > 1 && t[0] == COLON && t[1] != COLON && |bytes| <= 14
    requires Unscans(t[1..], bytes + GroupValue(g), p)
    ensures Unscans(g + t, bytes, q)
  {
    hide ScanText, GroupValue, AllHex;
    ScanGroup(g, t, bytes, None);
    var b := bytes + GroupValue(g);
    assert t == [COLON] + t[1..];
    match p {
      case Whole(gs) =>
        q := Whole(Groups.More(g, gs));
        assert b + gs.Value() == bytes + q.gs.Value();
        assert g + t == q.gs.Text();
      case Parted(l, r) =>
        q := Parted(Then(g, l), r);
        assert b + l.Value() == bytes + q.l.Value();
        assert g + t == q.l.Text() + GAP + (if r.None? then [] else r.value.Text());
    }
  }

  lemma CloseLeft(g: Bytes, t: Bytes, bytes: Bytes) returns (q: Parts)
    requires IsGroup(g) && |t| > 1 && t[0] == COLON && t[1] == COLON && |bytes| <= 14
    requires ScanText(g + t, bytes, None).Some?
    ensures Unscans(g + t, bytes, q)
  {
    hide GroupValue, AllHex, GroupIsIpv4, ReadDotted;
    ScanGroup(g, t, bytes, None);
    var b := bytes + GroupValue(g);
    assert t == GAP + t[2..];
    if t[2..] == [] {
      q := Parted(One(g), None);
      assert b + [] == b;
    } else {
      hide ScanText;
      var gs := UnscanTail(t[2..], b, |b|);
      q := Parted(One(g), Some(gs));
      assert g + t == g + GAP + gs.Text();
    }
  }

  lemma {:induction false} Unscan(s: Bytes, bytes: Bytes) returns (p: Parts)
    requires s != [] && ScanText(s, bytes, None).Some?
    ensures Unscans(s, bytes, p)
    decreases |s|
  {
    hide ScanText, ReadDotted, GroupIsIpv4, GroupValue, AllHex;
    if GroupIsIpv4(s) {
      var gs := LastQuad(s, bytes, None);
      return Whole(gs);
    }
    var g, t := FirstGroup(s, bytes, None);
    ScanGroup(g, t, bytes, None);
    if t == [] {
      p := Whole(Last(g));
    } else if t[1] == COLON {
      p := CloseLeft(g, t, bytes);
    } else {
      var q := Unscan(t[1..], bytes + GroupValue(g));
      p := AddGroup(g, t, bytes, q);
    }
  }

  /** Only renderings are read. */
  lemma ReadIsRendering(s: Bytes) returns (r: Rendering)
    requires ReadIpv6(s).Some?
    ensures r.Valid() && r.Text() == s && r.Address() == ReadIpv6(s).value
  {
    hide ScanText, Rendering.Valid, Rendering.Text, Rendering.Address, Unscans;
    ScanEnd([], None);
    if s[0] != COLON {
      var p := Unscan(s, []);
      r := OfParts(s, p);
    } else {
      r := OfGap(s);
    }
  }

  lemma GapRead(s: Bytes)
    requires |s| >= 2 && s[..2] == GAP
    ensures ReadIpv6(s) == match ScanText(s[2..], [], Some(0)) case None => None case Some(sc) => Expand(sc)
  {
    hide ScanText, Expand;
    assert s[0] == s[..2][0] && s[1] == s[..2][1];
  }

  lemma OfGap(s: Bytes) returns (r: Rendering)
    requires |s| >= 2 && s[..2] == GAP && ReadIpv6(s).Some?
    ensures r.Valid() && r.Text() == s && r.Address() == ReadIpv6(s).value
  {
    hide *;
    GapRead(s);
    assert s == GAP + s[2..];
    if s[2..] == [] {
      ScanEnd([], Some(0));
      GapExpand([]);
      r := Compressed(None, None);
      LoneGap();
    } else {
      var gs := UnscanTail(s[2..], [], 0);
      assert [] + gs.Value() == gs.Value();
      GapExpand(gs.Value());
      r := Compressed(None, Some(gs));
      TailGap(gs);
    }
  }

  lemma GapExpand(v: Bytes)
    ensures Expand(Scanned(v, Some(0))) == if |v| < 16 then Some(Zeros(16 - |v|) + v) else None
  {
    if |v| < 16 {
      assert v[..0] + Zeros(16 - |v|) + v[0..] == Zeros(16 - |v|) + v;
    }
  }

  lemma LoneGap()
    ensures var r := Compressed(None, None); r.Valid() && r.Text() == GAP && r.Address() == Zeros(16) + []
  {}

  lemma TailGap(gs: Groups)
    requires gs.Valid() && |gs.Value()| < 16
    ensures var r := Compressed(None, Some(gs));
            r.Valid() && r.Text() == GAP + gs.Text() && r.Address() == Zeros(16 - |gs.Value()|) + gs.Value()
  {
    hide Groups.Text, Groups.Value, Groups.Valid, Zeros;
  }

  lemma OfParts(s: Bytes, p: Parts) returns (r: Rendering)
    requires s != [] && s[0] != COLON && ReadIpv6(s).Some? && Unscans(s, [], p)
    ensures r.Valid() && r.Text() == s && r.Address() == ReadIpv6(s).value
  {
    hide ScanText, Expand, Groups.Text, Hexes.Text, Groups.Value, Hexes.Value, Groups.Valid, Hexes.Valid,
         Rendering.Address;
    match p {
      case Whole(gs) =>
        r := Plain(gs);
        assert [] + gs.Value() == gs.Value();
        PlainExpand(gs);
      case Parted(l, rt) =>
        r := Compressed(Some(l), rt);
        assert [] + l.Value() == l.Value();
        PartedExpand(l, rt);
    }
  }

  lemma PlainExpand(gs: Groups)
    requires gs.Valid() && Expand(Scanned(gs.Value(), None)).Some?
    ensures Plain(gs).Valid() && Expand(Scanned(gs.Value(), None)) == Some(Plain(gs).Address())
  {
    hide Groups.Value, Groups.Valid;
  }

  lemma PartedExpand(l: Hexes, rt: Option<Groups>)
    requires l.Valid() && (rt.Some? ==> rt.value.Valid())
    requires Expand(Scanned(l.Value() + (if rt.None? then [] else rt.value.Value()), Some(|l.Value()|))).Some?
    ensures var r := Compressed(Some(l), rt);
            && r.Valid()
            && Expand(Scanned(l.Value() + (if rt.None? then [] else rt.value.Value()), Some(|l.Value()|)))
               == Some(r.Address())
  {
    hide Groups.Value, Groups.Valid, Hexes.Value, Hexes.Valid, Zeros;
    var lv, rv := l.Value(), if rt.None? then [] else rt.value.Value();
    assert (lv + rv)[..|lv|] == lv && (lv + rv)[|lv|..] == rv;
  }

  /** The parser's language and result: `s` is read as `a` exactly when it renders `a`. */
  lemma Ipv6TextIs(s: Bytes, a: Bytes)
    ensures ReadIpv6(s) == Some(a) <==> exists r: Rendering :: r.Valid() && r.Text() == s && r.Address() == a
  {
    hide ReadIpv6, Rendering.Valid, Rendering.Text, Rendering.Address;
    if ReadIpv6(s) == Some(a) {
      var r := ReadIsRendering(s);
    }
    forall r: Rendering | r.Valid() && r.Text() == s && r.Address() == a
      ensures ReadIpv6(s) == Some(a)
    {
      RenderingReads(r);
    }
  }

  // --- addresses from their numbers ---------------------------------------------------------------

  /** A group is one to four hexadecimal digits, and its bytes are the number they write. */
  lemma GroupIs(g: Bytes, n: nat)
    ensures IsGroup(g) && GroupValue(g) == [n / 256 % 256, n % 256] && n < 0x1_0000 <==> 1 <= |g| <= 4 && IsHex(g, n)
  {
    hide AllHex, HexValue, IsHex;
    if g != [] { HexValueIs(g, n); }
    if IsGroup(g) { HexBound(g); }
  }

  /** A number and a way to write it in one group. */
  datatype Numeral = Numeral(text: Bytes, value: nat) {
    predicate Valid() { 1 <= |text| <= 4 && IsHex(text, value) }
  }

  predicate AllNumerals(ns: seq<Numeral>) { forall i | 0 <= i < |ns| :: ns[i].Valid() }

  function Joined(ns: seq<Numeral>): Bytes {
    if ns == [] then [] else if |ns| == 1 then ns[0].text else ns[0].text + [':' as int] + Joined(ns[1..])
  }

  /** The numbers, two bytes each, high byte first. */
  function Pairs(ns: seq<Numeral>): (b: Bytes)
    ensures |b| == 2 * |ns|
  {
    if ns == [] then [] else [ns[0].value / 256 % 256, ns[0].value % 256] + Pairs(ns[1..])
  }

  lemma NumeralBytes(x: Numeral)
    requires x.Valid()
    ensures IsGroup(x.text) && GroupValue(x.text) == [x.value / 256 % 256, x.value % 256]
  {
    hide IsHex;
    GroupIs(x.text, x.value);
  }

  lemma {:induction false} AsGroups(ns: seq<Numeral>) returns (gs: Groups)
    requires ns != [] && AllNumerals(ns)
    ensures gs.Valid() && gs.Text() == Joined(ns) && gs.Value() == Pairs(ns)
    decreases |ns|
  {
    hide IsGroup, GroupValue, Numeral.Valid;
    NumeralBytes(ns[0]);
    if |ns| == 1 {
      assert ns[1..] == [];
      gs := Last(ns[0].text);
    } else {
      var rest := AsGroups(ns[1..]);
      gs := Groups.More(ns[0].text, rest);
    }
  }

  lemma {:induction false} AsHexes(ns: seq<Numeral>) returns (h: Hexes)
    requires ns != [] && AllNumerals(ns)
    ensures h.Valid() && h.Text() == Joined(ns) && h.Value() == Pairs(ns)
    decreases |ns|
  {
    hide IsGroup, GroupValue, Numeral.Valid;
    NumeralBytes(ns[0]);
    if |ns| == 1 {
      assert ns[1..] == [];
      h := One(ns[0].text);
    } else {
      var rest := AsHexes(ns[1..]);
      h := Then(ns[0].text, rest);
    }
  }

  /** Eight numerals between colons are read as their numbers. */
  lemma EightGroups(ns: seq<Numeral>)
    requires |ns| == 8 && AllNumerals(ns)
    ensures ReadIpv6(Joined(ns)) == Some(Pairs(ns))
  {
    hide ReadIpv6, Groups.Text, Groups.Value, Groups.Valid, Joined, Pairs, AllNumerals;
    var gs := AsGroups(ns);
    RenderingReads(Plain(gs));
  }

  /** Numerals on either side of a gap, at most seven, are read with zeros in its place. */
  lemma GapIsZeros(l: seq<Numeral>, r: seq<Numeral>)
    requires |l| + |r| < 8 && AllNumerals(l) && AllNumerals(r)
    ensures ReadIpv6(Joined(l) + [':' as int, ':' as int] + Joined(r)) ==
            Some(Pairs(l) + Zeros(16 - 2 * |l| - 2 * |r|) + Pairs(r))
  {
    hide ReadIpv6, AllNumerals, Joined, Pairs, Rendering.Text, Rendering.Address, Rendering.Valid;
    var left := LeftOf(l);
    var right := RightOf(r);
    GapParts(left, right, l, r);
    RenderingReads(Compressed(left, right));
  }

  lemma LeftOf(l: seq<Numeral>) returns (left: Option<Hexes>)
    requires AllNumerals(l)
    ensures left.Some? <==> l != []
    ensures left.Some? ==> left.value.Valid() && left.value.Text() == Joined(l) && left.value.Value() == Pairs(l)
  {
    hide Joined, Pairs, AllNumerals;
    left := None;
    if l != [] {
      var h := AsHexes(l);
      left := Some(h);
    }
  }

  lemma RightOf(r: seq<Numeral>) returns (right: Option<Groups>)
    requires AllNumerals(r)
    ensures right.Some? <==> r != []
    ensures right.Some? ==> right.value.Valid() && right.value.Text() == Joined(r) && right.value.Value() == Pairs(r)
  {
    hide Joined, Pairs, AllNumerals;
    right := None;
    if r != [] {
      var gs := AsGroups(r);
      right := Some(gs);
    }
  }

  lemma GapParts(left: Option<Hexes>, right: Option<Groups>, l: seq<Numeral>, r: seq<Numeral>)
    requires |l| + |r| < 8 && (left.Some? <==> l != []) && (right.Some? <==> r != [])
    requires left.Some? ==> left.value.Valid() && left.value.Text() == Joined(l) && left.value.Value() == Pairs(l)
    requires right.Some? ==> right.value.Valid() && right.value.Text() == Joined(r) && right.value.Value() == Pairs(r)
    ensures var c := Compressed(left, right);
            && c.Valid() && c.Text() == Joined(l) + [':' as int, ':' as int] + Joined(r)
            && c.Address() == Pairs(l) + Zeros(16 - 2 * |l| - 2 * |r|) + Pairs(r)
  {
    hide Groups.Text, Groups.Value, Groups.Valid, Hexes.Text, Hexes.Value, Hexes.Valid, Zeros;
    var c := Compressed(left, right);
    assert c.Left() == Pairs(l) && c.Right() == Pairs(r);
  }
}
