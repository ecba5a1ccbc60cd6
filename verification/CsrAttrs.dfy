/** CSR attributes of section 4.5.2 of RFC 7030: the two-pass parser, the builder and their round trip. */
module CsrAttrs {
  import opened Bytes
  import opened Der

  datatype Item = BareOid(oid: Bytes) | Attribute(oid: Bytes, values: Bytes) {
    /** What the builder demands: an OID, and at least one value in an Attribute. */
    predicate Valid() {
      oid != [] && (Attribute? ==> values != [])
    }
  }

  // --- the builder ------------------------------------------------------------------

  /** A length as written: through a 32-bit parameter. */
  function SetLength(n: nat): (s: Bytes)
    ensures 1 <= |s| <= 5
  {
    LenBytes(n % LIMIT)
  }

  function TlvSize(n: nat): nat { 1 + |SetLength(n)| + n }

  function ItemSize(it: Item): nat {
    match it
    case BareOid(oid) => TlvSize(|oid|)
    case Attribute(oid, values) => TlvSize(TlvSize(|oid|) + TlvSize(|values|))
  }

  /** A tag, the length `n`, and `content`. */
  function Written(tag: Byte, n: nat, content: Bytes): (s: Bytes)
    ensures |s| == 1 + |SetLength(n)| + |content|
  {
    [tag] + SetLength(n) + content
  }

  function ItemBytes(it: Item): Bytes {
    match it
    case BareOid(oid) => Written(OID, |oid|, oid)
    case Attribute(oid, values) =>
      Written(SEQUENCE, TlvSize(|oid|) + TlvSize(|values|), Written(OID, |oid|, oid) + Written(SET, |values|, values))
  }

  function ItemsBytes(items: seq<Item>): Bytes {
    if items == [] then [] else ItemsBytes(items[..|items| - 1]) + ItemBytes(items[|items| - 1])
  }

  function BodySize(items: seq<Item>): nat {
    if items == [] then 0 else BodySize(items[..|items| - 1]) + ItemSize(items[|items| - 1])
  }

  predicate AllValid(items: seq<Item>) {
    forall i | 0 <= i < |items| :: items[i].Valid()
  }

  function Built(items: seq<Item>): Bytes {
    Written(SEQUENCE, BodySize(items), ItemsBytes(items))
  }

  /** Write one item at `off`; exactly the size computed for it beforehand. */
  method WriteItem(out: array<Byte>, off: nat, it: Item) returns (n: nat)
    requires off + ItemSize(it) <= out.Length
    modifies out
    ensures n == ItemSize(it) && out[..off + n] == old(out[..off]) + ItemBytes(it)
  {
    hide SetLength, Written;
    match it {
      case BareOid(oid) =>
        n := WriteTlv(out, off, OID, |oid|, oid);
      case Attribute(oid, values) =>
        var q := WriteTlv(out, off, SEQUENCE, TlvSize(|oid|) + TlvSize(|values|), []);
        var r := WriteTlv(out, off + q, OID, |oid|, oid);
        var t := WriteTlv(out, off + q + r, SET, |values|, values);
        n := q + r + t;
        Nested(old(out[..off]), TlvSize(|oid|) + TlvSize(|values|), Written(OID, |oid|, oid),
               Written(SET, |values|, values));
    }
  }

  lemma Nested(before: Bytes, n: nat, a: Bytes, b: Bytes)
    ensures before + Written(SEQUENCE, n, []) + a + b == before + Written(SEQUENCE, n, a + b)
  {
    hide SetLength;
    assert before + ([SEQUENCE] + SetLength(n) + []) + a + b == before + ([SEQUENCE] + SetLength(n) + (a + b));
  }

  method WriteTlv(out: array<Byte>, off: nat, tag: Byte, n: nat, content: Bytes) returns (size: nat)
    requires off + 1 + |SetLength(n)| + |content| <= out.Length
    modifies out
    ensures size == 1 + |SetLength(n)| + |content|
    ensures out[..off + size] == old(out[..off]) + Written(tag, n, content)
  {
    hide LenBytes;
    ghost var before := out[..off];
    Put(out, off, [tag]);
    var ll := DerPutLen(out, off + 1, out.Length - off - 1, n % LIMIT);
    Put(out, off + 1 + ll, content);
    size := 1 + ll + |content|;
    assert before + [tag] + SetLength(n) + content == before + ([tag] + SetLength(n) + content);
  }

  method ValidateItems(items: seq<Item>) returns (ok: bool)
    ensures ok == AllValid(items)
  {
    for i := 0 to |items|
      invariant forall j | 0 <= j < i :: items[j].Valid()
    {
      if !items[i].Valid() {
        return false;
      }
    }
    return true;
  }

  method SumSizes(items: seq<Item>) returns (body: nat)
    ensures body == BodySize(items)
  {
    hide ItemSize;
    body := 0;
    for i := 0 to |items|
      invariant body == BodySize(items[..i])
    {
      assert items[..i + 1][..i] == items[..i];
      body := body + ItemSize(items[i]);
    }
    assert items[..|items|] == items;
  }

  method WriteItems(buf: array<Byte>, start: nat, items: seq<Item>)
    requires start + BodySize(items) == buf.Length
    modifies buf
    ensures buf[..] == old(buf[..start]) + ItemsBytes(items)
  {
    hide ItemSize, ItemBytes;
    ghost var head := buf[..start];
    var p := start;
    assert head + ItemsBytes(items[..0]) == head;
    for i := 0 to |items|
      invariant p == start + BodySize(items[..i]) <= buf.Length
      invariant buf[..p] == head + ItemsBytes(items[..i])
    {
      assert items[..i + 1][..i] == items[..i];
      BodyGrows(items, i + 1);
      var n := WriteItem(buf, p, items[i]);
      assert head + ItemsBytes(items[..i]) + ItemBytes(items[i])
          == head + (ItemsBytes(items[..i]) + ItemBytes(items[i]));
      p := p + n;
    }
    assert items[..|items|] == items;
    assert buf[..] == buf[..p];
  }

  /** Build the attributes; None for an item without an OID or an Attribute without a value. */
  method Build(items: seq<Item>) returns (der: Option<Bytes>)
    ensures der == if AllValid(items) then Some(Built(items)) else None
    ensures der.None? <==>
            exists i :: 0 <= i < |items| && (items[i].oid == [] || items[i] == Attribute(items[i].oid, []))
  {
    hide SetLength, ItemsBytes;
    var ok := ValidateItems(items);
    if !ok {
      return None;
    }
    var body := SumSizes(items);
    var buf := new Byte[1 + |SetLength(body)| + body];
    var p := WriteTlv(buf, 0, SEQUENCE, body, []);
    assert buf[..p] == Written(SEQUENCE, body, []);
    WriteItems(buf, p, items);
    assert [SEQUENCE] + SetLength(body) + [] + ItemsBytes(items) == [SEQUENCE] + SetLength(body) + ItemsBytes(items);
    return Some(buf[..]);
  }

  lemma {:induction false} BodyGrows(items: seq<Item>, i: nat)
    requires i <= |items|
    ensures BodySize(items[..i]) <= BodySize(items)
    decreases |items|
  {
    hide ItemSize;
    if i < |items| {
      assert items[..|items| - 1][..i] == items[..i];
      BodyGrows(items[..|items| - 1], i);
    } else {
      assert items[..i] == items;
    }
  }

  // --- the parser ---------------------------------------------------------------------

  /** One item from its tag and content. */
  function ParseItem(tag: Byte, content: Bytes): Option<Item> {
    if tag == OID then Some(BareOid(content))
    else if tag != SEQUENCE then None
    else
      match ReadTlv(content)
      case None => None
      case Some(o) =>
        if o.tag != OID then None
        else
          match ReadTlv(content[o.hdr + o.len..])
          case None => None
          case Some(v) =>
            if v.tag != SET || v.len == 0 then None
            else
              var rest := content[o.hdr + o.len..];
              Some(Attribute(content[o.hdr..o.hdr + o.len], rest[v.hdr..v.hdr + v.len]))
  }

  function ParseItems(s: Bytes): Option<seq<Item>>
    decreases |s|
  {
    if s == [] then Some([])
    else
      match ReadTlv(s)
      case None => None
      case Some(h) =>
        match ParseItem(h.tag, s[h.hdr..h.hdr + h.len])
        case None => None
        case Some(it) => Before([it], ParseItems(s[h.hdr + h.len..]))
  }

  function Before(items: seq<Item>, rest: Option<seq<Item>>): Option<seq<Item>> {
    match rest
    case None => None
    case Some(more) => Some(items + more)
  }

  lemma BeforeNone(rest: Option<seq<Item>>)
    ensures Before([], rest) == rest
  {
    if rest.Some? { assert [] + rest.value == rest.value; }
  }

  lemma BeforeTwice(a: seq<Item>, b: seq<Item>, rest: Option<seq<Item>>)
    ensures Before(a, Before(b, rest)) == Before(a + b, rest)
  {
    if rest.Some? { assert a + (b + rest.value) == a + b + rest.value; }
  }

  /** The attributes `der` holds; none when it is empty, and bytes after the SEQUENCE are ignored. */
  function Parsed(der: Bytes): Option<seq<Item>> {
    if der == [] then Some([])
    else
      match ReadTlv(der)
      case None => None
      case Some(h) => if h.tag != SEQUENCE then None else ParseItems(der[h.hdr..h.hdr + h.len])
  }

  /** What the counting pass finds. */
  function CountItems(s: Bytes): Option<nat>
    decreases |s|
  {
    if s == [] then Some(0)
    else
      match ReadTlv(s)
      case None => None
      case Some(h) =>
        if h.tag != OID && h.tag != SEQUENCE then None
        else
          match CountItems(s[h.hdr + h.len..])
          case None => None
          case Some(n) => Some(n + 1)
  }

  /** The counting pass accepts whatever the filling pass does, with the number of its items. */
  lemma {:induction false} PassesAgree(s: Bytes)
    ensures ParseItems(s).Some? ==> CountItems(s) == Some(|ParseItems(s).value|)
    decreases |s|
  {
    hide ReadTlv;
    if s != [] && ReadTlv(s).Some? {
      var h := ReadTlv(s).value;
      PassesAgree(s[h.hdr + h.len..]);
    }
  }

  method CountPass(s: Bytes) returns (n: Option<nat>)
    ensures n == CountItems(s)
  {
    hide ReadTlv;
    var scan := s;
    var k := 0;
    while scan != []
      invariant CountItems(s) == match CountItems(scan)
                                 case None => None
                                 case Some(m) => Some(k + m)
      decreases |scan|
    {
      var h := DerReadTlv(scan);
      if h.None? || (h.value.tag != OID && h.value.tag != SEQUENCE) {
        return None;
      }
      k := k + 1;
      scan := scan[h.value.hdr + h.value.len..];
    }
    return Some(k);
  }

  /** Parse the attributes: count, allocate, fill. The filling pass stays within the array the count sized. */
  method Parse(der: Bytes) returns (items: Option<seq<Item>>)
    ensures items == Parsed(der)
  {
    hide ReadTlv, ParseItem;
    if der == [] {
      return Some([]);
    }
    var outer := DerReadTlv(der);
    if outer.None? || outer.value.tag != SEQUENCE {
      return None;
    }
    var body := der[outer.value.hdr..outer.value.hdr + outer.value.len];
    PassesAgree(body);
    var n := CountPass(body);
    if n.None? {
      return None;
    }
    items := FillPass(body, n.value);
  }

  method FillPass(body: Bytes, n: nat) returns (items: Option<seq<Item>>)
    requires CountItems(body) == Some(n)
    ensures items == ParseItems(body)
  {
    hide ReadTlv;
    var slots := new Item[n](_ => BareOid([]));
    var idx := 0;
    var p := body;
    BeforeNone(ParseItems(p));
    assert slots[..0] == [];
    while p != []
      invariant idx <= n && CountItems(p) == Some(n - idx)
      invariant ParseItems(body) == Before(slots[..idx], ParseItems(p))
      decreases |p|
    {
      var h := DerReadTlv(p);
      var it := TakeItem(h.value.tag, p[h.value.hdr..h.value.hdr + h.value.len]);
      if it.None? {
        return None;
      }
      BeforeTwice(slots[..idx], [it.value], ParseItems(p[h.value.hdr + h.value.len..]));
      ghost var done := slots[..idx];
      slots[idx] := it.value;
      assert slots[..idx + 1] == done + [it.value];
      idx := idx + 1;
      p := p[h.value.hdr + h.value.len..];
    }
    assert slots[..idx] + [] == slots[..idx];
    return Some(slots[..idx]);
  }

  method TakeItem(tag: Byte, content: Bytes) returns (it: Option<Item>)
    ensures it == ParseItem(tag, content)
  {
    hide ReadTlv;
    if tag == OID {
      return Some(BareOid(content));
    }
    if tag != SEQUENCE {
      return None;
    }
    var o := DerReadTlv(content);
    if o.None? || o.value.tag != OID {
      return None;
    }
    var rest := content[o.value.hdr + o.value.len..];
    var v := DerReadTlv(rest);
    if rest == [] || v.None? || v.value.tag != SET || v.value.len == 0 {
      return None;
    }
    return Some(Attribute(content[o.value.hdr..o.value.hdr + o.value.len],
                          rest[v.value.hdr..v.value.hdr + v.value.len]));
  }

  // --- round trip ---------------------------------------------------------------------

  lemma WrittenReads(tag: Byte, content: Bytes, rest: Bytes)
    requires |content| < LIMIT
    ensures Written(tag, |content|, content) == Tlv(tag, content)
    ensures var s := Written(tag, |content|, content) + rest;
            var h := 1 + |LenBytes(|content|)|;
            && ReadTlv(s) == Some(Header(tag, h, |content|))
            && s[h..h + |content|] == content && s[h + |content|..] == rest
  {
    hide LenBytes, ReadTlv;
    ReadsBack(tag, content, rest);
  }

  lemma ItemReads(it: Item, rest: Bytes)
    requires it.Valid() && ItemSize(it) < LIMIT
    ensures var s := ItemBytes(it) + rest;
            && ReadTlv(s).Some?
            && var h := ReadTlv(s).value;
            && ParseItem(h.tag, s[h.hdr..h.hdr + h.len]) == Some(it) && s[h.hdr + h.len..] == rest
  {
    hide ReadTlv, LenBytes, Written, SetLength;
    match it {
      case BareOid(oid) =>
        WrittenReads(OID, oid, rest);
      case Attribute(oid, values) =>
        var a, b := Written(OID, |oid|, oid), Written(SET, |values|, values);
        WrittenReads(SEQUENCE, a + b, rest);
        AttributeReads(oid, values);
    }
  }

  lemma AttributeReads(oid: Bytes, values: Bytes)
    requires values != [] && |oid| < LIMIT && |values| < LIMIT
    ensures ParseItem(SEQUENCE, Written(OID, |oid|, oid) + Written(SET, |values|, values))
         == Some(Attribute(oid, values))
  {
    hide ReadTlv, LenBytes, Written, SetLength;
    WrittenReads(OID, oid, Written(SET, |values|, values));
    WrittenReads(SET, values, []);
    assert Written(SET, |values|, values) + [] == Written(SET, |values|, values);
  }

  lemma {:induction false} OneItemReads(it: Item, rest: Bytes)
    requires it.Valid() && ItemSize(it) < LIMIT
    ensures ParseItems(ItemBytes(it) + rest) == Before([it], ParseItems(rest))
  {
    hide ReadTlv, ItemSize, ItemBytes, ParseItem;
    ItemReads(it, rest);
  }

  lemma {:induction false} ItemsRead(items: seq<Item>, rest: Bytes)
    requires AllValid(items) && BodySize(items) < LIMIT
    ensures ParseItems(ItemsBytes(items) + rest) == Before(items, ParseItems(rest))
    decreases |items|
  {
    hide ReadTlv, ItemSize, ItemBytes, ParseItem, ParseItems, Before;
    if items == [] {
      assert ItemsBytes(items) + rest == rest;
      BeforeNone(ParseItems(rest));
    } else {
      var init, last := items[..|items| - 1], items[|items| - 1];
      var tail := ItemBytes(last) + rest;
      assert ItemsBytes(items) + rest == ItemsBytes(init) + tail;
      ItemsRead(init, tail);
      OneItemReads(last, rest);
      BeforeTwice(init, [last], ParseItems(rest));
      assert init + [last] == items;
    }
  }

  lemma {:induction false} ItemsSize(items: seq<Item>)
    ensures |ItemsBytes(items)| == BodySize(items)
    decreases |items|
  {
    if items != [] { ItemsSize(items[..|items| - 1]); }
  }

  lemma LengthGrows(m: nat, n: nat)
    requires m <= n < LIMIT
    ensures |LenBytes(m)| <= |LenBytes(n)|
  {}

  /** A parsed item would be written in no more bytes than it was read from. */
  lemma ParsedItemSize(s: Bytes)
    requires ReadTlv(s).Some?
    ensures var h := ReadTlv(s).value;
            var it := ParseItem(h.tag, s[h.hdr..h.hdr + h.len]);
            it.Some? ==> ItemSize(it.value) <= h.hdr + h.len
  {
    hide ReadTlv, LenBytes;
    var h := ReadTlv(s).value;
    HeaderIsMinimal(s);
    var content := s[h.hdr..h.hdr + h.len];
    var it := ParseItem(h.tag, content);
    if it.Some? && it.value.Attribute? {
      AttributeSize(content);
      LengthGrows(TlvSize(|it.value.oid|) + TlvSize(|it.value.values|), h.len);
    }
  }

  lemma AttributeSize(content: Bytes)
    ensures var it := ParseItem(SEQUENCE, content);
            it.Some? ==> it.value.Attribute? && TlvSize(|it.value.oid|) + TlvSize(|it.value.values|) <= |content|
  {
    hide ReadTlv, LenBytes;
    if ParseItem(SEQUENCE, content).Some? {
      HeaderIsMinimal(content);
      var o := ReadTlv(content).value;
      HeaderIsMinimal(content[o.hdr + o.len..]);
    }
  }

  lemma {:induction false} BodySizeCons(it: Item, rest: seq<Item>)
    ensures BodySize([it] + rest) == ItemSize(it) + BodySize(rest)
    decreases |rest|
  {
    hide ItemSize;
    if rest == [] {
      assert [it] + rest == [it] && [it][..0] == [];
    } else {
      assert ([it] + rest)[..|rest|] == [it] + rest[..|rest| - 1];
      BodySizeCons(it, rest[..|rest| - 1]);
    }
  }

  lemma {:induction false} ParsedSize(s: Bytes)
    ensures ParseItems(s).Some? ==> BodySize(ParseItems(s).value) <= |s|
    decreases |s|
  {
    hide ReadTlv, ItemSize, ParseItem, BodySize;
    if s == [] {
      assert BodySize([]) == 0 by { EmptyBody(); }
    } else if ParseItems(s).Some? {
      var h := ReadTlv(s).value;
      ParsedItemSize(s);
      ParsedSize(s[h.hdr + h.len..]);
      BodySizeCons(ParseItem(h.tag, s[h.hdr..h.hdr + h.len]).value, ParseItems(s[h.hdr + h.len..]).value);
    }
  }

  lemma EmptyBody()
    ensures BodySize([]) == 0
  {}

  lemma BuiltParses(items: seq<Item>)
    requires AllValid(items) && BodySize(items) < LIMIT
    ensures Parsed(Built(items)) == Some(items)
  {
    hide ReadTlv, LenBytes, ItemsBytes, BodySize, ParseItems, SetLength;
    var body := ItemsBytes(items);
    ItemsSize(items);
    WrittenReads(SEQUENCE, body, []);
    assert Written(SEQUENCE, |body|, body) + [] == Built(items);
    ItemsRead(items, []);
    assert body + [] == body && items + [] == items;
    assert ParseItems([]) == Some([]) by { ParseNothing(); }
  }

  lemma ParseNothing()
    ensures ParseItems([]) == Some([])
  {}

  lemma OversizedDiffers(items: seq<Item>)
    requires BodySize(items) >= LIMIT
    ensures Parsed(Built(items)) != Some(items)
  {
    hide ReadTlv, LenBytes, ItemsBytes, BodySize, ParseItems;
    var body := ItemsBytes(items);
    ItemsSize(items);
    var k := |body| % LIMIT;
    ReadsBack(SEQUENCE, body[..k], body[k..]);
    assert Tlv(SEQUENCE, body[..k]) + body[k..] == Built(items) by {
      assert body[..k] + body[k..] == body;
    }
    ParsedSize(body[..k]);
  }

  /**
   * What was built parses back to the same kinds, OIDs and values in order,
   * exactly when the encoded items fit a four-byte length.
   */
  lemma RoundTrip(items: seq<Item>)
    requires AllValid(items)
    ensures Parsed(Built(items)) == Some(items) <==> BodySize(items) < LIMIT
  {
    hide Parsed, Built, BodySize;
    if BodySize(items) < LIMIT { BuiltParses(items); } else { OversizedDiffers(items); }
  }

  // --- what is accepted -------------------------------------------------------------------

  /** `s` is one item: an OID, or an OID and a SET that is not empty, perhaps with more behind them. */
  ghost predicate IsItem(s: Bytes, it: Item) {
    match it
    case BareOid(oid) => IsElement(s, OID, oid)
    case Attribute(oid, values) =>
      values != [] &&
      exists a: Bytes, b: Bytes, more: Bytes ::
        IsElement(a, OID, oid) && IsElement(b, SET, values) && IsElement(s, SEQUENCE, a + b + more)
  }

  ghost predicate AreItems(s: Bytes, items: seq<Item>)
    decreases |items|
  {
    if items == [] then s == []
    else exists k :: 0 < k <= |s| && IsItem(s[..k], items[0]) && AreItems(s[k..], items[1..])
  }

  /** The items of one element, with its tag and content in hand. */
  lemma ParseItemIs(s: Bytes, tag: Byte, content: Bytes, it: Item)
    requires IsElement(s, tag, content)
    ensures ParseItem(tag, content) == Some(it) <==> IsItem(s, it)
  {
    hide ReadTlv, IsElement;
    OneReading(s, tag, content);
    if it.Attribute? {
      if ParseItem(tag, content) == Some(it) { AttributeRead(s, content, it); }
      if IsItem(s, it) {
        var a: Bytes, b: Bytes, more: Bytes :|
          IsElement(a, OID, it.oid) && IsElement(b, SET, it.values) && IsElement(s, SEQUENCE, a + b + more);
        OneReading(s, SEQUENCE, a + b + more);
        AttributeOf(a, b, more, it);
      }
    }
  }

  lemma AttributeRead(s: Bytes, content: Bytes, it: Item)
    requires IsElement(s, SEQUENCE, content) && it.Attribute? && ParseItem(SEQUENCE, content) == Some(it)
    ensures IsItem(s, it)
  {
    hide ReadTlv, IsElement;
    var o := ReadTlv(content).value;
    var rest := content[o.hdr + o.len..];
    var v := ReadTlv(rest).value;
    ReadIsElement(content);
    ReadIsElement(rest);
    var a, b, more := content[..o.hdr + o.len], rest[..v.hdr + v.len], rest[v.hdr + v.len..];
    assert content == a + b + more;
  }

  lemma AttributeOf(a: Bytes, b: Bytes, more: Bytes, it: Item)
    requires it.Attribute? && it.values != [] && IsElement(a, OID, it.oid) && IsElement(b, SET, it.values)
    ensures ParseItem(SEQUENCE, a + b + more) == Some(it)
  {
    hide ReadTlv, IsElement;
    assert a + b + more == a + (b + more);
    ElementReads(a, OID, it.oid, b + more);
    ElementReads(b, SET, it.values, more);
  }

  /** An element has one tag and one content. */
  lemma OneReading(s: Bytes, tag: Byte, content: Bytes)
    requires IsElement(s, tag, content)
    ensures forall t, c | IsElement(s, t, c) :: t == tag && c == content
  {
    hide ReadTlv, IsElement;
    forall t, c | IsElement(s, t, c)
      ensures t == tag && c == content
    {
      ElementReads(s, tag, content, []);
      ElementReads(s, t, c, []);
    }
  }

  /** An item is one element. */
  lemma ItemIsElement(s: Bytes, it: Item) returns (tag: Byte, content: Bytes)
    requires IsItem(s, it)
    ensures IsElement(s, tag, content)
  {
    hide IsElement;
    if it.BareOid? {
      tag, content := OID, it.oid;
    } else {
      var a: Bytes, b: Bytes, more: Bytes :|
        IsElement(a, OID, it.oid) && IsElement(b, SET, it.values) && IsElement(s, SEQUENCE, a + b + more);
      tag, content := SEQUENCE, a + b + more;
    }
  }

  lemma {:induction false} ParseItemsIs(s: Bytes, items: seq<Item>)
    ensures ParseItems(s) == Some(items) <==> AreItems(s, items)
    decreases |s|
  {
    hide ReadTlv, IsElement, IsItem, ParseItem;
    if ParseItems(s) == Some(items) && s != [] {
      var h := ReadTlv(s).value;
      var k := h.hdr + h.len;
      ReadIsElement(s);
      ParseItemIs(s[..k], h.tag, s[h.hdr..k], items[0]);
      var rest := ParseItems(s[k..]).value;
      assert items == [items[0]] + rest && items[1..] == rest;
      ParseItemsIs(s[k..], rest);
    }
    if AreItems(s, items) && items != [] {
      var k :| 0 < k <= |s| && IsItem(s[..k], items[0]) && AreItems(s[k..], items[1..]);
      var tag, content := ItemIsElement(s[..k], items[0]);
      ParseItemIs(s[..k], tag, content, items[0]);
      ElementReads(s[..k], tag, content, s[k..]);
      assert s == s[..k] + s[k..];
      ParseItemsIs(s[k..], items[1..]);
      assert items == [items[0]] + items[1..];
    }
  }

  /** The parser accepts nothing at all, or a SEQUENCE of items whatever follows it, and then yields those items. */
  lemma ParsedIs(der: Bytes, items: seq<Item>)
    ensures Parsed(der) == Some(items) <==>
            || (der == [] && items == [])
            || exists k, body :: 0 < k <= |der| && IsElement(der[..k], SEQUENCE, body) && AreItems(body, items)
  {
    hide ReadTlv, IsElement, ParseItems, AreItems;
    if Parsed(der) == Some(items) && der != [] {
      var h := ReadTlv(der).value;
      ReadIsElement(der);
      ParseItemsIs(der[h.hdr..h.hdr + h.len], items);
    }
    forall k, body | 0 < k <= |der| && IsElement(der[..k], SEQUENCE, body) && AreItems(body, items)
      ensures Parsed(der) == Some(items)
    {
      ElementReads(der[..k], SEQUENCE, body, der[k..]);
      assert der == der[..k] + der[k..];
      ParseItemsIs(body, items);
    }
  }
}
