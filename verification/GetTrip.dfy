/** What the server makes of the client's GET, and for which base URLs it is what the client sent. */
module GetTrip {
  import opened Bytes
  import opened HttpUrl
  import opened GetUrl
  import opened Numerals
  import F = RequestFields
  import U = UrlText

  // --- the request line -----------------------------------------------------------------------

  /** GET, then the HTTP version that ends the line. */
  const GET: Bytes := [71, 69, 84]
  const SERVER_BUFFER := 2048 + 8192
  const VERSION: Bytes := [72, 84, 84, 80, 47, 49, 46, 49]

  predicate NotSp(c: Byte) { c != SP }
  predicate NotAmp(c: Byte) { c != AMP }
  predicate NotQuestion(c: Byte) { c != QUESTION }
  predicate InTarget(c: Byte) { c != SP && c != LF }

  function Head(target: Bytes, fields: Bytes): Bytes { GET + [SP] + target + [SP] + VERSION + CRLF + fields }

  function Line(head: Bytes): (line: Option<Bytes>) {
    var n := Run(head, F.NotLf);
    if n == |head| then None
    else if n > 0 && head[n - 1] == CR then Some(head[..n - 1])
    else Some(head[..n])
  }

  /** The second of the line's words, which must end at a space. */
  function RequestTarget(head: Bytes): (t: Option<Bytes>) {
    match Line(head)
    case None => None
    case Some(line) =>
      var sp1 := Run(line, NotSp);
      if sp1 == |line| then None
      else
        var rest := line[sp1 + 1..];
        var sp2 := Run(rest, NotSp);
        if sp2 == |rest| then None else Some(rest[..sp2])
  }

  /** The target that arrives for the one sent: it ends at its first space, and a newline in it loses the request. */
  function Arrives(t: Bytes): (r: Option<Bytes>) {
    var k := Run(t, InTarget);
    if k == |t| then Some(t) else if t[k] == SP then Some(t[..k]) else None
  }

  lemma LineIs(head: Bytes, n: nat)
    requires n < |head| && head[n] == LF && forall i | 0 <= i < n :: head[i] != LF
    ensures Line(head) == Some(if n > 0 && head[n - 1] == CR then head[..n - 1] else head[..n])
  {
    RunIs(head, F.NotLf, n);
  }

  lemma WordsAre(line: Bytes, rest: Bytes)
    requires line == GET + [SP] + rest
    ensures Run(line, NotSp) == 3 && line[4..] == rest
  {
    assert line[0] == 71 && line[1] == 69 && line[2] == 84 && line[3] == SP;
    RunIs(line, NotSp, 3);
  }

  lemma TargetArrives(t: Bytes, fields: Bytes)
    ensures RequestTarget(Head(t, fields)) == Arrives(t)
  {
    hide Run, Head, RequestTarget;
    var k := Run(t, InTarget);
    assert t[..|t|] == t;
    if k == |t| || t[k] == SP {
      WholeLine(t, fields, k);
    } else {
      BrokenLine(t, fields, k);
    }
  }

  lemma BrokenLine(t: Bytes, fields: Bytes, k: nat)
    requires k < |t| && t[k] == LF && forall i | 0 <= i < k :: InTarget(t[i])
    ensures RequestTarget(Head(t, fields)) == None
  {
    hide Run, Line, Head;
    var head := Head(t, fields);
    HeadStart(t, fields, k);
    LineIs(head, 4 + k);
    var line := Line(head).value;
    assert head[4 + k - 1] == if k > 0 then t[k - 1] else SP;
    var j := if k > 0 && t[k - 1] == CR then k - 1 else k;
    assert line == head[..4 + j] == GET + [SP] + t[..j] by { HeadStart(t, fields, j); }
    WordsAre(line, t[..j]);
    assert forall i | 0 <= i < j :: t[..j][i] == t[i];
    RunIs(t[..j], NotSp, j);
  }

  /** The request line up to a byte of its target. */
  lemma HeadStart(t: Bytes, fields: Bytes, k: nat)
    requires k <= |t|
    ensures var head := Head(t, fields);
            && |head| > 4 + |t| + 1 + |VERSION| + 1 && head[4 + |t| + 1 + |VERSION| + 1] == LF
            && head[..4 + k] == GET + [SP] + t[..k] && head[4 + k] == (if k < |t| then t[k] else SP)
            && (forall i | 0 <= i < k :: head[4 + i] == t[i])
            && (forall i | 0 <= i < 4 :: head[i] != LF && head[i] != CR)
            && head[3] == SP
  {
    Pieces(GET, t, VERSION, fields, k);
    assert GET[0] == 71 && GET[1] == 69 && GET[2] == 84;
  }

  lemma Pieces(g: Bytes, t: Bytes, v: Bytes, fields: Bytes, k: nat)
    requires k <= |t| && |g| == 3
    ensures var head := g + [SP] + t + [SP] + v + CRLF + fields;
            && |head| > 4 + |t| + 1 + |v| + 1 && head[4 + |t| + 1 + |v| + 1] == LF
            && head[..4 + k] == g + [SP] + t[..k] && head[4 + k] == (if k < |t| then t[k] else SP)
            && (forall i | 0 <= i < k :: head[4 + i] == t[i])
            && head[3] == SP && (forall i | 0 <= i < 3 :: head[i] == g[i])
  {
    var line := g + [SP] + t;
    var head := g + [SP] + t + [SP] + v + CRLF + fields;
    assert head == line + ([SP] + v + CRLF + fields);
    assert line[..4 + k] == g + [SP] + t[..k];
    assert forall i | 0 <= i < |line| :: head[i] == line[i];
    assert head[..4 + k] == line[..4 + k];
    assert head == line + [SP] + v + [CR] + ([LF] + fields);
  }

  lemma WholeLine(t: Bytes, fields: Bytes, k: nat)
    requires k <= |t| && (k < |t| ==> t[k] == SP) && forall i | 0 <= i < k :: InTarget(t[i])
    ensures RequestTarget(Head(t, fields)) == Some(t[..k])
  {
    hide Run, Head, Line, RequestTarget;
    var head := Head(t, fields);
    HeadStart(t, fields, k);
    var end := 4 + |t| + 1 + |VERSION| + 1;
    var n := Run(head, F.NotLf);
    assert forall i | 0 <= i < n :: F.NotLf(head[i]);
    assert forall i | 4 <= i < 4 + k :: head[i] == t[i - 4];
    assert n <= end && n > 4 + k;
    LineIs(head, n);
    LineTarget(Line(head).value, head, t, k);
  }

  lemma LineTarget(line: Bytes, head: Bytes, t: Bytes, k: nat)
    requires Line(head) == Some(line) && line <= head && |line| > 4 + k
    requires k <= |t| && head[..4 + k] == GET + [SP] + t[..k] && head[4 + k] == SP
    requires forall i | 0 <= i < k :: InTarget(t[i])
    ensures RequestTarget(head) == Some(t[..k])
  {
    hide Run, Line;
    var rest := line[4..];
    assert line[..4] == head[..4 + k][..4];
    assert line == GET + [SP] + rest;
    WordsAre(line, rest);
    assert rest[..k] == head[..4 + k][4..] == t[..k];
    assert forall i | 0 <= i < k :: rest[i] == rest[..k][i] == t[..k][i];
    assert rest[k] == line[4 + k] == head[4 + k];
    RunIs(rest, NotSp, k);
  }

  // --- the parameter ----------------------------------------------------------------------------

  function QueryOf(t: Bytes): Bytes {
    var n := Run(t, NotQuestion);
    if n == |t| then [] else t[n + 1..]
  }

  /** What follows `key=` where a parameter of that whole name starts. */
  function Param(q: Bytes, key: Bytes): (v: Option<Bytes>)
    decreases |q|
  {
    if q == [] then None
    else if key + [EQUALS] <= q then Some(q[|key| + 1..])
    else
      var n := Run(q, NotAmp);
      if n == |q| then None else Param(q[n + 1..], key)
  }

  function FirstValue(v: Bytes): Bytes { v[..Run(v, NotAmp)] }

  function Lookup(q: Bytes): (b64: Option<Bytes>) {
    match Param(q, MESSAGE) case None => None case Some(v) => Decode(FirstValue(v))
  }

  /** The request is dispatched as a PKIOperation. */
  predicate Dispatched(q: Bytes) { Param(q, OPERATION_KEY).Some? && PKI_OPERATION <= Param(q, OPERATION_KEY).value }

  function Answer(q: Bytes): (b64: Option<Bytes>) { if Dispatched(q) then Lookup(q) else None }

  method QueryParam(q: Bytes, key: Bytes) returns (v: Option<Bytes>)
    ensures v == Param(q, key)
  {
    hide Run;
    var p := q;
    while p != []
      invariant Param(q, key) == Param(p, key)
      decreases |p|
    {
      if key + [EQUALS] <= p {
        return Some(p[|key| + 1..]);
      }
      var n := Run(p, NotAmp);
      if n == |p| {
        break;
      }
      p := p[n + 1..];
    }
    return None;
  }

  /** The base64 text of a GET's query, None when it is answered with an error or as another operation. */
  method ReadMessage(q: Bytes) returns (b64: Option<Bytes>)
    ensures b64 == Answer(q)
  {
    hide Param, Run;
    var op := QueryParam(q, OPERATION_KEY);
    if op.None? || !(PKI_OPERATION <= op.value) {
      return None;
    }
    var m := QueryParam(q, MESSAGE);
    if m.None? {
      return None;
    }
    b64 := UrlDecode(FirstValue(m.value));
  }

  lemma FirstAmp(q: Bytes, r: Bytes)
    ensures Run(q + [AMP] + r, NotAmp) == Run(q, NotAmp)
  {
    assert q + [AMP] + r == q + ([AMP] + r);
    RunExtends(q, [AMP] + r, NotAmp);
  }

  /** A parameter is looked for in the first part, then in what is after the `&`. */
  lemma {:induction false} ParamSplits(q: Bytes, r: Bytes, key: Bytes)
    requires AMP !in key
    ensures Param(q + [AMP] + r, key)
         == if Param(q, key).Some? then Some(Param(q, key).value + [AMP] + r) else Param(r, key)
    decreases |q|
  {
    hide Run;
    var s := q + [AMP] + r;
    var name := key + [EQUALS];
    assert AMP !in name;
    PrefixSplits(name, q, r);
    FirstAmp(q, r);
    var n := Run(q, NotAmp);
    if name <= q {
      assert s[|name|..] == q[|name|..] + [AMP] + r;
    } else if n == |q| {
      assert s[n + 1..] == r;
    } else {
      assert s[n + 1..] == q[n + 1..] + [AMP] + r;
      ParamSplits(q[n + 1..], r, key);
    }
  }

  lemma PrefixSplits(name: Bytes, q: Bytes, r: Bytes)
    requires AMP !in name
    ensures name <= q + [AMP] + r <==> name <= q
  {
    var s := q + [AMP] + r;
    if name <= s {
      assert s[|q|] == AMP;
      assert name == s[..|name|] == q[..|name|];
    }
    if name <= q {
      assert s[..|name|] == q[..|name|] == name;
    }
  }

  lemma FirstValueSplits(v: Bytes, r: Bytes)
    ensures FirstValue(v + [AMP] + r) == FirstValue(v)
  {
    FirstAmp(v, r);
  }

  lemma OwnParam(b64: Bytes)
    ensures Param(MESSAGE + [EQUALS] + Encode(b64), MESSAGE) == Some(Encode(b64))
  {
    hide Encode, Run;
    var q := MESSAGE + [EQUALS] + Encode(b64);
    assert MESSAGE + [EQUALS] <= q && q[|MESSAGE| + 1..] == Encode(b64);
  }

  lemma NoAmpInEncoded(b64: Bytes)
    ensures FirstValue(Encode(b64)) == Encode(b64)
  {
    hide Encode;
    EncodedIsPlain(b64);
    RunIs(Encode(b64), NotAmp, |Encode(b64)|);
  }

  lemma OperationIsNoMessage()
    ensures Param(OPERATION, MESSAGE) == None && AMP !in OPERATION && AMP !in MESSAGE
  {
    hide Run, Param;
    OperationIsPlain();
    MessageIsPlain();
    OtherParam(OPERATION, MESSAGE);
  }

  lemma OtherParam(q: Bytes, key: Bytes)
    requires q != [] && key != [] && q[0] != key[0] && AMP !in q
    ensures Param(q, key) == None
  {
    RunIs(q, NotAmp, |q|);
    assert (key + [EQUALS])[0] == key[0];
  }

  /** With no earlier parameter of that name, the lookup ends at the client's own. */
  lemma LookupFinds(b64: Bytes)
    ensures Lookup(OPERATION + MessageParam(b64)) == Some(b64)
  {
    hide Param, Encode, Decode, Run, FirstValue;
    OperationIsNoMessage();
    var own := MESSAGE + [EQUALS] + Encode(b64);
    assert OPERATION + MessageParam(b64) == OPERATION + [AMP] + own;
    ParamSplits(OPERATION, own, MESSAGE);
    OwnParam(b64);
    NoAmpInEncoded(b64);
    DecodeEncode(b64);
  }

  lemma LookupAfter(q: Bytes, b64: Bytes)
    ensures Lookup(q + [AMP] + (OPERATION + MessageParam(b64))) ==
            if Param(q, MESSAGE).Some? then Lookup(q) else Some(b64)
  {
    hide Param, Encode, Decode, Run, FirstValue, MessageParam;
    OperationIsNoMessage();
    ParamSplits(q, OPERATION + MessageParam(b64), MESSAGE);
    LookupFinds(b64);
    if Param(q, MESSAGE).Some? {
      FirstValueSplits(Param(q, MESSAGE).value, OPERATION + MessageParam(b64));
    }
  }

  lemma OwnOperation(rest: Bytes)
    ensures Param(OPERATION + rest, OPERATION_KEY) == Some(PKI_OPERATION + rest)
  {
    var name := OPERATION_KEY + [EQUALS];
    assert OPERATION + rest == name + (PKI_OPERATION + rest);
    NamedFirst(OPERATION_KEY, PKI_OPERATION + rest);
  }

  lemma NamedFirst(key: Bytes, v: Bytes)
    ensures Param(key + [EQUALS] + v, key) == Some(v)
  {
    var q := key + [EQUALS] + v;
    assert key + [EQUALS] <= q && q[|key| + 1..] == v;
  }

  lemma KeysArePlain()
    ensures AMP !in OPERATION_KEY && AMP !in PKI_OPERATION
  {}

  /** The base's own operation parameter, if it has one, is the one dispatched on. */
  predicate OperationOk(q: Bytes) { Param(q, OPERATION_KEY).Some? ==> PKI_OPERATION <= Param(q, OPERATION_KEY).value }

  lemma AnswerAfter(q: Bytes, b64: Bytes)
    ensures Answer(q + [AMP] + (OPERATION + MessageParam(b64))) ==
            if !OperationOk(q) then None else if Param(q, MESSAGE).Some? then Lookup(q) else Some(b64)
  {
    hide Param, Lookup, MessageParam;
    var own := OPERATION + MessageParam(b64);
    KeysArePlain();
    ParamSplits(q, own, OPERATION_KEY);
    OwnOperation(MessageParam(b64));
    LookupAfter(q, b64);
    if Param(q, OPERATION_KEY).Some? {
      PrefixSplits(PKI_OPERATION, Param(q, OPERATION_KEY).value, own);
    }
  }

  lemma AnswerFinds(b64: Bytes)
    ensures Answer(OPERATION + MessageParam(b64)) == Some(b64)
  {
    hide Param, Lookup, MessageParam;
    OwnOperation(MessageParam(b64));
    LookupFinds(b64);
  }

  // --- the whole trip -----------------------------------------------------------------------------

  /** What follows the first line. */
  function AfterLine(head: Bytes): Bytes {
    var n := Run(head, F.NotLf);
    if n == |head| then [] else head[n + 1..]
  }

  /** What the server decodes when the client sends `b64` under `base`; None when it gets nothing it answers for. */
  function Received(base: Bytes, b64: Bytes, keepAlive: bool): (r: Option<Bytes>) {
    var url := base + Query(base, b64);
    if !UrlFits(base, b64) || TargetStart(url).None? then None
    else
      var head := Head(Sent(url[TargetStart(url).value..]), F.Fields(F.AuthorityOf(url).value, keepAlive));
      match RequestTarget(head)
      case None => None
      case Some(t) => if F.Accepts(AfterLine(head)) then Answer(QueryOf(t)) else None
  }

  /** What of a base URL follows its host and port. */
  function Tail(base: Bytes): Bytes { if TargetStart(base).None? then [] else base[TargetStart(base).value..] }

  /**
   * The base URLs a GET works under: they parse, send no fragment, blank or newline, have no `?` that is inside
   * the host only, no `message` parameter of their own, and no `operation` other than PKIOperation. And the server
   * takes the header fields their host leads to, as it does unless the host has a newline in it.
   */
  predicate Works(base: Bytes, keepAlive: bool) {
    Targets(base) && F.Accepts(F.Fields(F.AuthorityOf(base).value, keepAlive))
  }

  predicate Targets(base: Bytes) {
    var tail := Tail(base);
    && TargetStart(base).Some?
    && HASH !in tail && SP !in tail && LF !in tail
    && (QUESTION in base ==> QUESTION in tail)
    && Param(QueryOf(tail), MESSAGE).None? && OperationOk(QueryOf(tail))
  }

  function Lead(tail: Bytes): Bytes { if tail != [] && tail[0] == SLASH then tail else [SLASH] + tail }

  lemma SentIs(tail: Bytes, ext: Bytes)
    requires ext != [] && ext[0] != SLASH && HASH !in ext
    ensures Sent(tail + ext) == if HASH in tail then Sent(tail) else Lead(tail) + ext
  {
    hide Run;
    var s := tail + ext;
    if HASH in tail {
      var i :| 0 <= i < |tail| && tail[i] == HASH;
      var n := Run(tail, NotHash);
      assert n <= i by {
        assert forall j | 0 <= j < n :: NotHash(tail[j]);
      }
      RunExtends(tail, ext, NotHash);
      assert s[..n] == tail[..n] && s[0] == tail[0];
    } else {
      assert forall i | 0 <= i < |s| :: s[i] == if i < |tail| then tail[i] else ext[i - |tail|];
      RunIs(s, NotHash, |s|);
      assert s[..|s|] == s;
      assert [SLASH] + s == [SLASH] + tail + ext;
    }
  }

  ghost function Got(t: Bytes): Option<Bytes> {
    match Arrives(t) case None => None case Some(u) => Answer(QueryOf(u))
  }

  lemma ReceivedIs(base: Bytes, b64: Bytes, keepAlive: bool)
    ensures var t := Sent(Tail(base) + Query(base, b64));
            && (Received(base, b64, keepAlive).Some? ==>
                  TargetStart(base).Some? && Received(base, b64, keepAlive) == Got(t))
            && (TargetStart(base).Some? && UrlFits(base, b64) && LF !in t ==>
                  Received(base, b64, keepAlive) ==
                  if F.Accepts(F.Fields(F.AuthorityOf(base).value, keepAlive)) then Got(t) else None)
  {
    hide TargetStart, Query, Sent, RequestTarget, Head, Arrives, Lookup, Answer, QueryOf, AfterLine,
         F.Accepts, F.Fields, F.AuthorityOf;
    var ext := Query(base, b64);
    QueryIsFor(base, b64);
    TargetStartExtends(base, ext);
    if TargetStart(base).Some? {
      var n := TargetStart(base).value;
      assert (base + ext)[n..] == Tail(base) + ext;
      F.AuthorityExtends(base, ext);
      var t, fields := Sent(Tail(base) + ext), F.Fields(F.AuthorityOf(base).value, keepAlive);
      TargetArrives(t, fields);
      if LF !in t {
        FieldsFollow(t, fields);
      }
    }
  }

  lemma FieldsFollow(t: Bytes, fields: Bytes)
    requires LF !in t
    ensures AfterLine(Head(t, fields)) == fields
  {
    hide Run;
    var head := Head(t, fields);
    var line := GET + [SP] + t + [SP] + VERSION + [CR];
    assert head == line + [LF] + fields;
    assert LF !in GET && LF !in VERSION;
    assert forall i | 0 <= i < |line| :: head[i] == line[i];
    RunIs(head, F.NotLf, |line|);
    assert head[|line| + 1..] == fields;
  }

  /** Nothing of the query arrives after a blank or newline. */
  lemma CutShort(tail: Bytes, ext: Bytes)
    requires SP in tail || LF in tail
    ensures Arrives(Lead(tail) + ext) == Arrives(Lead(tail))
  {
    hide Run;
    var t := Lead(tail);
    var i :| 0 <= i < |t| && !InTarget(t[i]) by {
      var j :| 0 <= j < |tail| && (tail[j] == SP || tail[j] == LF);
      assert t[j + |t| - |tail|] == tail[j];
    }
    var k := Run(t, InTarget);
    assert k <= i by {
      assert forall j | 0 <= j < k :: InTarget(t[j]);
    }
    RunExtends(t, ext, InTarget);
    assert (t + ext)[..k] == t[..k] && (t + ext)[k] == t[k];
  }

  lemma AllArrives(t: Bytes)
    requires SP !in t && LF !in t
    ensures Arrives(t) == Some(t)
  {
    RunIs(t, InTarget, |t|);
  }

  lemma QueryAfter(pre: Bytes, x: Bytes)
    requires QUESTION !in pre
    ensures QueryOf(pre + x) == QueryOf(x)
  {
    hide Run;
    var s := pre + x;
    var n := Run(x, NotQuestion);
    assert forall i | 0 <= i < |pre| + n :: s[i] == if i < |pre| then pre[i] else x[i - |pre|];
    assert forall i | 0 <= i < n :: NotQuestion(x[i]);
    assert n < |x| ==> s[|pre| + n] == x[n];
    RunIs(s, NotQuestion, |pre| + n);
    if n < |x| {
      assert s[|pre| + n + 1..] == x[n + 1..];
    }
  }

  lemma QueryBefore(x: Bytes, ext: Bytes)
    requires QUESTION in x
    ensures QueryOf(x + ext) == QueryOf(x) + ext
  {
    hide Run;
    var i :| 0 <= i < |x| && x[i] == QUESTION;
    var n := Run(x, NotQuestion);
    assert n <= i by {
      assert forall j | 0 <= j < n :: NotQuestion(x[j]);
    }
    RunExtends(x, ext, NotQuestion);
    assert (x + ext)[n + 1..] == x[n + 1..] + ext;
  }

  lemma QueryAlone(x: Bytes)
    ensures x != [] && x[0] == QUESTION ==> QueryOf(x) == x[1..]
    ensures QUESTION !in x ==> QueryOf(x) == []
  {
    if QUESTION !in x {
      RunIs(x, NotQuestion, |x|);
    }
  }

  lemma QuerySplits(tail: Bytes, ext: Bytes)
    ensures QUESTION in tail ==> QueryOf(Lead(tail) + ext) == QueryOf(tail) + ext
    ensures QUESTION !in tail && ext != [] && ext[0] == QUESTION ==> QueryOf(Lead(tail) + ext) == ext[1..]
    ensures QUESTION !in tail && QUESTION !in ext ==> QueryOf(Lead(tail) + ext) == []
    ensures QUESTION !in tail ==> QueryOf(tail) == []
  {
    hide QueryOf;
    var pre := if tail != [] && tail[0] == SLASH then [] else [SLASH];
    assert Lead(tail) + ext == pre + (tail + ext);
    QueryAfter(pre, tail + ext);
    QueryAlone(tail);
    QueryAlone(ext);
    if QUESTION in tail {
      QueryBefore(tail, ext);
    } else {
      QueryAfter(tail, ext);
    }
  }

  /** A target that arrives whole. */
  lemma WholeTarget(base: Bytes, tail: Bytes, b64: Bytes)
    requires HASH !in tail && SP !in tail && LF !in tail && (QUESTION in tail ==> QUESTION in base)
    ensures Got(Lead(tail) + Query(base, b64)) ==
            if QUESTION in tail && !OperationOk(QueryOf(tail)) then None
            else if QUESTION in tail then
              (if Param(QueryOf(tail), MESSAGE).Some? then Lookup(QueryOf(tail)) else Some(b64))
            else if QUESTION in base then None
            else Some(b64)
  {
    hide Run, Arrives, Param, QueryOf, Lookup, Answer, Query, MessageParam, OperationOk;
    var ext := Query(base, b64);
    var t := Lead(tail) + ext;
    QueryIsPlain(base, b64);
    assert SP !in t && LF !in t;
    AllArrives(t);
    QuerySplits(tail, ext);
    QueryIs(base, b64);
    if QUESTION in tail {
      var q := QueryOf(tail);
      assert q + ext == q + [AMP] + (OPERATION + MessageParam(b64));
      AnswerAfter(q, b64);
    } else if QUESTION in base {
      assert QUESTION !in ext by { PlainTail(b64); }
      assert Answer([]) == None by { EmptyAnswer(); }
    } else {
      AnswerFinds(b64);
    }
  }

  lemma EmptyAnswer()
    ensures Answer([]) == None
  {}

  lemma QueryIs(base: Bytes, b64: Bytes)
    ensures Query(base, b64) == [if QUESTION in base then AMP else QUESTION] + (OPERATION + MessageParam(b64))
    ensures Query(base, b64)[1..] == OPERATION + MessageParam(b64)
  {
    hide MessageParam;
  }

  lemma PlainTail(b64: Bytes)
    ensures QUESTION !in OPERATION + MessageParam(b64)
  {
    hide Encode;
    EncodedIsPlain(b64);
    OperationIsPlain();
    MessageIsPlain();
  }

  /** Under a base URL that works, every message the client can send arrives as it was sent. */
  lemma EveryMessageArrives(base: Bytes, b64: Bytes, keepAlive: bool)
    requires Works(base, keepAlive) && UrlFits(base, b64)
    ensures Received(base, b64, keepAlive) == Some(b64)
  {
    hide Param, QueryOf, Query, Sent, Got, Received, TargetStart, F.Accepts, F.Fields, F.AuthorityOf, UrlFits;
    var ext := Query(base, b64);
    ReceivedIs(base, b64, keepAlive);
    QueryIsFor(base, b64);
    NoHashInQuery(base, b64);
    SentIs(Tail(base), ext);
    TailIsSuffix(base);
    WholeTarget(base, Tail(base), b64);
    assert LF !in Lead(Tail(base)) + ext by { QueryIsPlain(base, b64); }
  }

  lemma NoHashInQuery(base: Bytes, b64: Bytes)
    ensures HASH !in Query(base, b64) && SLASH !in Query(base, b64)
  {
    hide Query;
    QueryIsPlain(base, b64);
  }

  lemma TailIsSuffix(base: Bytes)
    ensures QUESTION in Tail(base) ==> QUESTION in base
  {
    hide TargetStart;
  }

  /** Under one that does not, what is received says nothing about what was sent. */
  lemma NoMessageArrives(base: Bytes, one: Bytes, other: Bytes, keepAlive: bool)
    requires !Works(base, keepAlive)
    ensures Received(base, one, keepAlive).Some? && Received(base, other, keepAlive).Some? ==>
              Received(base, one, keepAlive) == Received(base, other, keepAlive)
  {
    hide Param, QueryOf, Query, Sent, Received, Arrives, TargetStart, Lookup, Answer, Got, UrlFits,
         F.Accepts, F.Fields, F.AuthorityOf;
    ReceivedIs(base, one, keepAlive);
    ReceivedIs(base, other, keepAlive);
    if !Targets(base) {
      SameGot(base, one, other);
    } else {
      var tail := Tail(base);
      forall b64 | b64 == one || b64 == other
        ensures LF !in Sent(tail + Query(base, b64))
      {
        QueryIsFor(base, b64);
        NoHashInQuery(base, b64);
        SentIs(tail, Query(base, b64));
        assert LF !in Lead(tail) + Query(base, b64) by { QueryIsPlain(base, b64); }
      }
      ReceivedFits(base, one, keepAlive);
      ReceivedFits(base, other, keepAlive);
    }
  }

  lemma ReceivedFits(base: Bytes, b64: Bytes, keepAlive: bool)
    ensures Received(base, b64, keepAlive).Some? ==> UrlFits(base, b64)
  {
    hide UrlFits, TargetStart, F.Accepts, F.Fields, F.AuthorityOf, Query, Head, Sent;
  }

  /** A target that does not take the query to the server makes the same of every message. */
  lemma SameGot(base: Bytes, one: Bytes, other: Bytes)
    requires TargetStart(base).Some? ==> !Targets(base)
    ensures TargetStart(base).Some? ==>
              Got(Sent(Tail(base) + Query(base, one))) == Got(Sent(Tail(base) + Query(base, other)))
  {
    hide Param, QueryOf, Query, Sent, Arrives, TargetStart, Lead, Lookup, Answer;
    var tail := Tail(base);
    TailIsSuffix(base);
    forall b64 | b64 == one || b64 == other
      ensures Query(base, b64) != [] && HASH !in Query(base, b64) && SLASH !in Query(base, b64)
    {
      QueryIsFor(base, b64);
      NoHashInQuery(base, b64);
    }
    SentIs(tail, Query(base, one));
    SentIs(tail, Query(base, other));
    if SP in tail || LF in tail {
      CutShort(tail, Query(base, one));
      CutShort(tail, Query(base, other));
    } else if HASH !in tail {
      hide Got;
      WholeTarget(base, tail, one);
      WholeTarget(base, tail, other);
      QuerySplits(tail, []);
      assert Param([], MESSAGE) == None && Param([], OPERATION_KEY) == None by { EmptyParam(); }
    }
  }

  lemma EmptyParam()
    ensures Param([], MESSAGE) == None && Param([], OPERATION_KEY) == None
  {}

  /** The exact condition, for all the messages the client can send at once, if it can send a byte at all. */
  lemma RoundTripIff(base: Bytes, keepAlive: bool)
    ensures UrlFits(base, [65]) ==>
              ((forall b64 | UrlFits(base, b64) :: Received(base, b64, keepAlive) == Some(b64))
               <==> Works(base, keepAlive))
  {
    hide Works, Received, UrlFits;
    if Works(base, keepAlive) {
      forall b64 | UrlFits(base, b64)
        ensures Received(base, b64, keepAlive) == Some(b64)
      {
        EveryMessageArrives(base, b64, keepAlive);
      }
    } else if UrlFits(base, [65]) {
      NoMessageArrives(base, [], [65], keepAlive);
      NothingFits(base);
    }
  }

  lemma NothingFits(base: Bytes)
    requires UrlFits(base, [65])
    ensures UrlFits(base, [])
  {
    assert Encode([]) == [] && Encode([65]) == EncodeByte(65) + Encode([]);
  }

  /** A host without a newline leaves only the target to look at. */
  lemma PlainHostWorks(base: Bytes, keepAlive: bool)
    requires Targets(base) && LF !in F.AuthorityOf(base).value.host
    ensures Works(base, keepAlive)
  {
    hide Param, QueryOf, Run, F.Accepts, F.Fields, F.AuthorityOf;
    F.PlainFields(F.AuthorityOf(base).value, keepAlive);
  }

  /** The words of the request line. */
  lemma LineWords()
    ensures IsText(GET, "GET") && IsText(VERSION, "HTTP/1.1")
  {}

  /** A path of slashes and unreserved characters. */
  predicate IsPath(t: Bytes) { forall i | 0 <= i < |t| :: t[i] as char == '/' || IsPlain(t[i] as char) }

  /**
   * An ordinary base URL works: any scheme and port, any host without a newline or question mark, and a path of
   * slashes and unreserved characters. Every text the client can send then arrives.
   */
  lemma PlainBaseWorks(u: U.Url, b64: Bytes, keepAlive: bool)
    requires u.Valid() && LF !in u.host && QUESTION !in u.host && IsPath(u.tail)
    ensures Works(u.Text(), keepAlive)
    ensures UrlFits(u.Text(), b64) ==> Received(u.Text(), b64, keepAlive) == Some(b64)
  {
    hide U.Url.Valid, U.Url.Front, U.Url.Text, TargetStart, F.AuthorityOf, Received, UrlFits, Works, Targets, Param;
    var base := u.Text();
    U.UrlReads(u);
    PlainTargets(u);
    PlainHostWorks(base, keepAlive);
    if UrlFits(base, b64) { EveryMessageArrives(base, b64, keepAlive); }
  }

  lemma PlainTargets(u: U.Url)
    requires u.Valid() && QUESTION !in u.host && IsPath(u.tail) && TargetStart(u.Text()) == Some(|u.Front()|)
    ensures Targets(u.Text())
  {
    hide U.Url.Front, TargetStart, Run;
    var tail := u.tail;
    assert Tail(u.Text()) == tail;
    forall i | 0 <= i < |tail|
      ensures tail[i] !in {HASH, SP, LF, QUESTION}
    {
    }
    NoQuestionInFront(u);
    RunIs(tail, NotQuestion, |tail|);
  }

  lemma NoQuestionInFront(u: U.Url)
    requires u.Valid() && QUESTION !in u.host
    ensures QUESTION !in u.Front()
  {
    hide IsDec, Decimal, U.SeparatorAt;
    assert QUESTION !in u.SchemeText();
    if u.port.Some? {
      var p := u.port.value;
      assert p.digits != [] by { DecNotEmpty(p.digits, p.number); }
      DecimalIs(p.digits, p.number);
      assert QUESTION !in p.white && QUESTION !in p.digits;
    }
  }

  /** What the client sends fits the server's buffer, so the server reads all of it. */
  lemma HeadFitsServer(base: Bytes, b64: Bytes, keepAlive: bool)
    requires UrlFits(base, b64) && TargetStart(base + Query(base, b64)).Some?
    ensures var url := base + Query(base, b64);
            |Head(Sent(url[TargetStart(url).value..]), F.Fields(F.AuthorityOf(url).value, keepAlive))|
            < SERVER_BUFFER == 10240
  {
    hide TargetStart, Query, F.Fields, F.AuthorityOf, Run;
    var url := base + Query(base, b64);
    F.HostIsShort(url);
    F.FieldsAreShort(F.AuthorityOf(url).value, keepAlive);
  }

  /** A base with neither fragment nor parameter under which no message arrives: `[?]`, its `?` inside the host. */
  lemma QuestionInHost(b64: Bytes, keepAlive: bool)
    ensures var base := [OPEN, QUESTION, CLOSE];
            TargetStart(base).Some? && HASH !in base && Param(QueryOf(Tail(base)), MESSAGE).None? && !Targets(base) &&
            Received(base, b64, keepAlive) == None
  {
    var base := [OPEN, QUESTION, CLOSE];
    hide Query, Sent, Received, Got, Lookup, Answer, F.Accepts, F.Fields, F.AuthorityOf;
    assert base[0..] == base;
    RunIs(base, NotClose, 2);
    assert TargetStart(base) == Some(3) && Tail(base) == [];
    ReceivedIs(base, b64, keepAlive);
    QueryIsFor(base, b64);
    NoHashInQuery(base, b64);
    SentIs([], Query(base, b64));
    WholeTarget(base, [], b64);
  }

  /** Whatever the target, a host that breaks the header loses every message. */
  lemma BrokenHostLoses(base: Bytes, x: Bytes, y: Bytes, b64: Bytes, keepAlive: bool)
    requires Targets(base) && LF !in x && F.AuthorityOf(base) == Some(F.Authority(x + [LF, SP, COLON] + y, true, 443))
    ensures !Works(base, keepAlive) && Received(base, b64, keepAlive) == None
  {
    hide Query, Sent, Received, Got, TargetStart, Param, QueryOf, OperationOk, F.Accepts, F.Fields, F.AuthorityOf,
         UrlFits;
    F.BrokenFields(x, y, keepAlive);
    ReceivedIs(base, b64, keepAlive);
    ReceivedFits(base, b64, keepAlive);
    QueryIsFor(base, b64);
    NoHashInQuery(base, b64);
    SentIs(Tail(base), Query(base, b64));
    assert LF !in Lead(Tail(base)) + Query(base, b64) by { QueryIsPlain(base, b64); }
  }

  /** A base whose target is fine and whose host breaks the header: `[a`, a newline, ` :]`. */
  lemma NewlineInHost(b64: Bytes, keepAlive: bool)
    ensures var base := [OPEN, 97, LF, SP, COLON, CLOSE];
            Targets(base) && !Works(base, keepAlive) && Received(base, b64, keepAlive) == None
  {
    hide *;
    var base := [OPEN, 97, LF, SP, COLON, CLOSE];
    BrokenBase();
    assert [97] + [LF, SP, COLON] + [] == [97, LF, SP, COLON];
    BrokenHostLoses(base, [97], [], b64, keepAlive);
  }

  lemma BrokenBase()
    ensures var base := [OPEN, 97, LF, SP, COLON, CLOSE];
            Targets(base) && LF !in [97] && F.AuthorityOf(base) == Some(F.Authority([97, LF, SP, COLON], true, 443))
  {
    var base := [OPEN, 97, LF, SP, COLON, CLOSE];
    hide Param, QueryOf, Run;
    BrokenStart();
    assert TargetStart(base) == Some(6) && Tail(base) == [];
    assert base[1..5] == [97, LF, SP, COLON] && base[0..6] == base;
    QueryAlone([]);
    EmptyParam();
  }

  lemma BrokenStart()
    ensures var base := [OPEN, 97, LF, SP, COLON, CLOSE];
            FindSeparator(base).None? && base[0..] == base && HostLength(base) == Some(6)
  {
    var base := [OPEN, 97, LF, SP, COLON, CLOSE];
    assert SLASH !in base;
    NoSeparator(base);
    RunIs(base, NotClose, 5);
  }
}
