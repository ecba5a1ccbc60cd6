/** Where a URL's request-target starts and what of it is sent. */
module HttpUrl {
  import opened Bytes

  const HASH: Byte := 35
  const AMP: Byte := 38
  const PLUS: Byte := 43
  const MINUS: Byte := 45
  const SLASH: Byte := 47
  const QUESTION: Byte := 63
  const OPEN: Byte := 91
  const CLOSE: Byte := 93

  const MAX_SCHEME := 16
  const MAX_HOST := 256
  const MAX_PATH := 8192

  /** ://, http and https. */
  const SEPARATOR: Bytes := [COLON, SLASH, SLASH]
  const HTTP: Bytes := [104, 116, 116, 112]
  const HTTPS: Bytes := [104, 116, 116, 112, 115]

  predicate InHost(c: Byte) { c != COLON && c != SLASH && c != QUESTION && c != HASH }
  predicate NotClose(c: Byte) { c != CLOSE }
  predicate NotHash(c: Byte) { c != HASH }
  predicate IsSpace(c: Byte) { c == SP || HT <= c <= CR }

  // --- scheme, host and port ----------------------------------------------------------------

  function Lower(s: Bytes): (t: Bytes)
    ensures |t| == |s|
  {
    seq(|s|, i requires 0 <= i < |s| => if 65 <= s[i] <= 90 then s[i] + 32 else s[i])
  }

  function FindSeparator(s: Bytes): (k: Option<nat>)
    ensures k.Some? ==> k.value + 3 <= |s|
  {
    if |s| < 3 then None
    else if s[..3] == SEPARATOR then Some(0)
    else match FindSeparator(s[1..])
      case None => None
      case Some(k) => Some(k + 1)
  }

  /** No scheme means https; another scheme is refused. */
  function HostStart(s: Bytes): (h: Option<nat>)
    ensures h.Some? ==> h.value <= |s|
  {
    match FindSeparator(s)
    case None => Some(0)
    case Some(k) =>
      if k <= MAX_SCHEME && (Lower(s[..k]) == HTTPS || Lower(s[..k]) == HTTP) then Some(k + 3) else None
  }

  /** The length of the host, brackets included. */
  function HostLength(t: Bytes): (n: Option<nat>)
    ensures n.Some? ==> n.value <= |t|
  {
    if t != [] && t[0] == OPEN then
      var k := Run(t, NotClose);
      if k == |t| || k - 1 > MAX_HOST then None else Some(k + 1)
    else
      var k := Run(t, InHost);
      if k > MAX_HOST then None else Some(k)
  }

  /** A port as strtol reads it: blanks, a sign, then digits. */
  datatype PortText = PortText(length: nat, negative: bool, number: int)

  function ReadPort(t: Bytes): (p: PortText)
    ensures p.length <= |t|
  {
    var w := Run(t, IsSpace);
    var sign := if w < |t| && (t[w] == PLUS || t[w] == MINUS) then 1 else 0;
    var d := Run(t[w + sign..], IsDigit);
    PortText(w + sign + d, sign == 1 && t[w] == MINUS, Decimal(t[w + sign..w + sign + d]))
  }

  /** The length of a port; refused outside 1 to 65535. */
  function PortLength(t: Bytes): (n: Option<nat>)
    ensures n.Some? ==> n.value <= |t|
  {
    var p := ReadPort(t);
    if p.negative || p.number < 1 || p.number > 65535 then None else Some(p.length)
  }

  /** Where the request-target starts. */
  function TargetStart(s: Bytes): (n: Option<nat>)
    ensures n.Some? ==> n.value <= |s|
  {
    match HostStart(s)
    case None => None
    case Some(h) =>
      match HostLength(s[h..])
      case None => None
      case Some(k) =>
        if h + k < |s| && s[h + k] == COLON then
          match PortLength(s[h + k + 1..])
          case None => None
          case Some(p) => Some(h + k + 1 + p)
        else Some(h + k)
  }

  /** What is sent: never the fragment, and always starting with a slash. */
  function Target(s: Bytes): (t: Option<Bytes>)
    ensures t.Some? ==> |t.value| <= MAX_PATH
  {
    match TargetStart(s)
    case None => None
    case Some(n) =>
      var t := Sent(s[n..]);
      if |t| > MAX_PATH then None else Some(t)
  }

  function Sent(tail: Bytes): Bytes {
    var cut := tail[..Run(tail, NotHash)];
    if tail != [] && tail[0] == SLASH then cut else [SLASH] + cut
  }

  // --- appending a query does not move the target ---------------------------------------------

  /** What a client appends to a base URL: it starts with `?`, or with `&` when the base has a `?`. */
  ghost predicate QueryFor(base: Bytes, ext: Bytes) {
    && ext != [] && (ext[0] == QUESTION || (ext[0] == AMP && QUESTION in base))
    && COLON !in ext && SLASH !in ext && CLOSE !in ext
  }

  lemma {:induction false} NoSeparator(ext: Bytes)
    requires SLASH !in ext
    ensures FindSeparator(ext).None?
  {
    if |ext| >= 3 {
      assert ext[..3][2] == ext[2] != SLASH;
      NoSeparator(ext[1..]);
    }
  }

  lemma {:induction false} SeparatorExtends(base: Bytes, ext: Bytes)
    requires SLASH !in ext
    ensures FindSeparator(base + ext) == FindSeparator(base)
  {
    var s := base + ext;
    if base == [] {
      assert s == ext;
      NoSeparator(ext);
    } else {
      assert s[1..] == base[1..] + ext;
      SeparatorExtends(base[1..], ext);
      if |base| >= 3 {
        assert s[..3] == base[..3];
      } else if |s| >= 3 {
        assert s[..3][2] == s[2] == ext[2 - |base|];
      }
    }
  }

  /** A `?` in a base whose scheme is accepted stands after the scheme. */
  lemma HostStartExtends(base: Bytes, ext: Bytes)
    requires QueryFor(base, ext)
    ensures HostStart(base + ext) == HostStart(base)
    ensures HostStart(base).Some? && ext[0] != QUESTION ==> QUESTION in base[HostStart(base).value..]
  {
    hide FindSeparator;
    SeparatorExtends(base, ext);
    SeparatorIs(base);
    match FindSeparator(base) {
      case None =>
      case Some(k) =>
        assert (base + ext)[..k] == base[..k];
        if HostStart(base).Some? && ext[0] != QUESTION {
          var i :| 0 <= i < |base| && base[i] == QUESTION;
          assert forall j | 0 <= j < k :: Lower(base[..k])[j] == QUESTION <== base[j] == QUESTION;
          assert base[k..k + 3] == [base[k], base[k + 1], base[k + 2]];
          assert base[k + 3..][i - k - 3] == QUESTION;
        }
    }
  }

  lemma {:induction false} SeparatorIs(s: Bytes)
    ensures FindSeparator(s).Some? ==> var k := FindSeparator(s).value; s[k..k + 3] == SEPARATOR
  {
    if |s| >= 3 && s[..3] != SEPARATOR && FindSeparator(s[1..]).Some? {
      SeparatorIs(s[1..]);
      var k := FindSeparator(s[1..]).value;
      assert s[1..][k..k + 3] == s[k + 1..k + 4];
    }
  }

  lemma HostExtends(t: Bytes, ext: Bytes)
    requires ext != [] && CLOSE !in ext && (ext[0] == QUESTION || QUESTION in t)
    ensures HostLength(t + ext) == HostLength(t)
  {
    hide Run;
    var u := t + ext;
    if t == [] {
      assert u[0] == QUESTION && u[0] != OPEN;
      RunExtends(t, ext, InHost);
    } else if t[0] == OPEN {
      RunExtends(t, ext, NotClose);
      var k := Run(t, NotClose);
      if k == |t| {
        assert forall i | 0 <= i < |u| :: NotClose(u[i]) by {
          assert forall i | 0 <= i < |u| :: u[i] == if i < |t| then t[i] else ext[i - |t|];
        }
        assert Run(u, NotClose) == |u|;
      }
    } else {
      if ext[0] != QUESTION {
        var i :| 0 <= i < |t| && t[i] == QUESTION;
        assert !InHost(t[i]);
        assert Run(t, InHost) <= i;
      }
      RunExtends(t, ext, InHost);
    }
  }

  lemma SliceExtends(t: Bytes, ext: Bytes, i: nat, j: nat)
    requires i <= j <= |t|
    ensures (t + ext)[i..] == t[i..] + ext && (t + ext)[i..j] == t[i..j]
  {}

  lemma PortExtends(t: Bytes, ext: Bytes)
    requires ext != [] && (ext[0] == QUESTION || ext[0] == AMP)
    ensures ReadPort(t + ext) == ReadPort(t)
  {
    hide Run, Decimal;
    RunExtends(t, ext, IsSpace);
    var w := Run(t, IsSpace);
    assert (t + ext)[w] == if w < |t| then t[w] else ext[0];
    var from := if w < |t| && (t[w] == PLUS || t[w] == MINUS) then w + 1 else w;
    SliceExtends(t, ext, from, from + Run(t[from..], IsDigit));
    RunExtends(t[from..], ext, IsDigit);
  }

  /** The query a client appends leaves the start of the target where it was. */
  lemma TargetStartExtends(base: Bytes, ext: Bytes)
    requires QueryFor(base, ext)
    ensures TargetStart(base + ext) == TargetStart(base)
  {
    hide HostStart, HostLength, ReadPort;
    var s := base + ext;
    HostStartExtends(base, ext);
    if HostStart(base).Some? {
      var h := HostStart(base).value;
      assert s[h..] == base[h..] + ext;
      HostExtends(base[h..], ext);
      if HostLength(base[h..]).Some? {
        var e := h + HostLength(base[h..]).value;
        assert s[e] == if e < |base| then base[e] else ext[0];
        if e < |base| {
          assert s[e + 1..] == base[e + 1..] + ext;
          PortExtends(base[e + 1..], ext);
        }
      }
    }
  }
}
