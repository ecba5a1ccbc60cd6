/** Byte strings and the few byte values the wire formats name. */
module Bytes {
  type Byte = b: int | 0 <= b < 256
  type Bytes = seq<Byte>

  datatype Option<+T> = None | Some(value: T)

  const HT: Byte := 9
  const LF: Byte := 10
  const CR: Byte := 13
  const SP: Byte := 32
  const COLON: Byte := 58
  const SEMICOLON: Byte := 59

  const CRLF: Bytes := [CR, LF]

  function HexDigit(c: Byte): (d: Option<nat>)
    ensures d.Some? ==> d.value < 16
  {
    if 48 <= c <= 57 then Some(c - 48)
    else if 97 <= c <= 102 then Some(c - 87)
    else if 65 <= c <= 70 then Some(c - 55)
    else None
  }

  // --- digits and runs ------------------------------------------------------------------

  predicate IsDigit(c: Byte) { 48 <= c <= 57 }

  function DigitValue(c: Byte): int { c as int - 48 }

  function Decimal(s: Bytes): int {
    if s == [] then 0 else 10 * Decimal(s[..|s| - 1]) + DigitValue(s[|s| - 1])
  }

  /** How many leading bytes satisfy `p`. */
  function Run(s: Bytes, p: Byte -> bool): (n: nat)
    ensures n <= |s| && (forall i | 0 <= i < n :: p(s[i])) && (n < |s| ==> !p(s[n]))
  {
    if s == [] || !p(s[0]) then 0 else 1 + Run(s[1..], p)
  }

  lemma RunIs(s: Bytes, p: Byte -> bool, n: nat)
    requires n <= |s| && (forall i | 0 <= i < n :: p(s[i])) && (n < |s| ==> !p(s[n]))
    ensures Run(s, p) == n
  {}

  lemma RunExtends(s: Bytes, ext: Bytes, p: Byte -> bool)
    ensures Run(s, p) < |s| ==> Run(s + ext, p) == Run(s, p)
    ensures ext != [] && !p(ext[0]) ==> Run(s + ext, p) == Run(s, p)
  {
    var n := Run(s, p);
    if n < |s| || (ext != [] && !p(ext[0])) {
      var t := s + ext;
      assert forall i | 0 <= i < n :: t[i] == s[i];
      assert t[n] == if n < |s| then s[n] else ext[0];
      RunIs(t, p, n);
    }
  }
}
