/** Numbers as text: the digits are taken from the alphabets, the value from division by the base. */
module Numerals {
  import opened Bytes

  /** `b` is the text `t`, byte for character. */
  predicate IsText(b: Bytes, t: string) { |b| == |t| && forall i | 0 <= i < |b| :: b[i] == t[i] as int }

  const LOWER := "0123456789abcdef"
  const UPPER := "0123456789ABCDEF"

  predicate Shows(c: Byte, d: nat) { d < 16 && (c == LOWER[d] as int || c == UPPER[d] as int) }

  /** `s` writes `n` in hexadecimal, each digit in either case, with any number of leading zeros. */
  predicate IsHex(s: Bytes, n: nat) {
    s != [] && Shows(s[|s| - 1], n % 16) && if |s| == 1 then n < 16 else IsHex(s[..|s| - 1], n / 16)
  }

  /** `s` writes `n` in decimal, with any number of leading zeros. */
  predicate IsDec(s: Bytes, n: nat) {
    s != [] && s[|s| - 1] == LOWER[n % 10] as int && if |s| == 1 then n < 10 else IsDec(s[..|s| - 1], n / 10)
  }

  lemma DecNotEmpty(s: Bytes, n: nat)
    requires IsDec(s, n)
    ensures s != []
  {}

  /** The shortest numeral of `n`, in one case. */
  function Hex(n: nat, upper: bool): (s: Bytes)
    ensures s != []
  {
    (if n < 16 then [] else Hex(n / 16, upper)) + [Digit(n % 16, upper)]
  }

  function Digit(d: nat, upper: bool): (c: Byte)
    requires d < 16
    ensures Shows(c, d)
  {
    (if upper then UPPER else LOWER)[d] as int
  }

  /** `k` zeros. */
  function Noughts(k: nat): (z: Bytes)
    ensures |z| == k
  {
    if k == 0 then [] else Noughts(k - 1) + ['0' as int]
  }

  lemma {:induction false} NoughtsWriteZero(k: nat)
    requires k > 0
    ensures IsHex(Noughts(k), 0)
  {
    var z := Noughts(k);
    if k > 1 {
      assert z[..k - 1] == Noughts(k - 1);
      NoughtsWriteZero(k - 1);
    }
  }

  /** Every number has its numeral in either case, and leading zeros leave the number as it is. */
  lemma {:induction false} EveryNumber(n: nat, upper: bool, k: nat)
    ensures IsHex(Noughts(k) + Hex(n, upper), n)
    decreases n
  {
    hide Shows, Digit;
    var s := Noughts(k) + Hex(n, upper);
    if n < 16 {
      assert s[..|s| - 1] == Noughts(k);
      if k > 0 { NoughtsWriteZero(k); }
    } else {
      assert s[..|s| - 1] == Noughts(k) + Hex(n / 16, upper);
      EveryNumber(n / 16, upper, k);
    }
  }

  /** The value table of the source is the alphabets'. */
  lemma HexDigitIs(c: Byte, d: nat)
    ensures HexDigit(c) == Some(d) <==> Shows(c, d)
  {
    if d < 16 {
      assert d in {0, 1, 2, 3, 4, 5, 6, 7, 8, 9, 10, 11, 12, 13, 14, 15};
    }
  }

  lemma DigitIs(c: Byte, d: nat)
    requires d < 10
    ensures IsDigit(c) && DigitValue(c) == d <==> c == LOWER[d] as int
  {
    assert d in {0, 1, 2, 3, 4, 5, 6, 7, 8, 9};
  }

  /** The decimal value of a run of digits is the number it writes. */
  lemma {:induction false} DecimalIs(s: Bytes, n: nat)
    requires s != []
    ensures IsDec(s, n) <==> (forall i | 0 <= i < |s| :: IsDigit(s[i])) && Decimal(s) == n
    decreases |s|
  {
    var init, c := s[..|s| - 1], s[|s| - 1];
    DigitIs(c, n % 10);
    assert forall i | 0 <= i < |init| :: s[i] == init[i];
    if |s| == 1 {
      assert init == [];
    } else {
      DecimalIs(init, n / 10);
    }
  }
}
