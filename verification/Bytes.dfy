/** Bytes, 64-bit limits, and the decimal text of an int64 as `strconv` prints and parses it. */
module Bytes {

  type byte = x: int | 0 <= x < 256
  type Bytes = seq<byte>

  datatype Option<+T> = None | Some(value: T)

  const MIN_INT64: int := -0x8000_0000_0000_0000
  const MAX_INT64: int := 0x7fff_ffff_ffff_ffff

  predicate IsInt64(n: int) {
    MIN_INT64 <= n <= MAX_INT64
  }

  const CR: byte := 13
  const LF: byte := 10
  const PLUS: byte := 43
  const MINUS: byte := 45

  predicate IsDigit(b: byte) {
    48 <= b <= 57
  }

  function Min(a: int, b: int): int {
    if a <= b then a else b
  }

  // ----- printing -----

  function Digits(n: nat): Bytes {
    if n < 10 then [48 + n] else Digits(n / 10) + [48 + n % 10]
  }

  /** strconv.AppendInt(nil, n, 10). */
  function Itoa(n: int): Bytes {
    if n < 0 then [MINUS] + Digits(-n) else Digits(n)
  }

  // ----- parsing -----

  /** The value of a run of digits, most significant first; None at the first other byte. */
  function DigitsValue(s: Bytes): Option<nat> {
    if s == [] then Some(0)
    else
      var last := s[|s| - 1];
      match DigitsValue(s[..|s| - 1])
      case Some(high) => if IsDigit(last) then Some(10 * high + (last - 48)) else None
      case None => None
  }

  /** strconv.ParseInt(s, 10, 64): one optional sign, at least one digit, a value in int64. */
  function ParseInt(s: Bytes): Option<int> {
    var signed := s != [] && (s[0] == PLUS || s[0] == MINUS);
    var text := if signed then s[1..] else s;
    if text == [] then None
    else
      match DigitsValue(text)
      case None => None
      case Some(magnitude) =>
        var v: int := magnitude;
        var n := if signed && s[0] == MINUS then -v else v;
        if IsInt64(n) then Some(n) else None
  }

  // ----- the round trip -----

  lemma {:induction false} DigitsParseBack(n: nat)
    ensures Digits(n) != []
    ensures forall i :: 0 <= i < |Digits(n)| ==> IsDigit(Digits(n)[i])
    ensures DigitsValue(Digits(n)) == Some(n)
  {
    var d := Digits(n);
    if n < 10 {
      assert d[..0] == [];
    } else {
      DigitsParseBack(n / 10);
      assert d[..|d| - 1] == Digits(n / 10);
    }
  }

  /** a with k zeros behind it. */
  function Shifted(a: nat, k: nat): nat {
    if k == 0 then a else 10 * Shifted(a, k - 1)
  }

  /** Digits are read in base ten, most significant first. */
  lemma {:induction false} DigitsAreDecimal(s: Bytes, t: Bytes)
    requires DigitsValue(s).Some? && DigitsValue(t).Some?
    ensures DigitsValue(s + t) == Some(Shifted(DigitsValue(s).value, |t|) + DigitsValue(t).value)
    ensures |t| == 1 ==> t == [48 + DigitsValue(t).value]
  {
    if t == [] {
      assert s + t == s;
    } else {
      var n := |t| - 1;
      DigitsAreDecimal(s, t[..n]);
      assert (s + t)[..|s + t| - 1] == s + t[..n];
      assert n == 0 ==> DigitsValue(t[..n]) == Some(0);
    }
  }

  /** A printed number parses back to itself, or to nothing when it is no int64. */
  lemma ItoaParses(n: int)
    ensures ParseInt(Itoa(n)) == if IsInt64(n) then Some(n) else None
  {
    DigitsParseBack(if n < 0 then -n else n);
    if n < 0 {
      assert Itoa(n)[1..] == Digits(-n);
    }
  }

  /** Every int64 survives being printed and parsed. */
  lemma ItoaParsesBack(n: int)
    requires IsInt64(n)
    ensures ParseInt(Itoa(n)) == Some(n)
  {
    ItoaParses(n);
  }

  /** A printed number is a short, LF-free, non-empty text: it always fits a header line. */
  lemma {:induction false} DigitsLength(n: nat, k: nat)
    requires 0 < k && n < Pow10(k)
    ensures |Digits(n)| <= k
  {
    if n >= 10 {
      DigitsLength(n / 10, k - 1);
    }
  }

  function Pow10(k: nat): nat {
    if k == 0 then 1 else 10 * Pow10(k - 1)
  }

  lemma ItoaShape(n: int)
    requires 0 <= n < 1_000_000_000
    ensures 1 <= |Itoa(n)| <= 9
    ensures forall i :: 0 <= i < |Itoa(n)| ==> IsDigit(Itoa(n)[i])
  {
    DigitsParseBack(n);
    assert Pow10(9) == 1_000_000_000 by {
      assert Pow10(3) == 1000;
      assert Pow10(6) == 1000 * Pow10(3);
      assert Pow10(9) == 1000 * Pow10(6);
    }
    DigitsLength(n, 9);
  }
}
