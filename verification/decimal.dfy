/** Decimal text: Python's `str(n)` for integers and the `int(...)` and
    `float(...)` parsers, restricted to plain decimal notation. */
module Decimal {
  import opened Wrappers
  import PyText

  predicate IsDigit(c: char)
  {
    '0' <= c <= '9'
  }

  predicate AllDigits(s: string)
  {
    forall i :: 0 <= i < |s| ==> IsDigit(s[i])
  }

  function DigitChar(d: nat): (c: char)
    requires d < 10
    ensures IsDigit(c) && c as int - '0' as int == d
  {
    (('0' as int) + d) as char
  }

  /** The number a digit string denotes, most significant digit first; the
      empty string denotes 0. */
  function Value(s: string): nat
    requires AllDigits(s)
  {
    if |s| == 0 then 0 else Value(s[..|s| - 1]) * 10 + (s[|s| - 1] as int - '0' as int)
  }

  function Pow10(k: nat): (r: nat)
    ensures r >= 1
  {
    if k == 0 then 1 else 10 * Pow10(k - 1)
  }

  /** `str(n)` for a non-negative integer: no sign, no leading zero. */
  function RenderNat(n: nat): (r: string)
    ensures |r| > 0 && AllDigits(r)
    ensures |r| > 1 ==> r[0] != '0'
  {
    if n < 10 then [DigitChar(n)] else RenderNat(n / 10) + [DigitChar(n % 10)]
  }

  /** `str(n)`. */
  function Render(n: int): (r: string)
    ensures |r| > 0
    ensures n < 0 <==> r[0] == '-'
  {
    if n < 0 then "-" + RenderNat(-n) else RenderNat(n)
  }

  /** Reading back the digits `str` writes gives the number. */
  lemma {:induction false} ValueOfRender(n: nat)
    ensures Value(RenderNat(n)) == n
  {
    var r := RenderNat(n);
    if n >= 10 {
      assert r[..|r| - 1] == RenderNat(n / 10);
      ValueOfRender(n / 10);
    }
  }

  /** `int(s)` on a stripped text: an optional sign followed by at least one
      digit; None where Python raises `ValueError`. */
  function ParseInt(s: string): (r: Option<int>)
    ensures r.Some? ==> |s| > 0 && (AllDigits(s) || ((s[0] == '+' || s[0] == '-') && AllDigits(s[1..])))
    ensures |s| > 0 && AllDigits(s) ==> r == Some(Value(s))
  {
    if |s| == 0 then None
    else if s[0] == '+' || s[0] == '-' then
      var digits := s[1..];
      if |digits| > 0 && AllDigits(digits) then var v: int := Value(digits); Some(if s[0] == '-' then -v else v) else None
    else if AllDigits(s) then Some(Value(s))
    else None
  }

  /** `int(str(n)) == n`. */
  lemma ParseRender(n: int)
    ensures ParseInt(Render(n)) == Some(n)
  {
    if n < 0 {
      var r := Render(n);
      assert r[1..] == RenderNat(-n);
      ValueOfRender(-n);
    } else {
      ValueOfRender(n);
    }
  }

  /** An unsigned number with an optional fraction: `digits`, `digits.`,
      `.digits` or `digits.digits`, at least one digit in all. */
  function ParseUnsigned(s: string): (r: Option<real>)
    ensures r.Some? ==> r.value >= 0.0
    ensures |s| > 0 && AllDigits(s) ==> r == Some(Value(s) as real)
  {
    if |s| > 0 && AllDigits(s) then Some(Value(s) as real)
    else
      var parts := PyText.Split(s, '.');
      if |parts| == 2 && AllDigits(parts[0]) && AllDigits(parts[1]) && |parts[0]| + |parts[1]| > 0 then
        Some(Value(parts[0]) as real + Value(parts[1]) as real / Pow10(|parts[1]|) as real)
      else None
  }

  /** `float(s)` on plain decimal notation with an optional sign; None where
      Python raises `ValueError`. */
  function ParseReal(s: string): (r: Option<real>)
    ensures |s| > 0 && AllDigits(s) ==> r == Some(Value(s) as real)
  {
    if |s| > 0 && s[0] == '-' then
      match ParseUnsigned(s[1..])
      case Some(x) => Some(-x)
      case None => None
    else if |s| > 0 && s[0] == '+' then ParseUnsigned(s[1..])
    else ParseUnsigned(s)
  }

  /** `float(str(n)) == n` for a non-negative integer. */
  lemma ParseRealOfRender(n: nat)
    ensures ParseReal(RenderNat(n)) == Some(n as real)
  {
    ValueOfRender(n);
  }
}
