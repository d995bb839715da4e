/** Python's `Decimal`, restricted to what the ledger uses: a finite value kept
    as a signed integer coefficient and a count of fractional digits, so that
    `Decimal("1.50")` is `Decimal(150, 2)`, together with the text grammar that
    `Decimal(text)` accepts in this model and the digit strings it is built from. */
module Decimals {
  import opened Wrappers

  /** `coefficient / 10^scale`; the scale is kept, as Python keeps the exponent. */
  datatype Decimal = Decimal(coefficient: int, scale: nat)

  predicate IsPositive(d: Decimal) { d.coefficient > 0 }

  function Pow10(n: nat): (p: nat)
    ensures p >= 1
  {
    if n == 0 then 1 else 10 * Pow10(n - 1)
  }

  lemma {:induction false} Pow10Add(a: nat, b: nat)
    ensures Pow10(a + b) == Pow10(a) * Pow10(b)
  {
    if a > 0 {
      Pow10Add(a - 1, b);
      assert Pow10(a + b) == 10 * Pow10(a - 1 + b);
    }
  }

  lemma {:induction false} Pow10Monotone(a: nat, b: nat)
    requires a <= b
    ensures Pow10(a) <= Pow10(b)
  {
    if a < b {
      Pow10Monotone(a, b - 1);
    }
  }

  predicate IsDigit(c: char) { '0' <= c <= '9' }

  predicate AllDigits(s: string) { forall i | 0 <= i < |s| :: IsDigit(s[i]) }

  function DigitValue(c: char): (d: nat)
    requires IsDigit(c)
    ensures d < 10
  {
    c as int - '0' as int
  }

  function DigitChar(d: nat): (c: char)
    requires d < 10
    ensures IsDigit(c) && DigitValue(c) == d
  {
    ('0' as int + d) as char
  }

  /** The number a string of decimal digits denotes, most significant digit
      first; the empty string denotes 0. */
  function DigitsValue(s: string): (n: nat)
    requires AllDigits(s)
    ensures n < Pow10(|s|)
  {
    if s == [] then 0
    else
      var init := s[..|s| - 1];
      var v := DigitsValue(init);
      assert v * 10 <= (Pow10(|init|) - 1) * 10;
      v * 10 + DigitValue(s[|s| - 1])
  }

  lemma AllDigitsAppend(a: string, b: string)
    requires AllDigits(a) && AllDigits(b)
    ensures AllDigits(a + b)
  {
    var ab := a + b;
    forall i | 0 <= i < |ab| ensures IsDigit(ab[i]) {
      if i < |a| { assert ab[i] == a[i]; } else { assert ab[i] == b[i - |a|]; }
    }
  }

  lemma {:induction false} DigitsValueAppend(a: string, b: string)
    requires AllDigits(a) && AllDigits(b)
    ensures AllDigits(a + b)
    ensures DigitsValue(a + b) == DigitsValue(a) * Pow10(|b|) + DigitsValue(b)
  {
    AllDigitsAppend(a, b);
    if b == [] {
      assert a + b == a;
    } else {
      var b' := b[..|b| - 1];
      var last := b[|b| - 1];
      assert AllDigits(b');
      assert (a + b)[..|a + b| - 1] == a + b';
      assert (a + b)[|a + b| - 1] == last;
      DigitsValueAppend(a, b');
      var x, p, y, d := DigitsValue(a), Pow10(|b'|), DigitsValue(b'), DigitValue(last);
      assert DigitsValue(a + b) == (x * p + y) * 10 + d;
      assert DigitsValue(b) == y * 10 + d;
      assert Pow10(|b|) == p * 10;
      Regroup(x, p, y, d);
      assert DigitsValue(a + b) == x * Pow10(|b|) + DigitsValue(b);
    }
  }

  lemma Regroup(x: int, p: int, y: int, d: int)
    ensures (x * p + y) * 10 + d == x * (p * 10) + (y * 10 + d)
  {
  }

  /** The shortest digit string of `n`: no leading zeros, "0" for zero. */
  function NatDigits(n: nat): (s: string)
    ensures AllDigits(s) && |s| >= 1
    ensures DigitsValue(s) == n
    ensures s[0] != '0' || n == 0
  {
    if n < 10 then [DigitChar(n)]
    else
      var high := NatDigits(n / 10);
      var s := high + [DigitChar(n % 10)];
      assert s[..|s| - 1] == high;
      s
  }

  /** `n` written with exactly `width` digits, padded with leading zeros. */
  function PadDigits(n: nat, width: nat): (s: string)
    requires n < Pow10(width)
    ensures AllDigits(s) && |s| == width
    ensures DigitsValue(s) == n
  {
    if width == 0 then []
    else
      assert n / 10 < Pow10(width - 1);
      var high := PadDigits(n / 10, width - 1);
      var s := high + [DigitChar(n % 10)];
      assert s[..|s| - 1] == high;
      s
  }

  lemma {:induction false} NatDigitsLength(n: nat, k: nat)
    requires 1 <= k && n < Pow10(k)
    ensures |NatDigits(n)| <= k
  {
    if n >= 10 {
      assert Pow10(1) == 10;
      assert k != 1;
      assert n / 10 < Pow10(k - 1);
      NatDigitsLength(n / 10, k - 1);
    }
  }

  /** The index of the first `c` in `s`, or `|s|` when there is none. */
  function IndexOf(s: string, c: char): (k: nat)
    ensures k <= |s|
    ensures k < |s| ==> s[k] == c
    ensures forall i | 0 <= i < k :: s[i] != c
  {
    if s == [] then 0
    else if s[0] == c then 0
    else 1 + IndexOf(s[1..], c)
  }

  /** The unsigned part of the grammar below: digits [ "." [digits] ] or
      "." digits, giving a non-negative coefficient. */
  function ParseUnsigned(body: string): Option<Decimal>
  {
    var point := IndexOf(body, '.');
    var whole := body[..point];
    var fraction := if point < |body| then body[point + 1..] else [];
    if AllDigits(whole) && AllDigits(fraction) && |whole| + |fraction| > 0 then
      Some(Decimal(DigitsValue(whole + fraction), |fraction|))
    else
      None
  }

  /** `Decimal(text)` on the grammar
        [sign] digits [ "." [digits] ]  |  [sign] "." digits
      with `sign` one of "+" and "-"; every other text is rejected (`None`),
      which is where Python raises `InvalidOperation`. */
  function Parse(text: string): Option<Decimal>
  {
    if |text| > 0 && (text[0] == '-' || text[0] == '+') then
      match ParseUnsigned(text[1..])
      case None => None
      case Some(d) => Some(if text[0] == '-' then Decimal(-d.coefficient, d.scale) else d)
    else
      ParseUnsigned(text)
  }
}
