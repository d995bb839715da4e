/** The input and output side of the ledger API (ledger/serializers.py): the
    amount validator of `MoneyInputSerializer`, the idempotency-key field of
    `DepositWithdrawSerializer`, and the fixed 8-place text a stored balance or
    amount is rendered as. */
module Serializers {
  import opened Wrappers
  import opened Decimals
  import opened Models

  /** The two `ValidationError`s `validate_amount` raises. */
  datatype AmountError = InvalidDecimalAmount | NotPositive

  function AmountErrorMessage(e: AmountError): (m: string)
    ensures m == "Invalid decimal amount." <==> e == InvalidDecimalAmount
    ensures m == "Amount must be > 0." <==> e == NotPositive
  {
    match e
    case InvalidDecimalAmount => "Invalid decimal amount."
    case NotPositive => "Amount must be > 0."
  }

  /** `MoneyInputSerializer.validate_amount`: parse the text as a Decimal and
      accept it only when it is strictly positive. */
  function ValidateAmount(value: string): (r: Result<Decimal, AmountError>)
    ensures r == Err(InvalidDecimalAmount) <==> Parse(value).None?
    ensures r == Err(NotPositive) <==> Parse(value).Some? && !IsPositive(Parse(value).value)
    ensures r.Ok? ==> Parse(value) == Some(r.value) && IsPositive(r.value)
  {
    match Parse(value)
    case None => Err(InvalidDecimalAmount)
    case Some(amt) =>
      if amt.coefficient <= 0 then Err(NotPositive) else Ok(amt)
  }

  /** The idempotency-key field of `DepositWithdrawSerializer`. */
  datatype KeyError = KeyTooLong

  function ValidateKey(key: string): (r: Result<string, KeyError>)
    ensures r.Ok? <==> FitsKeyColumn(key)
    ensures r.Ok? ==> r.value == key
  {
    if |key| <= KeyMaxLength then Ok(key) else Err(KeyTooLong)
  }

  /** The text of a non-negative value in units: the whole part without
      leading zeros, a point, and exactly 8 fractional digits. */
  function RenderMagnitude(magnitude: nat): (s: string)
    ensures |s| >= DecimalPlaces + 2 && IsDigit(s[0])
    ensures s[|s| - DecimalPlaces - 1] == '.'
    ensures AllDigits(s[|s| - DecimalPlaces..])
  {
    UnitsPerWholeIsPow10();
    var whole := NatDigits(magnitude / UnitsPerWhole);
    var fraction := PadDigits(magnitude % UnitsPerWhole, DecimalPlaces);
    var s := whole + "." + fraction;
    assert s[|s| - DecimalPlaces..] == fraction;
    s
  }

  /** The text of a balance or amount (a value in units) in a response: the
      text of its magnitude, with a leading "-" for a negative value. */
  function Render(units: int): (s: string)
    ensures |s| >= DecimalPlaces + 2
    ensures s[|s| - DecimalPlaces - 1] == '.'
    ensures AllDigits(s[|s| - DecimalPlaces..])
  {
    var magnitude: nat := if units < 0 then -units else units;
    var body := RenderMagnitude(magnitude);
    var s := (if units < 0 then "-" else "") + body;
    SuffixOfAppend(if units < 0 then "-" else "", body, DecimalPlaces);
    SuffixOfAppend(if units < 0 then "-" else "", body, DecimalPlaces + 1);
    s
  }

  /** The last `k` characters of `p + b` are those of `b`. */
  lemma SuffixOfAppend(p: string, b: string, k: nat)
    requires 0 < k <= |b|
    ensures (p + b)[|p + b| - k..] == b[|b| - k..]
    ensures (p + b)[|p + b| - k] == b[|b| - k]
  {
  }

  /** In digits "." digits, the first point is the one after the whole part. */
  lemma PointSplit(whole: string, fraction: string)
    requires AllDigits(whole)
    ensures IndexOf(whole + "." + fraction, '.') == |whole|
  {
    var body := whole + "." + fraction;
    var point := IndexOf(body, '.');
    assert body[|whole|] == '.';
    assert forall i | 0 <= i < |whole| :: body[i] == whole[i];
  }

  /** Text of the shape digits "." digits parses to its digits with the
      fractional digits as scale. */
  lemma ParsePointed(whole: string, fraction: string)
    requires AllDigits(whole) && AllDigits(fraction) && |whole| + |fraction| > 0
    ensures AllDigits(whole + fraction)
    ensures ParseUnsigned(whole + "." + fraction)
      == Some(Decimal(DigitsValue(whole + fraction), |fraction|))
  {
    AllDigitsAppend(whole, fraction);
    var body := whole + "." + fraction;
    PointSplit(whole, fraction);
    assert IndexOf(body, '.') == |whole| < |body|;
    assert body[..|whole|] == whole;
    assert body[|whole| + 1..] == fraction;
  }

  /** A leading "-" negates what the unsigned text parses to; an unsigned
      text that starts with a digit parses as it is. */
  lemma ParseSigned(negative: bool, body: string, d: Decimal)
    requires |body| > 0 && IsDigit(body[0]) && ParseUnsigned(body) == Some(d)
    ensures Parse((if negative then "-" else "") + body)
      == Some(if negative then Decimal(-d.coefficient, d.scale) else d)
  {
    var text := (if negative then "-" else "") + body;
    if negative {
      assert text[0] == '-' && text[1..] == body;
    } else {
      assert text == body;
    }
  }

  /** The whole digits followed by the 8 fractional digits spell the value. */
  lemma Recombine(magnitude: nat)
    ensures UnitsPerWhole == Pow10(DecimalPlaces)
    ensures DigitsValue(NatDigits(magnitude / UnitsPerWhole)
      + PadDigits(magnitude % UnitsPerWhole, DecimalPlaces)) == magnitude
  {
    UnitsPerWholeIsPow10();
    var q, r := magnitude / UnitsPerWhole, magnitude % UnitsPerWhole;
    DigitsValueAppend(NatDigits(q), PadDigits(r, DecimalPlaces));
    assert q * UnitsPerWhole + r == magnitude;
  }

  /** The text of a magnitude parses back to it with scale 8. */
  lemma ParseMagnitude(magnitude: nat)
    ensures ParseUnsigned(RenderMagnitude(magnitude)) == Some(Decimal(magnitude, DecimalPlaces))
  {
    UnitsPerWholeIsPow10();
    var whole := NatDigits(magnitude / UnitsPerWhole);
    var fraction := PadDigits(magnitude % UnitsPerWhole, DecimalPlaces);
    assert RenderMagnitude(magnitude) == whole + "." + fraction;
    ParsePointed(whole, fraction);
    Recombine(magnitude);
  }

  /** The rendered text parses back to the same value with scale 8. */
  lemma RenderParses(units: int)
    ensures Parse(Render(units)) == Some(Decimal(units, DecimalPlaces))
  {
    var magnitude: nat := if units < 0 then -units else units;
    var body := RenderMagnitude(magnitude);
    assert Render(units) == (if units < 0 then "-" else "") + body;
    ParseMagnitude(magnitude);
    ParseSigned(units < 0, body, Decimal(magnitude, DecimalPlaces));
  }

  /** Rendering a stored value and storing the text again gives the value back. */
  lemma RenderRoundTrip(units: int)
    ensures var d := Parse(Render(units)); d.Some? && ToUnits(d.value) == Some(units)
  {
    RenderParses(units);
    ToUnitsAtScale(units);
  }

  lemma ToUnitsAtScale(units: int)
    ensures ToUnits(Decimal(units, DecimalPlaces)) == Some(units)
  {
    assert Pow10(0) == 1;
  }

  /** The validator accepts the rendering of a positive value, as that value. */
  lemma ValidateRendered(units: int)
    requires units > 0
    ensures ValidateAmount(Render(units)) == Ok(Decimal(units, DecimalPlaces))
  {
    RenderParses(units);
  }

  /** A value that fits its column is rendered with at most 20 digits: at most
      12 before the point and exactly 8 after it. */
  lemma RenderFitsColumn(units: int)
    requires FitsDecimalColumn(units)
    ensures |Render(units)| <= (if units < 0 then 1 else 0) + MaxDigits + 1
  {
    var magnitude: nat := if units < 0 then -units else units;
    UnitsPerWholeIsPow10();
    Pow10Add(12, DecimalPlaces);
    assert magnitude / UnitsPerWhole < Pow10(12);
    NatDigitsLength(magnitude / UnitsPerWhole, 12);
    assert |RenderMagnitude(magnitude)|
      == |NatDigits(magnitude / UnitsPerWhole)| + 1 + DecimalPlaces;
  }

  /** The amounts of the ledger's API examples, "1.5" and "10.5", are
      accepted as they are written. */
  lemma AcceptedExamples()
    ensures ValidateAmount("1.5") == Ok(Decimal(15, 1))
    ensures ValidateAmount("10.5") == Ok(Decimal(105, 1))
  {
    ParseOnePointFive();
    ParseTenPointFive();
  }

  lemma ParseOnePointFive()
    ensures Parse("1.5") == Some(Decimal(15, 1))
  {
    assert IndexOf("1.5", '.') == 1 by {
      assert IndexOf(".5", '.') == 0;
    }
    assert ("1.5")[..1] == "1" && ("1.5")[2..] == "5";
    assert "1" + "5" == "15";
    assert DigitsValue("15") == 15 by {
      assert DigitsValue("1") == 1;
    }
  }

  lemma ParseTenPointFive()
    ensures Parse("10.5") == Some(Decimal(105, 1))
  {
    assert IndexOf("10.5", '.') == 2 by {
      assert IndexOf(".5", '.') == 0;
      assert IndexOf("0.5", '.') == 1;
    }
    assert ("10.5")[..2] == "10" && ("10.5")[3..] == "5";
    assert "10" + "5" == "105";
    assert DigitsValue("105") == 105 by {
      assert DigitsValue("1") == 1;
      assert DigitsValue("10") == 10;
    }
  }

  /** "0" and "-3" are refused as not positive; "abc", "" and "." as not
      decimals. */
  lemma RejectedExamples()
    ensures ValidateAmount("0") == Err(NotPositive)
    ensures ValidateAmount("-3") == Err(NotPositive)
    ensures ValidateAmount("abc") == Err(InvalidDecimalAmount)
    ensures ValidateAmount("") == Err(InvalidDecimalAmount)
    ensures ValidateAmount(".") == Err(InvalidDecimalAmount)
  {
    ParseZeroAndMinusThree();
    assert IndexOf("abc", '.') == 3;
    assert !IsDigit('a');
  }

  lemma ParseZeroAndMinusThree()
    ensures Parse("0") == Some(Decimal(0, 0))
    ensures Parse("-3") == Some(Decimal(-3, 0))
  {
    assert IndexOf("0", '.') == 1;
    assert ("0")[..1] == "0" && DigitsValue("0") == 0;
    assert ("-3")[1..] == "3" && IndexOf("3", '.') == 1;
    assert ("3")[..1] == "3" && DigitsValue("3") == 3;
  }

  /** "1.5" is stored as 150000000 units and shown as "1.50000000"; "10.5"
      is shown as "10.50000000". */
  lemma RenderExamples()
    ensures ToUnits(Decimal(15, 1)) == Some(150_000_000)
    ensures Render(150_000_000) == "1.50000000"
    ensures Render(1_050_000_000) == "10.50000000"
  {
    assert Pow10(7) == 10_000_000 by { Pow10Add(4, 3); }
    RenderOnePointFive();
    RenderTenPointFive();
  }

  lemma RenderOnePointFive()
    ensures Render(150_000_000) == "1.50000000"
  {
    UnitsPerWholeIsPow10();
    FiveAndZeros();
    assert 150_000_000 / UnitsPerWhole == 1;
    assert 150_000_000 % UnitsPerWhole == 50_000_000;
    assert NatDigits(1) == "1";
    assert RenderMagnitude(150_000_000) == "1" + "." + "50000000";
  }

  lemma RenderTenPointFive()
    ensures Render(1_050_000_000) == "10.50000000"
  {
    UnitsPerWholeIsPow10();
    FiveAndZeros();
    assert 1_050_000_000 / UnitsPerWhole == 10;
    assert 1_050_000_000 % UnitsPerWhole == 50_000_000;
    assert NatDigits(10) == "10" by {
      assert NatDigits(10) == NatDigits(1) + [DigitChar(0)];
    }
    assert RenderMagnitude(1_050_000_000) == "10" + "." + "50000000";
  }

  /** 5 followed by seven zeros, as 8 fractional digits. */
  lemma FiveAndZeros()
    ensures PadDigits(50_000_000, 8) == "50000000"
  {
    assert Pow10(1) == 10;
    assert Pow10(2) == 100;
    assert Pow10(3) == 1_000;
    assert Pow10(4) == 10_000;
    assert Pow10(5) == 100_000;
    assert Pow10(6) == 1_000_000;
    assert Pow10(7) == 10_000_000;
    assert Pow10(8) == 100_000_000;
    assert PadDigits(0, 0) == "";
    assert PadDigits(5, 1) == "5";
    assert PadDigits(50, 2) == "50";
    assert PadDigits(500, 3) == "500";
    assert PadDigits(5_000, 4) == "5000";
    assert PadDigits(50_000, 5) == "50000";
    assert PadDigits(500_000, 6) == "500000";
    assert PadDigits(5_000_000, 7) == "5000000";
  }

  /** A new wallet's balance is shown as "0.00000000". */
  lemma NewWalletRendering()
    ensures Render(NewWalletBalance) == "0.00000000"
  {
    UnitsPerWholeIsPow10();
  }
}
