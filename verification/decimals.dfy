/**
 * The part of Python's `decimal.Decimal` that the DMS codec relies on: finite values in
 * fixed-point form, their `str()` rendering, construction from plain decimal text, and
 * rounding to a number of places with the default ROUND_HALF_EVEN mode.
 */
module Decimals {

  /** A finite Decimal with coefficient `coeff` and exponent `-places`: the value coeff * 10^-places.
      `Dec(1250, 2)` is Decimal('12.50'); `Dec(-5, 0)` is Decimal('-5'). */
  datatype Dec = Dec(coeff: int, places: nat)

  function Pow10(n: nat): (r: nat)
    ensures r >= 1
  {
    if n == 0 then 1 else 10 * Pow10(n - 1)
  }

  /** The exact number a Decimal denotes. */
  function Value(d: Dec): real
  {
    d.coeff as real / Pow10(d.places) as real
  }

  predicate IsDigit(c: char)
  {
    '0' <= c <= '9'
  }

  predicate AllDigits(s: string)
  {
    forall i :: 0 <= i < |s| ==> IsDigit(s[i])
  }

  function DigitValue(c: char): (n: nat)
    requires IsDigit(c)
    ensures n < 10
  {
    c as int - '0' as int
  }

  function DigitChar(n: nat): (c: char)
    requires n < 10
    ensures IsDigit(c) && DigitValue(c) == n
  {
    ('0' as int + n) as char
  }

  /** The number a string of decimal digits denotes, most significant digit first. */
  function DigitsValue(s: string): nat
    requires AllDigits(s)
  {
    if s == [] then 0 else 10 * DigitsValue(s[..|s| - 1]) + DigitValue(s[|s| - 1])
  }

  /** The shortest decimal numeral of `n` (no leading zeros, "0" for zero). */
  function NatToDigits(n: nat): (s: string)
    ensures AllDigits(s) && |s| >= 1
  {
    if n < 10 then [DigitChar(n)] else NatToDigits(n / 10) + [DigitChar(n % 10)]
  }

  /** The last `width` decimal digits of `n`, zero-padded on the left. */
  function PadDigits(n: nat, width: nat): (s: string)
    ensures |s| == width && AllDigits(s)
  {
    if width == 0 then [] else PadDigits(n / 10, width - 1) + [DigitChar(n % 10)]
  }

  /** `magnitude` with its last `places` digits dropped. */
  function Shift(magnitude: nat, places: nat): nat
  {
    if places == 0 then magnitude else Shift(magnitude / 10, places - 1)
  }

  /** The longest run of at most `max` digits at the start of `s` (the greedy `\d{1,max}`). */
  function DigitRun(s: string, max: nat): (r: string)
    ensures |r| <= max && |r| <= |s| && r == s[..|r|] && AllDigits(r)
    ensures |r| < max && |r| < |s| ==> !IsDigit(s[|r|])
  {
    if max == 0 || s == [] || !IsDigit(s[0]) then [] else [s[0]] + DigitRun(s[1..], max - 1)
  }

  /** `str(d)`: an optional minus sign, the integer digits, and when the exponent is negative a
      point followed by exactly `places` digits (trailing zeros kept, as Decimal keeps them). */
  function DecToString(d: Dec): string
  {
    (if d.coeff < 0 then "-" else "") + UnsignedText(Abs(d.coeff), d.places)
  }

  function Abs(x: int): nat
  {
    if x < 0 then -x else x
  }

  /** The text of the non-negative Decimal `magnitude * 10^-places`. */
  function UnsignedText(magnitude: nat, places: nat): string
  {
    if places == 0 then NatToDigits(magnitude)
    else NatToDigits(Shift(magnitude, places)) + "." + PadDigits(magnitude, places)
  }

  predicate IsSign(c: char)
  {
    c == '+' || c == '-'
  }

  /** The text after an optional leading sign. */
  function Unsigned(s: string): string
  {
    if s != [] && IsSign(s[0]) then s[1..] else s
  }

  /** Plain decimal text: an optional sign, one or more digits, and optionally a point followed by
      one or more digits. These are the only texts the DMS parser hands to Decimal(). */
  predicate PlainDecimalText(s: string)
  {
    var body := Unsigned(s);
    var whole := DigitRun(body, |body|);
    |whole| >= 1
    && (|whole| == |body|
        || (body[|whole|] == '.' && |body| >= |whole| + 2 && AllDigits(body[|whole| + 1..])))
  }

  /** `Decimal(s)` for plain decimal text: the digits on both sides of the point form the
      coefficient and the digits after the point give the number of places. */
  function DecimalOf(s: string): (d: Dec)
    requires PlainDecimalText(s)
  {
    var body := Unsigned(s);
    var whole := DigitRun(body, |body|);
    var fraction := if |whole| == |body| then [] else body[|whole| + 1..];
    var magnitude: int := DigitsValue(whole + fraction);
    Dec(if s[0] == '-' then -magnitude else magnitude, |fraction|)
  }

  /** Rounding to the nearest integer, ties to the even neighbour (Decimal's ROUND_HALF_EVEN). */
  function RoundHalfEven(x: real): (n: int)
    ensures -0.5 <= n as real - x <= 0.5
    ensures n as real - x == 0.5 || x - n as real == 0.5 ==> n % 2 == 0
  {
    var below := x.Floor;
    var excess := x - below as real;
    if excess < 0.5 then below
    else if excess > 0.5 then below + 1
    else if below % 2 == 0 then below
    else below + 1
  }

  // ---------------------------------------------------------------------------------------------
  // Digit strings and their values

  lemma {:induction false} DigitsValueAppend(a: string, b: string)
    requires AllDigits(a) && AllDigits(b)
    ensures AllDigits(a + b)
    ensures DigitsValue(a + b) == DigitsValue(a) * Pow10(|b|) + DigitsValue(b)
  {
    if b == [] {
      assert a + b == a;
    } else {
      var b' := b[..|b| - 1];
      assert (a + b)[..|a + b| - 1] == a + b';
      assert b[..|b| - 1] == b';
      DigitsValueAppend(a, b');
      var last := DigitValue(b[|b| - 1]);
      assert DigitsValue(a + b) == 10 * DigitsValue(a + b') + last;
      assert DigitsValue(b) == 10 * DigitsValue(b') + last;
      ScaleStep(DigitsValue(a), Pow10(|b'|), DigitsValue(b'), last);
    }
  }

  lemma ScaleStep(high: int, unit: int, low: int, digit: int)
    ensures 10 * (high * unit + low) + digit == high * (10 * unit) + (10 * low + digit)
  {
  }

  lemma {:induction false} NatToDigitsValue(n: nat)
    ensures DigitsValue(NatToDigits(n)) == n
  {
    if n >= 10 {
      var s := NatToDigits(n);
      NatToDigitsValue(n / 10);
      assert s[..|s| - 1] == NatToDigits(n / 10);
    }
  }

  /** Two digits are enough exactly for the numbers below 100. */
  lemma {:induction false} NatToDigitsLength(n: nat)
    ensures n < 100 <==> |NatToDigits(n)| <= 2
  {
    if n >= 10 {
      NatToDigitsLength(n / 10);
      if n >= 100 {
        assert n / 10 >= 10;
      }
    }
  }

  /** PadDigits keeps the last `width` digits and Shift the rest. */
  lemma {:induction false} ShiftPad(n: nat, width: nat)
    ensures Shift(n, width) * Pow10(width) + DigitsValue(PadDigits(n, width)) == n
  {
    if width > 0 {
      var s := PadDigits(n, width);
      assert s[..|s| - 1] == PadDigits(n / 10, width - 1);
      ShiftPad(n / 10, width - 1);
      assert DigitsValue(s) == 10 * DigitsValue(PadDigits(n / 10, width - 1)) + n % 10;
      ScaleStep(Shift(n / 10, width - 1), Pow10(width - 1), DigitsValue(PadDigits(n / 10, width - 1)), n % 10);
    }
  }

  lemma {:induction false} ShiftBound(n: nat, width: nat, bound: nat)
    requires n < bound * Pow10(width)
    ensures Shift(n, width) < bound
  {
    if width > 0 {
      assert n / 10 < bound * Pow10(width - 1);
      ShiftBound(n / 10, width - 1, bound);
    }
  }

  lemma {:induction false} DigitRunOfDigits(d: string, rest: string, max: nat)
    requires AllDigits(d) && |d| <= max
    requires |d| == max || rest == [] || !IsDigit(rest[0])
    ensures DigitRun(d + rest, max) == d
  {
    if d != [] {
      assert (d + rest)[1..] == d[1..] + rest;
      DigitRunOfDigits(d[1..], rest, max - 1);
    } else if max > 0 && rest != [] {
      assert !IsDigit((d + rest)[0]);
    }
  }

  // ---------------------------------------------------------------------------------------------
  // Decimal(str(d)) == d

  /** Reading back the text of any Decimal gives the same coefficient and the same exponent. */
  lemma {:induction false} DecimalOfDecToString(d: Dec)
    ensures PlainDecimalText(DecToString(d))
    ensures DecimalOf(DecToString(d)) == d
  {
    var magnitude := Abs(d.coeff);
    var body := UnsignedText(magnitude, d.places);
    UnsignedTextReadsBack(magnitude, d.places);
    if d.coeff < 0 {
      assert DecToString(d) == "-" + body;
      assert Unsigned("-" + body) == body;
    } else {
      assert DecToString(d) == body;
      assert Unsigned(body) == body;
    }
  }

  /** `body`, unsigned plain decimal text, denotes `magnitude * 10^-places`. */
  predicate ReadsBackAs(body: string, magnitude: nat, places: nat)
  {
    Unsigned(body) == body && PlainDecimalText(body) && body != [] && body[0] != '-'
    && var whole := DigitRun(body, |body|);
       var fraction := if |whole| == |body| then [] else body[|whole| + 1..];
       DigitsValue(whole + fraction) == magnitude && |fraction| == places
  }

  lemma {:induction false} UnsignedTextReadsBack(magnitude: nat, places: nat)
    ensures ReadsBackAs(UnsignedText(magnitude, places), magnitude, places)
  {
    if places == 0 {
      IntegerTextReadsBack(magnitude);
    } else {
      PointedTextReadsBack(magnitude, places);
    }
  }

  lemma {:induction false} IntegerTextReadsBack(magnitude: nat)
    ensures ReadsBackAs(NatToDigits(magnitude), magnitude, 0)
  {
    var whole := NatToDigits(magnitude);
    DigitRunOfDigits(whole, [], |whole|);
    assert whole + [] == whole;
    NatToDigitsValue(magnitude);
  }

  lemma {:induction false} PointedTextReadsBack(magnitude: nat, places: nat)
    requires places > 0
    ensures ReadsBackAs(NatToDigits(Shift(magnitude, places)) + "." + PadDigits(magnitude, places),
                        magnitude, places)
  {
    var whole := NatToDigits(Shift(magnitude, places));
    var fraction := PadDigits(magnitude, places);
    assert whole + "." + fraction == whole + ("." + fraction);
    PointedReadsBack(whole, fraction);
    assert DigitsValue(whole + fraction) == magnitude by {
      DigitsValueAppend(whole, fraction);
      NatToDigitsValue(Shift(magnitude, places));
      ShiftPad(magnitude, places);
    }
  }

  lemma {:induction false} PointedReadsBack(whole: string, fraction: string)
    requires |whole| >= 1 && AllDigits(whole) && |fraction| >= 1 && AllDigits(fraction)
    ensures AllDigits(whole + fraction)
    ensures ReadsBackAs(whole + ("." + fraction), DigitsValue(whole + fraction), |fraction|)
  {
    var body := whole + ("." + fraction);
    DigitRunOfDigits(whole, "." + fraction, |body|);
    assert body[|whole|] == '.';
    assert body[|whole| + 1..] == fraction;
    DigitsValueAppend(whole, fraction);
  }

  lemma {:induction false} DigitsValueBound(s: string)
    requires AllDigits(s)
    ensures DigitsValue(s) < Pow10(|s|)
  {
    if s != [] {
      DigitsValueBound(s[..|s| - 1]);
    }
  }

  lemma {:induction false} Pow10Add(a: nat, b: nat)
    ensures Pow10(a + b) == Pow10(a) * Pow10(b)
  {
    if a > 0 {
      Pow10Add(a - 1, b);
    }
  }

  /** Integer text: an optional sign and digits. */
  lemma {:induction false} DecimalOfInteger(sign: string, digits: string)
    requires |sign| <= 1 && (sign != [] ==> IsSign(sign[0]))
    requires |digits| >= 1 && AllDigits(digits)
    ensures PlainDecimalText(sign + digits)
    ensures DecimalOf(sign + digits)
            == Dec(if sign == "-" then -(DigitsValue(digits) as int) else DigitsValue(digits), 0)
  {
    var text := sign + digits;
    if sign == [] {
      assert text == digits;
    } else {
      assert text[1..] == digits;
      assert text[0] == '-' <==> sign == "-";
    }
    assert Unsigned(text) == digits;
    DigitRunOfDigits(digits, [], |digits|);
    assert digits + [] == digits;
  }

  /** Text with a point: digits, '.', digits. */
  lemma {:induction false} DecimalOfPointed(whole: string, fraction: string)
    requires |whole| >= 1 && AllDigits(whole) && |fraction| >= 1 && AllDigits(fraction)
    ensures PlainDecimalText(whole + ("." + fraction))
    ensures AllDigits(whole + fraction)
    ensures DecimalOf(whole + ("." + fraction)) == Dec(DigitsValue(whole + fraction), |fraction|)
  {
    var text := whole + ("." + fraction);
    assert Unsigned(text) == text;
    DigitRunOfDigits(whole, "." + fraction, |text|);
    assert text[|whole|] == '.';
    assert text[|whole| + 1..] == fraction;
    DigitsValueAppend(whole, fraction);
  }
}
