/** The partners app's `format_royalty` filter: a royalty share as a percentage, with the
    decimal places dropped when the share is a whole number. */
module PartnersExtras {
  import opened Wrappers
  import opened Text
  import opened Decimals

  /** `value == value.to_integral_value()`: the share is numerically a whole number. Rounding
      to an integer is symmetric in the sign, so this depends on the magnitude only. */
  predicate Integral(d: Decimal) {
    Abs(d.unscaled) % Pow10(d.scale) == 0
  }

  /** Python's `int(value)`: the integer part, truncated toward zero. */
  function Truncate(d: Decimal): (n: int)
    ensures Integral(d) ==> n * Pow10(d.scale) == d.unscaled
  {
    var p := Pow10(d.scale);
    var m := Abs(d.unscaled);
    var q := m / p;
    assert m == p * q + m % p;
    if d.unscaled >= 0 then q else -q
  }

  /** `format_royalty`: `f"{int(value)}%"` for a whole number, `f"{value}%"` otherwise. */
  function FormatRoyalty(d: Decimal): (r: string)
    ensures |r| >= 2 && r[|r| - 1] == '%'
  {
    if Integral(d) then IntText(Truncate(d)) + "%" else DecimalText(d) + "%"
  }

  /** The text before the percent sign. */
  function Number(d: Decimal): (t: string)
    ensures t + "%" == FormatRoyalty(d)
    ensures t == if Integral(d) then IntText(Truncate(d)) else DecimalText(d)
  {
    var t := if Integral(d) then IntText(Truncate(d)) else DecimalText(d);
    assert (t + "%")[..|t|] == t;
    t
  }

  /** A whole-number share reads back as an integer equal to the share. */
  lemma WholeReadsBack(d: Decimal)
    requires Integral(d)
    ensures ParseInt(Number(d)).Some?
    ensures ParseInt(Number(d)).value * Pow10(d.scale) == d.unscaled
  {
    IntTextRoundTrip(Truncate(d));
  }

  /** Any other share in fixed-point range reads back as the same coefficient and scale: the
      trailing zeros of "10.50" are kept. */
  lemma FractionReadsBack(d: Decimal)
    requires !Integral(d) && FixedNotation(d)
    ensures ParseSigned(Number(d)).Some?
    ensures ParseSigned(Number(d)).value.unscaled == d.unscaled
    ensures ParseSigned(Number(d)).value.scale == d.scale
  {
    DecimalTextRoundTrip(d);
  }

  /** A whole number of percent never shows a point. */
  lemma WholeHasNoPoint(d: Decimal)
    requires Integral(d)
    ensures '.' !in Number(d)
  {
    var t := Number(d);
    IntTextSymbols(Truncate(d));
    assert forall k | 0 <= k < |t| :: t[k] != '.';
  }

  /** Fixed-point digits with the point placed inside or before them show the point. */
  lemma FixedShowsPoint(digits: string, dotplace: int)
    requires AllDigits(digits) && |digits| >= 1 && dotplace < |digits|
    ensures '.' in FixedText(digits, dotplace)
  {
    var f := FixedText(digits, dotplace);
    if dotplace <= 0 {
      assert f[1] == '.';
    } else {
      assert f[dotplace] == '.';
    }
  }

  /** Every share with no places after the point is a whole number. */
  lemma NoPlacesIntegral(d: Decimal)
    ensures d.scale == 0 ==> Integral(d)
  {
    assert Pow10(0) == 1;
  }

  /** A point in some text is still there after a prefix. */
  lemma PointAfterPrefix(prefix: string, f: string)
    requires '.' in f
    ensures '.' in prefix + f
  {
    var i :| 0 <= i < |f| && f[i] == '.';
    assert (prefix + f)[|prefix| + i] == '.';
  }

  /** A share that is not a whole number shows a point, in fixed-point range. */
  lemma FractionHasPoint(d: Decimal)
    requires !Integral(d) && FixedNotation(d)
    ensures '.' in Number(d)
  {
    NoPlacesIntegral(d);
    var digits := NatText(Abs(d.unscaled));
    var f := FixedText(digits, |digits| - d.scale);
    FixedShowsPoint(digits, |digits| - d.scale);
    var sign := if d.unscaled < 0 then "-" else "";
    PointAfterPrefix(sign, f);
    assert DecimalText(d) == Render(d.unscaled < 0, digits, d.scale) == sign + f;
  }

  /** The point shows exactly when the share is not a whole number. */
  lemma PointShownIff(d: Decimal)
    requires FixedNotation(d)
    ensures '.' in Number(d) <==> !Integral(d)
  {
    if Integral(d) { WholeHasNoPoint(d); } else { FractionHasPoint(d); }
  }

  /** Digits hold no percent sign. */
  lemma DigitsNoPercent(digits: string)
    requires AllDigits(digits)
    ensures '%' !in digits
  {
    assert forall k | 0 <= k < |digits| :: digits[k] != '%';
  }

  /** An integer's text holds no percent sign. */
  lemma IntTextNoPercent(i: int)
    ensures '%' !in IntText(i)
  {
    IntTextSymbols(i);
    assert forall k | 0 <= k < |IntText(i)| :: IntText(i)[k] != '%';
  }

  /** `str(d)` holds no percent sign, in fixed-point or scientific notation. */
  lemma DecimalTextNoPercent(d: Decimal)
    ensures '%' !in DecimalText(d)
  {
    var digits := NatText(Abs(d.unscaled));
    var leftdigits := |digits| - d.scale;
    DigitsNoPercent(digits);
    if leftdigits > -6 {
      var f := FixedText(digits, leftdigits);
      if leftdigits <= 0 {
        DigitsNoPercent(Zeros(-leftdigits));
      } else if leftdigits < |digits| {
        assert digits == digits[..leftdigits] + digits[leftdigits..];
      }
      assert '%' !in f;
    } else {
      IntTextNoPercent(leftdigits - 1);
      assert digits == digits[..1] + digits[1..];
    }
  }

  /** The percent sign is the last character and appears nowhere else. */
  lemma SinglePercent(d: Decimal)
    ensures '%' !in Number(d)
  {
    if Integral(d) { IntTextNoPercent(Truncate(d)); } else { DecimalTextNoPercent(d); }
  }

  /** The docstring's examples: 20.00, 10.50 and 15.25. */
  lemma TwentyPercent()
    ensures FormatRoyalty(Decimal(2000, 2)) == "20%"
  {
    var d := Decimal(2000, 2);
    assert Pow10(2) == 100;
    assert Integral(d) && Truncate(d) == 20;
    assert NatText(20) == NatText(2) + [DigitChar(0)];
  }

  lemma TenFiftyPercent()
    ensures FormatRoyalty(Decimal(1050, 2)) == "10.50%"
  {
    var d := Decimal(1050, 2);
    assert Pow10(2) == 100;
    assert !Integral(d);
    assert NatText(1050) == "1050" by {
      assert NatText(10) == NatText(1) + [DigitChar(0)] == "10";
      assert NatText(105) == NatText(10) + [DigitChar(5)] == "105";
      assert NatText(1050) == NatText(105) + [DigitChar(0)];
    }
    assert FixedText("1050", 2) == "10" + "." + "50";
  }

  lemma FifteenTwentyFivePercent()
    ensures FormatRoyalty(Decimal(1525, 2)) == "15.25%"
  {
    var d := Decimal(1525, 2);
    assert Pow10(2) == 100;
    assert !Integral(d);
    assert NatText(1525) == "1525" by {
      assert NatText(15) == NatText(1) + [DigitChar(5)] == "15";
      assert NatText(152) == NatText(15) + [DigitChar(2)] == "152";
      assert NatText(1525) == NatText(152) + [DigitChar(5)];
    }
    assert FixedText("1525", 2) == "15" + "." + "25";
  }
}
