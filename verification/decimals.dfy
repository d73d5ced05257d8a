/** Exact decimal numbers as Python's `decimal.Decimal` holds them: an integer coefficient and
    a number of digits after the point. Equality is numeric (`Decimal("4.8") == Decimal("4.80")`),
    addition keeps the larger scale, and `str()` keeps the scale ("4.80"). */
module Decimals {
  import opened Wrappers
  import opened Text

  /** The number unscaled * 10^-scale. */
  datatype Decimal = Decimal(unscaled: int, scale: nat)

  const Zero := Decimal(0, 0)

  function Pow10(n: nat): (r: nat)
    ensures r >= 1
  {
    if n == 0 then 1 else 10 * Pow10(n - 1)
  }

  lemma {:induction false} Pow10Add(a: nat, b: nat)
    ensures Pow10(a + b) == Pow10(a) * Pow10(b)
    decreases a
  {
    if a > 0 {
      Pow10Add(a - 1, b);
    }
  }

  function Max(a: nat, b: nat): nat {
    if a >= b then a else b
  }

  function Abs(i: int): nat {
    if i < 0 then -i else i
  }

  /** The coefficient of `d` when written with `s` digits after the point. */
  function ValueAt(d: Decimal, s: nat): int
    requires s >= d.scale
  {
    d.unscaled * Pow10(s - d.scale)
  }

  /** Python's `==` on decimals: equal as numbers, whatever their scales. */
  predicate Same(a: Decimal, b: Decimal) {
    var s := Max(a.scale, b.scale);
    ValueAt(a, s) == ValueAt(b, s)
  }

  /** Writing a decimal at a finer scale multiplies its coefficient by a power of ten. */
  lemma ScaleUp(d: Decimal, m: nat, s: nat)
    requires d.scale <= m <= s
    ensures ValueAt(d, s) == ValueAt(d, m) * Pow10(s - m)
  {
    Pow10Add(m - d.scale, s - m);
    assert s - d.scale == (m - d.scale) + (s - m);
    var p := Pow10(m - d.scale);
    var k := Pow10(s - m);
    assert Pow10(s - d.scale) == p * k;
    MulAssoc(d.unscaled, p, k);
  }

  lemma MulAssoc(a: int, b: int, c: int)
    ensures a * (b * c) == (a * b) * c
  {
  }

  lemma MulCancel(x: int, y: int, k: int)
    requires k >= 1
    ensures x * k == y * k <==> x == y
  {
    assert x * k - y * k == (x - y) * k;
  }

  /** Numeric equality can be checked at any scale fine enough for both decimals. */
  lemma SameAtScale(a: Decimal, b: Decimal, s: nat)
    requires s >= a.scale && s >= b.scale
    ensures Same(a, b) <==> ValueAt(a, s) == ValueAt(b, s)
  {
    var m := Max(a.scale, b.scale);
    ScaleUp(a, m, s);
    ScaleUp(b, m, s);
    MulCancel(ValueAt(a, m), ValueAt(b, m), Pow10(s - m));
  }

  /** Python's decimal `+`: exact, with the larger of the two scales. */
  function Add(a: Decimal, b: Decimal): (r: Decimal)
    ensures r.scale == Max(a.scale, b.scale)
  {
    var s := Max(a.scale, b.scale);
    Decimal(ValueAt(a, s) + ValueAt(b, s), s)
  }

  /** Addition is exact at every scale at least as fine as the result's. */
  lemma AddExact(a: Decimal, b: Decimal, s: nat)
    requires s >= a.scale && s >= b.scale
    ensures ValueAt(Add(a, b), s) == ValueAt(a, s) + ValueAt(b, s)
  {
    var m := Max(a.scale, b.scale);
    var k := Pow10(s - m);
    ScaleUp(Add(a, b), m, s);
    ScaleUp(a, m, s);
    ScaleUp(b, m, s);
    assert (ValueAt(a, m) + ValueAt(b, m)) * k == ValueAt(a, m) * k + ValueAt(b, m) * k;
  }

  /** Python's `sum(ds)`: a left fold of `+` starting from the integer 0. */
  function Sum(ds: seq<Decimal>): Decimal
  {
    if |ds| == 0 then Zero else Add(Sum(ds[..|ds| - 1]), ds[|ds| - 1])
  }

  function MaxScale(ds: seq<Decimal>): nat
  {
    if |ds| == 0 then 0 else Max(MaxScale(ds[..|ds| - 1]), ds[|ds| - 1].scale)
  }

  /** The coefficients of `ds` written at a common scale `s`, added up. */
  function ValueSum(ds: seq<Decimal>, s: nat): int
    requires forall i | 0 <= i < |ds| :: ds[i].scale <= s
  {
    if |ds| == 0 then 0 else ValueSum(ds[..|ds| - 1], s) + ValueAt(ds[|ds| - 1], s)
  }

  /** The sum is exact: its scale is the largest scale of the terms and its value is the
      sum of the terms' values. */
  lemma {:induction false} SumExact(ds: seq<Decimal>, s: nat)
    requires forall i | 0 <= i < |ds| :: ds[i].scale <= s
    ensures Sum(ds).scale == MaxScale(ds) <= s
    ensures ValueAt(Sum(ds), s) == ValueSum(ds, s)
    decreases |ds|
  {
    if |ds| > 0 {
      var init := ds[..|ds| - 1];
      assert forall i | 0 <= i < |init| :: init[i].scale <= s by {
        forall i | 0 <= i < |init| ensures init[i].scale <= s { assert init[i] == ds[i]; }
      }
      SumExact(init, s);
      AddExact(Sum(init), ds[|ds| - 1], s);
    }
  }

  // ----- text -----

  /** Python's `str(d)`: fixed-point when the adjusted exponent is at least -6, scientific
      notation below that ("0E-7", "1.2E-7"). The scale is kept: `str(Decimal("4.80"))` is "4.80". */
  function DecimalText(d: Decimal): (r: string)
    ensures |r| >= 1
  {
    Render(d.unscaled < 0, NatText(Abs(d.unscaled)), d.scale)
  }

  /** A sign, the coefficient's digits and a scale, laid out as `str` does. */
  function Render(negative: bool, digits: string, scale: nat): (r: string)
    requires AllDigits(digits) && |digits| >= 1
    ensures |r| >= 1
  {
    var sign := if negative then "-" else "";
    var leftdigits := |digits| - scale;
    if leftdigits > -6 then
      sign + FixedText(digits, leftdigits)
    else
      sign + digits[..1] + (if |digits| > 1 then "." + digits[1..] else "") + "E" + IntText(leftdigits - 1)
  }

  /** Digits with the point placed after `dotplace` of them (before, padded with zeros, when
      `dotplace` is not positive). */
  function FixedText(digits: string, dotplace: int): (r: string)
    requires AllDigits(digits) && |digits| >= 1 && dotplace <= |digits|
    ensures |r| >= 1 && IsDigit(r[|r| - 1]) && IsDigit(r[0])
  {
    if dotplace <= 0 then "0." + Zeros(-dotplace) + digits
    else if dotplace == |digits| then digits
    else digits[..dotplace] + "." + digits[dotplace..]
  }

  /** Whether `str(d)` uses fixed-point notation. */
  predicate FixedNotation(d: Decimal) {
    |NatText(Abs(d.unscaled))| - d.scale > -6
  }

  /** Python's `Decimal(s)` for a plain literal: surrounding whitespace, an optional sign, and
      ASCII digits with at most one point, at least one digit in all. */
  function ParseDecimal(s: string): Option<Decimal>
  {
    ParseSigned(Strip(s))
  }

  /** An optional sign followed by an unsigned literal. */
  function ParseSigned(t: string): Option<Decimal>
  {
    if |t| > 0 && t[0] == '-' then Negate(ParseUnsigned(t[1..]))
    else if |t| > 0 && t[0] == '+' then ParseUnsigned(t[1..])
    else ParseUnsigned(t)
  }

  function Negate(m: Option<Decimal>): (r: Option<Decimal>)
    ensures r.Some? <==> m.Some?
    ensures r.Some? ==> r.value.scale == m.value.scale && r.value.unscaled == -m.value.unscaled
  {
    if m.None? then None else Some(Decimal(-m.value.unscaled, m.value.scale))
  }

  /** The digits of a literal, point removed, and how many of them follow the point. */
  datatype Literal = Literal(digits: string, scale: nat)

  /** Reads digits with at most one point, left to right; `seenPoint` says whether the point has
      already been read. Any other character, or a second point, rejects the text. */
  function Scan(s: string, seenPoint: bool): (r: Option<Literal>)
    ensures r.Some? ==> AllDigits(r.value.digits)
    decreases |s|
  {
    if |s| == 0 then Some(Literal("", 0))
    else if IsDigit(s[0]) then
      match Scan(s[1..], seenPoint)
      case None => None
      case Some(l) => Some(Literal([s[0]] + l.digits, if seenPoint then l.scale + 1 else l.scale))
    else if s[0] == '.' && !seenPoint then Scan(s[1..], true)
    else None
  }

  /** Digits with at most one point and at least one digit, read as a non-negative decimal whose
      scale is the number of digits after the point. */
  function ParseUnsigned(body: string): Option<Decimal>
  {
    match Scan(body, false)
    case None => None
    case Some(l) => if |l.digits| == 0 then None else Some(Decimal(DigitsValue(l.digits), l.scale))
  }

  /** Scanning past a run of digits keeps them in front of whatever the rest scans to. */
  lemma {:induction false} ScanPastDigits(a: string, rest: string, seenPoint: bool)
    requires AllDigits(a)
    ensures Scan(a + rest, seenPoint).Some? <==> Scan(rest, seenPoint).Some?
    ensures Scan(rest, seenPoint).Some? ==>
      Scan(a + rest, seenPoint).value.digits == a + Scan(rest, seenPoint).value.digits
      && Scan(a + rest, seenPoint).value.scale == Scan(rest, seenPoint).value.scale + (if seenPoint then |a| else 0)
    decreases |a|
  {
    if |a| > 0 {
      var s := a + rest;
      assert s[0] == a[0] && IsDigit(s[0]);
      assert s[1..] == a[1..] + rest;
      ScanPastDigits(a[1..], rest, seenPoint);
      if Scan(rest, seenPoint).Some? {
        assert [a[0]] + (a[1..] + Scan(rest, seenPoint).value.digits) == a + Scan(rest, seenPoint).value.digits;
      }
    } else {
      assert a + rest == rest;
    }
  }

  /** Reading "i.f": a point with digit strings on both sides. */
  lemma ReadsBackWithPoint(a: string, b: string)
    requires AllDigits(a) && AllDigits(b) && |a| >= 1
    ensures ParseUnsigned(a + "." + b).Some?
    ensures ParseUnsigned(a + "." + b).value.unscaled == DigitsValue(a + b)
    ensures ParseUnsigned(a + "." + b).value.scale == |b|
  {
    var tail := "." + b;
    assert a + "." + b == a + tail;
    assert tail[1..] == b;
    ScanPastDigits(b, "", true);
    assert b + "" == b;
    ScanPastDigits(a, tail, false);
  }

  /** Reading a digit string with no point. */
  lemma ReadsBackWhole(digits: string)
    requires AllDigits(digits) && |digits| >= 1
    ensures ParseUnsigned(digits).Some?
    ensures ParseUnsigned(digits).value.unscaled == DigitsValue(digits)
    ensures ParseUnsigned(digits).value.scale == 0
  {
    ScanPastDigits(digits, "", false);
    assert digits + "" == digits;
  }

  lemma SmallShape(digits: string, z: nat)
    ensures "0." + Zeros(z) + digits == Zeros(1) + "." + (Zeros(z) + digits)
  {
  }

  lemma ZeroPadValue(digits: string, z: nat)
    requires AllDigits(digits)
    ensures AllDigits(Zeros(z) + digits)
    ensures DigitsValue(Zeros(1) + (Zeros(z) + digits)) == DigitsValue(digits)
  {
    LeadingZerosValue(z, digits);
    LeadingZerosValue(z + 1, digits);
    assert Zeros(1) + (Zeros(z) + digits) == Zeros(z + 1) + digits;
  }

  lemma ReadsBackPadded(digits: string, z: nat)
    requires AllDigits(digits) && |digits| >= 1
    ensures ParseUnsigned(Zeros(1) + "." + (Zeros(z) + digits)).Some?
    ensures ParseUnsigned(Zeros(1) + "." + (Zeros(z) + digits)).value.unscaled == DigitsValue(digits)
    ensures ParseUnsigned(Zeros(1) + "." + (Zeros(z) + digits)).value.scale == z + |digits|
  {
    ZeroPadValue(digits, z);
    ReadsBackWithPoint(Zeros(1), Zeros(z) + digits);
  }

  /** Reading "0.00ddd": a value below one. */
  lemma ReadsBackSmall(digits: string, z: nat)
    requires AllDigits(digits) && |digits| >= 1
    ensures ParseUnsigned("0." + Zeros(z) + digits).Some?
    ensures ParseUnsigned("0." + Zeros(z) + digits).value.unscaled == DigitsValue(digits)
    ensures ParseUnsigned("0." + Zeros(z) + digits).value.scale == z + |digits|
  {
    SmallShape(digits, z);
    ReadsBackPadded(digits, z);
  }

  /** Fixed-point text with the point inside the digits reads back. */
  lemma SplitFixedReadsBack(digits: string, dotplace: int, scale: nat)
    requires AllDigits(digits) && 0 < dotplace < |digits| && dotplace == |digits| - scale
    ensures ParseUnsigned(FixedText(digits, dotplace)).Some?
    ensures ParseUnsigned(FixedText(digits, dotplace)).value.unscaled == DigitsValue(digits)
    ensures ParseUnsigned(FixedText(digits, dotplace)).value.scale == scale
  {
    var a := digits[..dotplace];
    var b := digits[dotplace..];
    assert a + b == digits;
    ReadsBackWithPoint(a, b);
  }

  /** The body of a fixed-point text reads back as the same coefficient and scale. */
  lemma FixedTextReadsBack(digits: string, dotplace: int, scale: nat)
    requires AllDigits(digits) && |digits| >= 1 && dotplace == |digits| - scale
    ensures ParseUnsigned(FixedText(digits, dotplace)).Some?
    ensures ParseUnsigned(FixedText(digits, dotplace)).value.unscaled == DigitsValue(digits)
    ensures ParseUnsigned(FixedText(digits, dotplace)).value.scale == scale
  {
    if dotplace <= 0 {
      ReadsBackSmall(digits, -dotplace);
    } else if dotplace == |digits| {
      ReadsBackWhole(digits);
    } else {
      SplitFixedReadsBack(digits, dotplace, scale);
    }
  }

  /** A digit-led unsigned literal reads the same with a minus sign, negated. */
  lemma ReadsNegative(body: string)
    requires |body| >= 1 && IsDigit(body[0]) && ParseUnsigned(body).Some?
    ensures ParseSigned("-" + body).Some?
    ensures ParseSigned("-" + body).value.unscaled == -ParseUnsigned(body).value.unscaled
    ensures ParseSigned("-" + body).value.scale == ParseUnsigned(body).value.scale
  {
    assert ("-" + body)[1..] == body;
  }

  /** A digit-led unsigned literal reads the same on its own. */
  lemma ReadsPositive(body: string)
    requires |body| >= 1 && IsDigit(body[0]) && ParseUnsigned(body).Some?
    ensures ParseSigned(body).Some?
    ensures ParseSigned(body).value.unscaled == ParseUnsigned(body).value.unscaled
    ensures ParseSigned(body).value.scale == ParseUnsigned(body).value.scale
  {
  }

  /** A plain literal "<digits>.<digits>", with no sign or whitespace, reads as the digits
      without the point, scaled by the number of digits after it. */
  lemma PointedReadsBack(a: string, b: string)
    requires |a| >= 1 && AllDigits(a) && AllDigits(b)
    ensures ParseDecimal(a + "." + b).Some?
    ensures ParseDecimal(a + "." + b).value.unscaled == DigitsValue(a + b)
    ensures ParseDecimal(a + "." + b).value.scale == |b|
  {
    PointedUnpadded(a, b);
    PointedSigned(a, b);
  }

  lemma PointedUnpadded(a: string, b: string)
    requires |a| >= 1 && AllDigits(a) && AllDigits(b)
    ensures ParseDecimal(a + "." + b) == ParseSigned(a + "." + b)
  {
    var t := a + "." + b;
    assert t[0] == a[0];
    if |b| > 0 { assert t[|t| - 1] == b[|b| - 1]; } else { assert t[|t| - 1] == '.'; }
    ParseUnpadded(t);
  }

  lemma PointedSigned(a: string, b: string)
    requires |a| >= 1 && AllDigits(a) && AllDigits(b)
    ensures ParseSigned(a + "." + b).Some?
    ensures ParseSigned(a + "." + b).value.unscaled == DigitsValue(a + b)
    ensures ParseSigned(a + "." + b).value.scale == |b|
  {
    var t := a + "." + b;
    ReadsBackWithPoint(a, b);
    assert t[0] == a[0];
    ReadsPositive(t);
  }

  /** Fixed-point digits read back as their coefficient and scale. */
  lemma PositiveFixedReadsBack(digits: string, scale: nat)
    requires AllDigits(digits) && |digits| >= 1 && |digits| - scale > -6
    ensures var text := FixedText(digits, |digits| - scale);
      ParseSigned(text).Some? && ParseSigned(text).value.unscaled == DigitsValue(digits)
      && ParseSigned(text).value.scale == scale
  {
    var text := FixedText(digits, |digits| - scale);
    FixedTextReadsBack(digits, |digits| - scale, scale);
    ReadsPositive(text);
  }

  /** Fixed-point digits after a minus sign read back as the negated coefficient and the scale. */
  lemma NegativeFixedReadsBack(digits: string, scale: nat)
    requires AllDigits(digits) && |digits| >= 1 && |digits| - scale > -6
    ensures var text := "-" + FixedText(digits, |digits| - scale);
      ParseSigned(text).Some? && ParseSigned(text).value.unscaled == -(DigitsValue(digits) as int)
      && ParseSigned(text).value.scale == scale
  {
    var fixed := FixedText(digits, |digits| - scale);
    FixedTextReadsBack(digits, |digits| - scale, scale);
    ReadsNegative(fixed);
  }

  /** Fixed-point layout without a sign is just the digits with the point placed. */
  lemma RenderPositiveShape(digits: string, scale: nat)
    requires AllDigits(digits) && |digits| >= 1 && |digits| - scale > -6
    ensures Render(false, digits, scale) == FixedText(digits, |digits| - scale)
  {
    var f := FixedText(digits, |digits| - scale);
    assert "" + f == f;
  }

  /** Fixed-point layout of a sign, digits and scale reads back as the signed coefficient and
      the scale. */
  lemma RenderReadsBack(negative: bool, digits: string, scale: nat)
    requires AllDigits(digits) && |digits| >= 1 && |digits| - scale > -6
    ensures ParseSigned(Render(negative, digits, scale)).Some?
    ensures ParseSigned(Render(negative, digits, scale)).value.unscaled
      == if negative then -(DigitsValue(digits) as int) else DigitsValue(digits)
    ensures ParseSigned(Render(negative, digits, scale)).value.scale == scale
  {
    if negative {
      NegativeFixedReadsBack(digits, scale);
    } else {
      RenderPositiveShape(digits, scale);
      PositiveFixedReadsBack(digits, scale);
    }
  }

  /** Reading back fixed-point `str(d)`, once surrounding whitespace is gone, gives `d` again,
      scale included. */
  lemma DecimalTextRoundTrip(d: Decimal)
    requires FixedNotation(d)
    ensures ParseSigned(DecimalText(d)).Some?
    ensures ParseSigned(DecimalText(d)).value.unscaled == d.unscaled
    ensures ParseSigned(DecimalText(d)).value.scale == d.scale
  {
    NatTextValue(Abs(d.unscaled));
    RenderReadsBack(d.unscaled < 0, NatText(Abs(d.unscaled)), d.scale);
  }

  /** `str(d)` has no surrounding whitespace, so `Decimal(str(d))` skips no stripping. */
  lemma DecimalTextUnpadded(d: Decimal)
    ensures !IsSpace(DecimalText(d)[0]) && !IsSpace(DecimalText(d)[|DecimalText(d)| - 1])
  {
  }

  /** Text that neither starts nor ends with whitespace is read without stripping. */
  lemma ParseUnpadded(t: string)
    requires |t| >= 1 && !IsSpace(t[0]) && !IsSpace(t[|t| - 1])
    ensures ParseDecimal(t) == ParseSigned(t)
  {
    StripNoSpaces(t);
  }
}
