/**
 * The shoe record (models.py) and its size.
 *
 * Sizes are exact decimals rather than binary floats. A `Decimal(m, k)` stands
 * for m / 10^k; a `Size` is a decimal in canonical form (no trailing zero after
 * the point), so two sizes are equal as values exactly when they are equal as
 * numbers, as Python's `==` on floats compares them.
 */
module Models {
  import opened Wrappers
  import opened Strings

  /** The number mantissa / 10^scale. */
  datatype Decimal = Decimal(mantissa: int, scale: nat)

  /** No trailing zero digit after the decimal point. */
  predicate Canonical(d: Decimal) {
    d.scale == 0 || d.mantissa % 10 != 0
  }

  type Size = d: Decimal | Canonical(d) witness Decimal(0, 0)

  /** The two decimals denote the same number. */
  predicate SameValue(a: Decimal, b: Decimal) {
    Shift(a.mantissa, b.scale) == Shift(b.mantissa, a.scale)
  }

  /** `float(size).is_integer()`: the number is a whole number. */
  ghost predicate IsIntegral(d: Decimal)
    ensures d.scale == 0 ==> IsIntegral(d)
  {
    assert d.scale == 0 ==> d.mantissa == Shift(d.mantissa, d.scale);
    exists q :: d.mantissa == Shift(q, d.scale)
  }

  /** `size > 0` */
  predicate IsPositive(d: Decimal) {
    d.mantissa > 0
  }

  /** Strips trailing zeros from the fraction without changing the number. */
  function Normalize(d: Decimal): (r: Size)
    ensures r.scale <= d.scale
    ensures d.mantissa == Shift(r.mantissa, d.scale - r.scale)
    ensures Canonical(d) ==> r == d
    decreases d.scale
  {
    if d.scale > 0 && d.mantissa % 10 == 0 then
      var r := Normalize(Decimal(d.mantissa / 10, d.scale - 1));
      ShiftLast(r.mantissa, d.scale - 1 - r.scale);
      r
    else
      d
  }

  /** A number shifted by at least one place ends in the digit zero. */
  lemma MultipleOfTen(m: int, k: nat, q: int)
    requires k > 0 && m == Shift(q, k)
    ensures m % 10 == 0
  {
    ShiftLast(q, k - 1);
  }

  /** If a.scale <= b.scale and the two denote the same number, then b's
    * mantissa is a's shifted by the difference of the scales. */
  lemma AlignScales(a: Decimal, b: Decimal)
    requires a.scale <= b.scale && SameValue(a, b)
    ensures b.mantissa == Shift(a.mantissa, b.scale - a.scale)
  {
    var k := b.scale - a.scale;
    ShiftAdd(a.mantissa, k, a.scale);
    ShiftCancel(b.mantissa, Shift(a.mantissa, k), a.scale);
  }

  /** Equality of sizes is equality of the numbers they stand for. */
  lemma SizeEqualityIsNumeric(a: Size, b: Size)
    ensures a == b <==> SameValue(a, b)
  {
    if SameValue(a, b) {
      if a.scale <= b.scale {
        AlignScales(a, b);
        if a.scale < b.scale {
          MultipleOfTen(b.mantissa, b.scale - a.scale, a.mantissa);
        }
      } else {
        AlignScales(b, a);
        MultipleOfTen(a.mantissa, a.scale - b.scale, b.mantissa);
      }
    }
  }

  /** A size is integer-valued exactly when its canonical form has no fraction. */
  lemma IntegralIffNoFraction(s: Size)
    ensures IsIntegral(s) <==> s.scale == 0
  {
    if s.scale > 0 && IsIntegral(s) {
      var q :| s.mantissa == Shift(q, s.scale);
      MultipleOfTen(s.mantissa, s.scale, q);
    }
    if s.scale == 0 {
      assert s.mantissa == Shift(s.mantissa, 0);
    }
  }

  /** `str(i)` for an integer. */
  function IntToString(i: int): (r: string)
    ensures r != [] && (r[0] == '-' <==> i < 0)
    ensures i != 0 ==> r[0] != '0'
    ensures i < 0 ==> |r| >= 2 && r[1] != '0'
  {
    NatToStringNoLeadingZero(if i < 0 then -i else i);
    if i < 0 then "-" + NatToString(-i) else NatToString(i)
  }

  function Abs(i: int): nat {
    if i < 0 then -i else i
  }

  /** Digits of a magnitude n / 10^scale: the integer part, and for a
    * fractional number a point and exactly `scale` fraction digits. */
  function MagnitudeText(n: nat, scale: nat): string {
    if scale == 0 then NatToString(n)
    else NatToString(DropDigits(n, scale)) + ['.'] + FixedDigits(n, scale)
  }

  /** Characters a formatted size is made of. */
  predicate IsSizeChar(c: char) {
    IsDigit(c) || c == '-' || c == '.'
  }

  /** The digits of a magnitude start and end with a digit, hold nothing
    * but digits and at most the one point, and hold a point exactly when
    * there are fraction digits. */
  lemma MagnitudeShape(n: nat, scale: nat)
    ensures var t := MagnitudeText(n, scale);
      && |t| >= 1 && IsDigit(t[0]) && IsDigit(t[|t| - 1])
      && (forall i :: 0 <= i < |t| ==> IsSizeChar(t[i]))
      && ('.' in t <==> scale > 0)
  {
    var t := MagnitudeText(n, scale);
    if scale > 0 {
      var whole := NatToString(DropDigits(n, scale));
      assert t == whole + ['.'] + FixedDigits(n, scale);
      assert t[|whole|] == '.';
    } else {
      assert forall i :: 0 <= i < |t| ==> IsDigit(t[i]);
    }
  }

  /** The sign `str` prints in front of a number. */
  function SignText(negative: bool): string {
    if negative then "-" else ""
  }

  /** `Shoe._format_size`: an integer-valued size prints as `str(int(size))`
    * ("10"), any other size in decimal form ("9.5"). The text is never empty,
    * holds only digits, '-' and '.', and carries no surrounding whitespace. */
  function FormatSize(s: Size): (r: string)
    ensures |r| >= 1
    ensures forall i :: 0 <= i < |r| ==> IsSizeChar(r[i])
    ensures IsTrimmed(r)
  {
    var mag := MagnitudeText(Abs(s.mantissa), s.scale);
    MagnitudeShape(Abs(s.mantissa), s.scale);
    SignText(s.mantissa < 0) + mag
  }

  /** The unsigned part of `float(text)`: digits with an optional point,
    * at least one digit in all. Gives the magnitude and the number of
    * fraction digits. */
  function ParseMagnitude(body: string): Option<(nat, nat)> {
    var k := IndexOf(body, '.');
    MagnitudeOf(body[..k], if k < |body| then body[k + 1..] else [])
  }

  /** The digits before and after the point, read as a magnitude. */
  function MagnitudeOf(whole: string, frac: string): Option<(nat, nat)> {
    if AllDigits(whole) && AllDigits(frac) && |whole| + |frac| > 0 then
      Some((Shift(DigitsValue(whole), |frac|) + DigitsValue(frac), |frac|))
    else
      None
  }

  /** The number a sign and a parsed magnitude stand for. */
  function Signed(negative: bool, magnitude: Option<(nat, nat)>): Option<Size> {
    match magnitude
    case None => None
    case Some((n, scale)) => Some(Normalize(Decimal(if negative then 0 - n else n, scale)))
  }

  /** `float(t)` once surrounding whitespace is gone: an optional sign,
    * then the magnitude. */
  function ParseNumber(t: string): Option<Size> {
    var signed := |t| > 0 && (t[0] == '-' || t[0] == '+');
    var negative := |t| > 0 && t[0] == '-';
    Signed(negative, ParseMagnitude(if signed then t[1..] else t))
  }

  /** `float(text)` for plain decimal notation: surrounding whitespace, an
    * optional sign, then digits with an optional point. None stands for the
    * ValueError `float` raises. */
  function ParseSize(text: string): (r: Option<Size>)
    ensures AllSpace(text) ==> r.None?
  {
    TrimBlank(text);
    ParseNumber(Trim(text))
  }

  /** Digits without a point are all whole digits. */
  lemma ParseWholeDigits(digits: string)
    requires AllDigits(digits)
    ensures ParseMagnitude(digits) == MagnitudeOf(digits, [])
  {
    assert '.' !in digits by {
      assert forall j :: 0 <= j < |digits| ==> IsDigit(digits[j]);
    }
    IndexOfAbsent(digits, '.');
    assert digits[..|digits|] == digits;
  }

  /** The point after whole digits separates them from the fraction digits. */
  lemma ParsePointDigits(whole: string, frac: string)
    requires AllDigits(whole)
    ensures ParseMagnitude(whole + ['.'] + frac) == MagnitudeOf(whole, frac)
  {
    var t := whole + ['.'] + frac;
    assert '.' !in whole by {
      assert forall j :: 0 <= j < |whole| ==> IsDigit(whole[j]);
    }
    IndexOfJoined(whole, '.', frac);
    assert t[..|whole|] == whole;
    assert t[|whole| + 1..] == frac;
  }

  /** Digits whose value comes to `n` read as the magnitude `n`. */
  lemma MagnitudeOfValue(whole: string, frac: string, n: nat)
    requires |whole| >= 1 && AllDigits(whole) && AllDigits(frac)
    requires Shift(DigitsValue(whole), |frac|) + DigitsValue(frac) == n
    ensures MagnitudeOf(whole, frac) == Some((n, |frac|))
  {
  }

  /** The digits written for a magnitude parse back as that magnitude. */
  lemma MagnitudeRoundTrip(n: nat, scale: nat)
    ensures ParseMagnitude(MagnitudeText(n, scale)) == Some((n, scale))
  {
    if scale == 0 {
      var digits := NatToString(n);
      assert MagnitudeText(n, scale) == digits;
      ParseWholeDigits(digits);
      assert DigitsValue(digits) == n by {
        NatToStringValue(n);
      }
      assert Shift(n, 0) == n && DigitsValue([]) == 0;
      MagnitudeOfValue(digits, [], n);
    } else {
      var whole, frac := NatToString(DropDigits(n, scale)), FixedDigits(n, scale);
      assert MagnitudeText(n, scale) == whole + ['.'] + frac;
      ParsePointDigits(whole, frac);
      assert DigitsValue(whole) == DropDigits(n, scale) by {
        NatToStringValue(DropDigits(n, scale));
      }
      assert Shift(DropDigits(n, scale), scale) + DigitsValue(frac) == n by {
        SplitDigitsValue(n, scale);
      }
      MagnitudeOfValue(whole, frac, n);
    }
  }

  /** A sign in front of the magnitude digits only decides the sign of
    * the parsed number. */
  lemma ParseSigned(negative: bool, mag: string)
    requires |mag| >= 1 && IsDigit(mag[0])
    ensures ParseNumber(SignText(negative) + mag) == Signed(negative, ParseMagnitude(mag))
  {
    var t := SignText(negative) + mag;
    if negative {
      assert t[0] == '-' && t[1..] == mag;
    } else {
      assert t == mag;
    }
  }

  /** Formatting then parsing gives back the same size: the text written
    * for a size on save reads back as that size on load. */
  lemma FormatParseRoundTrip(s: Size)
    ensures ParseSize(FormatSize(s)) == Some(s)
  {
    var t := FormatSize(s);
    TrimFixedPoint(t);
    var n := Abs(s.mantissa);
    var mag := MagnitudeText(n, s.scale);
    MagnitudeRoundTrip(n, s.scale);
    MagnitudeShape(n, s.scale);
    ParseSigned(s.mantissa < 0, mag);
    assert s.mantissa == if s.mantissa < 0 then 0 - (n as int) else n as int;
  }

  /** An integer-valued size formats as its integer, without ".0":
    * whatever size denotes the integer k prints as `str(k)`. */
  lemma FormatIntegerSize(s: Size, k: int)
    requires SameValue(s, Decimal(k, 0))
    ensures FormatSize(s) == IntToString(k)
  {
    if s.scale > 0 {
      MultipleOfTen(s.mantissa, s.scale, k);
    }
    assert s.mantissa == k;
  }

  /** A size that is not integer-valued prints with a decimal point. */
  lemma FormatFractionalSize(s: Size)
    requires !IsIntegral(s)
    ensures '.' in FormatSize(s)
  {
    IntegralIffNoFraction(s);
    MagnitudeShape(Abs(s.mantissa), s.scale);
    var mag := MagnitudeText(Abs(s.mantissa), s.scale);
    var i :| 0 <= i < |mag| && mag[i] == '.';
    if s.mantissa < 0 {
      assert FormatSize(s)[i + 1] == '.';
    } else {
      assert FormatSize(s)[i] == '.';
    }
  }

  lemma ParseTenPointZero()
    ensures ParseNumber("10.0") == Some(Decimal(10, 0))
  {
    assert ParseMagnitude("10.0") == Some((100, 1)) by {
      assert IndexOf("10.0", '.') == 2;
      assert "10.0"[..2] == "10" && "10.0"[3..] == "0";
      assert DigitsValue("10") == 10 by {
        assert "10"[..1] == "1";
      }
    }
    ParseSigned(false, "10.0");
    assert "" + "10.0" == "10.0";
  }

  lemma FormatTen()
    ensures FormatSize(Decimal(10, 0)) == "10"
  {
    assert SignText(false) == "";
    assert MagnitudeText(10, 0) == "10" by {
      assert NatToString(10) == "10";
    }
  }

  lemma TrimTenPointZero()
    ensures Trim("10.0") == "10.0"
  {
    assert TrimLeft("10.0") == "10.0";
    assert TrimRight("10.0") == "10.0";
  }

  /** 10.0 reads back as the integer size 10 and prints as "10". */
  lemma FormatTenPointZero()
    ensures ParseSize("10.0") == Some(Decimal(10, 0))
    ensures FormatSize(Decimal(10, 0)) == "10"
  {
    TrimTenPointZero();
    ParseTenPointZero();
    FormatTen();
  }

  /** 9.5 prints as "9.5" and reads back as itself. */
  lemma FormatNinePointFive()
    ensures FormatSize(Decimal(95, 1)) == "9.5"
    ensures ParseSize("9.5") == Some(Decimal(95, 1))
  {
    assert FormatSize(Decimal(95, 1)) == "9.5" by {
      assert MagnitudeText(95, 1) == "9.5" by {
        assert DropDigits(95, 1) == 9;
        assert FixedDigits(95, 1) == "5";
        assert NatToString(9) == "9";
      }
    }
    FormatParseRoundTrip(Decimal(95, 1));
  }

  /** One inventory item. Values are immutable and compare field by field. */
  datatype Shoe = Shoe(brand: string, model: string, size: Size, color: string) {
    /** `Shoe.to_row`: the CSV cells in column order brand, model, size,
      * color; the text fields go out as they are, and the size cell reads
      * back as the size. */
    function ToRow(): (row: seq<string>)
      ensures |row| == 4 && row[0] == brand && row[1] == model && row[3] == color
      ensures ParseSize(row[2]) == Some(size)
    {
      var row := [brand, model, FormatSize(size), color];
      assert row[2] == FormatSize(size);
      FormatParseRoundTrip(size);
      row
    }
  }
}
