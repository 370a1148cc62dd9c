/** What the text printed by fmtfp denotes, and how long it is. */
module FpLaws {
  import opened Text
  import opened Numerals
  import opened FormatFlags
  import opened Modf
  import opened FmtFp

  /** n / 10^places. */
  datatype Fixed = Fixed(n: int, places: nat)

  /** Where the point is, or the length when there is none. */
  function PointAt(s: string): (k: nat)
    ensures k <= |s|
  {
    if s == "" || s[0] == '.' then 0 else 1 + PointAt(s[1..])
  }

  /** A reader of decimal notation: sign, digits, and the digits after the point if there is one. */
  function ReadFixed(s: string): Fixed {
    var t := Unsigned(s);
    var k := PointAt(t);
    var fraction := if k < |t| then t[k + 1..] else "";
    Fixed(WithSign(IsNegative(s), Value(t[..k] + fraction, Decimal)), |fraction|)
  }

  lemma {:induction false} PointAfter(whole: string, rest: string)
    requires AllInk(whole) && (rest == "" || rest[0] == '.')
    ensures PointAt(whole + rest) == |whole|
  {
    if whole == "" {
      assert whole + rest == rest;
    } else {
      assert (whole + rest)[1..] == whole[1..] + rest;
      PointAfter(whole[1..], rest);
    }
  }

  lemma {:induction false} FixedDigitsDenote(n: nat, p: nat)
    requires n < Ten(p)
    ensures |FixedDigits(n, p)| == p && Value(FixedDigits(n, p), Decimal) == n && AllInk(FixedDigits(n, p))
  {
    if p > 0 {
      var digits := Numeral(n, Decimal, false);
      DigitCount(n, Decimal, false, p);
      NumeralDenotes(n, Decimal, false);
      DigitsLEChars(n, Decimal, false);
      ValueZeroPadded(p - |digits|, digits, Decimal);
    }
  }

  /** Digits, point and fraction digits together read as the one scaled number. */
  lemma {:induction false} DigitsDenote(x: real, p: nat, zeros: nat)
    ensures var whole := Repeat('0', zeros) + Numeral(Whole(x, p), Decimal, false);
            (Value(whole + FixedDigits(Part(x, p), p), Decimal) == Scaled(x, p) && whole != "" && AllInk(whole))
  {
    var digits, fraction := Numeral(Whole(x, p), Decimal, false), FixedDigits(Part(x, p), p);
    FixedDigitsDenote(Part(x, p), p);
    NumeralDenotes(Whole(x, p), Decimal, false);
    DigitsLEChars(Whole(x, p), Decimal, false);
    ValueZeroPadded(zeros, digits, Decimal);
    ValueAppend(Repeat('0', zeros) + digits, fraction, Decimal);
    DivMod(Scaled(x, p), Ten(p));
  }

  lemma {:induction false} DivMod(n: nat, d: nat)
    requires d > 0
    ensures Div(n, d) * d + Mod(n, d) == n
  {
  }

  lemma {:induction false} ReadNumber(left: nat, sign: string, whole: string, places: string, right: nat)
    requires sign in {"", "-", "+", " "} && whole != "" && AllInk(whole) && AllInk(places)
    ensures ReadFixed(Repeat(' ', left) + sign + (whole + if places == "" then "" else "." + places)
                      + Repeat(' ', right))
         == Fixed(WithSign(sign == "-", Value(whole + places, Decimal)), |places|)
  {
    hide Value, Unsigned, IsNegative;
    var rest := if places == "" then "" else "." + places;
    UnsignedPadded(left, sign, whole + rest, right);
    PointAfter(whole, rest);
    assert (whole + rest)[..|whole|] == whole;
    assert places != "" ==> (whole + rest)[|whole| + 1..] == places;
  }

  /** Every layout is spaces, sign, zeros, number, spaces. */
  lemma {:induction false} FpGroups(sign: string, digits: string, fraction: string, p: nat, min: int, flags: Flags)
    returns (left: nat, zeros: nat, right: nat)
    requires |sign| <= 1
    ensures FpLayout(sign, digits, fraction, p, min, flags)
         == Repeat(' ', left) + sign + (Repeat('0', zeros) + digits + fraction) + Repeat(' ', right)
    ensures left + zeros + right
         == FpPadding(|sign|, |digits|, p, min)
            - if flags.zero && !flags.minus && FpPadding(|sign|, |digits|, p, min) > 0 then |sign| else 0
    ensures if flags.minus then left == zeros == 0 else if flags.zero then left == right == 0 else zeros == right == 0
  {
    var pad := FpPadding(|sign|, |digits|, p, min);
    left, zeros, right := 0, 0, 0;
    if flags.minus {
      right := pad;
    } else if flags.zero && pad > 0 {
      zeros := pad - |sign|;
    } else {
      left := pad;
    }
    assert Repeat(' ', 0) == "" && Repeat('0', 0) == "";
  }

  lemma {:induction false} FpLayoutReads(x: real, sign: string, p: nat, min: int, flags: Flags)
    requires sign in {"", "-", "+", " "}
    ensures ReadFixed(FpLayout(sign, Numeral(Whole(x, p), Decimal, false), FractionText(x, p), p, min, flags))
         == Fixed(WithSign(sign == "-", Scaled(x, p)), p)
  {
    var digits, places := Numeral(Whole(x, p), Decimal, false), FixedDigits(Part(x, p), p);
    FixedDigitsDenote(Part(x, p), p);
    assert FractionText(x, p) == if places == "" then "" else "." + places;
    var left, zeros, right := FpGroups(sign, digits, FractionText(x, p), p, min, flags);
    DigitsDenote(x, p, zeros);
    ReadNumber(left, sign, Repeat('0', zeros) + digits, places, right);
    assert Repeat('0', zeros) + digits + FractionText(x, p) == (Repeat('0', zeros) + digits) + FractionText(x, p);
  }

  /** Value law. Read back, the text is |x| * 10^p rounded half up, over 10^p, with the sign of x:
      for every width, precision and flag set, carries into the integer part included. */
  lemma {:induction false} FpReads(x: real, min: int, max: int, flags: Flags)
    ensures var p := Precision(max);
            var n := Scaled(x, p);
            && ReadFixed(FpText(x, min, max, flags)) == Fixed(WithSign(x < 0.0, n), p)
            && n as real - 0.5 <= Abs(x) * Ten(p) as real < n as real + 0.5
  {
    ShiftIsProduct(Abs(x), Precision(max));
    FpLayoutReads(x, SignText(x < 0.0, flags), Precision(max), min, flags);
  }

  /** Layout law: spaces, sign, zeros, digits, point and digits, spaces, with padding of one kind in
      the one place the flags name; the digits before the point have no leading zero unless they are
      a single zero, and there are exactly p digits behind it. FpLength says how many columns. */
  lemma {:induction false} FpShape(x: real, min: int, max: int, flags: Flags)
    returns (left: nat, zeros: nat, right: nat)
    ensures var p := Precision(max);
            var sign := if x < 0.0 then "-" else if flags.plus then "+" else if flags.space then " " else "";
            var digits, places := Numeral(Whole(x, p), Decimal, false), FixedDigits(Part(x, p), p);
            && FpText(x, min, max, flags)
            == Repeat(' ', left) + sign + (Repeat('0', zeros) + digits + (if p == 0 then "" else "." + places))
               + Repeat(' ', right)
            && digits != "" && AllDigits(digits) && (digits[0] == '0' ==> Whole(x, p) == 0)
            && |places| == p && AllDigits(places)
    ensures if flags.minus then left == zeros == 0 else if flags.zero then left == right == 0 else zeros == right == 0
  {
    hide FpLayout, Numeral, Whole, Part, Scaled, FixedDigits, Pow, FpPadding;
    var p := Precision(max);
    left, zeros, right := FpGroups(SignText(x < 0.0, flags), Numeral(Whole(x, p), Decimal, false),
                                   FractionText(x, p), p, min, flags);
    NumeralFirst(Whole(x, p), Decimal, false);
    PlacesAre(x, p);
  }

  lemma {:induction false} PlacesAre(x: real, p: nat)
    ensures |FixedDigits(Part(x, p), p)| == p && AllDigits(FixedDigits(Part(x, p), p))
    ensures |FractionText(x, p)| == if p == 0 then 0 else p + 1
  {
    hide Scaled, Numeral;
    NumeralFirst(Part(x, p), Decimal, false);
    FixedDigitsDenote(Part(x, p), p);
  }

  /** Width law: the number of columns, with the two places where the code gives up one. */
  lemma {:induction false} FpLength(x: real, min: int, max: int, flags: Flags)
    ensures var p := Precision(max);
            var sign := if x < 0.0 || flags.plus || flags.space then 1 else 0;
            var digits := |Numeral(Whole(x, p), Decimal, false)|;
            |FpText(x, min, max, flags)| ==
            Max(min, sign + digits + 1 + p)
            - (if p == 0 then 1 else 0)
            - (if flags.zero && !flags.minus && min > sign + digits + 1 + p then sign else 0)
  {
    hide FpLayout, Numeral, Whole, Part, Scaled, FixedDigits, FractionText, Pow;
    var p := Precision(max);
    PlacesAre(x, p);
    var left, zeros, right := FpGroups(SignText(x < 0.0, flags), Numeral(Whole(x, p), Decimal, false),
                                           FractionText(x, p), p, min, flags);
  }
}
