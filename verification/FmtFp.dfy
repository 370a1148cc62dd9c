/** fmtfp: a floating value in fixed notation, with precision, width and sign. */
module FmtFp {
  import opened Text
  import opened Numerals
  import opened FormatFlags
  import opened Output
  import opened Modf

  // ---- What is printed ----

  /** Six digits after the point by default, sixteen at most. */
  function Precision(max: int): (p: nat)
    ensures max < 0 ==> p == 6
    ensures 0 <= max <= 16 ==> p == max
    ensures max > 16 ==> p == 16
  {
    if max < 0 then 6 else Min(max, 16)
  }

  /** |x| * 10^p rounded half up: all the digits that are printed, as one number. */
  function Scaled(x: real, p: nat): nat {
    (Shift(Abs(x), p) + 0.5).Floor
  }

  /** The part of that number before the point. */
  function Whole(x: real, p: nat): nat {
    Div(Scaled(x, p), Ten(p))
  }

  /** The part of that number after the point. */
  function Part(x: real, p: nat): nat {
    Mod(Scaled(x, p), Ten(p))
  }

  /** n in exactly p digits. */
  function FixedDigits(n: nat, p: nat): string {
    if p == 0 then "" else
      var digits := Numeral(n, Decimal, false);
      Repeat('0', p - |digits|) + digits
  }

  /** The point and the digits after it; nothing when the precision is zero. */
  function FractionText(x: real, p: nat): string {
    if p == 0 then "" else "." + FixedDigits(Part(x, p), p)
  }

  /** The padding the code computes: the point counts even when it is not printed. */
  function FpPadding(sign: nat, digits: nat, p: nat, min: int): nat {
    Max(0, min - digits - p - 1 - sign)
  }

  /** The same number, negative when it goes to the right: the code's padlen. */
  function FpLeft(sign: nat, digits: nat, p: nat, min: int, flags: Flags): int {
    var pad := FpPadding(sign, digits, p, min);
    if flags.minus then -(pad as int) else pad
  }

  /** Zero padding holds the sign in front and gives up one zero for it. */
  function FpLayout(sign: string, digits: string, fraction: string, p: nat, min: int, flags: Flags): string {
    var pad := FpPadding(|sign|, |digits|, p, min);
    if flags.minus then sign + digits + fraction + Repeat(' ', pad)
    else if flags.zero && pad > 0 then sign + Repeat('0', pad - |sign|) + digits + fraction
    else Repeat(' ', pad) + sign + digits + fraction
  }

  function FpText(x: real, min: int, max: int, flags: Flags): string {
    var p := Precision(max);
    FpLayout(SignText(x < 0.0, flags), Numeral(Whole(x, p), Decimal, false), FractionText(x, p), p, min, flags)
  }

  // ---- Rounding ----

  /** Rounding the scaled fraction alone rounds the whole number. */
  lemma {:induction false} RoundSplit(x: real, p: nat, fraction: real) returns (part: nat)
    requires fraction == Shift(Abs(x) - Abs(x).Floor as real, p)
    ensures 0.0 <= fraction < Ten(p) as real && part == (fraction + 0.5).Floor <= Ten(p)
    ensures Scaled(x, p) == Ten(p) * Abs(x).Floor + part
  {
    var u, whole := Abs(x), Abs(x).Floor;
    ShiftIsProduct(1.0, p);
    ShiftMinus(u, whole as real, p);
    ShiftMinus(u - whole as real, 1.0, p);
    ShiftNat(whole, p);
    part := (fraction + 0.5).Floor;
    RoundedSum(Ten(p) * whole, fraction, part);
  }

  lemma {:induction false} RoundedSum(n: nat, fraction: real, part: nat)
    requires part == (fraction + 0.5).Floor
    ensures (n as real + fraction + 0.5).Floor == n + part
  {
    FloorIs(n as real + fraction + 0.5, n + part);
  }

  /** The two printed numbers, from the rounded fraction and its carry. */
  lemma {:induction false} CarryRight(x: real, p: nat, part: nat)
    requires part <= Ten(p) && Scaled(x, p) == Ten(p) * Abs(x).Floor + part
    ensures Whole(x, p) == Abs(x).Floor + (if part >= Ten(p) then 1 else 0)
    ensures Part(x, p) == part - (if part >= Ten(p) then Ten(p) else 0)
  {
    Carry(Scaled(x, p), Ten(p), Abs(x).Floor, part);
  }

  lemma {:induction false} Carry(n: nat, t: nat, whole: nat, part: nat)
    requires 0 < t && part <= t && n == t * whole + part
    ensures Div(n, t) == whole + (if part >= t then 1 else 0)
    ensures Mod(n, t) == part - (if part >= t then t else 0)
  {
    if part >= t {
      assert t * (whole + 1) == t * whole + t;
      DivModUnique(n, t, whole + 1, part - t);
    } else {
      DivModUnique(n, t, whole, part);
    }
  }

  lemma {:induction false} SixteenDigits(p: nat)
    requires p <= 16
    ensures Ten(p) <= 10_000_000_000_000_000
  {
    PowMonotone(Decimal, p, 16);
    PowAdd(Decimal, 8, 8);
    assert Pow(Decimal, 8) == 100_000_000;
  }

  lemma {:induction false} ScaledFraction(scale: real, g: real, p: nat)
    requires scale == Ten(p) as real
    ensures scale * g == Shift(g, p)
  {
    ShiftIsProduct(g, p);
  }

  /** A whole part never has more than 118 digits, even after the carry. */
  lemma {:induction false} WholeBound(u: real, whole: nat, k: nat)
    requires u >= 0.0 && Within(u, k) && whole <= u.Floor + 1
    ensures whole < Ten(k + 19)
  {
    PowAdd(Decimal, 19, k);
    NineteenDigits();
    assert whole <= 9_223_372_036_854_775_808 * Ten(k) by {
      FloorBelow(u, 9_223_372_036_854_775_808 * Ten(k));
    }
    LessThanProduct(whole, Pow(Decimal, 19), Ten(k));
  }

  lemma {:induction false} WholeFits(u: real, whole: nat)
    requires u >= 0.0 && InReach(u) && whole <= u.Floor + 1
    ensures whole < Ten(118)
  {
    WholeBound(u, whole, 99);
  }

  lemma {:induction false} FloorBelow(u: real, bound: int)
    requires u < bound as real
    ensures u.Floor + 1 <= bound
  {
  }

  /** Lines 673-681: the integer part, and the fraction scaled and rounded, after the carry. */
  method SplitAndRound(fvalue: real, max: nat) returns (intpart: real, fracpart: real)
    requires max <= 16 && InReach(Abs(fvalue))
    ensures intpart == Whole(fvalue, max) as real && fracpart == Part(fvalue, max) as real
    ensures Whole(fvalue, max) < Ten(118) && Part(fvalue, max) < Ten(118)
  {
    hide InReach, Scaled, Shift, Whole, Part, Pow;
    var ufvalue := Abs(fvalue);
    var rest;
    rest, intpart := MyModf(ufvalue);
    SixteenDigits(max);
    var scale := Pow10(max);
    var fraction := scale * (ufvalue - intpart);
    ScaledFraction(scale, ufvalue - intpart, max);
    ghost var part := RoundSplit(fvalue, max, fraction);
    var rounded := Round(fraction);
    fracpart := rounded as real;
    CarryRight(fvalue, max, part);
    var limit := Pow10(max);
    if fracpart >= limit {
      intpart := intpart + 1.0;
      var carry := Pow10(max);
      fracpart := fracpart - carry;
    }
    WholeFits(ufvalue, Whole(fvalue, max));
    PowMonotone(Decimal, max, 118);
  }

  // ---- Digit extraction ----

  /** One turn of a digit loop. */
  lemma {:induction false} DigitStep(m: nat)
    ensures var temp := m as real * 0.1;
            && Trunc(temp) == m / 10
            && ((temp - (m / 10) as real + 0.05) * 10.0).Floor == m % 10
  {
    var temp, q, d := m as real * 0.1, m / 10, m % 10;
    assert m as real == 10.0 * q as real + d as real;
    FloorIs(temp, q);
    FloorIs((temp - q as real + 0.05) * 10.0, d);
  }

  lemma {:induction false} TenthInReach(m: nat, k: nat)
    requires m < Ten(k + 19)
    ensures Within(m as real * 0.1, k)
  {
    PowAdd(Decimal, 19, k);
    NineteenDigits();
    LessThanProduct(m, Pow(Decimal, 19), Ten(k));
  }

  lemma {:induction false} TenthFits(m: nat)
    requires m < Ten(118)
    ensures InReach(m as real * 0.1)
  {
    TenthInReach(m, 99);
  }

  lemma {:induction false} LessThanProduct(m: nat, c: nat, t: nat)
    requires c == 10_000_000_000_000_000_000 && m < c * t
    ensures m < 10_000_000_000_000_000_000 * t
  {
  }

  /** One turn of a digit loop. */
  method NextDigit(value: real, ghost m: nat) returns (digit: char, rest: real)
    requires value == m as real && m < Ten(118)
    ensures digit == DigitChar(m % 10, false) && rest == (m / 10) as real
  {
    hide InReach, DigitChar;
    var temp := value * 0.1;
    DigitStep(m);
    TenthFits(m);
    var fraction;
    fraction, rest := MyModf(temp);
    var index := ((temp - rest + 0.05) * 10.0).Floor;
    digit := DigitChar(index, false);
  }

  /** Either digit loop of fmtfp: the cells get the decimal digits of n, lowest first. The cut-off
      at the end of the array is never reached. */
  method ExtractDigits(cells: array<char>, v: real, ghost n: nat) returns (place: int)
    requires cells.Length == 311 && v == n as real && n < Ten(118)
    modifies cells
    ensures 1 <= place <= 118 && cells[..place] == DigitsLE(n, Decimal, false)
  {
    var value := v;
    place := 0;
    var more := true;
    ghost var m: nat := n;
    ghost var ds := DigitsLE(n, Decimal, false);
    DigitCount(n, Decimal, false, 118);
    while more
      invariant 0 <= place <= |ds| <= 118
      invariant value == m as real && m <= n
      invariant cells[..place] == ds[..place]
      invariant more ==> place < |ds| && ds[place..] == DigitsLE(m, Decimal, false)
      invariant !more ==> 1 <= place == |ds|
      decreases |ds| - place, more
    {
      var digit;
      digit, value := NextDigit(value, m);
      cells[place] := digit;
      place := place + 1;
      LaterDigits(ds, place - 1, m, Decimal, false);
      m := m / 10;
      more := value != 0.0 && place < 311;
    }
    if place == 311 {
      place := place - 1;
    }
    cells[place] := NUL;
  }

  // ---- The code ----

  method FmtFp(out: Sink, fvalue: real, min: int, max: int, flags: Flags)
    requires out.Valid() && InReach(Abs(fvalue))
    modifies out, out.buffer
    ensures out.Valid() && out.text == old(out.text) + FpText(fvalue, min, max, flags)
  {
    hide Sink.Valid, InReach, Prepared, FpLayout, FractionText, Whole, Part, Numeral, Backwards, SignText,
         FpLeft, Scaled, Pow;
    var max' := if max < 0 then 6 else max;
    var signvalue := FpSign(fvalue, flags);
    if max' > 16 {
      max' := 16;
    }
    var iconvert, fconvert := new char[311], new char[311];
    var iplace, fplace := Digits(fvalue, max', iconvert, fconvert);
    var padlen, zpadlen := FpPaddings(signvalue, iplace, fplace, min, max', flags);
    PutFp(out, padlen, signvalue, iconvert, iplace, max', zpadlen, fconvert, fplace, flags, fvalue, min);
  }

  method FpSign(fvalue: real, flags: Flags) returns (signvalue: char)
    ensures SignChars(signvalue) == SignText(fvalue < 0.0, flags)
    ensures signvalue == '-' <==> fvalue < 0.0
    ensures signvalue == '+' <==> fvalue >= 0.0 && flags.plus
    ensures signvalue == ' ' <==> fvalue >= 0.0 && !flags.plus && flags.space
  {
    signvalue := NUL;
    if fvalue < 0.0 {
      signvalue := '-';
    } else {
      if flags.plus {
        signvalue := '+';
      } else {
        if flags.space {
          signvalue := ' ';
        }
      }
    }
  }

  /** Lines 714-720. */
  method FpPaddings(signvalue: char, iplace: nat, fplace: nat, min: int, max: nat, flags: Flags)
    returns (padlen: int, zpadlen: nat)
    ensures padlen == FpLeft(|SignChars(signvalue)|, iplace, max, min, flags)
    ensures zpadlen == Max(0, max - fplace)
  {
    padlen := min - iplace - max - 1 - (if signvalue != NUL then 1 else 0);
    var zeros := max - fplace;
    if zeros < 0 {
      zeros := 0;
    }
    zpadlen := zeros;
    if padlen < 0 {
      padlen := 0;
    }
    if flags.minus {
      padlen := -padlen;
    }
  }

  /** Lines 673-711: both digit arrays. */
  method Digits(fvalue: real, max: nat, iconvert: array<char>, fconvert: array<char>) returns (iplace: nat, fplace: nat)
    requires max <= 16 && InReach(Abs(fvalue))
    requires iconvert.Length == fconvert.Length == 311 && iconvert != fconvert
    modifies iconvert, fconvert
    ensures iplace <= 118 && Backwards(iconvert[..iplace]) == Numeral(Whole(fvalue, max), Decimal, false)
    ensures fplace <= 118 && Backwards(fconvert[..fplace])
         == if Part(fvalue, max) == 0 then "" else Numeral(Part(fvalue, max), Decimal, false)
  {
    var intpart, fracpart := SplitAndRound(fvalue, max);
    iplace := ExtractDigits(iconvert, intpart, Whole(fvalue, max));
    fplace := 0;
    if fracpart != 0.0 {
      fplace := ExtractDigits(fconvert, fracpart, Part(fvalue, max));
    }
    fconvert[fplace] := NUL;
  }

  lemma {:induction false} FpLayoutParts(text: string, before: string, sign: string, digits: string, fraction: string,
                                         p: nat, min: int, flags: Flags, padlen: int)
    requires padlen == FpLeft(|sign|, |digits|, p, min, flags)
    requires text == before + Lead(padlen, sign, flags.zero) + digits + fraction + Repeat(' ', -padlen)
    ensures text == before + FpLayout(sign, digits, fraction, p, min, flags)
  {
  }

  /** The fraction's digits: a zero fraction has none of its own, the zeros before them do the rest. */
  lemma {:induction false} FixedParts(n: nat, p: nat, digits: string)
    requires n < Ten(p) && digits == if n == 0 then "" else Numeral(n, Decimal, false)
    ensures |digits| <= p && FixedDigits(n, p) == Repeat('0', p - |digits|) + digits
  {
    if p > 0 {
      DigitCount(n, Decimal, false, p);
      if n == 0 {
        assert Numeral(0, Decimal, false) == "0";
        RepeatNext('0', p - 1);
      }
    }
  }

  lemma {:induction false} FractionParts(x: real, p: nat, digits: string)
    requires digits == if Part(x, p) == 0 then "" else Numeral(Part(x, p), Decimal, false)
    ensures |digits| <= p
    ensures FractionText(x, p) == if p > 0 then "." + Repeat('0', p - |digits|) + digits else ""
  {
    FixedParts(Part(x, p), p, digits);
  }

  /** What stands before the digits. */
  function Lead(padding: int, sign: string, zero: bool): string {
    if zero && padding > 0 then sign + Repeat('0', padding - |sign|) else Repeat(' ', padding) + sign
  }

  /** What the digit arrays and paddings hold when the text of x is about to be put together. */
  ghost predicate Prepared(x: real, p: nat, min: int, flags: Flags, sign: string, digits: string, fraction: string,
                           padlen: int, zpadlen: int)
  {
    && sign == SignText(x < 0.0, flags)
    && digits == Numeral(Whole(x, p), Decimal, false)
    && fraction == (if Part(x, p) == 0 then "" else Numeral(Part(x, p), Decimal, false))
    && padlen == FpLeft(|sign|, |digits|, p, min, flags)
    && zpadlen == Max(0, p - |fraction|)
  }

  lemma {:induction false} FpTextParts(text: string, before: string, x: real, p: nat, min: int, flags: Flags,
                                       sign: string, digits: string, fraction: string, padlen: int, zpadlen: int)
    requires Prepared(x, p, min, flags, sign, digits, fraction, padlen, zpadlen)
    requires text == before + Lead(padlen, sign, flags.zero) + digits
                   + (if p > 0 then "." + Repeat('0', zpadlen) + fraction else "") + Repeat(' ', -padlen)
    ensures text == before + FpLayout(sign, digits, FractionText(x, p), p, min, flags)
  {
    FractionParts(x, p, fraction);
    FpLayoutParts(text, before, sign, digits, FractionText(x, p), p, min, flags, padlen);
  }

  /** Lines 722-766: the parts of the text in their order. */
  method PutFp(out: Sink, padlen: int, signvalue: char, iconvert: array<char>, iplace: nat, max: nat, zpadlen: nat,
               fconvert: array<char>, fplace: nat, flags: Flags, ghost x: real, ghost min: int)
    requires out.Valid() && iplace <= iconvert.Length && fplace <= fconvert.Length
    requires iconvert != out.buffer && fconvert != out.buffer
    requires Prepared(x, max, min, flags, SignChars(signvalue), Backwards(iconvert[..iplace]),
                      Backwards(fconvert[..fplace]), padlen, zpadlen)
    modifies out, out.buffer
    ensures out.Valid()
    ensures out.text == old(out.text) + FpLayout(SignChars(signvalue), old(Backwards(iconvert[..iplace])),
                                                 FractionText(x, max), max, min, flags)
  {
    ghost var digits, fraction := Backwards(iconvert[..iplace]), Backwards(fconvert[..fplace]);
    PutLead(out, padlen, signvalue, flags);
    PutNumber(out, iconvert, iplace, max, zpadlen, fconvert, fplace);
    out.Pad(' ', -padlen);
    FpTextParts(out.text, old(out.text), x, max, min, flags, SignChars(signvalue), digits, fraction, padlen, zpadlen);
  }

  /** Lines 740-761: the digits and the point. */
  method PutNumber(out: Sink, iconvert: array<char>, iplace: nat, max: nat, zpadlen: int, fconvert: array<char>,
                   fplace: nat)
    requires out.Valid() && iplace <= iconvert.Length && fplace <= fconvert.Length
    requires iconvert != out.buffer && fconvert != out.buffer
    modifies out, out.buffer
    ensures out.Valid()
    ensures out.text == old(out.text) + old(Backwards(iconvert[..iplace]))
                      + if max > 0 then "." + Repeat('0', zpadlen) + old(Backwards(fconvert[..fplace])) else ""
  {
    out.PutBackwards(iconvert, iplace);
    if max > 0 {
      out.Put('.');
      out.Pad('0', zpadlen);
      out.PutBackwards(fconvert, fplace);
    }
  }

  /** Lines 722-738: padding on the left, and the sign. */
  method PutLead(out: Sink, padding: int, sign: char, flags: Flags)
    requires out.Valid()
    modifies out, out.buffer
    ensures out.Valid() && out.text == old(out.text) + Lead(padding, SignChars(sign), flags.zero)
  {
    var padlen, signvalue := padding, sign;
    if flags.zero && padlen > 0 {
      if signvalue != NUL {
        out.Put(signvalue);
        padlen := padlen - 1;
        signvalue := NUL;
      }
      out.Pad('0', padlen);
      padlen := 0;
    }
    out.Pad(' ', padlen);
    out.PutSign(signvalue);
  }
}
