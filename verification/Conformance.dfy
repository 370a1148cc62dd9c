/** Where the printers agree with C99, and where they do not: exact conditions for every input. */
module Conformance {
  import opened Text
  import opened Numerals
  import opened FormatFlags
  import opened FmtInt
  import opened FmtStr
  import opened FmtFp
  import opened Modf
  import opened FpLaws
  import opened Format
  import opened Render
  import opened Standard
  import opened Laws

  /** The code's precision and C99's. They differ for a lone point, which the code takes for none. */
  predicate Corresponds(max: int, prec: int) {
    prec == max || LonePoint(max, prec)
  }

  predicate LonePoint(max: int, prec: int) {
    max == -1 && prec == 0
  }

  // ---- Strings ----

  /** What `%s` prints: the padded string, cut no shorter than the width; all of it without a
      precision; nothing for a starred precision below -1. */
  lemma {:induction false} StringPrints(v: string, flags: Flags, min: int, max: int)
    ensures StrText(v, flags, min, StringMax(|v|, min, max))
         == if max == -1 then Fill(v, flags.minus, min)
            else if max < -1 then ""
            else Take(Fill(v, flags.minus, min), Max(min, max))
    ensures max == -1 ==> |StrText(v, flags, min, StringMax(|v|, min, max))| == Max(|v|, min)
  {
  }

  predicate Blanks(s: string) {
    forall i :: 0 <= i < |s| ==> s[i] == ' '
  }

  /** The part of the string that must be blank when it is cut too late: what is behind the cut, or,
      aligned to the right, all that is shown. */
  function Exposed(v: string, minus: bool, min: nat, max: nat): string
    requires max < |v| && max < min
  {
    var shown := Min(min, |v|);
    if minus then v[max..shown] else v[..shown]
  }

  /** A negative width must not ask for padding; a precision must not be below the width, unless the
      string is no longer than it or what it leaves too much is blank; without a precision nothing
      else matters, but one below -1 and a lone point have to meet a blank or empty string. */
  predicate StringAgrees(v: string, flags: Flags, min: int, max: int, prec: int) {
    if LonePoint(max, prec) then Blanks(v) && (if min < 0 then |v| == -min else |v| <= min)
    else if max < -1 then v == "" && min == 0
    else if min < 0 then -min <= |v| && (max >= 0 ==> -min <= max)
    else max == -1 || |v| <= max || min <= max || Blanks(Exposed(v, flags.minus, min, max))
  }

  lemma {:induction false} StringAgreesIff(v: string, flags: Flags, min: int, max: int, prec: int)
    requires Corresponds(max, prec)
    ensures StrText(v, flags, min, StringMax(|v|, min, max)) == StdString(v, flags, min, prec)
       <==> StringAgrees(v, flags, min, max, prec)
  {
    StringPrints(v, flags, min, max);
    hide StrText, Fill, Blanks, Exposed;
    if LonePoint(max, prec) {
      LoneString(v, flags.minus, min);
      assert Take(v, 0) == "";
      assert Fill("", LeftAligned(flags, min), Width(min)) == Repeat(' ', Width(min)) by {
        FillNothing(LeftAligned(flags, min), Width(min));
      }
    } else if max < -1 {
      FillLength(v, LeftAligned(flags, min), Width(min));
    } else if min < 0 {
      NegativeField(v, flags.minus, min, max);
    } else if 0 <= max < |v| && min > max {
      CutLate(v, flags.minus, min, max);
    } else if max >= 0 {
      CutInTime(v, flags.minus, min, max);
    }
  }

  lemma {:induction false} FillNothing(left: bool, width: int)
    ensures Fill("", left, width) == Repeat(' ', width)
  {
  }

  lemma {:induction false} FillLength(s: string, left: bool, width: int)
    ensures |Fill(s, left, width)| == Max(|s|, width)
  {
  }

  lemma {:induction false} NegativeField(v: string, minus: bool, min: int, max: int)
    requires min < 0 && max >= -1
    ensures var ours := if max < 0 then Fill(v, minus, min) else Take(Fill(v, minus, min), Max(min, max));
            (ours == Fill(if max < 0 then v else Take(v, max), true, -min)
             <==> -min <= |v| && (max >= 0 ==> -min <= max))
  {
    assert Repeat(' ', min - |v|) == "" && Fill(v, minus, min) == v;
    var shown := if max < 0 then v else Take(v, max);
    if -min <= |shown| {
      assert Repeat(' ', -min - |shown|) == "";
    }
  }

  lemma {:induction false} CutInTime(v: string, minus: bool, min: nat, max: nat)
    requires |v| <= max || min <= max
    ensures Take(Fill(v, minus, min), Max(min, max)) == Fill(Take(v, max), minus, min)
  {
    if |v| <= max {
      assert Take(v, max) == v;
    }
  }

  lemma {:induction false} CutLate(v: string, minus: bool, min: nat, max: nat)
    requires max < |v| && max < min
    ensures Take(Fill(v, minus, min), min) == Fill(Take(v, max), minus, min) <==> Blanks(Exposed(v, minus, min, max))
  {
    if minus {
      CutLateLeft(v, min, max);
    } else {
      CutLateRight(v, min, max);
    }
  }

  lemma {:induction false} LoneString(v: string, minus: bool, min: int)
    ensures Fill(v, minus, min) == Repeat(' ', Width(min))
       <==> Blanks(v) && (if min < 0 then |v| == -min else |v| <= min)
  {
    var ours := Fill(v, minus, min);
    var from := if minus then 0 else Max(0, min - |v|);
    assert forall i :: 0 <= i < |v| ==> ours[from + i] == v[i];
  }

  lemma {:induction false} CutLateLeft(v: string, min: nat, max: nat)
    requires max < |v| && max < min
    ensures Take(Fill(v, true, min), min) == Fill(Take(v, max), true, min) <==> Blanks(Exposed(v, true, min, max))
  {
    var ours, theirs := Take(Fill(v, true, min), min), Fill(Take(v, max), true, min);
    var shown := Min(min, |v|);
    assert |ours| == min == |theirs|;
    assert forall i :: max <= i < shown ==> ours[i] == v[max..shown][i - max] && theirs[i] == ' ';
    assert forall i :: 0 <= i < max ==> ours[i] == v[i] == theirs[i];
    assert forall i :: shown <= i < min ==> ours[i] == ' ' == theirs[i];
    if ours == theirs {
      forall i | 0 <= i < shown - max
        ensures v[max..shown][i] == ' '
      {
        assert ours[max + i] == theirs[max + i];
      }
    }
  }

  lemma {:induction false} CutLateRight(v: string, min: nat, max: nat)
    requires max < |v| && max < min
    ensures Take(Fill(v, false, min), min) == Fill(Take(v, max), false, min) <==> Blanks(Exposed(v, false, min, max))
  {
    var ours, theirs := Take(Fill(v, false, min), min), Fill(Take(v, max), false, min);
    var shown, from := Min(min, |v|), Max(0, min - |v|);
    hide Fill, Take, Blanks, Earlier;
    RightAligned(v, min, max, shown, from);
    if ours == theirs {
      forall i | 0 <= i < shown
        ensures v[i] == Earlier(v, i, shown - max)
      {
        assert ours[from + i] == theirs[from + i];
      }
      BlankRun(v, shown, shown - max);
    } else if Blanks(v[..shown]) {
      BothBlank(v, min, max, shown, from, ours, theirs);
    }
  }

  /** What the code and C99 show in a field aligned to the right. */
  lemma {:induction false} RightAligned(v: string, min: nat, max: nat, shown: nat, from: nat)
    requires max < |v| && max < min && shown == Min(min, |v|) && from == Max(0, min - |v|)
    ensures var ours, theirs := Take(Fill(v, false, min), min), Fill(Take(v, max), false, min);
            && |ours| == min == |theirs| == from + shown
            && (forall j :: 0 <= j < from ==> ours[j] == ' ' == theirs[j])
            && (forall j :: from <= j < min ==> ours[j] == v[j - from])
            && (forall j :: from <= j < min ==> theirs[j] == Earlier(v, j - from, shown - max))
  {
    var taken := Take(v, max);
    assert |taken| == max && Fill(taken, false, min) == Repeat(' ', min - max) + taken;
  }

  lemma {:induction false} BothBlank(v: string, min: nat, max: nat, shown: nat, from: nat, ours: string, theirs: string)
    requires max < shown <= |v| && |ours| == min == |theirs| == from + shown && Blanks(v[..shown])
    requires forall j :: 0 <= j < from ==> ours[j] == ' ' == theirs[j]
    requires forall j :: from <= j < min ==> ours[j] == v[j - from]
    requires forall j :: from <= j < min ==> theirs[j] == Earlier(v, j - from, shown - max)
    ensures ours == theirs
  {
    assert forall i :: 0 <= i < shown ==> v[i] == v[..shown][i];
  }

  function Earlier(v: string, i: nat, shift: int): char
    requires i < |v| && shift > 0
  {
    if i < shift then ' ' else v[i - shift]
  }

  /** A text that starts blank and repeats itself is blank. */
  lemma {:induction false} BlankRun(v: string, n: nat, shift: nat)
    requires 0 < shift && n <= |v|
    requires forall i :: 0 <= i < n ==> v[i] == Earlier(v, i, shift)
    ensures Blanks(v[..n])
    decreases n
  {
    if n > 0 {
      BlankRun(v, n - 1, shift);
      assert n > shift ==> v[n - 1] == v[..n - 1][n - 1 - shift];
    }
  }

  // ---- Integers: the layout ----

  /** Where the width leaves the layouts the same. `columns` is what sign, zeros and digits take, and
      `raised` says that the number flag asks for one zero more. */
  predicate FieldAgrees(columns: nat, raised: bool, min: int, specified: bool, flags: Flags) {
    if min < 0 then !raised && -min <= columns
    else if !flags.zero then !raised
    else if flags.minus || specified then (if raised then min == columns + 1 else min <= columns)
    else raised ==> min > columns
  }

  /** The digits behind the zeros that C99 asks for. */
  function Body(digits: string, max: int, raised: bool): string {
    Repeat('0', Max(0, max - |digits|) + if raised then 1 else 0) + digits
  }

  lemma {:induction false} LayoutAgreesIff(sign: string, digits: string, raised: bool, min: int, max: int,
                                           specified: bool, flags: Flags)
    requires |sign| <= 1 && digits != "" && AllInk(digits) && (max > 0 ==> specified)
    requires raised ==> sign == "" && digits[0] != '0' && max <= |digits|
    ensures Layout(sign, digits, min, max, flags)
            == Field(sign, Body(digits, max, raised), flags.zero && !specified, flags, min)
       <==> FieldAgrees(|sign| + Max(Max(max, 0), |digits|), raised, min, specified, flags)
  {
    var columns := |sign| + Max(Max(max, 0), |digits|);
    if min < 0 {
      NegativeWidth(sign, digits, raised, min, max, specified, flags);
    } else if raised {
      RaisedField(digits, min, max, specified, flags);
    } else if flags.zero && (flags.minus || specified) && min > columns {
      ZeroFlagDiffers(sign, digits, min, max, specified, flags);
    } else {
      PlainField(sign, digits, min, max, specified, flags);
    }
  }

  lemma {:induction false} NegativeWidth(sign: string, digits: string, raised: bool, min: int, max: int,
                                         specified: bool, flags: Flags)
    requires min < 0
    ensures Layout(sign, digits, min, max, flags)
            == Field(sign, Body(digits, max, raised), flags.zero && !specified, flags, min)
       <==> !raised && -min <= |sign| + Max(Max(max, 0), |digits|)
  {
    var ours := Layout(sign, digits, min, max, flags);
    assert |ours| == |sign| + Max(Max(max, 0), |digits|);
    assert |Body(digits, max, raised)| == Max(Max(max, 0), |digits|) + if raised then 1 else 0;
    if !raised && -min <= |ours| {
      assert Repeat(' ', 0) == "";
      assert ours == sign + Body(digits, max, false);
    }
  }

  lemma {:induction false} PlainField(sign: string, digits: string, min: int, max: int, specified: bool, flags: Flags)
    requires min >= 0 && (max > 0 ==> specified)
    requires flags.zero && (flags.minus || specified) ==> min <= |sign| + Max(Max(max, 0), |digits|)
    ensures Layout(sign, digits, min, max, flags)
         == Field(sign, Body(digits, max, false), flags.zero && !specified, flags, min)
  {
    hide Layout, Field;
    if min <= |sign| + Max(Max(max, 0), |digits|) {
      NothingFilled(sign, digits, min, max, flags.zero && !specified, flags);
    } else if flags.zero {
      ZerosFilled(sign, digits, min, max, flags);
    } else {
      SpacesFilled(sign, digits, min, max, flags);
    }
  }

  lemma {:induction false} NothingFilled(sign: string, digits: string, min: nat, max: int, zero: bool, flags: Flags)
    requires min <= |sign| + Max(Max(max, 0), |digits|)
    ensures Layout(sign, digits, min, max, flags) == Field(sign, Body(digits, max, false), zero, flags, min)
  {
    hide Layout, Field;
    NoSlack(sign, digits, min, max, flags);
    NoFill(sign, Body(digits, max, false), zero, flags, min);
  }

  lemma {:induction false} NoSlack(sign: string, digits: string, min: nat, max: int, flags: Flags)
    requires min <= |sign| + Max(Max(max, 0), |digits|)
    ensures Layout(sign, digits, min, max, flags) == sign + Body(digits, max, false)
  {
    assert Slack(|sign|, |digits|, min, max) == 0 && Repeat(' ', 0) == "";
  }

  lemma {:induction false} NoFill(lead: string, body: string, zero: bool, flags: Flags, min: nat)
    requires min <= |lead| + |body|
    ensures Field(lead, body, zero, flags, min) == lead + body
  {
    assert Repeat(' ', 0) == "" == Repeat('0', 0);
  }

  lemma {:induction false} ZerosFilled(sign: string, digits: string, min: nat, max: int, flags: Flags)
    requires min > |sign| + |digits| && max <= 0 && flags.zero && !flags.minus
    ensures Layout(sign, digits, min, max, flags) == Field(sign, Body(digits, max, false), true, flags, min)
  {
    assert Repeat(' ', 0) == "" == Repeat('0', 0);
  }

  lemma {:induction false} SpacesFilled(sign: string, digits: string, min: nat, max: int, flags: Flags)
    requires min > |sign| + Max(Max(max, 0), |digits|) && !flags.zero
    ensures Layout(sign, digits, min, max, flags) == Field(sign, Body(digits, max, false), false, flags, min)
  {
    assert Repeat(' ', 0) == "";
  }

  lemma {:induction false} ZeroFlagDiffers(sign: string, digits: string, min: int, max: int, specified: bool,
                                           flags: Flags)
    requires |sign| <= 1 && digits != "" && AllInk(digits)
    requires flags.zero && (flags.minus || specified) && min > |sign| + Max(Max(max, 0), |digits|)
    ensures Layout(sign, digits, min, max, flags)
         != Field(sign, Body(digits, max, false), flags.zero && !specified, flags, min)
  {
    var zeros := Zeros(|sign|, |digits|, min, max, true);
    var core := sign + Body(digits, max, false);
    assert |core| == |sign| + Max(Max(max, 0), |digits|) < min;
    assert Layout(sign, digits, min, max, flags) == sign + Repeat('0', zeros) + digits;
    Blank(sign, zeros, digits, core, flags.minus, min);
  }

  /** Zeros behind the sign, or spaces around the number: never the same text. */
  lemma {:induction false} Blank(sign: string, zeros: nat, digits: string, core: string, left: bool, min: int)
    requires |sign| <= 1 && digits != "" && AllInk(digits) && zeros > 0
    requires sign <= core && |core| < min
    ensures sign + Repeat('0', zeros) + digits != Fill(core, left, min)
  {
    var ours, theirs := sign + Repeat('0', zeros) + digits, Fill(core, left, min);
    if left {
      assert theirs[|theirs| - 1] == ' ' && ours[|ours| - 1] == digits[|digits| - 1];
    } else if sign == " " {
      assert core[0] == ' ' && theirs[1] == ' ' && ours[1] == '0';
    } else {
      assert theirs[0] == ' ' && ours[0] != ' ';
    }
  }

  /** With the octal zero: only zero padding can supply it, and it must not supply more than one
      where C99 pads with spaces. */
  lemma {:induction false} RaisedField(digits: string, min: nat, max: int, specified: bool, flags: Flags)
    requires digits != "" && AllInk(digits) && digits[0] != '0' && max <= |digits|
    ensures Layout("", digits, min, max, flags)
            == Field("", Body(digits, max, true), flags.zero && !specified, flags, min)
       <==> FieldAgrees(|digits|, true, min, specified, flags)
  {
    var ours, theirs := Layout("", digits, min, max, flags),
                        Field("", Body(digits, max, true), flags.zero && !specified, flags, min);
    assert Body(digits, max, true) == "0" + digits;
    assert |ours| == Max(min, |digits|) && |theirs| == Max(min, |digits| + 1);
    if min > |digits| {
      if !flags.zero {
        assert if flags.minus then ours[0] == digits[0] && theirs[0] == '0'
               else ours[min - |digits| - 1] == ' ' && theirs[min - |digits| - 1] == '0';
      } else {
        ZeroFilled(digits, min, max, specified, flags);
      }
    }
  }

  lemma {:induction false} ZeroFilled(digits: string, min: nat, max: int, specified: bool, flags: Flags)
    requires digits != "" && AllInk(digits) && max <= |digits| < min && flags.zero
    ensures Layout("", digits, min, max, flags) == Field("", "0" + digits, !specified, flags, min)
       <==> !(flags.minus || specified) || min == |digits| + 1
  {
    var ours := Layout("", digits, min, max, flags);
    assert Repeat(' ', 0) == "";
    assert ours == Repeat('0', min - |digits|) + digits;
    if flags.minus || specified {
      var theirs := Fill("0" + digits, flags.minus, min);
      if min > |digits| + 1 {
        assert if flags.minus then theirs[min - 1] == ' ' && ours[min - 1] == digits[|digits| - 1]
               else theirs[0] == ' ' && ours[0] == '0';
      }
    } else {
      RepeatNext('0', min - |digits| - 1);
    }
  }

  // ---- Integers: the number ----

  /** C99 asks for no digit at all. */
  predicate NoDigit(n: int, base: Base, flags: Flags, prec: int) {
    n == 0 && prec == 0 && !(flags.num && base == Octal)
  }

  predicate Prefixed(n: int, base: Base, flags: Flags) {
    flags.num && base == Hex && n != 0
  }

  /** The number flag makes C99 put a zero in front. */
  predicate Raised(n: int, base: Base, flags: Flags, prec: int) {
    flags.num && base == Octal && n != 0 && prec <= |Numeral(Magnitude(n), base, flags.up)|
  }

  /** 19 digits hold the number, C99 asks for a digit and for no prefix, and the width leaves the
      layouts the same. */
  predicate NumberAgrees(n: int, base: Base, min: int, max: int, prec: int, flags: Flags) {
    && Magnitude(n) < Pow(base, 19)
    && !NoDigit(n, base, flags, prec) && !Prefixed(n, base, flags)
    && var columns := |StdIntSign(n, flags)| + Max(Max(max, 0), |Numeral(Magnitude(n), base, flags.up)|);
       FieldAgrees(columns, Raised(n, base, flags, prec), min, prec >= 0, flags)
  }

  /** The conversion prints the number it is given, and prints it alike. */
  predicate IntAgrees(value: int, n: int, base: Base, min: int, max: int, prec: int, flags: Flags)
    requires IsLong(value)
  {
    n == Meant(value, flags) && NumberAgrees(n, base, min, max, prec, flags)
  }

  /** The text is C99's text for n. The premise on value and n holds for every conversion, since only
      an h modifier makes C99 print another number than the argument. */
  lemma {:induction false} IntAgreesIff(value: int, n: int, base: Base, min: int, max: int, prec: int, flags: Flags)
    requires IsLong(value) && Corresponds(max, prec) && (flags.unsigned || base == Decimal)
    requires flags.unsigned ==> n >= 0
    requires n == Meant(value, flags) || Shown(value, flags.unsigned) < Pow(base, 19)
    ensures IntText(value, base, min, max, flags) == StdInt(n, base, flags, min, prec)
       <==> IntAgrees(value, n, base, min, max, prec, flags)
  {
    hide IntText, StdInt, FieldAgrees, Raised, Shown, Meant, Pow;
    if Prefixed(n, base, flags) {
      PrefixDiffers(value, n, base, min, max, prec, flags);
    } else if NoDigit(n, base, flags, prec) {
      NoDigitDiffers(value, n, base, min, max, prec, flags);
    } else if n != Meant(value, flags) || Magnitude(n) >= Pow(base, 19) {
      NumberDiffers(value, n, base, min, max, prec, flags);
    } else {
      SameNumber(value, n, base, min, max, prec, flags);
    }
  }

  /** The layout of the code never shows an x. */
  lemma {:induction false} NoX(value: int, base: Base, min: int, max: int, flags: Flags)
    requires IsLong(value)
    ensures forall i :: 0 <= i < |IntText(value, base, min, max, flags)| ==>
              IntText(value, base, min, max, flags)[i] !in {'x', 'X'}
  {
    hide IntText, IntDigits;
    var left, zeros, right := IntShape(value, base, min, max, flags);
    DigitsNoX(value, base, flags);
  }

  lemma {:induction false} DigitsNoX(value: int, base: Base, flags: Flags)
    requires IsLong(value)
    ensures forall i :: 0 <= i < |IntDigits(value, base, flags)| ==> IntDigits(value, base, flags)[i] !in {'x', 'X'}
  {
    NoXInDigits(Shown(value, flags.unsigned), base, flags.up);
  }

  lemma {:induction false} NoXInDigits(n: nat, base: Base, caps: bool)
    ensures forall i :: 0 <= i < |DigitsLE(n, base, caps)| ==> DigitsLE(n, base, caps)[i] !in {'x', 'X'}
    decreases n
  {
    assert DigitChar(Rem(n, base), caps) !in {'x', 'X'} by {
      DigitRoundTrip(Rem(n, base), caps);
      NoXDigit(Rem(n, base), caps);
    }
    if Quot(n, base) != 0 {
      NoXInDigits(Quot(n, base), base, caps);
    }
  }

  lemma {:induction false} NoXDigit(d: nat, caps: bool)
    requires d < 16
    ensures DigitChar(d, caps) !in {'x', 'X'}
  {
  }

  lemma {:induction false} PrefixDiffers(value: int, n: int, base: Base, min: int, max: int, prec: int, flags: Flags)
    requires IsLong(value) && Prefixed(n, base, flags)
    ensures IntText(value, base, min, max, flags) != StdInt(n, base, flags, min, prec)
  {
    hide IntText, StdBody;
    var lead := StdIntSign(n, flags) + StdPrefix(Magnitude(n), base, flags);
    var body := StdBody(Magnitude(n), base, flags, prec);
    var left, zeros, right := FieldGroups(lead, body, flags.zero && prec < 0, flags, min);
    NoX(value, base, min, max, flags);
    assert StdInt(n, base, flags, min, prec)[left + |lead| - 1] in {'x', 'X'};
  }

  lemma {:induction false} NoDigitDiffers(value: int, n: int, base: Base, min: int, max: int, prec: int, flags: Flags)
    requires IsLong(value) && NoDigit(n, base, flags, prec)
    ensures IntText(value, base, min, max, flags) != StdInt(n, base, flags, min, prec)
  {
    hide IntText, IntDigits, StdInt;
    var left, zeros, right := IntShape(value, base, min, max, flags);
    var k := left + |IntSign(value, flags)| + zeros;
    var ours := IntText(value, base, min, max, flags);
    assert ours[k] == IntDigits(value, base, flags)[0];
    NoDigits(n, base, flags, min, prec, k);
  }

  /** C99's text without digits: a sign and spaces. */
  lemma {:induction false} NoDigits(n: int, base: Base, flags: Flags, min: int, prec: int, k: nat)
    requires NoDigit(n, base, flags, prec)
    ensures var t := StdInt(n, base, flags, min, prec); k < |t| ==> !IsInk(t[k])
  {
    assert StdBody(0, base, flags, 0) == "" == StdPrefix(0, base, flags);
    hide StdBody, StdPrefix;
    FillNoInk(StdIntSign(0, flags), LeftAligned(flags, min), Width(min), k);
    assert StdIntSign(0, flags) + "" + "" == StdIntSign(0, flags);
  }

  lemma {:induction false} FillNoInk(s: string, left: bool, width: int, k: nat)
    requires s in {"", "-", "+", " "}
    ensures k < |Fill(s, left, width)| ==> !IsInk(Fill(s, left, width)[k])
  {
  }

  /** C99's text of a number, as a field around zeros and the numeral. */
  lemma {:induction false} StdParts(n: int, base: Base, flags: Flags, min: int, max: int, prec: int)
    requires Corresponds(max, prec) && !Prefixed(n, base, flags) && !NoDigit(n, base, flags, prec)
    ensures StdInt(n, base, flags, min, prec)
         == Field(StdIntSign(n, flags), Body(Numeral(Magnitude(n), base, flags.up), max, Raised(n, base, flags, prec)),
                  flags.zero && prec < 0, flags, min)
  {
    hide Field, Numeral;
    var digits := Numeral(Magnitude(n), base, flags.up);
    NumeralFirst(Magnitude(n), base, flags.up);
    assert StdIntSign(n, flags) + "" == StdIntSign(n, flags);
    BodyIs(Magnitude(n), base, flags, max, prec, digits);
  }

  lemma {:induction false} BodyIs(n: nat, base: Base, flags: Flags, max: int, prec: int, digits: string)
    requires Corresponds(max, prec) && !NoDigit(n, base, flags, prec)
    requires digits == Numeral(n, base, flags.up) && digits != "" && (digits[0] == '0' <==> n == 0)
    requires n == 0 ==> digits == "0"
    ensures StdBody(n, base, flags, prec) == Body(digits, max, Raised(n, base, flags, prec))
  {
    hide Numeral;
    assert Max(0, max - |digits|) == Max(0, prec - |digits|);
    if n == 0 && prec == 0 {
      assert StdDigits(n, base, flags.up, prec) == "";
    } else {
      assert StdDigits(n, base, flags.up, prec) == Repeat('0', prec - |digits|) + digits;
      if Raised(n, base, flags, prec) {
        assert Repeat('0', prec - |digits|) == "";
      }
    }
  }

  lemma {:induction false} NumberDiffers(value: int, n: int, base: Base, min: int, max: int, prec: int, flags: Flags)
    requires IsLong(value) && Corresponds(max, prec) && !Prefixed(n, base, flags) && !NoDigit(n, base, flags, prec)
    requires flags.unsigned ==> n >= 0
    requires n == Meant(value, flags) || Shown(value, flags.unsigned) < Pow(base, 19)
    requires n != Meant(value, flags) || Magnitude(n) >= Pow(base, 19)
    ensures IntText(value, base, min, max, flags) != StdInt(n, base, flags, min, prec)
  {
    StdReads(n, base, flags, min, max, prec);
    IntRoundTrip(value, base, min, max, flags);
    ShownByWrapping(value);
    hide IntText, StdInt, ReadInt, Pow;
  }

  lemma {:induction false} SignsDenote(n: int, flags: Flags)
    requires flags.unsigned ==> n >= 0
    ensures StdIntSign(n, flags) in {"", "-", "+", " "} && WithSign(StdIntSign(n, flags) == "-", Magnitude(n)) == n
  {
  }

  /** C99's text denotes the number. */
  lemma {:induction false} StdReads(n: int, base: Base, flags: Flags, min: int, max: int, prec: int)
    requires Corresponds(max, prec) && !Prefixed(n, base, flags) && !NoDigit(n, base, flags, prec)
    requires flags.unsigned ==> n >= 0
    ensures ReadInt(StdInt(n, base, flags, min, prec), base) == n
  {
    hide Numeral, Raised, ReadInt, Field, StdInt, StdIntSign, Value, IsInk, Pow, Magnitude, DigitsLE;
    StdParts(n, base, flags, min, max, prec);
    var digits, raised := Numeral(Magnitude(n), base, flags.up), Raised(n, base, flags, prec);
    NumeralFirst(Magnitude(n), base, flags.up);
    NumeralDenotes(Magnitude(n), base, flags.up);
    SignsDenote(n, flags);
    var sign, body := StdIntSign(n, flags), Body(digits, max, raised);
    var left, zeros, right := FieldGroups(sign, body, flags.zero && prec < 0, flags, min);
    var more := Max(0, max - |digits|) + if raised then 1 else 0;
    assert Repeat('0', zeros) + body == Repeat('0', zeros + more) + digits;
    PaddedReads(left, sign, zeros + more, digits, right, base);
    ValueZeroPadded(zeros + more, digits, base);
  }

  lemma {:induction false} SameNumber(value: int, n: int, base: Base, min: int, max: int, prec: int, flags: Flags)
    requires IsLong(value) && Corresponds(max, prec) && !Prefixed(n, base, flags) && !NoDigit(n, base, flags, prec)
    requires flags.unsigned || base == Decimal
    requires n == Meant(value, flags) && Magnitude(n) < Pow(base, 19)
    ensures IntText(value, base, min, max, flags) == StdInt(n, base, flags, min, prec)
       <==> IntAgrees(value, n, base, min, max, prec, flags)
  {
    var sign, digits := StdIntSign(n, flags), Numeral(Magnitude(n), base, flags.up);
    var raised := Raised(n, base, flags, prec);
    hide Numeral, StdInt, Layout, Field, FieldAgrees, Raised, StdIntSign, AllInk, Pow, IntDigits, IntSign, Body,
         DigitsLE;
    StdParts(n, base, flags, min, max, prec);
    SameParts(value, n, base, flags);
    NumeralFirst(Magnitude(n), base, flags.up);
    RaisedUnsigned(n, base, prec, flags);
    LayoutAgreesIff(sign, digits, raised, min, max, prec >= 0, flags);
  }

  lemma {:induction false} KeptAll(n: nat, base: Base, caps: bool)
    requires |DigitsLE(n, base, caps)| <= 19
    ensures Backwards(KeptDigits(n, base, caps)) == Numeral(n, base, caps)
  {
  }

  lemma {:induction false} SameParts(value: int, n: int, base: Base, flags: Flags)
    requires IsLong(value) && n == Meant(value, flags) && Magnitude(n) < Pow(base, 19)
    ensures IntSign(value, flags) == StdIntSign(n, flags)
    ensures IntDigits(value, base, flags) == Numeral(Magnitude(n), base, flags.up)
  {
    hide Pow, DigitsLE;
    ShownByWrapping(value);
    DigitCount(Magnitude(n), base, flags.up, 19);
    KeptAll(Shown(value, flags.unsigned), base, flags.up);
    hide KeptDigits, Backwards;
    assert Shown(value, flags.unsigned) == Magnitude(n);
  }

  lemma {:induction false} RaisedUnsigned(n: int, base: Base, prec: int, flags: Flags)
    requires flags.unsigned || base == Decimal
    ensures |StdIntSign(n, flags)| <= 1
    ensures Raised(n, base, flags, prec) ==>
              StdIntSign(n, flags) == "" && n != 0 && prec <= |Numeral(Magnitude(n), base, flags.up)|
  {
  }

  // ---- Reals ----

  /** Digits behind the point; -1 when there is no point. */
  function PlacesShown(s: string): int {
    var t := Unsigned(s);
    |t| - PointAt(t) - 1
  }

  lemma {:induction false} PlacesRead(left: nat, sign: string, whole: string, tail: string, right: nat)
    requires sign in {"", "-", "+", " "} && whole != "" && AllInk(whole)
    requires tail != "" ==> tail[0] == '.' && tail[|tail| - 1] != ' '
    ensures PlacesShown(Repeat(' ', left) + sign + (whole + tail) + Repeat(' ', right)) == |tail| - 1
  {
    hide Unsigned, IsNegative;
    UnsignedPadded(left, sign, whole + tail, right);
    PointAfter(whole, tail);
  }

  lemma {:induction false} WholeInk(x: real, p: nat, zeros: nat)
    ensures var whole := Repeat('0', zeros) + Numeral(Whole(x, p), Decimal, false); whole != "" && AllInk(whole)
  {
    DigitsLEChars(Whole(x, p), Decimal, false);
  }

  lemma {:induction false} TailInk(x: real, p: nat, flags: Flags)
    ensures var tail := StdFraction(x, p, flags);
            && (tail != "" ==> tail[0] == '.' && tail[|tail| - 1] != ' ')
            && |tail| == (if p > 0 then p + 1 else if flags.num then 1 else 0)
            && (p > 0 || !flags.num ==> tail == FractionText(x, p))
  {
    hide Scaled, FixedDigits;
    FixedDigitsDenote(Part(x, p), p);
  }

  lemma {:induction false} StdPlaces(x: real, flags: Flags, min: int, prec: int)
    ensures PlacesShown(StdFp(x, flags, min, prec)) == |StdFraction(x, Places(prec), flags)| - 1
  {
    hide PlacesShown, Field, Whole, StdFraction, Numeral, Repeat, Places, AllInk;
    var p := Places(prec);
    var sign, digits, tail := StdSign(x < 0.0, flags), Numeral(Whole(x, p), Decimal, false), StdFraction(x, p, flags);
    var left, zeros, right := FieldGroups(sign, digits + tail, flags.zero, flags, min);
    WholeInk(x, p, zeros);
    TailInk(x, p, flags);
    assert Repeat('0', zeros) + (digits + tail) == (Repeat('0', zeros) + digits) + tail;
    PlacesRead(left, sign, Repeat('0', zeros) + digits, tail, right);
  }

  lemma {:induction false} OurPlaces(x: real, min: int, max: int, flags: Flags)
    ensures PlacesShown(FpText(x, min, max, flags)) == |FractionText(x, Precision(max))| - 1
  {
    hide PlacesShown, FpLayout, Whole, FractionText, Numeral;
    var p := Precision(max);
    var sign, digits, tail := SignText(x < 0.0, flags), Numeral(Whole(x, p), Decimal, false), FractionText(x, p);
    var left, zeros, right := FpGroups(sign, digits, tail, p, min, flags);
    WholeInk(x, p, zeros);
    TailInk(x, p, NO_FLAGS);
    PlacesRead(left, sign, Repeat('0', zeros) + digits, tail, right);
  }

  /** Where the width leaves the layouts the same: with no places or with zeros behind a sign, the
      code fills one column too few. */
  predicate FpFieldAgrees(sign: nat, columns: nat, p: nat, min: int, flags: Flags) {
    if min < 0 then -min <= columns
    else min <= columns || (p > 0 && (sign == 0 || !flags.zero || flags.minus))
  }

  predicate FpAgrees(x: real, min: int, max: int, prec: int, flags: Flags) {
    && !LonePoint(max, prec) && prec <= 16 && !(prec == 0 && flags.num)
    && var p := Places(prec);
       var sign := |StdSign(x < 0.0, flags)|;
       var columns := sign + |Numeral(Whole(x, p), Decimal, false)| + if p == 0 then 0 else p + 1;
       FpFieldAgrees(sign, columns, p, min, flags)
  }

  lemma {:induction false} FpAgreesIff(x: real, min: int, max: int, prec: int, flags: Flags)
    requires Corresponds(max, prec)
    ensures FpText(x, min, max, flags) == StdFp(x, flags, min, prec) <==> FpAgrees(x, min, max, prec, flags)
  {
    hide FpText, StdFp, FractionText, StdFraction, PlacesShown, FpFieldAgrees, FpLayout, Field, Whole, Numeral;
    var p, ours := Places(prec), Precision(max);
    StdPlaces(x, flags, min, prec);
    OurPlaces(x, min, max, flags);
    TailInk(x, p, flags);
    TailInk(x, ours, NO_FLAGS);
    if p == ours && !(p == 0 && flags.num) {
      SameReal(x, min, max, prec, flags);
    }
  }

  lemma {:induction false} SameReal(x: real, min: int, max: int, prec: int, flags: Flags)
    requires Precision(max) == Places(prec) && !(Places(prec) == 0 && flags.num)
    ensures var p := Places(prec);
            var sign := |StdSign(x < 0.0, flags)|;
            var columns := sign + |Numeral(Whole(x, p), Decimal, false)| + if p == 0 then 0 else p + 1;
            FpText(x, min, max, flags) == StdFp(x, flags, min, prec) <==> FpFieldAgrees(sign, columns, p, min, flags)
  {
    hide FpLayout, Field, Whole, FractionText, StdFraction, FpFieldAgrees, Numeral;
    var p := Places(prec);
    TailInk(x, p, flags);
    FpLayoutAgreesIff(SignText(x < 0.0, flags), Numeral(Whole(x, p), Decimal, false), FractionText(x, p), p, min,
                      flags);
  }

  lemma {:induction false} FpLayoutAgreesIff(sign: string, digits: string, fraction: string, p: nat, min: int,
                                             flags: Flags)
    requires |sign| <= 1 && |fraction| == if p == 0 then 0 else p + 1
    ensures FpLayout(sign, digits, fraction, p, min, flags) == Field(sign, digits + fraction, flags.zero, flags, min)
       <==> FpFieldAgrees(|sign|, |sign| + |digits| + |fraction|, p, min, flags)
  {
    if FpFieldAgrees(|sign|, |sign| + |digits| + |fraction|, p, min, flags) {
      FpLayoutAgrees(sign, digits, fraction, p, min, flags);
    } else {
      FpLayoutDiffers(sign, digits, fraction, p, min, flags);
    }
  }

  lemma {:induction false} FpLayoutAgrees(sign: string, digits: string, fraction: string, p: nat, min: int,
                                          flags: Flags)
    requires |sign| <= 1 && |fraction| == if p == 0 then 0 else p + 1
    requires FpFieldAgrees(|sign|, |sign| + |digits| + |fraction|, p, min, flags)
    ensures FpLayout(sign, digits, fraction, p, min, flags) == Field(sign, digits + fraction, flags.zero, flags, min)
  {
    var number := digits + fraction;
    var left, zeros, right := FpGroups(sign, digits, fraction, p, min, flags);
    var left', zeros', right' := FieldGroups(sign, number, flags.zero, flags, min);
    hide FpLayout, Field;
    assert left == left' && zeros == zeros' && right == right';
    assert Repeat('0', zeros) + digits + fraction == Repeat('0', zeros) + number;
  }

  lemma {:induction false} FpLayoutDiffers(sign: string, digits: string, fraction: string, p: nat, min: int,
                                           flags: Flags)
    requires |sign| <= 1 && |fraction| == if p == 0 then 0 else p + 1
    requires !FpFieldAgrees(|sign|, |sign| + |digits| + |fraction|, p, min, flags)
    ensures FpLayout(sign, digits, fraction, p, min, flags) != Field(sign, digits + fraction, flags.zero, flags, min)
  {
    assert |FpLayout(sign, digits, fraction, p, min, flags)| < Width(min);
    var left, zeros, right := FieldGroups(sign, digits + fraction, flags.zero, flags, min);
  }

  // ---- Whole directives: C99's reading, from the directive and the arguments themselves ----

  function StdWidth(d: Directive, args: seq<Arg>): int
    requires d.widthStar ==> |args| > 0 && args[0].IntArg?
  {
    if d.widthStar then args[0].i else Value(d.width, Decimal)
  }

  /** A point without digits is zero. */
  function StdPrecision(d: Directive, args: seq<Arg>): int
    requires StarsFit(d, args)
  {
    if d.precStar then args[StarCount(d) - 1].i else if d.dot then Value(d.prec, Decimal) else -1
  }

  predicate PointAlone(d: Directive) {
    d.dot && d.prec == "" && !d.precStar
  }

  /** What C99 gives a meaning to, among the directives that the scanner knows: one star or digits,
      not both; the flags, modifiers and precision that the conversion allows. */
  predicate Defined(d: Directive) {
    && WellFormedDirective(d) && !(d.widthStar && d.width != "") && !(d.precStar && d.prec != "")
    && match d.conv
       case 'd' | 'i' | 'u' => d.modifier != LongDouble && '#' !in d.flags
       case 'o' | 'x' | 'X' => d.modifier != LongDouble
       case 'f' => d.modifier in {NoModifier, Long, LongDouble}
       case 's' => d.modifier == NoModifier && '#' !in d.flags && '0' !in d.flags
       case 'c' => d.modifier == NoModifier && '#' !in d.flags && '0' !in d.flags && !d.dot
       case _ => false
  }

  /** The flags with the conversion letter. */
  function StdFlags(d: Directive): Flags {
    FlagsNamed(d.flags).(unsigned := d.conv in {'o', 'u', 'x', 'X'}, up := d.conv == 'X')
  }

  /** The argument is of the type that C99 asks for. */
  predicate Serves(d: Directive, a: Arg) {
    match d.conv
    case 's' => a.StringArg?
    case 'c' => a.IntArg?
    case 'f' => if d.modifier == LongDouble then a.LongDoubleArg? else a.DoubleArg?
    case 'd' | 'i' => SignedFits(d.modifier, a)
    case _ => UnsignedFits(d.modifier, a)
  }

  function Number(a: Arg): int {
    match a
    case IntArg(i) => i
    case LongArg(l) => l
    case LongLongArg(ll) => ll
    case UIntArg(u) => u
    case ULongArg(ul) => ul
    case ULongLongArg(ull) => ull
    case _ => 0
  }

  /** An h modifier converts the argument to a short. */
  function StdNumber(d: Directive, a: Arg): int {
    if d.modifier != Short then Number(a)
    else if d.conv in {'d', 'i'} then (Number(a) + 0x8000) % 0x1_0000 - 0x8000
    else Number(a) % 0x1_0000
  }

  /** C99 leaves a null string open; the code's choice is taken. */
  function Chars(a: Arg): string
    requires a.StringArg?
  {
    if a == StringArg(None) then "(NULL)" else a.s.value
  }

  function Real(a: Arg): real
    requires a.DoubleArg? || a.LongDoubleArg?
  {
    if a.DoubleArg? then a.x else a.lx
  }

  /** C99's text for one directive, from the argument it prints, its width and its precision. */
  function StdText(d: Directive, a: Arg, min: int, prec: int): string
    requires Defined(d) && Serves(d, a)
  {
    match d.conv
    case 's' => StdString(Chars(a), StdFlags(d), min, prec)
    case 'c' => StdChar((a.i % 256) as char, StdFlags(d), min)
    case 'f' => StdFp(Real(a), StdFlags(d), min, prec)
    case _ => StdInt(StdNumber(d, a), BaseOf(d.conv), StdFlags(d), min, prec)
  }

  /** The condition under which the directive prints C99's text. */
  predicate Agrees(d: Directive, a: Arg, min: int, prec: int)
    requires Defined(d) && Serves(d, a)
  {
    var max := if PointAlone(d) then -1 else prec;
    match d.conv
    case 's' => StringAgrees(Chars(a), StdFlags(d), min, max, prec)
    case 'c' => -1 <= min <= 1
    case 'f' => FpAgrees(Real(a), min, max, prec, StdFlags(d))
    case _ => StdNumber(d, a) == Number(a) && NumberAgrees(Number(a), BaseOf(d.conv), min, max, prec, StdFlags(d))
  }

  /** On every directive that C99 defines, with any arguments of the right types, and reals below
      2^63 * 10^99, the print engine prints C99's text if and only if Agrees. */
  lemma {:induction false} DirectiveAgreesIff(d: Directive, args: seq<Arg>)
    requires Defined(d) && |args| > StarCount(d) && forall i :: 0 <= i < StarCount(d) ==> args[i].IntArg?
    requires Serves(d, args[StarCount(d)])
    requires d.conv == 'f' ==> Abs(Real(args[StarCount(d)])) < 9223372036854775808.0 * Pow(Decimal, 99) as real
    ensures Suits(OneDirective(d), args)
    ensures var a, min, prec := args[StarCount(d)], StdWidth(d, args), StdPrecision(d, args);
            Formatted(OneDirective(d), args) == StdText(d, a, min, prec) <==> Agrees(d, a, min, prec)
  {
    hide Formatted, Suits, OneDirective, WellFormedDirective, StdText, Agrees, ConvOut, Serves, Pow,
         Accepts, ConvKinds, Value, PointAlone, Defined, FlagsOf;
    DirectiveServed(d, args);
    DirectivePrints(d, args);
    WidthsCorrespond(d, args);
    ConversionAgreesIff(d, args[StarCount(d)..], StdWidth(d, args), StdPrecision(d, args));
  }

  lemma {:induction false} DirectiveServed(d: Directive, args: seq<Arg>)
    requires Defined(d) && |args| > StarCount(d) && forall i :: 0 <= i < StarCount(d) ==> args[i].IntArg?
    requires Serves(d, args[StarCount(d)])
    requires d.conv == 'f' ==> Abs(Real(args[StarCount(d)])) < 9223372036854775808.0 * Pow(Decimal, 99) as real
    ensures Accepts(Demand(Spec(d, "")), args) && StarsFit(d, args) && d.conv != NUL && d.conv != 'w'
    ensures WellFormedDirective(d)
  {
    hide WellFormedDirective, Demand, Pow, InReach;
    if d.conv == 'f' {
      RealPassed(d, args);
    } else {
      Passed(d, args);
    }
  }

  lemma {:induction false} WidthsCorrespond(d: Directive, args: seq<Arg>)
    requires Defined(d) && StarsFit(d, args)
    ensures MinOf(d, args) == StdWidth(d, args)
    ensures MaxOf(d, args) == if PointAlone(d) then -1 else StdPrecision(d, args)
    ensures PointAlone(d) ==> StdPrecision(d, args) == 0
  {
  }

  lemma {:induction false} ConversionAgreesIff(d: Directive, va: seq<Arg>, min: int, prec: int)
    requires Defined(d) && Accepts(ConvKinds(d.conv, d.modifier), va) && |va| > 0 && Serves(d, va[0])
    requires PointAlone(d) ==> prec == 0
    ensures var max := if PointAlone(d) then -1 else prec;
            (ConvOut(d.conv, d.modifier, FlagsOf(d.flags), min, max, va) == StdText(d, va[0], min, prec)
             <==> Agrees(d, va[0], min, prec))
  {
    hide IntText, FpText, StrText, StdInt, StdFp, StdString, NumberAgrees, FpAgrees, StringAgrees,
         WellFormedDirective, LongOf, StdNumber, Number, ConvKinds, Accepts, ConvOut, PointAlone, StringMax, BaseOf,
         FlagsNamed;
    var a, max := va[0], if PointAlone(d) then -1 else prec;
    LetterFlagsAre(d);
    match d.conv
    case 's' =>
      OtherPrinter(d.conv, d.modifier, FlagsOf(d.flags), min, max, va);
      StringAgreesIff(Chars(a), StdFlags(d), min, max, prec);
    case 'c' =>
      CharOut(d.modifier, FlagsOf(d.flags), min, max, va);
      CharAgreesIff((a.i % 256) as char, StdFlags(d), min);
    case 'f' =>
      OtherPrinter(d.conv, d.modifier, FlagsOf(d.flags), min, max, va);
      FpAgreesIff(Real(a), min, max, prec, StdFlags(d));
    case _ =>
      IntPrinter(d.conv, d.modifier, FlagsOf(d.flags), min, max, va);
      NumberFits(d, a);
      IntAgreesIff(LongOf(a), StdNumber(d, a), BaseOf(d.conv), min, max, prec, StdFlags(d));
  }

  lemma {:induction false} LetterFlagsAre(d: Directive)
    requires Defined(d)
    ensures LetterFlags(d.conv, FlagsOf(d.flags)) == StdFlags(d)
    ensures d.conv in {'s', 'c', 'f'} ==> FlagsOf(d.flags) == StdFlags(d)
  {
    hide FlagsOf, WellFormedDirective;
    WrittenFlags(d);
  }

  lemma {:induction false} CharOut(m: Modifier, flags: Flags, min: int, max: int, va: seq<Arg>)
    requires Accepts(ConvKinds('c', m), va)
    ensures |va| > 0 && va[0].IntArg? && ConvOut('c', m, flags, min, max, va) == [(va[0].i % 256) as char]
  {
    hide IntText, FpText, StrText;
  }

  lemma {:induction false} NumberFits(d: Directive, a: Arg)
    requires Defined(d) && d.conv in {'d', 'i', 'u', 'o', 'x', 'X'} && Serves(d, a)
    ensures IsLong(LongOf(a)) && Meant(LongOf(a), StdFlags(d)) == Number(a)
    ensures StdFlags(d).unsigned ==> StdNumber(d, a) >= 0
    ensures StdNumber(d, a) == Number(a) || Shown(LongOf(a), StdFlags(d).unsigned) < Pow(BaseOf(d.conv), 19)
    ensures StdFlags(d).unsigned || BaseOf(d.conv) == Decimal
  {
    hide Pow, WellFormedDirective;
    NineteenDigits();
    LongOfIs(a);
    ShownByWrapping(LongOf(a));
  }

  lemma {:induction false} CharAgreesIff(c: char, flags: Flags, min: int)
    ensures [c] == StdChar(c, flags, min) <==> -1 <= min <= 1
  {
    assert |StdChar(c, flags, min)| == Max(1, Width(min));
    assert Repeat(' ', 0) == "";
  }

  // ---- Failing inputs ----

  /** `%5.3s`, a star of -5 for the width, a star of -2 for the precision, and `%.s`. */
  lemma {:induction false} StringsFail()
    ensures StrText("abcdef", NO_FLAGS, 5, StringMax(6, 5, 3)) != StdString("abcdef", NO_FLAGS, 5, 3)
    ensures StrText("ab", NO_FLAGS, -5, StringMax(2, -5, -1)) != StdString("ab", NO_FLAGS, -5, -1)
    ensures StrText("ab", NO_FLAGS, 0, StringMax(2, 0, -2)) != StdString("ab", NO_FLAGS, 0, -2)
    ensures StrText("ab", NO_FLAGS, 0, StringMax(2, 0, -1)) != StdString("ab", NO_FLAGS, 0, 0)
  {
    assert Exposed("abcdef", false, 5, 3)[0] == 'a';
    hide StrText, StdString;
    StringAgreesIff("abcdef", NO_FLAGS, 5, 3, 3);
    StringAgreesIff("ab", NO_FLAGS, -5, -1, -1);
    StringAgreesIff("ab", NO_FLAGS, 0, -2, -2);
    StringAgreesIff("ab", NO_FLAGS, 0, -1, 0);
  }

  /** A star of -5 for the width of 3; `%.0d` and `%.d` of 0. */
  lemma {:induction false} DecimalsFail()
    ensures IntText(3, Decimal, -5, -1, NO_FLAGS) != StdInt(3, Decimal, NO_FLAGS, -5, -1)
    ensures IntText(0, Decimal, 0, 0, NO_FLAGS) != StdInt(0, Decimal, NO_FLAGS, 0, 0)
    ensures IntText(0, Decimal, 0, -1, NO_FLAGS) != StdInt(0, Decimal, NO_FLAGS, 0, 0)
  {
    hide IntText, StdInt, Pow, Numeral;
    NineteenDigits();
    Three();
    IntAgreesIff(3, 3, Decimal, -5, -1, -1, NO_FLAGS);
    IntAgreesIff(0, 0, Decimal, 0, 0, 0, NO_FLAGS);
    IntAgreesIff(0, 0, Decimal, 0, -1, 0, NO_FLAGS);
  }

  /** `%-05d` and `%05.1d` of 3. */
  lemma {:induction false} ZeroFlagFails()
    ensures var flags := NO_FLAGS.(minus := true, zero := true);
            IntText(3, Decimal, 5, -1, flags) != StdInt(3, Decimal, flags, 5, -1)
    ensures var flags := NO_FLAGS.(zero := true); IntText(3, Decimal, 5, 1, flags) != StdInt(3, Decimal, flags, 5, 1)
  {
    hide IntText, StdInt, Pow, Numeral;
    NineteenDigits();
    Three();
    IntAgreesIff(3, 3, Decimal, 5, -1, -1, NO_FLAGS.(minus := true, zero := true));
    IntAgreesIff(3, 3, Decimal, 5, 1, 1, NO_FLAGS.(zero := true));
  }

  lemma {:induction false} Three()
    ensures Numeral(3, Decimal, false) == "3"
  {
  }

  /** `%hd` of 70000; `%lu` of 2^64 - 1; `%#x` of 255; `%#o` of 8. */
  lemma {:induction false} OtherIntegersFail()
    ensures IntText(70000, Decimal, 0, -1, NO_FLAGS) != StdInt(ToInt16(70000), Decimal, NO_FLAGS, 0, -1)
    ensures var flags := NO_FLAGS.(unsigned := true);
            IntText(-1, Decimal, 0, -1, flags) != StdInt(ToULong(-1), Decimal, flags, 0, -1)
    ensures var flags := NO_FLAGS.(unsigned := true, num := true);
            && IntText(255, Hex, 0, -1, flags) != StdInt(255, Hex, flags, 0, -1)
            && IntText(8, Octal, 0, -1, flags) != StdInt(8, Octal, flags, 0, -1)
  {
    NineteenDigits();
    hide IntText, StdInt, Pow, Numeral;
    var unsigned := NO_FLAGS.(unsigned := true);
    IntAgreesIff(70000, ToInt16(70000), Decimal, 0, -1, -1, NO_FLAGS);
    IntAgreesIff(-1, ToULong(-1), Decimal, 0, -1, -1, unsigned);
    IntAgreesIff(255, 255, Hex, 0, -1, -1, unsigned.(num := true));
    IntAgreesIff(8, 8, Octal, 0, -1, -1, unsigned.(num := true));
  }

  /** Of every real: `%.17f`, `%.f`, `%#.0f`; and in any field wider than the number `%+0*.1f`, `%*.0f`
      and `%*.1f` with the width negated. */
  lemma {:induction false} RealsFail(x: real, min: int)
    requires min > |Numeral(Whole(x, 1), Decimal, false)| + 3 && min > |Numeral(Whole(x, 0), Decimal, false)| + 1
    ensures FpText(x, 0, 17, NO_FLAGS) != StdFp(x, NO_FLAGS, 0, 17)
    ensures FpText(x, 0, -1, NO_FLAGS) != StdFp(x, NO_FLAGS, 0, 0)
    ensures var flags := NO_FLAGS.(num := true); FpText(x, 0, 0, flags) != StdFp(x, flags, 0, 0)
    ensures var flags := NO_FLAGS.(plus := true, zero := true); FpText(x, min, 1, flags) != StdFp(x, flags, min, 1)
    ensures FpText(x, min, 0, NO_FLAGS) != StdFp(x, NO_FLAGS, min, 0)
    ensures FpText(x, -min, 1, NO_FLAGS) != StdFp(x, NO_FLAGS, -min, 1)
  {
    hide FpText, StdFp, Numeral, Whole;
    FpAgreesIff(x, 0, 17, 17, NO_FLAGS);
    FpAgreesIff(x, 0, -1, 0, NO_FLAGS);
    FpAgreesIff(x, 0, 0, 0, NO_FLAGS.(num := true));
    FpAgreesIff(x, min, 0, 0, NO_FLAGS);
    FpAgreesIff(x, -min, 1, 1, NO_FLAGS);
    FpAgreesIff(x, min, 1, 1, NO_FLAGS.(plus := true, zero := true));
  }
}
