/** fmtint: an integer in base 8, 10 or 16, with precision, width and sign. */
module FmtInt {
  import opened Text
  import opened Numerals
  import opened FormatFlags
  import opened Output

  const TWO63: nat := 0x8000_0000_0000_0000
  const TWO64: nat := 0x1_0000_0000_0000_0000

  predicate IsLong(value: int) {
    -0x8000_0000_0000_0000 <= value < 0x8000_0000_0000_0000
  }

  /** Two's complement wrap-around to a 64-bit long. */
  function ToLong(x: int): (r: int)
    ensures IsLong(r) && (r - x) % TWO64 == 0
  {
    var m := x % TWO64;
    if m < TWO63 then m else m - TWO64
  }

  /** The conversion of a long to an unsigned long. */
  function ToULong(x: int): nat {
    x % TWO64
  }

  // ---- What is printed ----

  /** The number whose digits are printed: the bit pattern when unsigned, else the magnitude. */
  function Shown(value: int, unsigned: bool): nat
    requires IsLong(value)
  {
    if unsigned && value < 0 then value + TWO64 else if value < 0 then -value else value
  }

  function IntSign(value: int, flags: Flags): string {
    if flags.unsigned then "" else SignText(value < 0, flags)
  }

  /** The digit array holds 20 cells and the last is given up, so 19 digits are kept. */
  function KeptDigits(u: nat, base: Base, caps: bool): string {
    var ds := DigitsLE(u, base, caps);
    if |ds| >= 20 then ds[..19] else ds
  }

  function IntDigits(value: int, base: Base, flags: Flags): string
    requires IsLong(value)
  {
    Backwards(KeptDigits(Shown(value, flags.unsigned), base, flags.up))
  }

  /** How many columns of the width the sign, zeros and digits leave free. */
  function Slack(sign: nat, digits: nat, min: int, max: int): nat {
    Max(0, min - Max(Max(max, 0), digits) - sign)
  }

  /** How many zeros come before the digits: the precision asks for some, the zero flag for more. */
  function Zeros(sign: nat, digits: nat, min: int, max: int, zero: bool): nat {
    Max(Max(0, max - digits), if zero then Slack(sign, digits, min, max) else 0)
  }

  /** How many spaces the width adds. */
  function Spaces(sign: nat, digits: nat, min: int, max: int, zero: bool): nat {
    if zero then 0 else Slack(sign, digits, min, max)
  }

  /** The same number, negative when the spaces go to the right: the code's spadlen. */
  function LeftSpaces(sign: nat, digits: nat, min: int, max: int, flags: Flags): int {
    var spaces := Spaces(sign, digits, min, max, flags.zero);
    if flags.minus then -(spaces as int) else spaces
  }

  function Layout(sign: string, digits: string, min: int, max: int, flags: Flags): string {
    var left := LeftSpaces(|sign|, |digits|, min, max, flags);
    Repeat(' ', left) + sign + Repeat('0', Zeros(|sign|, |digits|, min, max, flags.zero)) + digits + Repeat(' ', -left)
  }

  function IntText(value: int, base: Base, min: int, max: int, flags: Flags): string
    requires IsLong(value)
  {
    Layout(IntSign(value, flags), IntDigits(value, base, flags), min, max, flags)
  }

  /** The code's way to Shown: `uvalue = value`, or `uvalue = -value` with wrap-around. Negating
      LONG_MIN wraps to LONG_MIN, whose bit pattern is 2^63: the magnitude is still right. */
  lemma {:induction false} ShownByWrapping(value: int)
    requires IsLong(value)
    ensures Shown(value, true) == ToULong(value)
    ensures Shown(value, false) == if value < 0 then ToULong(ToLong(-value)) else ToULong(value)
  {
  }

  // ---- The code ----

  lemma {:induction false} KeptPrefix(u: nat, base: Base, caps: bool, stored: nat)
    requires var ds := DigitsLE(u, base, caps); stored <= 20 && stored <= |ds| && (stored == 20 || stored == |ds|)
    ensures KeptDigits(u, base, caps) == DigitsLE(u, base, caps)[..if stored == 20 then 19 else stored]
  {
  }

  /** The do-while loop that fills convert. */
  method Convert(convert: array<char>, u: nat, base: Base, caps: bool) returns (place: nat)
    requires convert.Length == 20
    modifies convert
    ensures place <= 19 && convert[..place] == KeptDigits(u, base, caps)
  {
    ghost var ds := DigitsLE(u, base, caps);
    assert |ds| >= 1;
    hide DigitsLE, KeptDigits, DigitChar, Quot, Rem;
    var uvalue := u;
    place := 0;
    var more := true;
    while more
      invariant 0 <= place <= 20 && place <= |ds|
      invariant convert[..place] == ds[..place]
      invariant more ==> place < 20 && place < |ds| && ds[place..] == DigitsLE(uvalue, base, caps)
      invariant !more ==> place >= 1 && (place == 20 || place == |ds|)
      decreases 20 - place, more
    {
      LaterDigits(ds, place, uvalue, base, caps);
      convert[place] := DigitChar(Rem(uvalue, base), caps);
      place := place + 1;
      uvalue := Quot(uvalue, base);
      more := uvalue != 0 && place < 20;
    }
    KeptPrefix(u, base, caps, place);
    if place == 20 {
      place := place - 1;
    }
    assert convert[..place] == ds[..place];
    convert[place] := NUL;
  }

  method FmtInt(out: Sink, value: int, base: Base, min: int, max: int, flags: Flags)
    requires IsLong(value) && out.Valid()
    modifies out, out.buffer
    ensures out.Valid() && out.text == old(out.text) + IntText(value, base, min, max, flags)
  {
    hide Sink.Valid, Layout, Zeros, LeftSpaces, IntSign, Shown, SignChars, Repeat;
    var max' := if max < 0 then 0 else max;
    var signvalue, uvalue := SignAndMagnitude(value, flags);
    var convert := new char[20];
    var place := Convert(convert, uvalue, base, flags.up);
    var spadlen, zpadlen := Paddings(signvalue, place, min, max', flags);
    ghost var digits := Backwards(convert[..place]);
    FloorZero(|SignChars(signvalue)|, place, min, max, flags);
    PutInt(out, spadlen, signvalue, zpadlen, convert, place);
    LayoutParts(out.text, old(out.text), SignChars(signvalue), digits, min, max, flags, spadlen, zpadlen);
  }

  /** The start of fmtint: the sign to print and the number whose digits are printed. */
  method SignAndMagnitude(value: int, flags: Flags) returns (signvalue: char, uvalue: nat)
    requires IsLong(value)
    ensures SignChars(signvalue) == IntSign(value, flags)
    ensures uvalue == Shown(value, flags.unsigned)
    ensures signvalue == '-' <==> value < 0 && !flags.unsigned
    ensures signvalue == '+' <==> value >= 0 && !flags.unsigned && flags.plus
    ensures signvalue == ' ' <==> value >= 0 && !flags.unsigned && !flags.plus && flags.space
    ensures uvalue == value || uvalue == -value || (flags.unsigned && uvalue == value + 0x1_0000_0000_0000_0000)
  {
    signvalue := NUL;
    uvalue := ToULong(value);
    if !flags.unsigned {
      if value < 0 {
        signvalue := '-';
        uvalue := ToULong(ToLong(-value));
      } else if flags.plus {
        signvalue := '+';
      } else if flags.space {
        signvalue := ' ';
      }
    }
    ShownByWrapping(value);
  }

  /** How many spaces and zeros fmtint prints. */
  method Paddings(signvalue: char, place: nat, min: int, max: nat, flags: Flags) returns (spadlen: int, zpadlen: int)
    ensures spadlen == LeftSpaces(|SignChars(signvalue)|, place, min, max, flags)
    ensures zpadlen == Zeros(|SignChars(signvalue)|, place, min, max, flags.zero)
  {
    zpadlen := max - place;
    spadlen := min - Max(max, place) - (if signvalue != NUL then 1 else 0);
    if zpadlen < 0 {
      zpadlen := 0;
    }
    if spadlen < 0 {
      spadlen := 0;
    }
    if flags.zero {
      zpadlen := Max(zpadlen, spadlen);
      spadlen := 0;
    }
    if flags.minus {
      spadlen := -spadlen;
    }
  }

  /** The second half of fmtint: the parts of the text in their order. */
  method PutInt(out: Sink, spadlen: int, signvalue: char, zpadlen: int, convert: array<char>, place: nat)
    requires out.Valid() && place <= convert.Length && convert != out.buffer
    modifies out, out.buffer
    ensures out.Valid()
    ensures out.text == old(out.text) + Repeat(' ', spadlen) + SignChars(signvalue) + Repeat('0', zpadlen)
                      + Backwards(old(convert[..place])) + Repeat(' ', -spadlen)
  {
    hide Sink.Valid, Repeat, Backwards, SignChars;
    NoZeros(zpadlen);
    out.Pad(' ', spadlen);
    out.PutSign(signvalue);
    if zpadlen > 0 {
      out.Pad('0', zpadlen);
    }
    out.PutBackwards(convert, place);
    out.Pad(' ', -spadlen);
  }

  lemma {:induction false} FloorZero(sign: nat, digits: nat, min: int, max: int, flags: Flags)
    ensures var max' := if max < 0 then 0 else max;
            && LeftSpaces(sign, digits, min, max', flags) == LeftSpaces(sign, digits, min, max, flags)
            && Zeros(sign, digits, min, max', flags.zero) == Zeros(sign, digits, min, max, flags.zero)
  {
  }

  lemma {:induction false} NoZeros(n: int)
    ensures n <= 0 ==> Repeat('0', n) == ""
  {
  }

  lemma {:induction false} LayoutParts(text: string, before: string, sign: string, digits: string, min: int, max: int,
                                       flags: Flags, spadlen: int, zpadlen: int)
    requires spadlen == LeftSpaces(|sign|, |digits|, min, max, flags)
    requires zpadlen == Zeros(|sign|, |digits|, min, max, flags.zero)
    requires text == before + Repeat(' ', spadlen) + sign + Repeat('0', zpadlen) + digits + Repeat(' ', -spadlen)
    ensures text == before + Layout(sign, digits, min, max, flags)
  {
  }

  // ---- Laws ----

  lemma {:induction false} KeptDigitsDenote(u: nat, base: Base, caps: bool)
    ensures Value(Backwards(KeptDigits(u, base, caps)), base) == u % Pow(base, 19)
    ensures 1 <= |KeptDigits(u, base, caps)| <= 19
    ensures AllInk(KeptDigits(u, base, caps)) && AllOfCase(KeptDigits(u, base, caps), caps)
    ensures 0 < u < Pow(base, 19) ==> Backwards(KeptDigits(u, base, caps))[0] != '0'
    ensures u >= Pow(base, 19) ==> |KeptDigits(u, base, caps)| == 19
  {
    hide Pow, Value, DigitsLE, IsInk, IsOfCase;
    DigitsLEChars(u, base, caps);
    DigitCount(u, base, caps, 19);
    DigitCount(u, base, caps, 20);
    KeptDenote(u, base, caps, 19);
    KeptChars(u, base, caps);
  }

  lemma {:induction false} KeptChars(u: nat, base: Base, caps: bool)
    ensures |DigitsLE(u, base, caps)| >= 1
    ensures |DigitsLE(u, base, caps)| <= 19 ==> KeptDigits(u, base, caps) == DigitsLE(u, base, caps)
    ensures |DigitsLE(u, base, caps)| > 19 ==> KeptDigits(u, base, caps) == DigitsLE(u, base, caps)[..19]
  {
  }

  /** What a reader makes of padded, signed text. */
  function ReadInt(s: string, base: Base): int {
    WithSign(IsNegative(s), Value(Unsigned(s), base))
  }

  /** Padding, zeros and sign do not disturb the value of the digits. */
  lemma {:induction false} LayoutReads(sign: string, digits: string, min: int, max: int, flags: Flags, base: Base)
    requires sign in {"", "-", "+", " "}
    requires digits != "" && AllInk(digits)
    ensures ReadInt(Layout(sign, digits, min, max, flags), base)
         == WithSign(sign == "-", Value(digits, base))
  {
    var left, zeros, right := LayoutGroups(sign, digits, min, max, flags);
    ValueZeroPadded(zeros, digits, base);
    PaddedReads(left, sign, zeros, digits, right, base);
  }

  lemma {:induction false} PaddedReads(left: nat, sign: string, zeros: nat, digits: string, right: nat, base: Base)
    requires sign in {"", "-", "+", " "} && digits != "" && AllInk(digits)
    ensures ReadInt(Repeat(' ', left) + sign + (Repeat('0', zeros) + digits) + Repeat(' ', right), base)
         == WithSign(sign == "-", Value(Repeat('0', zeros) + digits, base))
  {
    UnsignedPadded(left, sign, Repeat('0', zeros) + digits, right);
  }

  lemma {:induction false} LayoutGroups(sign: string, digits: string, min: int, max: int, flags: Flags)
    returns (left: nat, zeros: nat, right: nat)
    ensures Layout(sign, digits, min, max, flags)
         == Repeat(' ', left) + sign + (Repeat('0', zeros) + digits) + Repeat(' ', right)
    ensures if flags.minus then left == 0 else right == 0
    ensures flags.zero ==> left == right == 0
    ensures zeros >= max - |digits| && (zeros > 0 && zeros > max - |digits| ==> flags.zero)
  {
    var spaces := LeftSpaces(|sign|, |digits|, min, max, flags);
    left, right := Max(spaces, 0), Max(-spaces, 0);
    zeros := Zeros(|sign|, |digits|, min, max, flags.zero);
  }

  /** The number the caller asked to print. */
  function Meant(value: int, flags: Flags): int
    requires IsLong(value)
  {
    if flags.unsigned then ToULong(value) else value
  }

  /** Value law: the printed text denotes the number modulo base^19, whatever the layout. */
  lemma {:induction false} IntReads(value: int, base: Base, min: int, max: int, flags: Flags)
    requires IsLong(value)
    ensures ReadInt(IntText(value, base, min, max, flags), base)
         == WithSign(value < 0 && !flags.unsigned, Mod(Shown(value, flags.unsigned), Pow(base, 19)))
  {
    hide KeptDigits, Pow, Value, ReadInt, Layout;
    KeptDigitsDenote(Shown(value, flags.unsigned), base, flags.up);
    LayoutReads(IntSign(value, flags), IntDigits(value, base, flags), min, max, flags, base);
  }

  /** The text reads back as the number exactly when the number fits the 19 kept digits. */
  lemma {:induction false} IntRoundTrip(value: int, base: Base, min: int, max: int, flags: Flags)
    requires IsLong(value)
    ensures ReadInt(IntText(value, base, min, max, flags), base) == Meant(value, flags)
       <==> Shown(value, flags.unsigned) < Pow(base, 19)
  {
    IntReads(value, base, min, max, flags);
    ShownByWrapping(value);
    ModFixed(Shown(value, flags.unsigned), Pow(base, 19));
  }

  /** Where the round trip holds: every signed value and every hex value; unsigned decimal below
      10^19; unsigned octal below 8^19 = 2^57. */
  lemma {:induction false} IntRoundTripDomains(value: int, base: Base, min: int, max: int, flags: Flags)
    requires IsLong(value)
    ensures ReadInt(IntText(value, base, min, max, flags), base) == Meant(value, flags) <==>
            match base
            case Hex => true
            case Decimal => !flags.unsigned || ToULong(value) < 10_000_000_000_000_000_000
            case Octal => Shown(value, flags.unsigned) < 0x200_0000_0000_0000
  {
    NineteenDigits();
    ShownByWrapping(value);
    IntRoundTrip(value, base, min, max, flags);
  }

  /** Layout law: spaces, sign, zeros, digits, spaces; spaces on one side only, the side the minus
      flag says, and none with the zero flag; zeros at least as the precision asks, more only with
      the zero flag; the digits in the case the flags ask for and, while all are kept, without a
      leading zero. IntLength says how many columns there are. */
  lemma {:induction false} IntShape(value: int, base: Base, min: int, max: int, flags: Flags)
    returns (left: nat, zeros: nat, right: nat)
    requires IsLong(value)
    ensures var sign := if flags.unsigned then "" else if value < 0 then "-"
                        else if flags.plus then "+" else if flags.space then " " else "";
            IntText(value, base, min, max, flags)
            == Repeat(' ', left) + sign + (Repeat('0', zeros) + IntDigits(value, base, flags)) + Repeat(' ', right)
    ensures if flags.minus then left == 0 else right == 0
    ensures flags.zero ==> left == right == 0
    ensures var digits := |IntDigits(value, base, flags)|;
            zeros >= max - digits && (zeros > 0 && zeros > max - digits ==> flags.zero)
    ensures var digits := IntDigits(value, base, flags);
            && 1 <= |digits| <= 19 && AllInk(digits) && AllOfCase(digits, flags.up)
            && (0 < Shown(value, flags.unsigned) < Pow(base, 19) ==> digits[0] != '0')
            && (Shown(value, flags.unsigned) >= Pow(base, 19) ==> |digits| == 19)
  {
    hide Layout, KeptDigits, Pow, Value;
    left, zeros, right := LayoutGroups(IntSign(value, flags), IntDigits(value, base, flags), min, max, flags);
    KeptDigitsDenote(Shown(value, flags.unsigned), base, flags.up);
  }

  /** The number of columns, for every width, precision and flag set. */
  lemma {:induction false} IntLength(value: int, base: Base, min: int, max: int, flags: Flags)
    requires IsLong(value)
    ensures var digits := |IntDigits(value, base, flags)|;
            var sign := if !flags.unsigned && (value < 0 || flags.plus || flags.space) then 1 else 0;
            && 1 <= digits <= 19
            && |IntText(value, base, min, max, flags)| ==
               if !flags.zero || max <= digits then Max(min, sign + Max(max, digits))
               else sign + digits + Max(max - digits, min - max - sign)
  {
    hide Layout, KeptDigits, Pow, Value, AllInk, AllOfCase;
    KeptDigitsDenote(Shown(value, flags.unsigned), base, flags.up);
    LayoutLength(IntSign(value, flags), IntDigits(value, base, flags), min, max, flags);
  }

  lemma {:induction false} LayoutLength(sign: string, digits: string, min: int, max: int, flags: Flags)
    ensures |Layout(sign, digits, min, max, flags)| ==
            if !flags.zero || max <= |digits| then Max(min, |sign| + Max(max, |digits|))
            else |sign| + |digits| + Max(max - |digits|, min - max - |sign|)
  {
  }
}
