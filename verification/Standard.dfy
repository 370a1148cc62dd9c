/** What C99 (ISO/IEC 9899:1999, section 7.19.6.1) asks of the conversions d, i, o, u, x, X, f, c and s.

    `flags.up` and `flags.unsigned` stand for the conversion letter. A width may be negative and a
    precision absent (negative), as a star can make them. */
module Standard {
  import opened Text
  import opened Numerals
  import opened FormatFlags
  import opened FmtFp

  // ---- Width ----

  /** Spaces up to the width, on the right or on the left. */
  function Fill(s: string, left: bool, width: int): string {
    if left then s + Repeat(' ', width - |s|) else Repeat(' ', width - |s|) + s
  }

  /** Paragraph 5: a negative width is a minus flag and a positive width. */
  predicate LeftAligned(flags: Flags, min: int) {
    flags.minus || min < 0
  }

  function Width(min: int): nat {
    if min < 0 then -min else min
  }

  /** A number in its field. Zeros go between the sign or prefix and the digits, when the zero flag
      counts: paragraph 6 has it ignored with a minus flag. */
  function Field(lead: string, body: string, zero: bool, flags: Flags, min: int): string {
    if zero && !LeftAligned(flags, min) then lead + Repeat('0', Width(min) - |lead| - |body|) + body
    else Fill(lead + body, LeftAligned(flags, min), Width(min))
  }

  // ---- The conversions ----

  /** `s`: cut to the precision, then padded. */
  function StdString(v: string, flags: Flags, min: int, prec: int): string {
    Fill(if prec < 0 then v else Take(v, prec), LeftAligned(flags, min), Width(min))
  }

  function StdChar(c: char, flags: Flags, min: int): string {
    Fill([c], LeftAligned(flags, min), Width(min))
  }

  /** The minimum number of digits; zero at precision zero has none. */
  function StdDigits(n: nat, base: Base, caps: bool, prec: int): string {
    var digits := if n == 0 && prec == 0 then "" else Numeral(n, base, caps);
    Repeat('0', prec - |digits|) + digits
  }

  /** The number flag raises an octal precision until the first digit is a zero. */
  function StdBody(n: nat, base: Base, flags: Flags, prec: int): string {
    var body := StdDigits(n, base, flags.up, prec);
    if flags.num && base == Octal && (body == "" || body[0] != '0') then "0" + body else body
  }

  /** and prefixes a hexadecimal number other than zero. */
  function StdPrefix(n: nat, base: Base, flags: Flags): string {
    if flags.num && base == Hex && n != 0 then (if flags.up then "0X" else "0x") else ""
  }

  /** A signed conversion begins with a sign if it is negative or the plus flag asks for one; the
      space flag puts a space there, and the plus flag overrules it. */
  function StdSign(negative: bool, flags: Flags): string {
    if negative then "-" else if flags.plus then "+" else if flags.space then " " else ""
  }

  function StdIntSign(n: int, flags: Flags): string {
    if flags.unsigned then "" else StdSign(n < 0, flags)
  }

  function Magnitude(n: int): nat {
    if n < 0 then -n else n
  }

  /** `d`, `i`, `o`, `u`, `x`, `X`: a precision takes the zero flag's effect away. */
  function StdInt(n: int, base: Base, flags: Flags, min: int, prec: int): string {
    Field(StdIntSign(n, flags) + StdPrefix(Magnitude(n), base, flags), StdBody(Magnitude(n), base, flags, prec),
          flags.zero && prec < 0, flags, min)
  }

  /** Six digits after the point unless the precision says otherwise. */
  function Places(prec: int): nat {
    if prec < 0 then 6 else prec
  }

  /** The point shows when digits follow it, or with the number flag. */
  function StdFraction(x: real, p: nat, flags: Flags): string {
    if p > 0 then "." + FixedDigits(Part(x, p), p) else if flags.num then "." else ""
  }

  /** `f`, rounded half up: C99 leaves ties to the rounding direction. */
  function StdFp(x: real, flags: Flags, min: int, prec: int): string {
    var p := Places(prec);
    Field(StdSign(x < 0.0, flags), Numeral(Whole(x, p), Decimal, false) + StdFraction(x, p, flags), flags.zero, flags,
          min)
  }

  // ---- The layout of a field ----

  /** Every field is spaces, lead, zeros, body, spaces. */
  lemma {:induction false} FieldGroups(lead: string, body: string, zero: bool, flags: Flags, min: int)
    returns (left: nat, zeros: nat, right: nat)
    ensures Field(lead, body, zero, flags, min)
         == Repeat(' ', left) + lead + (Repeat('0', zeros) + body) + Repeat(' ', right)
    ensures left + zeros + right == Max(0, Width(min) - |lead| - |body|)
    ensures if zero && !LeftAligned(flags, min) then left == right == 0
            else zeros == 0 && (if LeftAligned(flags, min) then left == 0 else right == 0)
  {
    var pad := Max(0, Width(min) - |lead| - |body|);
    left, zeros, right := 0, 0, 0;
    if zero && !LeftAligned(flags, min) {
      zeros := pad;
    } else if LeftAligned(flags, min) {
      right := pad;
    } else {
      left := pad;
    }
    assert Repeat(' ', 0) == "" == Repeat('0', 0);
  }

  // ---- What section 7.19.6.1 asks for, on a few inputs ----

  /** `%05d` of 7 and -7, `%-05d` and `%05.3d` of 7. */
  lemma {:induction false} ZeroSamples()
    ensures var zero := NO_FLAGS.(zero := true);
            && StdInt(7, Decimal, zero, 5, -1) == "00007" && StdInt(-7, Decimal, zero, 5, -1) == "-0007"
            && StdInt(7, Decimal, zero.(minus := true), 5, -1) == "7    " && StdInt(7, Decimal, zero, 5, 3) == "  007"
  {
    Seven();
    hide Numeral;
  }

  /** `%3.0d` of 0; of 7, a width of -4, `%+d` and `% d`. */
  lemma {:induction false} DecimalSamples()
    ensures StdInt(0, Decimal, NO_FLAGS, 3, 0) == "   " && StdInt(7, Decimal, NO_FLAGS, -4, -1) == "7   "
    ensures StdInt(7, Decimal, NO_FLAGS.(plus := true), 0, -1) == "+7"
    ensures StdInt(7, Decimal, NO_FLAGS.(space := true), 0, -1) == " 7"
  {
    Seven();
    hide Numeral;
  }

  /** `%#o` of 7 and `%#6x` of 11. */
  lemma {:induction false} PrefixSamples()
    ensures var flags := NO_FLAGS.(num := true, unsigned := true);
            StdInt(7, Octal, flags, 0, -1) == "07" && StdInt(11, Hex, flags, 6, -1) == "   0xb"
  {
    Seven();
    hide Numeral;
  }

  /** `%6.2s` and `%-4s`. */
  lemma {:induction false} StringSamples()
    ensures StdString("abc", NO_FLAGS, 6, 2) == "    ab" && StdString("abc", NO_FLAGS.(minus := true), 4, -1) == "abc "
  {
  }

  lemma {:induction false} Seven()
    ensures Numeral(7, Decimal, false) == "7" == Numeral(7, Octal, false) && Numeral(11, Hex, false) == "b"
  {
    OneDigit(7, Decimal);
    OneDigit(7, Octal);
    OneDigit(11, Hex);
  }

  lemma {:induction false} OneDigit(n: nat, base: Base)
    requires n < Times(base, 1)
    ensures Numeral(n, base, false) == [DigitChar(Rem(n, base), false)] && Rem(n, base) == n
  {
  }
}
