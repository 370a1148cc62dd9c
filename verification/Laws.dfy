/** End-to-end laws: what a caller who reads the printed text back will find. */
module Laws {
  import opened Text
  import opened Numerals
  import opened FormatFlags
  import opened Format
  import opened Render
  import opened FmtInt
  import opened FmtStr
  import opened Modf
  import opened FmtFp
  import opened FpLaws

  /** A format that is one directive. */
  function OneDirective(d: Directive): string {
    "%" + DirectiveText(d, "")
  }

  /** Printing one directive prints exactly its conversion, with the flags, width and precision
      that were written. */
  lemma {:induction false} DirectivePrints(d: Directive, args: seq<Arg>)
    requires WellFormedDirective(d) && d.conv != NUL && d.conv != 'w' && Accepts(Demand(Spec(d, "")), args)
    ensures Suits(OneDirective(d), args) && StaysInside(OneDirective(d))
    ensures StarsFit(d, args) && Accepts(ConvKinds(d.conv, d.modifier), args[StarCount(d)..])
    ensures Formatted(OneDirective(d), args)
         == ConvOut(d.conv, d.modifier, FlagsOf(d.flags), MinOf(d, args), MaxOf(d, args), args[StarCount(d)..])
    ensures d.conv != 'n' ==> Stores(Pieces(OneDirective(d)), args, 0) == []
  {
    hide ConvOut, ConvKinds;
    var p := Spec(d, "");
    PieceReads(p, "");
    assert Pieces(OneDirective(d)) == [p];
    assert [p] + [] == [p];
    RenderedCons(p, [], args, 0);
    AcceptsSplit(StarKinds(d), ConvKinds(d.conv, d.modifier), args);
    AcceptsStars(d, args);
  }

  /** The arguments of the stars, and behind them one that the conversion accepts. */
  lemma {:induction false} Passed(d: Directive, args: seq<Arg>)
    requires |args| >= StarCount(d) && forall i :: 0 <= i < StarCount(d) ==> args[i].IntArg?
    requires Accepts(ConvKinds(d.conv, d.modifier), args[StarCount(d)..])
    ensures Accepts(Demand(Spec(d, "")), args) && StarsFit(d, args)
  {
    hide ConvKinds;
    var n := StarCount(d);
    AcceptsStars(d, args[..n]);
    AcceptsJoin(StarKinds(d), ConvKinds(d.conv, d.modifier), args[..n], args[n..]);
    assert args[..n] + args[n..] == args;
  }

  // ---- Directives by their numbers ----

  /** The flags that a string names, in any order and with repeats. */
  function FlagsNamed(s: string): Flags {
    Flags('-' in s, '+' in s, ' ' in s, '#' in s, '0' in s, false, false)
  }

  lemma {:induction false} FlagsAreNamed(s: string)
    requires AllFlags(s)
    ensures FlagsOf(s) == FlagsNamed(s)
    decreases |s|
  {
    if s != "" {
      var front, c := s[..|s| - 1], s[|s| - 1];
      FlagsAreNamed(front);
      assert IsFlag(c);
      hide AllFlags, FlagsNamed;
      FlagsNamedSnoc(front, c);
      assert s == front + [c];
    }
  }

  lemma {:induction false} FlagsNamedSnoc(s: string, c: char)
    requires IsFlag(c)
    ensures FlagsNamed(s + [c]) == AddFlag(FlagsNamed(s), c)
  {
  }

  /** What is written as flags. */
  lemma {:induction false} WrittenFlags(d: Directive)
    requires WellFormedDirective(d)
    ensures FlagsOf(d.flags) == FlagsNamed(d.flags)
  {
    hide FlagsOf, FlagsNamed, MinOk;
    FlagsAreNamed(d.flags);
  }

  /** A directive with this width and precision; a zero width is not written, so that it is not read
      as a flag. */
  function Numbered(flags: string, min: nat, max: Option<nat>, m: Modifier, conv: char): Directive {
    Directive(flags, if min == 0 then "" else Numeral(min, Decimal, false), false,
              max.Some?, if max.Some? then Numeral(max.value, Decimal, false) else "", false, m, conv)
  }

  /** The state before the conversion takes none of these for itself. */
  predicate Converts(m: Modifier, conv: char) {
    && conv != NUL
    && (m == NoModifier ==> conv !in "*.hlL" && !IsFlag(conv) && !IsDigit(conv))
    && (m == Long ==> conv != 'l')
  }

  lemma {:induction false} ConvertsFirst(d: Directive)
    requires Converts(d.modifier, d.conv)
    ensures var c := At(ModText(d, ""), 0); ModOk(d) && !IsFlag(c) && !IsDigit(c) && c !in "*."
  {
    assert d.modifier == NoModifier ==> ModText(d, "") == [d.conv];
  }

  lemma {:induction false} NumberedWellFormed(flags: string, min: nat, max: Option<nat>, m: Modifier, conv: char)
    requires AllFlags(flags) && Converts(m, conv)
    ensures WellFormedDirective(Numbered(flags, min, max, m, conv))
  {
    hide ModOk, ModText, DotText, DotOk, Numeral, IsFlag, MinText, Converts;
    var d := Numbered(flags, min, max, m, conv);
    ConvertsFirst(d);
    NumeralFirst(min, Decimal, false);
    if max.Some? {
      NumeralFirst(max.value, Decimal, false);
    }
    NumberedDot(d);
    FirstOfMin(d);
  }

  lemma {:induction false} NumberedDot(d: Directive)
    requires ModOk(d) && AllDigits(d.prec) && !d.precStar && (d.dot || d.prec == "")
    requires var c := At(ModText(d, ""), 0); !IsFlag(c) && !IsDigit(c) && c !in "*."
    ensures DotOk(d) && var c := At(DotText(d, ""), 0); !IsFlag(c) && !IsDigit(c) && c != '*'
  {
    hide ModOk, ModText;
    assert d.dot ==> At(DotText(d, ""), 0) == '.';
  }

  lemma {:induction false} FirstOfMin(d: Directive)
    requires !d.widthStar && AllDigits(d.width) && (d.width != "" ==> d.width[0] != '0')
    requires !IsFlag(At(DotText(d, ""), 0))
    ensures !IsFlag(At(MinText(d, ""), 0))
  {
    assert At(MinText(d, ""), 0) == if d.width == "" then At(DotText(d, ""), 0) else d.width[0];
  }

  /** What the scanner makes of the numbers. */
  lemma {:induction false} NumbersMean(flags: string, min: nat, max: Option<nat>, m: Modifier, conv: char,
                                       args: seq<Arg>)
    ensures StarsFit(Numbered(flags, min, max, m, conv), args)
    ensures MinOf(Numbered(flags, min, max, m, conv), args) == min
    ensures MaxOf(Numbered(flags, min, max, m, conv), args) == if max.Some? then max.value else -1
    ensures var d := Numbered(flags, min, max, m, conv); d.flags == flags && d.modifier == m && d.conv == conv
  {
    hide Numeral, Value;
    NumeralDenotes(min, Decimal, false);
    ZeroWidth();
    if max.Some? {
      NumeralFirst(max.value, Decimal, false);
      NumeralDenotes(max.value, Decimal, false);
    }
  }

  /** Scanner round trip in numbers: flags, width, precision, modifier and conversion written out in
      decimal scan back to themselves, whatever follows. */
  lemma {:induction false} NumbersRoundTrip(flags: string, min: nat, max: Option<nat>, m: Modifier, conv: char,
                                            t: string)
    requires forall i :: 0 <= i < |flags| ==> flags[i] in "-+ #0"
    requires conv != NUL && (m == Long ==> conv != 'l')
    requires m == NoModifier ==> conv !in {'-', '+', ' ', '#', '*', '.', 'h', 'l', 'L'} && !('0' <= conv <= '9')
    ensures var d := Numbered(flags, min, max, m, conv);
            WellFormedDirective(d) && FromFlags(BLANK, DirectiveText(d, t)) == Scanned(d, t)
  {
    hide DirectiveText, FromFlags, WellFormedDirective, AllFlags, Converts, Numbered;
    Readable(flags, m, conv);
    NumberedWellFormed(flags, min, max, m, conv);
    assert Numbered(flags, min, max, m, conv).conv == conv by {
      NumberedConv(flags, min, max, m, conv);
    }
    DirectiveRoundTrip(Numbered(flags, min, max, m, conv), t);
  }

  lemma {:induction false} NumberedConv(flags: string, min: nat, max: Option<nat>, m: Modifier, conv: char)
    ensures Numbered(flags, min, max, m, conv).conv == conv
  {
  }

  lemma {:induction false} ZeroWidth()
    ensures Value("", Decimal) == 0
  {
  }

  lemma {:induction false} Readable(flags: string, m: Modifier, conv: char)
    requires forall i :: 0 <= i < |flags| ==> flags[i] in "-+ #0"
    requires conv != NUL && (m == Long ==> conv != 'l')
    requires m == NoModifier ==> conv !in {'-', '+', ' ', '#', '*', '.', 'h', 'l', 'L'} && !('0' <= conv <= '9')
    ensures AllFlags(flags) && Converts(m, conv)
  {
  }

  // ---- Round trips ----

  /** The long that is printed for an argument stands for the argument. */
  lemma {:induction false} LongOfIs(a: Arg)
    ensures a.IntArg? ==> LongOf(a) == a.i
    ensures a.LongArg? ==> LongOf(a) == a.l
    ensures a.LongLongArg? ==> LongOf(a) == a.ll
    ensures a.UIntArg? ==> ToULong(LongOf(a)) == a.u
    ensures a.ULongArg? ==> ToULong(LongOf(a)) == a.ul
    ensures a.ULongLongArg? ==> ToULong(LongOf(a)) == a.ull
    ensures a.PointerArg? ==> LongOf(a) == if a.p < 0x8000_0000_0000_0000 then a.p else a.p - 0x1_0000_0000_0000_0000
  {
  }

  lemma {:induction false} IntegerReads(d: Directive, args: seq<Arg>)
    requires WellFormedDirective(d) && d.conv in {'d', 'i', 'x', 'X', 'u', 'o'} && Accepts(Demand(Spec(d, "")), args)
    ensures Suits(OneDirective(d), args) && StarsFit(d, args) && |args| > StarCount(d)
    ensures var v, text := LongOf(args[StarCount(d)]), Formatted(OneDirective(d), args);
            && (d.conv in {'d', 'i'} ==> ReadInt(text, Decimal) == v)
            && (d.conv in {'x', 'X'} ==> ReadInt(text, Hex) == ToULong(v))
            && (d.conv == 'u' ==> (ReadInt(text, Decimal) == ToULong(v) <==> ToULong(v) < 10_000_000_000_000_000_000))
            && (d.conv == 'o' ==> (ReadInt(text, Octal) == ToULong(v) <==> ToULong(v) < 0x200_0000_0000_0000))
  {
    hide IntText, ReadInt, Formatted, Suits, OneDirective, ConvOut, ConvKinds, Accepts, Demand, FlagsOf, LongOf,
         WellFormedDirective, MinOf, MaxOf;
    DirectivePrints(d, args);
    WrittenFlags(d);
    IntPrinter(d.conv, d.modifier, FlagsOf(d.flags), MinOf(d, args), MaxOf(d, args), args[StarCount(d)..]);
    var v, used := LongOf(args[StarCount(d)]), LetterFlags(d.conv, FlagsOf(d.flags));
    ShownByWrapping(v);
    IntRoundTripDomains(v, BaseOf(d.conv), MinOf(d, args), MaxOf(d, args), used);
  }

  /** The type that the modifier names. */
  predicate SignedFits(m: Modifier, a: Arg) {
    match m case Long => a.LongArg? case LongLong => a.LongLongArg? case _ => a.IntArg?
  }

  predicate UnsignedFits(m: Modifier, a: Arg) {
    match m case Long => a.ULongArg? case LongLong => a.ULongLongArg? case _ => a.UIntArg?
  }

  /** Signed integers survive printing and reading under any flags, width, precision and modifier. */
  lemma {:induction false} SignedRoundTrip(d: Directive, args: seq<Arg>)
    requires WellFormedDirective(d) && d.conv in {'d', 'i'}
    requires |args| > StarCount(d) && forall i :: 0 <= i < StarCount(d) ==> args[i].IntArg?
    requires var a := args[StarCount(d)];
             if d.modifier == Long then a.LongArg? else if d.modifier == LongLong then a.LongLongArg? else a.IntArg?
    ensures Suits(OneDirective(d), args)
    ensures var a, n := args[StarCount(d)], ReadInt(Formatted(OneDirective(d), args), Decimal);
            && (d.modifier == Long ==> n == a.l)
            && (d.modifier == LongLong ==> n == a.ll)
            && (d.modifier !in {Long, LongLong} ==> n == a.i)
  {
    hide Suits, Formatted, OneDirective, ReadInt, WellFormedDirective, LongOf;
    Passed(d, args);
    IntegerReads(d, args);
    LongOfIs(args[StarCount(d)]);
  }

  /** Unsigned ones do in hexadecimal, and in decimal and octal exactly while 19 digits hold them. */
  lemma {:induction false} UnsignedRoundTrip(d: Directive, args: seq<Arg>)
    requires WellFormedDirective(d) && d.conv in {'u', 'o', 'x', 'X'}
    requires |args| > StarCount(d) && forall i :: 0 <= i < StarCount(d) ==> args[i].IntArg?
    requires var a := args[StarCount(d)];
             if d.modifier == Long then a.ULongArg? else if d.modifier == LongLong then a.ULongLongArg? else a.UIntArg?
    ensures Suits(OneDirective(d), args)
    ensures var a, text := args[StarCount(d)], Formatted(OneDirective(d), args);
            var base := if d.conv == 'o' then Octal else if d.conv == 'u' then Decimal else Hex;
            var n := ReadInt(text, base);
            var limit := if d.conv == 'o' then 0x200_0000_0000_0000
                         else if d.conv == 'u' then 10_000_000_000_000_000_000 else 0x1_0000_0000_0000_0000;
            && (d.modifier !in {Long, LongLong} ==> n == a.u)
            && (d.modifier == Long ==> (n == a.ul <==> a.ul < limit))
            && (d.modifier == LongLong ==> (n == a.ull <==> a.ull < limit))
  {
    hide Suits, Formatted, OneDirective, ReadInt, WellFormedDirective, LongOf, ToULong;
    Passed(d, args);
    IntegerReads(d, args);
    LongOfIs(args[StarCount(d)]);
  }

  /** A pointer prints as a signed long in hexadecimal. */
  lemma {:induction false} PointerReads(d: Directive, args: seq<Arg>)
    requires WellFormedDirective(d) && d.conv == 'p'
    requires |args| > StarCount(d) && forall i :: 0 <= i < StarCount(d) ==> args[i].IntArg?
    requires args[StarCount(d)].PointerArg?
    ensures Suits(OneDirective(d), args)
    ensures var p := args[StarCount(d)].p;
            ReadInt(Formatted(OneDirective(d), args), Hex)
            == if p < 0x8000_0000_0000_0000 then p else p - 0x1_0000_0000_0000_0000
  {
    hide Suits, Formatted, OneDirective, ReadInt, WellFormedDirective, LongOf, IntText, FpText, StrText;
    Passed(d, args);
    DirectivePrints(d, args);
    LongOfIs(args[StarCount(d)]);
    WrittenFlags(d);
    IntRoundTripDomains(LongOf(args[StarCount(d)]), Hex, MinOf(d, args), MaxOf(d, args), FlagsOf(d.flags));
  }

  /** `%x` and `%p` print no capital letter and `%X` no small one. */
  lemma {:induction false} HexCase(d: Directive, args: seq<Arg>)
    requires WellFormedDirective(d) && d.conv in {'x', 'X', 'p'} && Accepts(Demand(Spec(d, "")), args)
    ensures Suits(OneDirective(d), args) && AllOfCase(Formatted(OneDirective(d), args), d.conv == 'X')
  {
    hide IntText, Formatted, Suits, OneDirective, ConvOut, ConvKinds, Accepts, Demand, AllOfCase, FlagsOf, LongOf,
         WellFormedDirective, MinOf, MaxOf;
    DirectivePrints(d, args);
    WrittenFlags(d);
    IntPrinter(d.conv, d.modifier, FlagsOf(d.flags), MinOf(d, args), MaxOf(d, args), args[StarCount(d)..]);
    IntCase(LongOf(args[StarCount(d)]), Hex, MinOf(d, args), MaxOf(d, args), LetterFlags(d.conv, FlagsOf(d.flags)));
  }

  lemma {:induction false} IntCase(value: int, base: Base, min: int, max: int, flags: Flags)
    requires IsLong(value)
    ensures AllOfCase(IntText(value, base, min, max, flags), flags.up)
  {
    hide IntText, IntDigits, Pow;
    var left, zeros, right := IntShape(value, base, min, max, flags);
    var sign := if flags.unsigned then "" else if value < 0 then "-"
                else if flags.plus then "+" else if flags.space then " " else "";
    CaseJoin(Repeat(' ', left), sign, Repeat('0', zeros), IntDigits(value, base, flags), Repeat(' ', right), flags.up);
  }

  lemma {:induction false} CaseJoin(a: string, b: string, c: string, d: string, e: string, caps: bool)
    requires AllOfCase(a, caps) && AllOfCase(b, caps) && AllOfCase(c, caps) && AllOfCase(d, caps) && AllOfCase(e, caps)
    ensures AllOfCase(a + b + (c + d) + e, caps)
  {
  }

  lemma {:induction false} RealConv(m: Modifier, flags: Flags, min: int, max: int, va: seq<Arg>)
    requires Accepts(ConvKinds('f', m), va)
    ensures |va| > 0 && (va[0].DoubleArg? || va[0].LongDoubleArg?)
    ensures ConvOut('f', m, flags, min, max, va) == FpText(RealOf(va[0]), min, max, flags)
  {
    hide IntText, FpText, StrText;
  }

  /** Reals below 2^63 * 10^99 survive up to rounding half up in the last printed digit: n is the
      number that stands there without its point. */
  lemma {:induction false} RealRoundTrip(d: Directive, args: seq<Arg>) returns (n: nat)
    requires WellFormedDirective(d) && d.conv == 'f'
    requires |args| > StarCount(d) && forall i :: 0 <= i < StarCount(d) ==> args[i].IntArg?
    requires if d.modifier == LongDouble then args[StarCount(d)].LongDoubleArg? else args[StarCount(d)].DoubleArg?
    requires var a := args[StarCount(d)];
             var x := if a.DoubleArg? then a.x else a.lx;
             (if x < 0.0 then -x else x) < 9223372036854775808.0 * Pow(Decimal, 99) as real
    ensures Suits(OneDirective(d), args) && StarsFit(d, args)
    ensures var a, p := args[StarCount(d)], Precision(MaxOf(d, args));
            var x := if a.DoubleArg? then a.x else a.lx;
            && ReadFixed(Formatted(OneDirective(d), args)) == Fixed(if x < 0.0 then -(n as int) else n, p)
            && n as real - 0.5 <= (if x < 0.0 then -x else x) * Pow(Decimal, p) as real < n as real + 0.5
  {
    hide ReadFixed, Formatted, Suits, OneDirective, InReach, WellFormedDirective, Pow, Precision, Accepts, MaxOf;
    RealPassed(d, args);
    var a := args[StarCount(d)];
    n := RealReads(d, args, if a.DoubleArg? then a.x else a.lx);
  }

  lemma {:induction false} RealReads(d: Directive, args: seq<Arg>, x: real) returns (n: nat)
    requires WellFormedDirective(d) && d.conv == 'f' && Accepts(Demand(Spec(d, "")), args) && StarsFit(d, args)
    requires |args| > StarCount(d) && args[StarCount(d)] in {DoubleArg(x), LongDoubleArg(x)}
    ensures Suits(OneDirective(d), args)
    ensures var p := Precision(MaxOf(d, args));
            && ReadFixed(Formatted(OneDirective(d), args)) == Fixed(if x < 0.0 then -(n as int) else n, p)
            && n as real - 0.5 <= (if x < 0.0 then -x else x) * Pow(Decimal, p) as real < n as real + 0.5
  {
    hide ConvOut, FpText, ReadFixed, Formatted, Suits, OneDirective, Scaled, InReach, WellFormedDirective, Pow,
         Precision, FlagsOf, Value, Accepts, Demand, MinOf, MaxOf;
    DirectivePrints(d, args);
    RealConv(d.modifier, FlagsOf(d.flags), MinOf(d, args), MaxOf(d, args), args[StarCount(d)..]);
    n := Scaled(x, Precision(MaxOf(d, args)));
    FpReads(x, MinOf(d, args), MaxOf(d, args), FlagsOf(d.flags));
  }

  lemma {:induction false} RealPassed(d: Directive, args: seq<Arg>)
    requires d.conv == 'f' && |args| > StarCount(d) && forall i :: 0 <= i < StarCount(d) ==> args[i].IntArg?
    requires if d.modifier == LongDouble then args[StarCount(d)].LongDoubleArg? else args[StarCount(d)].DoubleArg?
    requires var a := args[StarCount(d)];
             Abs(if a.DoubleArg? then a.x else a.lx) < 9223372036854775808.0 * Pow(Decimal, 99) as real
    ensures Accepts(Demand(Spec(d, "")), args) && StarsFit(d, args)
  {
    hide InReach, Pow;
    var a := args[StarCount(d)];
    ReachIs(Abs(if a.DoubleArg? then a.x else a.lx));
    Passed(d, args);
  }

  // ---- Strings, characters and the rest ----

  /** A string prints padded to the width and then cut, no shorter than the width. */
  lemma {:induction false} StringPrinted(d: Directive, args: seq<Arg>, s: CString)
    requires WellFormedDirective(d) && d.conv == 's'
    requires |args| > StarCount(d) && forall i :: 0 <= i < StarCount(d) ==> args[i].IntArg?
    requires args[StarCount(d)] == StringArg(Some(s)) || (args[StarCount(d)] == StringArg(None) && s == "(NULL)")
    ensures Suits(OneDirective(d), args) && StarsFit(d, args)
    ensures var min, max, spaces := MinOf(d, args), MaxOf(d, args), Repeat(' ', MinOf(d, args) - |s|);
            var full := if '-' in d.flags then s + spaces else spaces + s;
            Formatted(OneDirective(d), args) ==
            if max == -1 then full else if max < -1 then "" else Take(full, if min > max then min else max)
  {
    hide Formatted, Suits, OneDirective, WellFormedDirective, IntText, FpText, StrText, MinOf, MaxOf, StringMax;
    Passed(d, args);
    DirectivePrints(d, args);
    WrittenFlags(d);
    StringSpelled(s, FlagsOf(d.flags), MinOf(d, args), MaxOf(d, args));
  }

  lemma {:induction false} StringSpelled(s: string, flags: Flags, min: int, max: int)
    ensures var spaces := Repeat(' ', min - |s|);
            var full := if flags.minus then s + spaces else spaces + s;
            StrText(s, flags, min, StringMax(|s|, min, max)) ==
            if max == -1 then full else if max < -1 then "" else Take(full, if min > max then min else max)
  {
  }

  /** A char prints as itself, whatever the width. */
  lemma {:induction false} CharPrinted(d: Directive, args: seq<Arg>)
    requires WellFormedDirective(d) && d.conv == 'c'
    requires |args| > StarCount(d) && forall i :: 0 <= i <= StarCount(d) ==> args[i].IntArg?
    ensures Suits(OneDirective(d), args)
    ensures Formatted(OneDirective(d), args) == [(args[StarCount(d)].i % 256) as char]
  {
    hide Formatted, Suits, OneDirective, WellFormedDirective, IntText, FpText, StrText, MinOf, MaxOf;
    Passed(d, args);
    DirectivePrints(d, args);
  }

  /** The conversions that print nothing: e and g with their argument, and all unknown characters. */
  lemma {:induction false} SilentPrints(d: Directive, args: seq<Arg>)
    requires WellFormedDirective(d) && d.conv !in "diouxXfcspn%w" && d.conv != NUL
    requires |args| >= StarCount(d) && forall i :: 0 <= i < StarCount(d) ==> args[i].IntArg?
    requires d.conv in "eEgG" ==>
               |args| > StarCount(d)
               && if d.modifier == LongDouble then args[StarCount(d)].LongDoubleArg? else args[StarCount(d)].DoubleArg?
    ensures Suits(OneDirective(d), args) && Formatted(OneDirective(d), args) == ""
  {
    hide Formatted, Suits, OneDirective, WellFormedDirective, ConvOut, MinOf, MaxOf, FlagsOf;
    SilentOut(d.conv, d.modifier, args[StarCount(d)..]);
    Passed(d, args);
    DirectivePrints(d, args);
  }

  lemma {:induction false} SilentOut(conv: char, m: Modifier, va: seq<Arg>)
    requires conv !in "diouxXfcspn%w"
    requires conv in "eEgG" ==> |va| > 0 && if m == LongDouble then va[0].LongDoubleArg? else va[0].DoubleArg?
    ensures Accepts(ConvKinds(conv, m), va)
    ensures forall flags, min, max :: ConvOut(conv, m, flags, min, max, va) == ""
  {
    hide IntText, FpText, StrText, InReach;
  }

  // ---- Literal text ----

  /** A percent sign, a modifier and a conversion character, nothing between them. */
  function Plain(m: Modifier, c: char): Directive {
    BLANK.(modifier := m, conv := c)
  }

  lemma {:induction false} PlainText(m: Modifier, c: char, t: string)
    requires c != NUL
    ensures DirectiveText(Plain(m, c), t) == ModifierText(m) + ([c] + t)
  {
    var d := Plain(m, c);
    assert ConvText(d, t) == [c] + t;
    assert "" + ModText(d, t) == ModText(d, t);
  }

  lemma {:induction false} PlainReads(m: Modifier, c: char, t: string)
    requires c in {'%', 'n'}
    ensures Pieces("%" + (ModifierText(m) + ([c] + t))) == [Spec(Plain(m, c), "")] + Pieces(t)
  {
    hide DirectiveText;
    PlainText(m, c, t);
    PlainWellFormed(m, c);
    assert "" + t == t;
    PieceReads(Spec(Plain(m, c), ""), t);
  }

  lemma {:induction false} PlainWellFormed(m: Modifier, c: char)
    requires c in {'%', 'n', 'w'}
    ensures WellFormedPiece(Spec(Plain(m, c), "")) && (c != 'w' ==> Closed(Spec(Plain(m, c), "")))
  {
    var d := Plain(m, c);
    assert ConvText(d, "") == [c];
    assert At(ModText(d, ""), 0) in {'h', 'l', 'L', c};
    assert "" + ModText(d, "") == ModText(d, "") == DotText(d, "") == MinText(d, "");
  }

  /** A percent sign prints as itself whatever stands in front of it. */
  lemma {:induction false} PercentPrinted(d: Directive, args: seq<Arg>)
    requires WellFormedDirective(d) && d.conv == '%'
    requires |args| >= StarCount(d) && forall i :: 0 <= i < StarCount(d) ==> args[i].IntArg?
    ensures Suits(OneDirective(d), args) && Formatted(OneDirective(d), args) == "%"
  {
    hide Formatted, Suits, OneDirective, WellFormedDirective, ConvOut, MinOf, MaxOf, FlagsOf;
    PercentOut(d.modifier, args[StarCount(d)..]);
    Passed(d, args);
    DirectivePrints(d, args);
  }

  lemma {:induction false} PercentOut(m: Modifier, va: seq<Arg>)
    ensures Accepts(ConvKinds('%', m), va) && forall flags, min, max :: ConvOut('%', m, flags, min, max, va) == "%"
  {
    hide IntText, FpText, StrText, InReach;
  }

  /** `%w` swallows the character behind it, a percent sign included, and prints nothing. */
  lemma {:induction false} WSwallows(c: char, f: CString, args: seq<Arg>)
    requires c != NUL && Suits(f, args)
    ensures Suits("%w" + ([c] + f), args) && Formatted("%w" + ([c] + f), args) == Formatted(f, args)
  {
    hide DirectiveText, Rendered, Pieces, WellFormedDirective;
    var p := Spec(Plain(NoModifier, 'w'), [c]);
    PlainWellFormed(NoModifier, 'w');
    PlainText(NoModifier, 'w', [c] + f);
    assert "%w" + ([c] + f) == "%" + ("" + (['w'] + ([c] + f)));
    PieceReads(p, f);
    NothingOut(p, args);
    RenderedCons(p, Pieces(f), args, 0);
    assert "" + Rendered(Pieces(f), args) == Rendered(Pieces(f), args);
  }

  lemma {:induction false} NothingOut(p: Piece, args: seq<Arg>)
    requires p.Spec? && p.d == Plain(NoModifier, 'w')
    ensures Demand(p) == [] && PieceOut(p, args) == ""
  {
    hide IntText, FpText, StrText;
  }

  /** Every percent sign doubled. */
  function Escape(s: string): string {
    if s == "" then "" else if s[0] == '%' then "%" + (['%'] + Escape(s[1..])) else [s[0]] + Escape(s[1..])
  }

  function EscapePiece(c: char): Piece {
    if c == '%' then Spec(Plain(NoModifier, '%'), "") else Literal(c)
  }

  function EscapePieces(s: string): seq<Piece> {
    if s == "" then [] else [EscapePiece(s[0])] + EscapePieces(s[1..])
  }

  lemma {:induction false} EscapeReads(s: string)
    ensures Pieces(Escape(s)) == EscapePieces(s)
    decreases |s|
  {
    if s != "" {
      EscapeReads(s[1..]);
      if s[0] == '%' {
        assert ModifierText(NoModifier) + (['%'] + Escape(s[1..])) == ['%'] + Escape(s[1..]);
        PlainReads(NoModifier, '%', Escape(s[1..]));
      } else {
        assert Escape(s)[1..] == Escape(s[1..]);
      }
    }
  }

  lemma {:induction false} EscapePiecePrints(c: char)
    ensures Demand(EscapePiece(c)) == [] && PieceOut(EscapePiece(c), []) == [c]
  {
    hide IntText, FpText, StrText;
  }

  lemma {:induction false} EscapePrints(s: string)
    ensures Demands(EscapePieces(s)) == [] && Rendered(EscapePieces(s), []) == s
    decreases |s|
  {
    hide PieceOut, Demand, EscapePiece;
    if s != "" {
      EscapePiecePrints(s[0]);
      EscapePrints(s[1..]);
      RenderedCons(EscapePiece(s[0]), EscapePieces(s[1..]), [], 0);
      assert s == [s[0]] + s[1..];
    }
  }

  /** A text with its percent signs doubled prints as itself, with no arguments at all. */
  lemma {:induction false} EscapeRoundTrip(s: string)
    ensures Suits(Escape(s), []) && Formatted(Escape(s), []) == s
  {
    EscapeReads(s);
    EscapePrints(s);
  }

  // ---- Counting ----

  lemma {:induction false} CountPiece(m: Modifier, args: seq<Arg>, at: nat)
    requires |args| > 0 && args[0] == OutArg(OutKind(m))
    ensures var p := Spec(Plain(m, 'n'), "");
            && Demand(p) == [KOut(OutKind(m))] && Accepts(Demand(p), args) && PieceOut(p, args) == ""
            && PieceStores(p, at) == [StoreOf(OutKind(m), at)]
  {
    hide IntText, FpText, StrText;
  }

  lemma {:induction false} CountPrints(m: Modifier, ps: seq<Piece>, args: seq<Arg>, at: nat)
    requires Accepts(Demands(ps), args)
    ensures var all := [OutArg(OutKind(m))] + args; var qs := [Spec(Plain(m, 'n'), "")] + ps;
            && Accepts(Demands(qs), all) && Rendered(qs, all) == Rendered(ps, args)
            && Stores(qs, all, at) == [StoreOf(OutKind(m), at)] + Stores(ps, args, at)
  {
    hide Stores, Rendered, PieceOut, PieceStores, Demand;
    var all := [OutArg(OutKind(m))] + args;
    assert all[1..] == args;
    CountPiece(m, all, at);
    RenderedCons(Spec(Plain(m, 'n'), ""), ps, all, at);
    assert "" + Rendered(ps, args) == Rendered(ps, args);
  }

  /** `%n` between two formats stores how much the first one printed, whatever a buffer kept of it,
      into a target of the type that the modifier names; a count too large for it wraps around. */
  lemma {:induction false} CountStored(m: Modifier, f1: CString, f2: CString, a1: seq<Arg>, a2: seq<Arg>)
    returns (stored: int)
    requires AllClosed(Pieces(f1)) && Suits(f1, a1) && |a1| == |Demands(Pieces(f1))| && Suits(f2, a2)
    ensures var letters := match m case Short => "%hn" case Long => "%ln" case LongLong => "%lln"
                                   case LongDouble => "%Ln" case NoModifier => "%n";
            var size := match m case Short => ShortOut case Long => LongOut case LongLong => LongLongOut
                                case _ => IntOut;
            var f, args := f1 + (letters + f2), a1 + ([OutArg(size)] + a2);
            && Suits(f, args) && Formatted(f, args) == Formatted(f1, a1) + Formatted(f2, a2)
            && Stores(Pieces(f), args, 0)
            == Stores(Pieces(f1), a1, 0) + ([Store(size, stored)] + Stores(Pieces(f2), a2, |Formatted(f1, a1)|))
    ensures var half := match m case Short => 0x8000 case Long => 0x8000_0000_0000_0000
                                case LongLong => 0x8000_0000_0000_0000 case _ => 0x8000_0000;
            && -half <= stored < half && (stored - |Formatted(f1, a1)|) % (2 * half) == 0
            && (|Formatted(f1, a1)| < half ==> stored == |Formatted(f1, a1)|)
  {
    hide Stores, Rendered, Demands, Accepts, AllClosed, StoreOf;
    var at := |Formatted(f1, a1)|;
    stored := StoreOf(OutKind(m), at).value;
    StoredCount(m, at);
    var counted := CountThen(m, f2);
    PlainReads(m, 'n', f2);
    CountPrints(m, Pieces(f2), a2, at);
    FormattedAppend(f1, counted, a1, [OutArg(OutKind(m))] + a2);
  }

  lemma {:induction false} CountThen(m: Modifier, f: CString) returns (counted: CString)
    ensures var letters := match m case Short => "%hn" case Long => "%ln" case LongLong => "%lln"
                                   case LongDouble => "%Ln" case NoModifier => "%n";
            counted == letters + f == "%" + (ModifierText(m) + (['n'] + f))
  {
    counted := "%" + (ModifierText(m) + (['n'] + f));
  }

  lemma {:induction false} StoredCount(m: Modifier, at: nat)
    ensures StoreOf(OutKind(m), at).size == OutKind(m)
    ensures var stored := StoreOf(OutKind(m), at).value;
            var half := match m case Short => 0x8000 case Long => 0x8000_0000_0000_0000
                                case LongLong => 0x8000_0000_0000_0000 case _ => 0x8000_0000;
            -half <= stored < half && (stored - at) % (2 * half) == 0 && (at < half ==> stored == at)
  {
    hide ToInt16, ToInt32, FmtInt.ToLong;
    Wrapped(at);
  }

  lemma {:induction false} Wrapped(at: nat)
    ensures -0x8000 <= ToInt16(at) < 0x8000 && (ToInt16(at) - at) % 0x1_0000 == 0
    ensures -0x8000_0000 <= ToInt32(at) < 0x8000_0000 && (ToInt32(at) - at) % 0x1_0000_0000 == 0
    ensures IsLong(FmtInt.ToLong(at)) && (FmtInt.ToLong(at) - at) % 0x1_0000_0000_0000_0000 == 0
    ensures at < 0x8000 ==> ToInt16(at) == at
    ensures at < 0x8000_0000 ==> ToInt32(at) == at
    ensures at < 0x8000_0000_0000_0000 ==> FmtInt.ToLong(at) == at
  {
  }

  // ---- Stars ----

  lemma {:induction false} WidthFloors(value: int, base: Base, x: real, v: string, flags: Flags, min: int, max: int)
    requires min <= 0 && IsLong(value)
    ensures IntText(value, base, min, max, flags) == IntText(value, base, 0, max, flags)
    ensures FpText(x, min, max, flags) == FpText(x, 0, max, flags)
    ensures StrText(v, flags, min, StringMax(|v|, min, max)) == StrText(v, flags, 0, StringMax(|v|, 0, max))
  {
    hide IntDigits, IntSign, Whole, FractionText, Numeral, SignText, Precision;
    assert Repeat(' ', min - |v|) == "" == Repeat(' ', 0 - |v|);
  }

  function BaseOf(conv: char): Base {
    if conv == 'o' then Octal else if conv in {'x', 'X', 'p'} then Hex else Decimal
  }

  /** The flags with what the conversion letter adds to them. */
  function LetterFlags(conv: char, flags: Flags): Flags {
    flags.(unsigned := conv in {'o', 'u', 'x', 'X'} || flags.unsigned, up := conv == 'X' || flags.up)
  }

  /** Which printer a conversion goes to. */
  lemma {:induction false} IntPrinter(conv: char, m: Modifier, flags: Flags, min: int, max: int, va: seq<Arg>)
    requires Accepts(ConvKinds(conv, m), va) && conv in {'d', 'i', 'o', 'u', 'x', 'X', 'p'}
    ensures |va| > 0 && (va[0].PointerArg? || SignedFits(m, va[0]) || UnsignedFits(m, va[0]))
    ensures ConvOut(conv, m, flags, min, max, va)
         == IntText(LongOf(va[0]), BaseOf(conv), min, max, LetterFlags(conv, flags))
  {
    hide IntText, FpText, StrText, InReach, StringMax, LongOf;
  }

  lemma {:induction false} OtherPrinter(conv: char, m: Modifier, flags: Flags, min: int, max: int, va: seq<Arg>)
    requires Accepts(ConvKinds(conv, m), va) && conv !in {'d', 'i', 'o', 'u', 'x', 'X', 'p'}
    ensures conv == 'f' ==>
              |va| > 0 && (va[0].DoubleArg? || va[0].LongDoubleArg?)
              && ConvOut(conv, m, flags, min, max, va) == FpText(RealOf(va[0]), min, max, flags)
    ensures conv == 's' ==>
              |va| > 0 && va[0].StringArg?
              && ConvOut(conv, m, flags, min, max, va)
                 == StrText(StringOf(va[0]), flags, min, StringMax(|StringOf(va[0])|, min, max))
    ensures conv !in {'f', 's'} ==> ConvOut(conv, m, flags, min, max, va) == ConvOut(conv, m, flags, 0, -1, va)
  {
    hide IntText, FpText, StrText, InReach, StringMax, LongOf, StringOf;
  }

  /** A negative width is no width. */
  lemma {:induction false} WidthFloor(conv: char, m: Modifier, flags: Flags, min: int, max: int, va: seq<Arg>)
    requires min <= 0 && Accepts(ConvKinds(conv, m), va)
    ensures ConvOut(conv, m, flags, min, max, va) == ConvOut(conv, m, flags, 0, max, va)
  {
    hide ConvOut, IntText, FpText, StrText, LongOf, RealOf, StringOf, StringMax, BaseOf, LetterFlags, ConvKinds,
         Accepts;
    if conv in {'d', 'i', 'o', 'u', 'x', 'X', 'p'} {
      IntPrinter(conv, m, flags, min, max, va);
      IntPrinter(conv, m, flags, 0, max, va);
      WidthFloors(LongOf(va[0]), BaseOf(conv), 0.0, "", LetterFlags(conv, flags), min, max);
    } else {
      OtherPrinter(conv, m, flags, min, max, va);
      OtherPrinter(conv, m, flags, 0, max, va);
      if conv == 'f' {
        WidthFloors(0, Decimal, RealOf(va[0]), "", flags, min, max);
      } else if conv == 's' {
        WidthFloors(0, Decimal, 0.0, StringOf(va[0]), flags, min, max);
      }
    }
  }

  lemma {:induction false} PrecisionFloors(value: int, base: Base, x: real, flags: Flags, min: int, max: int)
    requires max < 0 && IsLong(value)
    ensures IntText(value, base, min, max, flags) == IntText(value, base, min, -1, flags)
    ensures FpText(x, min, max, flags) == FpText(x, min, -1, flags)
  {
    hide IntDigits, IntSign, Whole, FractionText, Numeral, SignText;
  }

  /** A negative precision is none, but for strings, which do not print at all below -1. */
  lemma {:induction false} PrecisionFloor(conv: char, m: Modifier, flags: Flags, min: int, max: int, va: seq<Arg>)
    requires max < 0 && (conv == 's' ==> max == -1) && Accepts(ConvKinds(conv, m), va)
    ensures ConvOut(conv, m, flags, min, max, va) == ConvOut(conv, m, flags, min, -1, va)
  {
    hide ConvOut, IntText, FpText, StrText, LongOf, RealOf, StringOf, StringMax, BaseOf, LetterFlags, ConvKinds,
         Accepts;
    if conv in {'d', 'i', 'o', 'u', 'x', 'X', 'p'} {
      IntPrinter(conv, m, flags, min, max, va);
      IntPrinter(conv, m, flags, min, -1, va);
      PrecisionFloors(LongOf(va[0]), BaseOf(conv), 0.0, LetterFlags(conv, flags), min, max);
    } else {
      OtherPrinter(conv, m, flags, min, max, va);
      OtherPrinter(conv, m, flags, min, -1, va);
      if conv == 'f' {
        PrecisionFloors(0, Decimal, RealOf(va[0]), flags, min, max);
      }
    }
  }

  /** A star is worth the number it takes from the arguments, written out; a negative width is worth
      none. */
  lemma {:induction false} WidthStarWritten(d: Directive, written: Directive, w: CInt, va: seq<Arg>)
    requires d.widthStar && d.width == "" && d.conv != NUL && d.conv != 'w'
    requires written == d.(widthStar := false, width := if w > 0 then Numeral(w, Decimal, false) else "")
    requires WellFormedDirective(written) && Accepts(Demand(Spec(written, "")), va)
    ensures Suits(OneDirective(d), [IntArg(w)] + va) && Suits(OneDirective(written), va)
    ensures Formatted(OneDirective(d), [IntArg(w)] + va) == Formatted(OneDirective(written), va)
  {
    hide Formatted, Suits, OneDirective, ConvOut, Accepts, ConvKinds, FlagsOf, WellFormedDirective, Numeral;
    var args := [IntArg(w)] + va;
    StarWellFormed(d, written);
    DirectivePrints(written, va);
    assert args[StarCount(d)..] == va[StarCount(written)..];
    Passed(d, args);
    DirectivePrints(d, args);
    WidthWritten(written, va, w);
    if w <= 0 {
      WidthFloor(d.conv, d.modifier, FlagsOf(d.flags), w, MaxOf(d, args), va[StarCount(written)..]);
    }
  }

  lemma {:induction false} WidthWritten(d: Directive, va: seq<Arg>, w: int)
    requires !d.widthStar && d.width == (if w > 0 then Numeral(w, Decimal, false) else "") && StarsFit(d, va)
    ensures MinOf(d, va) == if w > 0 then w else 0
  {
    if w > 0 {
      NumeralDenotes(w, Decimal, false);
    }
  }

  lemma {:induction false} StarWellFormed(d: Directive, written: Directive)
    requires WellFormedDirective(written) && !written.widthStar
    requires d == written.(widthStar := true, width := "")
    ensures WellFormedDirective(d)
  {
    assert At(MinText(d, ""), 0) == '*';
  }

  /** Likewise for the precision; a negative one is worth none, and for a string must not be below -1. */
  lemma {:induction false} PrecisionStarWritten(d: Directive, written: Directive, p: CInt, args: seq<Arg>,
                                                others: seq<Arg>)
    requires d.dot && d.precStar && d.prec == "" && d.conv != NUL && d.conv != 'w' && (d.conv == 's' ==> p >= -1)
    requires written == d.(precStar := false, dot := p >= 0, prec := if p >= 0 then Numeral(p, Decimal, false) else "")
    requires WellFormedDirective(d) && WellFormedDirective(written)
    requires |args| >= StarCount(d) && args[StarCount(d) - 1] == IntArg(p)
    requires others == args[..StarCount(d) - 1] + args[StarCount(d)..] && Accepts(Demand(Spec(written, "")), others)
    ensures Suits(OneDirective(d), args) && Suits(OneDirective(written), others)
    ensures Formatted(OneDirective(d), args) == Formatted(OneDirective(written), others)
  {
    hide Formatted, Suits, OneDirective, ConvOut, Accepts, ConvKinds, FlagsOf, WellFormedDirective, Numeral;
    DirectivePrints(written, others);
    assert others[StarCount(written)..] == args[StarCount(d)..];
    assert d.widthStar ==> args[0] == others[0];
    Passed(d, args);
    DirectivePrints(d, args);
    PrecisionWritten(written, others, p);
    if p < 0 {
      PrecisionFloor(d.conv, d.modifier, FlagsOf(d.flags), MinOf(d, args), p, args[StarCount(d)..]);
    }
  }

  lemma {:induction false} PrecisionWritten(d: Directive, va: seq<Arg>, p: int)
    requires !d.precStar && d.prec == (if p >= 0 then Numeral(p, Decimal, false) else "") && StarsFit(d, va)
    ensures MaxOf(d, va) == if p >= 0 then p else -1
  {
    if p >= 0 {
      NumeralFirst(p, Decimal, false);
      NumeralDenotes(p, Decimal, false);
    }
  }
}
