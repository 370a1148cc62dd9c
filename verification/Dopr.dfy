/** dopr: the scanner loop that drives the printers. */
module Dopr {
  import opened Text
  import opened Numerals
  import opened FormatFlags
  import opened Output
  import opened Format
  import opened Render
  import FmtStr
  import FmtInt
  import FmtFp

  /** DP_S_DEFAULT to DP_S_DONE. */
  datatype State = Default | InFlags | InMin | InDot | InMax | InMod | InConv | Done

  function Number(state: State): nat
    ensures Number(state) <= 7
  {
    match state
    case Default => 0
    case InFlags => 1
    case InMin => 2
    case InDot => 3
    case InMax => 4
    case InMod => 5
    case InConv => 6
    case Done => 7
  }

  /** The local variables of dopr: `ch` has just been read, `format` points behind it, and `va` is
      what the argument list still holds. */
  datatype Scanner = Scanner(state: State, pos: nat, ch: char, flags: Flags, min: int, max: int, cflags: Modifier,
                             va: seq<Arg>)

  predicate AtChar(s: Scanner, fmt: string) {
    s.pos <= |fmt| && s.ch == At(fmt, s.pos)
  }

  /** `ch = *format++` */
  function Advance(s: Scanner, fmt: string): Scanner
    requires s.pos < |fmt|
  {
    s.(pos := s.pos + 1, ch := At(fmt, s.pos + 1))
  }

  // ---- What the variables mean in the middle of a directive ----

  /** The scan that the state will complete. */
  ghost function Resume(state: State, d: Directive, rest: string): Scanned
    requires 1 <= Number(state) <= 6
  {
    match state
    case InFlags => FromFlags(d, rest)
    case InMin => FromMin(d, rest)
    case InDot => FromDot(d, rest)
    case InMax => FromMax(d, rest)
    case InMod => FromMod(d, rest)
    case InConv => FromConv(d, rest)
  }

  /** The directive so far has none of the parts the state has yet to read. */
  ghost predicate SoFar(state: State, d: Directive) {
    && d.conv == NUL
    && (Number(state) <= 5 ==> d.modifier == NoModifier)
    && (Number(state) <= 4 ==> !d.precStar)
    && (Number(state) <= 3 ==> !d.dot && d.prec == "")
    && (Number(state) <= 2 ==> !d.widthStar)
    && (Number(state) <= 1 ==> d.width == "")
    && (Number(state) <= 0 ==> d.flags == "")
  }

  /** The variables hold what has been read of d, and va what its stars left of args. */
  ghost predicate Decoded(s: Scanner, d: Directive, args: seq<Arg>) {
    && SoFar(s.state, d)
    && StarsFit(d, args) && s.va == args[StarCount(d)..]
    && s.flags == FlagsOf(d.flags) && s.min == MinOf(d, args) && s.max == MaxOf(d, args) && s.cflags == d.modifier
  }

  // ---- One step inside a directive ----

  lemma {:induction false} FlagsOfSnoc(flags: string, c: char)
    ensures FlagsOf(flags + [c]) == AddFlag(FlagsOf(flags), c)
  {
    assert (flags + [c])[..|flags|] == flags;
  }

  lemma {:induction false} ValueOfDigit(run: string, c: char)
    requires IsDigit(c)
    ensures Value(run + [c], Decimal) == 10 * Value(run, Decimal) + (c as int - '0' as int)
  {
    ValueSnoc(run, c, Decimal);
  }

  /** A state in the middle of a directive, with a character to read and the stars' arguments there. */
  ghost predicate Reading(fmt: string, s: Scanner, d: Directive, args: seq<Arg>) {
    && 1 <= Number(s.state) <= 6 && AtChar(s, fmt) && Decoded(s, d, args)
    && StarsFit(Resume(s.state, d, fmt[s.pos..]).d, args)
  }

  /** Progress towards the same directive: a later position, or a later state at the same one. */
  ghost predicate Steps(fmt: string, s: Scanner, d: Directive, s': Scanner, d': Directive) {
    && 1 <= Number(s.state) <= 6 && 1 <= Number(s'.state) <= 6 && s.pos <= |fmt| && s'.pos <= |fmt|
    && Resume(s'.state, d', fmt[s'.pos..]) == Resume(s.state, d, fmt[s.pos..])
    && (s'.pos > s.pos || (s'.pos == s.pos && Number(s'.state) > Number(s.state)))
  }

  method StepFlags(fmt: CString, s: Scanner, ghost d: Directive, ghost args: seq<Arg>)
    returns (s': Scanner, ghost d': Directive)
    requires s.state == InFlags && s.ch != NUL && Reading(fmt, s, d, args)
    ensures Reading(fmt, s', d', args) && Steps(fmt, s, d, s', d')
  {
    hide FromMin, FromDot, FromMax, FromMod, FromConv, Value;
    if IsFlag(s.ch) {
      FlagsOfSnoc(d.flags, s.ch);
      s', d' := Advance(s, fmt).(flags := AddFlag(s.flags, s.ch)), d.(flags := d.flags + [s.ch]);
    } else {
      s', d' := s.(state := InMin), d;
    }
  }

  method StepMin(fmt: CString, s: Scanner, ghost d: Directive, ghost args: seq<Arg>)
    returns (s': Scanner, ghost d': Directive)
    requires s.state == InMin && s.ch != NUL && Reading(fmt, s, d, args)
    ensures Reading(fmt, s', d', args) && Steps(fmt, s, d, s', d')
  {
    hide FromFlags, FromDot, FromMax, FromMod, FromConv, FlagsOf, Value;
    if IsDigit(s.ch) {
      ValueOfDigit(d.width, s.ch);
      s', d' := Advance(s, fmt).(min := 10 * s.min + (s.ch as int - '0' as int)), d.(width := d.width + [s.ch]);
    } else if s.ch == '*' {
      assert Resume(InMin, d, fmt[s.pos..]).d.widthStar;
      s', d' := Advance(s, fmt).(min := s.va[0].i, va := s.va[1..], state := InDot), d.(widthStar := true);
    } else {
      s', d' := s.(state := InDot), d;
    }
  }

  method StepDot(fmt: CString, s: Scanner, ghost d: Directive, ghost args: seq<Arg>)
    returns (s': Scanner, ghost d': Directive)
    requires s.state == InDot && s.ch != NUL && Reading(fmt, s, d, args)
    ensures Reading(fmt, s', d', args) && Steps(fmt, s, d, s', d')
  {
    hide FromFlags, FromMin, FromMax, FromMod, FromConv, FlagsOf;
    if s.ch == '.' {
      s', d' := Advance(s, fmt).(state := InMax), d.(dot := true);
    } else {
      s', d' := s.(state := InMod), d;
    }
  }

  method StepMax(fmt: CString, s: Scanner, ghost d: Directive, ghost args: seq<Arg>)
    returns (s': Scanner, ghost d': Directive)
    requires s.state == InMax && s.ch != NUL && Reading(fmt, s, d, args)
    ensures Reading(fmt, s', d', args) && Steps(fmt, s, d, s', d')
  {
    hide FromFlags, FromMin, FromDot, FromMod, FromConv, Decoded;
    if IsDigit(s.ch) {
      var max := if s.max < 0 then 0 else s.max;
      s', d' := Advance(s, fmt).(max := 10 * max + (s.ch as int - '0' as int)), d.(prec := d.prec + [s.ch]);
      MaxDigit(s, d, args, s');
    } else if s.ch == '*' {
      assert Resume(InMax, d, fmt[s.pos..]).d.precStar;
      HeldStar(s, d, args, Resume(InMax, d, fmt[s.pos..]).d);
      s', d' := Advance(s, fmt).(max := s.va[0].i, va := s.va[1..], state := InMod), d.(precStar := true);
      MaxStar(s, d, args, s');
    } else {
      s', d' := s.(state := InMod), d;
      MaxEnd(s, d, args);
    }
  }

  lemma {:induction false} MaxDigit(s: Scanner, d: Directive, args: seq<Arg>, s': Scanner)
    requires s.state == InMax && Decoded(s, d, args) && IsDigit(s.ch)
    requires var max := 10 * (if s.max < 0 then 0 else s.max) + (s.ch as int - '0' as int);
             s' == s.(pos := s'.pos, ch := s'.ch, max := max)
    ensures Decoded(s', d.(prec := d.prec + [s.ch]), args)
  {
    ValueOfDigit(d.prec, s.ch);
  }

  /** The precision's star finds its argument. */
  lemma {:induction false} HeldStar(s: Scanner, d: Directive, args: seq<Arg>, whole: Directive)
    requires s.state == InMax && Decoded(s, d, args) && StarsFit(whole, args)
    requires whole.precStar && whole.widthStar == d.widthStar
    ensures |s.va| > 0 && s.va[0].IntArg?
  {
  }

  lemma {:induction false} MaxStar(s: Scanner, d: Directive, args: seq<Arg>, s': Scanner)
    requires s.state == InMax && Decoded(s, d, args) && |s.va| > 0 && s.va[0].IntArg?
    requires s' == s.(pos := s'.pos, ch := s'.ch, max := s.va[0].i, va := s.va[1..], state := InMod)
    ensures Decoded(s', d.(precStar := true), args)
  {
  }

  lemma {:induction false} MaxEnd(s: Scanner, d: Directive, args: seq<Arg>)
    requires s.state == InMax && Decoded(s, d, args)
    ensures Decoded(s.(state := InMod), d, args)
  {
  }

  /** The modifier in front of a text, from its first two characters. */
  function ModifierAt(c: char, next: char): Modifier {
    if c == 'h' then Short else if c == 'L' then LongDouble
    else if c != 'l' then NoModifier else if next == 'l' then LongLong else Long
  }

  lemma {:induction false} FromModifier(d: Directive, t: string)
    requires d.modifier == NoModifier
    ensures var m := ModifierAt(At(t, 0), At(t, 1));
            |ModifierText(m)| <= |t| && FromMod(d, t) == FromConv(d.(modifier := m), t[|ModifierText(m)|..])
  {
    hide FromConv;
    assert t[0..] == t;
  }

  lemma {:induction false} ModReading(fmt: CString, s: Scanner, d: Directive, args: seq<Arg>, s': Scanner, m: Modifier)
    requires s.state == InMod && Reading(fmt, s, d, args)
    requires m == ModifierAt(s.ch, At(fmt, s.pos + 1)) && s'.pos == s.pos + |ModifierText(m)|
    requires s' == s.(pos := s'.pos, ch := At(fmt, s'.pos), cflags := m, state := InConv)
    ensures Reading(fmt, s', d.(modifier := m), args) && Steps(fmt, s, d, s', d.(modifier := m))
  {
    hide Decoded, StarsFit, FromConv, FromMod, ModifierAt, ModifierText, FromFlags, FromMin, FromDot, FromMax;
    DecodedFresh(s, d, args);
    DecodedModifier(s, d, args, s', m);
    ModifierBehind(fmt, s.pos, d, m);
  }

  lemma {:induction false} ModifierBehind(fmt: CString, pos: nat, d: Directive, m: Modifier)
    requires pos <= |fmt| && d.modifier == NoModifier && m == ModifierAt(At(fmt, pos), At(fmt, pos + 1))
    ensures pos + |ModifierText(m)| <= |fmt|
    ensures FromMod(d, fmt[pos..]) == FromConv(d.(modifier := m), fmt[pos + |ModifierText(m)|..])
  {
    hide FromMod, FromConv, ModifierAt, ModifierText;
    var rest := fmt[pos..];
    assert At(rest, 0) == At(fmt, pos) && At(rest, 1) == At(fmt, pos + 1);
    FromModifier(d, rest);
    assert fmt[pos + |ModifierText(m)|..] == rest[|ModifierText(m)|..];
  }

  lemma {:induction false} DecodedFresh(s: Scanner, d: Directive, args: seq<Arg>)
    requires s.state == InMod && Decoded(s, d, args)
    ensures d.modifier == NoModifier
  {
  }

  method StepMod(fmt: CString, s: Scanner, ghost d: Directive, ghost args: seq<Arg>)
    returns (s': Scanner, ghost d': Directive)
    requires s.state == InMod && s.ch != NUL && Reading(fmt, s, d, args)
    ensures Reading(fmt, s', d', args) && Steps(fmt, s, d, s', d')
  {
    assert AtChar(s, fmt);
    hide Reading, Steps;
    var m := NoModifier;
    s' := s;
    if s.ch == 'h' {
      m, s' := Short, Advance(s, fmt);
    } else if s.ch == 'l' {
      m, s' := Long, Advance(s, fmt);
      if s'.ch == 'l' {
        m, s' := LongLong, Advance(s', fmt);
      }
    } else if s.ch == 'L' {
      m, s' := LongDouble, Advance(s, fmt);
    }
    s', d' := s'.(cflags := m, state := InConv), d.(modifier := m);
    ModReading(fmt, s, d, args, s', m);
  }

  lemma {:induction false} DecodedModifier(s: Scanner, d: Directive, args: seq<Arg>, s': Scanner, m: Modifier)
    requires s.state == InMod && Decoded(s, d, args)
    requires s' == s.(pos := s'.pos, ch := s'.ch, cflags := m, state := InConv)
    ensures Decoded(s', d.(modifier := m), args)
  {
  }

  // ---- One conversion ----

  /** `va_arg` for the conversions that print an integer. */
  method IntegerArg(ch: char, cflags: Modifier, va: seq<Arg>) returns (value: int)
    requires ch in {'d', 'i', 'o', 'u', 'x', 'X'} && Accepts(ConvKinds(ch, cflags), va)
    ensures value == LongOf(va[0]) && FmtInt.IsLong(value)
  {
    if ch in {'d', 'i'} {
      value := match cflags case Long => va[0].l case LongLong => va[0].ll case _ => va[0].i;
    } else {
      value := match cflags
               case Long => FmtInt.ToLong(va[0].ul)
               case LongLong => FmtInt.ToLong(va[0].ull)
               case _ => va[0].u;
    }
  }

  /** The inner switch of DP_S_CONV: print the argument the conversion character asks for. */
  method Convert(out: Sink, ch: char, cflags: Modifier, flags: Flags, min: int, max: int, va: seq<Arg>)
    returns (rest: seq<Arg>, stores: seq<Store>)
    requires out.Valid() && Accepts(ConvKinds(ch, cflags), va)
    modifies out, out.buffer
    ensures out.Valid() && out.text == old(out.text) + ConvOut(ch, cflags, flags, min, max, va)
    ensures rest == va[|ConvKinds(ch, cflags)|..] && stores == ConvStores(ch, cflags, |old(out.text)|)
  {
    assert out.currlen == |out.text|;
    hide Sink.Valid, FmtInt.IntText, FmtFp.FpText, FmtStr.StrText;
    rest, stores := va, [];
    match ch
    case 'd' | 'i' | 'o' | 'u' | 'X' | 'x' | 'f' | 'p' =>
      ConvertNumber(out, ch, cflags, flags, min, max, va);
      rest := va[1..];
    case 'E' | 'e' | 'G' | 'g' =>
      rest := va[1..];
    case 'c' =>
      out.Put(CharOf(va[0].i));
      rest := va[1..];
    case 's' =>
      ConvertString(out, va[0], flags, min, max);
      rest := va[1..];
    case 'n' =>
      stores := [StoreOf(OutKind(cflags), out.currlen)];
      rest := va[1..];
    case '%' =>
      out.Put(ch);
    case _ =>
  }

  /** The numeric cases of the switch: they differ in the argument type, the base and the flags. */
  method ConvertNumber(out: Sink, ch: char, cflags: Modifier, flags: Flags, min: int, max: int, va: seq<Arg>)
    requires out.Valid() && ch in {'d', 'i', 'o', 'u', 'X', 'x', 'f', 'p'} && Accepts(ConvKinds(ch, cflags), va)
    modifies out, out.buffer
    ensures out.Valid() && out.text == old(out.text) + ConvOut(ch, cflags, flags, min, max, va)
  {
    hide Sink.Valid, FmtInt.IntText, FmtFp.FpText, FmtStr.StrText;
    if ch == 'f' {
      var fvalue := if cflags == LongDouble then va[0].lx else va[0].x;
      FmtFp.FmtFp(out, fvalue, min, max, flags);
      return;
    }
    if ch == 'p' {
      FmtInt.FmtInt(out, FmtInt.ToLong(va[0].p), Hex, min, max, flags);
      return;
    }
    var value := IntegerArg(ch, cflags, va);
    match ch
    case 'd' | 'i' => FmtInt.FmtInt(out, value, Decimal, min, max, flags);
    case 'o' => FmtInt.FmtInt(out, value, Octal, min, max, flags.(unsigned := true));
    case 'u' => FmtInt.FmtInt(out, value, Decimal, min, max, flags.(unsigned := true));
    case 'X' => FmtInt.FmtInt(out, value, Hex, min, max, flags.(up := true, unsigned := true));
    case 'x' => FmtInt.FmtInt(out, value, Hex, min, max, flags.(unsigned := true));
  }

  /** The string case: a missing precision becomes the length, and a wider width raises it. */
  method ConvertString(out: Sink, arg: Arg, flags: Flags, min: int, max: int)
    requires out.Valid() && arg.StringArg?
    modifies out, out.buffer
    ensures out.Valid()
    ensures out.text == old(out.text)
                      + FmtStr.StrText(StringOf(arg), flags, min, StringMax(|StringOf(arg)|, min, max))
  {
    var strvalue := if arg.s.None? then "(NULL)" else arg.s.value;
    var max' := max;
    if max' == -1 {
      max' := |strvalue|;
    }
    if min > 0 && max' >= 0 && min > max' {
      max' := min;
    }
    FmtStr.FmtStr(out, strvalue, flags, min, max');
  }

  // ---- The loop ----

  /** What a call does: the text it prints, what it stores, and whether it stays inside the format. */
  datatype Outcome = Outcome(text: string, stores: seq<Store>, inside: bool)

  function Wanted(fmt: string, args: seq<Arg>): Outcome
    requires Suits(fmt, args)
  {
    Outcome(Formatted(fmt, args), Stores(Pieces(fmt), args, 0), StaysInside(fmt))
  }

  /** What the loop has still to print: the pieces of the format from here on. */
  ghost function Ahead(s: Scanner, fmt: string, d: Directive): seq<Piece>
    requires s.pos <= |fmt|
  {
    if s.state == Done then []
    else if s.state == Default then Pieces(fmt[s.pos..])
    else After(Resume(s.state, d, fmt[s.pos..]))
  }

  /** The printed text and stores, with what lies ahead, make up the whole. */
  ghost predicate Owed(ps: seq<Piece>, args: seq<Arg>, text: string, stores: seq<Store>, whole: Outcome)
  {
    && Accepts(Demands(ps), args) && Inside(ps) == whole.inside
    && text + Rendered(ps, args) == whole.text && stores + Stores(ps, args, |text|) == whole.stores
  }

  /** Printing the first piece pays for it. */
  lemma {:induction false} OwedTail(p: Piece, ps: seq<Piece>, args: seq<Arg>, text: string, stores: seq<Store>,
                                    whole: Outcome)
    requires Owed([p] + ps, args, text, stores, whole)
    ensures Accepts(Demand(p), args)
    ensures ps != [] || Inside([p]) ==>
              Owed(ps, args[|Demand(p)|..], text + PieceOut(p, args), stores + PieceStores(p, |text|), whole)
    ensures ps == [] ==> whole == Outcome(text + PieceOut(p, args), stores + PieceStores(p, |text|), Inside([p]))
  {
    hide PieceOut, PieceStores, Demand, Accepts;
    assert ([p] + ps)[1..] == ps;
    assert Demands([p] + ps) == Demand(p) + Demands(ps);
    AcceptsSplit(Demand(p), Demands(ps), args);
    RenderedCons(p, ps, args, |text|);
    AppendAssoc(text, PieceOut(p, args), Rendered(ps, args[|Demand(p)|..]));
    assert ps == [] ==> [p] + ps == [p];
  }

  lemma {:induction false} LiteralPrints(c: char, args: seq<Arg>, text: string, stores: seq<Store>)
    ensures var p := Literal(c);
            && Accepts(Demand(p), args) && args[|Demand(p)|..] == args
            && text + PieceOut(p, args) == text + [c] && stores + PieceStores(p, |text|) == stores
  {
  }

  lemma {:induction false} OwedLiteral(f: string, args: seq<Arg>, text: string, stores: seq<Store>, whole: Outcome)
    requires f != "" && f[0] != '%' && Owed(Pieces(f), args, text, stores, whole)
    ensures Owed(Pieces(f[1..]), args, text + [f[0]], stores, whole)
  {
    hide Owed, Accepts, Demand, PieceOut, PieceStores;
    OwedTail(Literal(f[0]), Pieces(f[1..]), args, text, stores, whole);
    LiteralPrints(f[0], args, text, stores);
  }

  /** The format ended inside a directive: nothing more is printed. */
  lemma {:induction false} OwedNothing(d: Directive, args: seq<Arg>, text: string, stores: seq<Store>, whole: Outcome)
    requires d.conv == NUL && Owed(After(Scanned(d, "")), args, text, stores, whole)
    ensures whole == Outcome(text, stores, true)
  {
    var p := Spec(d, "");
    assert After(Scanned(d, "")) == [p] + [];
    assert Inside([p]) && PieceStores(p, |text|) == [];
    hide Owed, After, PieceOut, PieceStores, Demand, Accepts, Inside;
    OwedTail(p, [], args, text, stores, whole);
    NothingPrints(d, args);
    assert text + "" == text && stores + [] == stores;
  }

  lemma {:induction false} NothingPrints(d: Directive, args: seq<Arg>)
    requires d.conv == NUL && Accepts(Demand(Spec(d, "")), args)
    ensures PieceOut(Spec(d, ""), args) == ""
  {
    hide FmtInt.IntText, FmtFp.FpText, FmtStr.StrText, MinOf, MaxOf, FlagsOf;
  }

  /** The scanner is about to skip the character behind a `w`, and there is none. */
  predicate Over(sc: Scanned) {
    sc.d.conv == 'w' && sc.rest == ""
  }

  /** What comes after a directive. */
  lemma {:induction false} AfterNext(sc: Scanned) returns (p: Piece, next: string)
    ensures After(sc) == [p] + Pieces(next) && p.Spec? && p.d == sc.d
    ensures Over(sc) ==> Pieces(next) == []
    ensures Inside([p]) <==> !Over(sc)
    ensures next == if sc.d.conv == 'w' && sc.rest != "" then sc.rest[1..] else sc.rest
  {
    p := Spec(sc.d, if sc.d.conv == 'w' && sc.rest != "" then sc.rest[..1] else "");
    next := if sc.d.conv == 'w' && sc.rest != "" then sc.rest[1..] else sc.rest;
    assert sc.rest == "" ==> After(sc) == [Spec(sc.d, "")];
  }

  lemma {:induction false} OwedStars(sc: Scanned, args: seq<Arg>, text: string, stores: seq<Store>, whole: Outcome)
    requires Owed(After(sc), args, text, stores, whole)
    ensures StarsFit(sc.d, args) && Accepts(ConvKinds(sc.d.conv, sc.d.modifier), args[StarCount(sc.d)..])
    ensures |StarKinds(sc.d)| == StarCount(sc.d)
  {
    var p, next := AfterNext(sc);
    OwedTail(p, Pieces(next), args, text, stores, whole);
    AcceptsSplit(StarKinds(sc.d), ConvKinds(sc.d.conv, sc.d.modifier), args);
    AcceptsStars(sc.d, args);
  }

  /** A conversion character: what it prints, what it takes, and where the format goes on. */
  lemma {:induction false} OwedConv(sc: Scanned, args: seq<Arg>, va: seq<Arg>, text: string, stores: seq<Store>,
                                    whole: Outcome)
    requires sc.d.conv != NUL && Owed(After(sc), args, text, stores, whole)
    requires StarsFit(sc.d, args) && va == args[StarCount(sc.d)..]
    requires Accepts(ConvKinds(sc.d.conv, sc.d.modifier), va)
    ensures var d := sc.d;
            var now := text + ConvOut(d.conv, d.modifier, FlagsOf(d.flags), MinOf(d, args), MaxOf(d, args), va);
            var stores' := stores + ConvStores(d.conv, d.modifier, |text|);
            if Over(sc) then whole == Outcome(now, stores', false)
            else Owed(Pieces(if d.conv == 'w' then sc.rest[1..] else sc.rest), va[|ConvKinds(d.conv, d.modifier)|..],
                      now, stores', whole)
  {
    hide ConvOut, ConvStores, ConvKinds, Owed, After, Inside, FlagsOf, MinOf, MaxOf, PieceOut, PieceStores, Demand,
         Accepts, StarsFit;
    var p, next := AfterNext(sc);
    OwedTail(p, Pieces(next), args, text, stores, whole);
    SpecPrints(p, args, |text|);
  }

  lemma {:induction false} SpecPrints(p: Piece, args: seq<Arg>, at: nat)
    requires p.Spec? && StarsFit(p.d, args) && Accepts(Demand(p), args)
    requires Accepts(ConvKinds(p.d.conv, p.d.modifier), args[StarCount(p.d)..])
    ensures var d, va := p.d, args[StarCount(p.d)..];
            && PieceOut(p, args) == ConvOut(d.conv, d.modifier, FlagsOf(d.flags), MinOf(d, args), MaxOf(d, args), va)
            && PieceStores(p, at) == ConvStores(d.conv, d.modifier, at)
            && args[|Demand(p)|..] == va[|ConvKinds(d.conv, d.modifier)|..]
  {
    hide ConvOut, ConvStores, ConvKinds, FlagsOf, MinOf, MaxOf;
    AcceptsStars(p.d, args);
  }

  // ---- The cases of the loop ----

  /** The loop invariant: at every turn, what has been printed and what lies ahead make up the
      whole; in the middle of a directive the variables hold what has been read of it. `held` are
      the arguments from the start of the current directive. */
  ghost predicate OnCourse(s: Scanner, fmt: CString, d: Directive, held: seq<Arg>, text: string, stores: seq<Store>,
                           whole: Outcome)
  {
    && AtChar(s, fmt)
    && (s.state == Default ==> d == BLANK)
    && if s.state == Done then whole == Outcome(text, stores, true)
       else Decoded(s, d, held) && Owed(Ahead(s, fmt, d), held, text, stores, whole)
  }

  lemma {:induction false} OnCourseFacts(s: Scanner, fmt: CString, d: Directive, held: seq<Arg>, text: string,
                                         stores: seq<Store>, whole: Outcome)
    requires OnCourse(s, fmt, d, held, text, stores, whole)
    ensures AtChar(s, fmt) && (s.state == Default ==> d == BLANK)
    ensures s.state == Done ==> whole == Outcome(text, stores, true)
  {
  }

  /** Between directives the variables hold nothing. */
  lemma {:induction false} FreshDecoded(s: Scanner)
    requires s.state == Default && s.flags == NO_FLAGS && s.min == 0 && s.max == -1 && s.cflags == NoModifier
    ensures Decoded(s, BLANK, s.va)
  {
  }

  lemma {:induction false} AheadAfresh(s: Scanner, fmt: string)
    requires s.state == Default && s.pos <= |fmt|
    ensures Ahead(s, fmt, BLANK) == Pieces(fmt[s.pos..])
  {
  }

  lemma {:induction false} BetweenDirectives(s: Scanner, fmt: CString, text: string, stores: seq<Store>, whole: Outcome)
    requires AtChar(s, fmt) && s.state == Default && s.flags == NO_FLAGS && s.min == 0 && s.max == -1
    requires s.cflags == NoModifier && Owed(Pieces(fmt[s.pos..]), s.va, text, stores, whole)
    ensures OnCourse(s, fmt, BLANK, s.va, text, stores, whole)
  {
    hide Owed, Decoded, Pieces, After, Ahead, BLANK;
    FreshDecoded(s);
    AheadAfresh(s, fmt);
  }

  lemma {:induction false} StartCase(fmt: CString, args: seq<Arg>)
    requires Suits(fmt, args)
    ensures OnCourse(Scanner(Default, 0, At(fmt, 0), NO_FLAGS, 0, -1, NoModifier, args), fmt, BLANK, args, "", [],
                     Wanted(fmt, args))
  {
    assert fmt[0..] == fmt;
    hide OnCourse, Accepts, Rendered, Stores, Pieces, Demands, Inside;
    assert "" + Formatted(fmt, args) == Formatted(fmt, args);
    assert [] + Stores(Pieces(fmt), args, 0) == Stores(Pieces(fmt), args, 0);
    BetweenDirectives(Scanner(Default, 0, At(fmt, 0), NO_FLAGS, 0, -1, NoModifier, args), fmt, "", [],
                      Wanted(fmt, args));
  }

  lemma {:induction false} LiteralCase(s: Scanner, fmt: CString, held: seq<Arg>, text: string, stores: seq<Store>,
                                       whole: Outcome)
    requires s.state == Default && s.ch != NUL && s.ch != '%'
    requires OnCourse(s, fmt, BLANK, held, text, stores, whole)
    ensures OnCourse(Advance(s, fmt), fmt, BLANK, held, text + [s.ch], stores, whole)
  {
    hide Owed;
    assert fmt[s.pos..][1..] == fmt[s.pos + 1..];
    OwedLiteral(fmt[s.pos..], held, text, stores, whole);
  }

  lemma {:induction false} PercentCase(s: Scanner, fmt: CString, held: seq<Arg>, text: string, stores: seq<Store>,
                                       whole: Outcome)
    requires s.state == Default && s.ch == '%' && OnCourse(s, fmt, BLANK, held, text, stores, whole)
    ensures OnCourse(Advance(s, fmt).(state := InFlags), fmt, BLANK, held, text, stores, whole)
  {
    hide Owed;
    assert fmt[s.pos..][1..] == fmt[s.pos + 1..];
  }

  lemma {:induction false} EndCase(s: Scanner, fmt: CString, d: Directive, held: seq<Arg>, text: string,
                                   stores: seq<Store>, whole: Outcome)
    requires s.ch == NUL && s.state != Done && OnCourse(s, fmt, d, held, text, stores, whole)
    ensures OnCourse(s.(state := Done), fmt, d, held, text, stores, whole)
  {
    hide Owed, Resume, Decoded, After;
    assert fmt[s.pos..] == "";
    if s.state == Default {
      OwedDone(held, text, stores, whole);
    } else {
      ResumeEnd(s.state, d);
      OwedNothing(d.(conv := NUL), held, text, stores, whole);
    }
  }

  lemma {:induction false} OwedDone(args: seq<Arg>, text: string, stores: seq<Store>, whole: Outcome)
    requires Owed([], args, text, stores, whole)
    ensures whole == Outcome(text, stores, true)
  {
    assert text + "" == text && stores + [] == stores;
  }

  lemma {:induction false} ResumeEnd(state: State, d: Directive)
    requires 1 <= Number(state) <= 6
    ensures Resume(state, d, "") == Scanned(d.(conv := NUL), "")
  {
  }

  /** DP_S_FLAGS to DP_S_MOD. */
  method ScanCase(s: Scanner, fmt: CString, ghost d: Directive, ghost held: seq<Arg>, ghost text: string,
                  ghost stores: seq<Store>, ghost whole: Outcome)
    returns (s': Scanner, ghost d': Directive)
    requires 1 <= Number(s.state) <= 5 && s.ch != NUL && OnCourse(s, fmt, d, held, text, stores, whole)
    ensures OnCourse(s', fmt, d', held, text, stores, whole)
    ensures s'.pos > s.pos || (s'.pos == s.pos && Number(s'.state) > Number(s.state))
  {
    hide Owed, Decoded;
    OwedStars(Resume(s.state, d, fmt[s.pos..]), held, text, stores, whole);
    match s.state
    case InFlags => s', d' := StepFlags(fmt, s, d, held);
    case InMin => s', d' := StepMin(fmt, s, d, held);
    case InDot => s', d' := StepDot(fmt, s, d, held);
    case InMax => s', d' := StepMax(fmt, s, d, held);
    case InMod => s', d' := StepMod(fmt, s, d, held);
  }

  /** Where the scanner stands after a conversion character: behind it, or one further after `w`,
      with the directive's variables reset. */
  function Landing(s: Scanner, fmt: string, rest: seq<Arg>): Scanner
    requires s.pos + (if s.ch == 'w' then 1 else 0) < |fmt|
  {
    var s' := if s.ch == 'w' then Advance(s, fmt) else s;
    Advance(s', fmt).(state := Default, flags := NO_FLAGS, cflags := NoModifier, min := 0, max := -1, va := rest)
  }

  /** Advancing behind the conversion character would leave the format. */
  predicate LeavesFormat(s: Scanner, fmt: string) {
    s.ch == 'w' && s.pos + 1 >= |fmt|
  }

  lemma {:induction false} ConvLands(s: Scanner, fmt: CString, d: Directive, held: seq<Arg>, text: string,
                                     stores: seq<Store>, whole: Outcome)
    requires s.state == InConv && s.ch != NUL && OnCourse(s, fmt, d, held, text, stores, whole)
    ensures s.pos < |fmt| && Accepts(ConvKinds(s.ch, s.cflags), s.va)
    ensures var rest := s.va[|ConvKinds(s.ch, s.cflags)|..];
            var now := text + ConvOut(s.ch, s.cflags, s.flags, s.min, s.max, s.va);
            var stores' := stores + ConvStores(s.ch, s.cflags, |text|);
            if LeavesFormat(s, fmt) then whole == Outcome(now, stores', false)
            else OnCourse(Landing(s, fmt, rest), fmt, BLANK, rest, now, stores', whole)
  {
    hide Owed, ConvOut, ConvStores, ConvKinds, StarsFit;
    var sc := FromConv(d, fmt[s.pos..]);
    assert sc == Scanned(d.(conv := s.ch), fmt[s.pos + 1..]);
    OwedStars(sc, held, text, stores, whole);
    StarsKept(d, s.ch, held);
    assert s.flags == FlagsOf(d.flags) && s.va == held[StarCount(sc.d)..];
    OwedConv(sc, held, s.va, text, stores, whole);
    if !LeavesFormat(s, fmt) {
      var rest := s.va[|ConvKinds(s.ch, s.cflags)|..];
      var landing := Landing(s, fmt, rest);
      assert fmt[landing.pos..] == if s.ch == 'w' then sc.rest[1..] else sc.rest;
      hide OnCourse, Decoded, FlagsOf, FromConv, MinOf, MaxOf;
      BetweenDirectives(landing, fmt, text + ConvOut(s.ch, s.cflags, s.flags, s.min, s.max, s.va),
                        stores + ConvStores(s.ch, s.cflags, |text|), whole);
    }
  }

  lemma {:induction false} StarsKept(d: Directive, c: char, args: seq<Arg>)
    requires StarsFit(d, args)
    ensures var e := d.(conv := c);
            StarsFit(e, args) && StarCount(e) == StarCount(d) && MinOf(e, args) == MinOf(d, args)
            && MaxOf(e, args) == MaxOf(d, args)
  {
  }

  /** DP_S_CONV, and the reset behind it. `ranOver` says that reading on would leave the format. */
  method ConvCase(out: Sink, s: Scanner, fmt: CString, ghost d: Directive, ghost held: seq<Arg>, stores: seq<Store>,
                  ghost whole: Outcome)
    returns (s': Scanner, stores': seq<Store>, ranOver: bool)
    requires s.state == InConv && s.ch != NUL && out.Valid()
    requires OnCourse(s, fmt, d, held, out.text, stores, whole)
    modifies out, out.buffer
    ensures out.Valid()
    ensures if ranOver then whole == Outcome(out.text, stores', false)
            else OnCourse(s', fmt, BLANK, s'.va, out.text, stores', whole) && s'.pos > s.pos
  {
    OnCourseFacts(s, fmt, d, held, out.text, stores, whole);
    hide OnCourse, ConvOut, ConvStores, ConvKinds, Sink.Valid;
    ConvLands(s, fmt, d, held, out.text, stores, whole);
    var rest, more := Convert(out, s.ch, s.cflags, s.flags, s.min, s.max, s.va);
    stores' := stores + more;
    s', ranOver := s, false;
    if s.ch == 'w' {
      s' := Advance(s', fmt);
      ranOver := s'.pos == |fmt|;
    }
    if !ranOver {
      s' := Advance(s', fmt);
      s' := s'.(state := Default, flags := NO_FLAGS, cflags := NoModifier, min := 0, max := -1, va := rest);
    }
  }

  // ---- The loop ----

  /** What the cells hold in the end, cell by cell. */
  lemma {:induction false} CellsLeft(buffer: array?<char>, was: string, text: string, maxlen: nat, ranOver: bool)
    requires maxlen > 0 ==> buffer != null
    requires buffer != null ==> maxlen <= buffer.Length == |was|
    requires buffer != null ==>
               buffer[..] == if ranOver then Overlay(was, Take(text, maxlen)) else Stored(was, text, maxlen)
    ensures buffer != null && maxlen == 0 ==> forall i :: 0 <= i < buffer.Length ==> buffer[i] == was[i]
    ensures maxlen > 0 && !ranOver ==>
              var n := if |text| < maxlen then |text| else maxlen - 1;
              && (forall i :: 0 <= i < n ==> buffer[i] == text[i])
              && buffer[n] == NUL
              && (forall i :: n < i < buffer.Length ==> buffer[i] == was[i])
    ensures maxlen > 0 && ranOver ==>
              var n := if |text| < maxlen then |text| else maxlen;
              && (forall i :: 0 <= i < n ==> buffer[i] == text[i])
              && (forall i :: n <= i < buffer.Length ==> buffer[i] == was[i])
  {
    if buffer != null {
      StoredCells(was, text, maxlen);
      assert forall i :: 0 <= i < buffer.Length ==> buffer[i] == buffer[..][i];
    }
  }

  /** `ranOver` says that the code reads on behind the terminator, which happens for exactly the
      formats that do not stay inside. There the model stops: everything has been printed by then,
      but the text is not yet terminated. */
  method Dopr(buffer: array?<char>, maxlen: nat, fmt: CString, args: seq<Arg>)
    returns (ret: nat, stores: seq<Store>, ranOver: bool)
    requires maxlen > 0 ==> buffer != null
    requires buffer != null ==> maxlen <= buffer.Length
    requires Suits(fmt, args)
    modifies buffer
    ensures ranOver <==> !StaysInside(fmt)
    ensures ret == |Formatted(fmt, args)|
    ensures stores == Stores(Pieces(fmt), args, 0)
    ensures buffer != null && !ranOver ==> buffer[..] == Stored(old(buffer[..]), Formatted(fmt, args), maxlen)
    ensures buffer != null && maxlen == 0 ==> forall i :: 0 <= i < buffer.Length ==> buffer[i] == old(buffer[i])
    ensures maxlen > 0 && !ranOver ==>
              var text := Formatted(fmt, args);
              var n := if |text| < maxlen then |text| else maxlen - 1;
              && (forall i :: 0 <= i < n ==> buffer[i] == text[i])
              && buffer[n] == NUL
              && (forall i :: n < i < buffer.Length ==> buffer[i] == old(buffer[i]))
    ensures maxlen > 0 && ranOver ==>
              var text := Formatted(fmt, args);
              var n := if |text| < maxlen then |text| else maxlen;
              && (forall i :: 0 <= i < n ==> buffer[i] == text[i])
              && (forall i :: n <= i < buffer.Length ==> buffer[i] == old(buffer[i]))
  {
    hide OnCourse, Formatted, Stores, Stored, StaysInside, Overlay, Take;
    var out := new Sink(buffer, maxlen);
    var s := Scanner(Default, 0, At(fmt, 0), NO_FLAGS, 0, -1, NoModifier, args);
    stores, ranOver := [], false;
    ghost var d, held := BLANK, args;
    ghost var whole := Wanted(fmt, args);
    StartCase(fmt, args);
    while s.state != Done && !ranOver
      invariant out.Valid()
      invariant if ranOver then whole == Outcome(out.text, stores, false)
                else OnCourse(s, fmt, d, held, out.text, stores, whole)
      decreases !ranOver, |fmt| - s.pos, 7 - Number(s.state)
    {
      OnCourseFacts(s, fmt, d, held, out.text, stores, whole);
      if s.ch == NUL {
        EndCase(s, fmt, d, held, out.text, stores, whole);
        s := s.(state := Done);
      }
      match s.state
      case Default =>
        if s.ch == '%' {
          PercentCase(s, fmt, held, out.text, stores, whole);
          s := Advance(s, fmt).(state := InFlags);
        } else {
          LiteralCase(s, fmt, held, out.text, stores, whole);
          out.Put(s.ch);
          s := Advance(s, fmt);
        }
      case InFlags | InMin | InDot | InMax | InMod =>
        s, d := ScanCase(s, fmt, d, held, out.text, stores, whole);
      case InConv =>
        s, stores, ranOver := ConvCase(out, s, fmt, d, held, stores, whole);
        d, held := BLANK, s.va;
      case Done =>
    }
    if !ranOver {
      OnCourseFacts(s, fmt, d, held, out.text, stores, whole);
      out.Terminate();
    }
    CellsLeft(buffer, old(if buffer == null then "" else buffer[..]), Formatted(fmt, args), maxlen, ranOver);
    ret := out.currlen;
  }
}
