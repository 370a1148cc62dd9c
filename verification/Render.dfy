/** What a format prints for given arguments: the reference the print engine refines. */
module Render {
  import opened Text
  import opened Numerals
  import opened FormatFlags
  import opened Format
  import opened FmtInt
  import opened FmtStr
  import opened FmtFp
  import opened Modf

  // ---- Arguments ----

  type CInt = x: int | -0x8000_0000 <= x < 0x8000_0000
  type CUInt = x: int | 0 <= x < 0x1_0000_0000
  type CLong = x: int | -0x8000_0000_0000_0000 <= x < 0x8000_0000_0000_0000
  type CULong = x: int | 0 <= x < 0x1_0000_0000_0000_0000

  /** Where `%n` stores: the width of the integer pointed to. */
  datatype OutSize = ShortOut | IntOut | LongOut | LongLongOut

  /** A value in the variable argument list, with its C type. */
  datatype Arg =
    | IntArg(i: CInt) | LongArg(l: CLong) | LongLongArg(ll: CLong)
    | UIntArg(u: CUInt) | ULongArg(ul: CULong) | ULongLongArg(ull: CULong)
    | DoubleArg(x: real) | LongDoubleArg(lx: real)
    | StringArg(s: Option<CString>) | PointerArg(p: CULong) | OutArg(size: OutSize)

  /** What `va_arg` asks for. A real that is printed must be in reach of my_modf. */
  datatype Kind =
    | KInt | KLong | KLongLong | KUInt | KULong | KULongLong
    | KDouble(printed: bool) | KLongDouble(printed: bool) | KString | KPointer | KOut(size: OutSize)

  predicate Fits(a: Arg, k: Kind) {
    match k
    case KInt => a.IntArg?
    case KLong => a.LongArg?
    case KLongLong => a.LongLongArg?
    case KUInt => a.UIntArg?
    case KULong => a.ULongArg?
    case KULongLong => a.ULongLongArg?
    case KDouble(printed) => a.DoubleArg? && (printed ==> InReach(Abs(a.x)))
    case KLongDouble(printed) => a.LongDoubleArg? && (printed ==> InReach(Abs(a.lx)))
    case KString => a.StringArg?
    case KPointer => a.PointerArg?
    case KOut(size) => a == OutArg(size)
  }

  predicate Accepts(ks: seq<Kind>, args: seq<Arg>) {
    |ks| <= |args| && forall i :: 0 <= i < |ks| ==> Fits(args[i], ks[i])
  }

  function SignedKind(m: Modifier): Kind {
    match m case Long => KLong case LongLong => KLongLong case _ => KInt
  }

  function UnsignedKind(m: Modifier): Kind {
    match m case Long => KULong case LongLong => KULongLong case _ => KUInt
  }

  function RealKind(m: Modifier, printed: bool): Kind {
    if m == LongDouble then KLongDouble(printed) else KDouble(printed)
  }

  function OutKind(m: Modifier): OutSize {
    match m case Short => ShortOut case Long => LongOut case LongLong => LongLongOut case _ => IntOut
  }

  /** What a conversion takes from the argument list. */
  function ConvKinds(conv: char, m: Modifier): (ks: seq<Kind>)
    ensures |ks| <= 1
  {
    if conv in {'d', 'i'} then [SignedKind(m)]
    else if conv in {'o', 'u', 'x', 'X'} then [UnsignedKind(m)]
    else if conv == 'f' then [RealKind(m, true)]
    else if conv in {'e', 'E', 'g', 'G'} then [RealKind(m, false)]
    else if conv == 'c' then [KInt]
    else if conv == 's' then [KString]
    else if conv == 'p' then [KPointer]
    else if conv == 'n' then [KOut(OutKind(m))]
    else []
  }

  function StarKinds(d: Directive): seq<Kind> {
    (if d.widthStar then [KInt] else []) + (if d.precStar then [KInt] else [])
  }

  function Demand(p: Piece): seq<Kind> {
    match p
    case Literal(_) => []
    case Spec(d, _) => StarKinds(d) + ConvKinds(d.conv, d.modifier)
  }

  function Demands(ps: seq<Piece>): seq<Kind> {
    if ps == [] then [] else Demand(ps[0]) + Demands(ps[1..])
  }

  lemma {:induction false} AcceptsSplit(ks1: seq<Kind>, ks2: seq<Kind>, args: seq<Arg>)
    requires Accepts(ks1 + ks2, args)
    ensures Accepts(ks1, args) && Accepts(ks2, args[|ks1|..])
  {
    assert forall i :: 0 <= i < |ks1| ==> (ks1 + ks2)[i] == ks1[i];
    assert forall i :: 0 <= i < |ks2| ==> (ks1 + ks2)[|ks1| + i] == ks2[i];
  }

  lemma {:induction false} AcceptsJoin(ks1: seq<Kind>, ks2: seq<Kind>, a1: seq<Arg>, a2: seq<Arg>)
    requires Accepts(ks1, a1) && |a1| == |ks1| && Accepts(ks2, a2)
    ensures Accepts(ks1 + ks2, a1 + a2) && (a1 + a2)[|ks1|..] == a2
  {
  }

  // ---- One directive ----

  function FlagsOf(s: string): Flags {
    if s == "" then NO_FLAGS else AddFlag(FlagsOf(s[..|s| - 1]), s[|s| - 1])
  }

  function StarCount(d: Directive): nat {
    (if d.widthStar then 1 else 0) + (if d.precStar then 1 else 0)
  }

  /** The stars' arguments are ints. */
  predicate StarsFit(d: Directive, args: seq<Arg>) {
    StarCount(d) <= |args| && (StarCount(d) >= 1 ==> args[0].IntArg?) && (StarCount(d) == 2 ==> args[1].IntArg?)
  }

  lemma {:induction false} AcceptsStars(d: Directive, args: seq<Arg>)
    ensures |StarKinds(d)| == StarCount(d) && (Accepts(StarKinds(d), args) <==> StarsFit(d, args))
  {
    assert forall i :: 0 <= i < |StarKinds(d)| ==> StarKinds(d)[i] == KInt;
  }

  /** The width: the argument of the star, or the digits. */
  function MinOf(d: Directive, args: seq<Arg>): int
    requires StarsFit(d, args)
  {
    if d.widthStar then args[0].i else Value(d.width, Decimal)
  }

  /** The precision: the argument of the star, or the digits, or -1 when there are none. */
  function MaxOf(d: Directive, args: seq<Arg>): int
    requires StarsFit(d, args)
  {
    if d.precStar then args[StarCount(d) - 1].i else if d.prec == "" then -1 else Value(d.prec, Decimal)
  }

  /** The integer argument as the long that fmtint receives. */
  function LongOf(a: Arg): (v: int)
    requires a.IntArg? || a.LongArg? || a.LongLongArg? || a.UIntArg? || a.ULongArg? || a.ULongLongArg? || a.PointerArg?
    ensures IsLong(v)
  {
    match a
    case IntArg(i) => i
    case LongArg(l) => l
    case LongLongArg(l) => l
    case UIntArg(u) => u
    case ULongArg(u) => FmtInt.ToLong(u)
    case ULongLongArg(u) => FmtInt.ToLong(u)
    case PointerArg(p) => FmtInt.ToLong(p)
  }

  function RealOf(a: Arg): real
    requires a.DoubleArg? || a.LongDoubleArg?
  {
    if a.DoubleArg? then a.x else a.lx
  }

  /** The conversion of an int argument to the char that is printed. */
  function CharOf(i: int): char {
    (i % 256) as char
  }

  function StringOf(a: Arg): CString
    requires a.StringArg?
  {
    if a.s.None? then "(NULL)" else a.s.value
  }

  /** The precision that a string conversion hands to fmtstr: none means the whole string, and a
      wider width raises it. */
  function StringMax(length: nat, min: int, max: int): int {
    var m := if max == -1 then length else max;
    if min > 0 && m >= 0 && min > m then min else m
  }

  function ConvOut(conv: char, m: Modifier, flags: Flags, min: int, max: int, args: seq<Arg>): string
    requires Accepts(ConvKinds(conv, m), args)
  {
    var unsigned := flags.(unsigned := true);
    if conv in {'d', 'i'} then IntText(LongOf(args[0]), Decimal, min, max, flags)
    else if conv == 'o' then IntText(LongOf(args[0]), Octal, min, max, unsigned)
    else if conv == 'u' then IntText(LongOf(args[0]), Decimal, min, max, unsigned)
    else if conv == 'x' then IntText(LongOf(args[0]), Hex, min, max, unsigned)
    else if conv == 'X' then IntText(LongOf(args[0]), Hex, min, max, unsigned.(up := true))
    else if conv == 'f' then FpText(RealOf(args[0]), min, max, flags)
    else if conv == 'c' then [CharOf(args[0].i)]
    else if conv == 's' then
      StrText(StringOf(args[0]), flags, min, StringMax(|StringOf(args[0])|, min, max))
    else if conv == 'p' then IntText(LongOf(args[0]), Hex, min, max, flags)
    else if conv == '%' then "%"
    else ""
  }

  /** What `%n` stores when `at` characters have been printed. */
  function ConvStores(conv: char, m: Modifier, at: nat): seq<Store> {
    if conv == 'n' then [StoreOf(OutKind(m), at)] else []
  }

  datatype Store = Store(size: OutSize, value: int)

  /** Conversion to a 16-bit short, wrapping. */
  function ToInt16(x: int): int {
    var r := x % 0x1_0000;
    if r < 0x8000 then r else r - 0x1_0000
  }

  /** Conversion to a 32-bit int, wrapping. */
  function ToInt32(x: int): int {
    var r := x % 0x1_0000_0000;
    if r < 0x8000_0000 then r else r - 0x1_0000_0000
  }

  function StoreOf(size: OutSize, at: nat): Store {
    match size
    case ShortOut => Store(size, ToInt16(at))
    case IntOut => Store(size, ToInt32(at))
    case LongOut => Store(size, FmtInt.ToLong(at))
    case LongLongOut => Store(size, FmtInt.ToLong(at))
  }

  // ---- A whole format ----

  function PieceOut(p: Piece, args: seq<Arg>): string
    requires Accepts(Demand(p), args)
  {
    match p
    case Literal(c) => [c]
    case Spec(d, _) =>
      AcceptsSplit(StarKinds(d), ConvKinds(d.conv, d.modifier), args);
      AcceptsStars(d, args);
      ConvOut(d.conv, d.modifier, FlagsOf(d.flags), MinOf(d, args), MaxOf(d, args), args[StarCount(d)..])
  }

  function PieceStores(p: Piece, at: nat): seq<Store> {
    if p.Spec? then ConvStores(p.d.conv, p.d.modifier, at) else []
  }

  function Rendered(ps: seq<Piece>, args: seq<Arg>): string
    requires Accepts(Demands(ps), args)
  {
    if ps == [] then "" else
      AcceptsSplit(Demand(ps[0]), Demands(ps[1..]), args);
      PieceOut(ps[0], args) + Rendered(ps[1..], args[|Demand(ps[0])|..])
  }

  function Stores(ps: seq<Piece>, args: seq<Arg>, at: nat): seq<Store>
    requires Accepts(Demands(ps), args)
  {
    if ps == [] then [] else
      AcceptsSplit(Demand(ps[0]), Demands(ps[1..]), args);
      PieceStores(ps[0], at) + Stores(ps[1..], args[|Demand(ps[0])|..], at + |PieceOut(ps[0], args)|)
  }

  /** The arguments are there, in order and of the types the format asks for. */
  predicate Suits(f: string, args: seq<Arg>) {
    Accepts(Demands(Pieces(f)), args)
  }

  function Formatted(f: string, args: seq<Arg>): string
    requires Suits(f, args)
  {
    Rendered(Pieces(f), args)
  }

  // ---- Laws ----

  lemma {:induction false} DemandsAppend(ps: seq<Piece>, qs: seq<Piece>)
    ensures Demands(ps + qs) == Demands(ps) + Demands(qs)
    decreases |ps|
  {
    if ps == [] {
      assert ps + qs == qs;
    } else {
      assert (ps + qs)[1..] == ps[1..] + qs;
      DemandsAppend(ps[1..], qs);
    }
  }

  lemma {:induction false} ConvOutLocal(conv: char, m: Modifier, flags: Flags, min: int, max: int, a: seq<Arg>,
                                        rest: seq<Arg>)
    requires Accepts(ConvKinds(conv, m), a)
    ensures Accepts(ConvKinds(conv, m), a + rest)
    ensures ConvOut(conv, m, flags, min, max, a + rest) == ConvOut(conv, m, flags, min, max, a)
  {
    hide IntText, FpText, StrText;
  }

  lemma {:induction false} PieceOutLocal(p: Piece, a: seq<Arg>, rest: seq<Arg>)
    requires Accepts(Demand(p), a)
    ensures Accepts(Demand(p), a + rest) && PieceOut(p, a + rest) == PieceOut(p, a)
  {
    hide ConvOut;
    if p.Spec? {
      var d := p.d;
      assert forall i :: 0 <= i < |a| ==> (a + rest)[i] == a[i];
      AcceptsSplit(StarKinds(d), ConvKinds(d.conv, d.modifier), a);
      AcceptsSplit(StarKinds(d), ConvKinds(d.conv, d.modifier), a + rest);
      AcceptsStars(d, a);
      assert (a + rest)[StarCount(d)..] == a[StarCount(d)..] + rest;
      ConvOutLocal(d.conv, d.modifier, FlagsOf(d.flags), MinOf(d, a), MaxOf(d, a), a[StarCount(d)..], rest);
    }
  }

  /** How a list prints, piece by piece: its text, its stores and the arguments left for the tail. */
  lemma {:induction false} RenderedCons(p: Piece, ps: seq<Piece>, args: seq<Arg>, at: nat)
    requires Accepts(Demand(p), args) && Accepts(Demands(ps), args[|Demand(p)|..])
    ensures Accepts(Demands([p] + ps), args)
    ensures Rendered([p] + ps, args) == PieceOut(p, args) + Rendered(ps, args[|Demand(p)|..])
    ensures Stores([p] + ps, args, at)
         == PieceStores(p, at) + Stores(ps, args[|Demand(p)|..], at + |PieceOut(p, args)|)
  {
    hide PieceOut, PieceStores, Demand;
    var ks := Demand(p);
    assert ([p] + ps)[1..] == ps && Demands([p] + ps) == ks + Demands(ps);
    assert args[..|ks|] + args[|ks|..] == args;
    AcceptsJoin(ks, Demands(ps), args[..|ks|], args[|ks|..]);
  }

  lemma {:induction false} AcceptsAppend(ps: seq<Piece>, qs: seq<Piece>, a1: seq<Arg>, a2: seq<Arg>)
    requires Accepts(Demands(ps), a1) && |a1| == |Demands(ps)| && Accepts(Demands(qs), a2)
    ensures Accepts(Demands(ps + qs), a1 + a2)
  {
    DemandsAppend(ps, qs);
    AcceptsJoin(Demands(ps), Demands(qs), a1, a2);
  }

  /** The premise of the laws below: ps takes exactly a1, and a2 serves qs. */
  predicate Splits(ps: seq<Piece>, qs: seq<Piece>, a1: seq<Arg>, a2: seq<Arg>) {
    && Accepts(Demands(ps), a1) && |a1| == |Demands(ps)| && Accepts(Demands(qs), a2)
    && Accepts(Demands(ps + qs), a1 + a2)
  }

  lemma {:induction false} SplitsTail(ps: seq<Piece>, qs: seq<Piece>, a1: seq<Arg>, a2: seq<Arg>)
    requires ps != [] && Splits(ps, qs, a1, a2)
    ensures var n := |Demand(ps[0])|;
            && n <= |a1| && Accepts(Demand(ps[0]), a1) && Splits(ps[1..], qs, a1[n..], a2)
            && (a1 + a2)[n..] == a1[n..] + a2 && ps + qs == [ps[0]] + (ps[1..] + qs)
            && Accepts(Demand(ps[0]), a1 + a2) && PieceOut(ps[0], a1 + a2) == PieceOut(ps[0], a1)
  {
    hide PieceOut, Demand;
    AcceptsSplit(Demand(ps[0]), Demands(ps[1..]), a1);
    AcceptsAppend(ps[1..], qs, a1[|Demand(ps[0])|..], a2);
    PieceOutLocal(ps[0], a1, a2);
  }

  /** Printing consumes its arguments piece by piece, so lists of pieces print independently. */
  lemma {:induction false} RenderedAppend(ps: seq<Piece>, qs: seq<Piece>, a1: seq<Arg>, a2: seq<Arg>)
    requires Splits(ps, qs, a1, a2)
    ensures Rendered(ps + qs, a1 + a2) == Rendered(ps, a1) + Rendered(qs, a2)
    decreases |ps|
  {
    hide PieceOut, PieceStores, Demand, Accepts, Stores;
    if ps == [] {
      assert ps + qs == qs && a1 + a2 == a2;
    } else {
      SplitsTail(ps, qs, a1, a2);
      var p, b1 := ps[0], a1[|Demand(ps[0])|..];
      RenderedAppend(ps[1..], qs, b1, a2);
      RenderedCons(p, ps[1..] + qs, a1 + a2, 0);
      RenderedCons(p, ps[1..], a1, 0);
      assert [p] + ps[1..] == ps;
      AppendAssoc(PieceOut(p, a1), Rendered(ps[1..], b1), Rendered(qs, a2));
    }
  }

  lemma {:induction false} StoresAppend(ps: seq<Piece>, qs: seq<Piece>, a1: seq<Arg>, a2: seq<Arg>, at: nat)
    requires Splits(ps, qs, a1, a2)
    ensures Stores(ps + qs, a1 + a2, at) == Stores(ps, a1, at) + Stores(qs, a2, at + |Rendered(ps, a1)|)
    decreases |ps|
  {
    hide PieceOut, PieceStores, Demand, Accepts;
    if ps == [] {
      assert ps + qs == qs && a1 + a2 == a2;
    } else {
      SplitsTail(ps, qs, a1, a2);
      var p, b1 := ps[0], a1[|Demand(ps[0])|..];
      StoresAppend(ps[1..], qs, b1, a2, at + |PieceOut(p, a1)|);
      RenderedCons(p, ps[1..] + qs, a1 + a2, at);
    }
  }

  lemma {:induction false} AppendAssoc(a: string, b: string, c: string)
    ensures a + (b + c) == (a + b) + c
  {
  }

  /** Concatenation law: formats that close their directives print independently of what follows. */
  lemma {:induction false} FormattedAppend(f1: CString, f2: CString, a1: seq<Arg>, a2: seq<Arg>)
    requires AllClosed(Pieces(f1))
    requires Suits(f1, a1) && |a1| == |Demands(Pieces(f1))| && Suits(f2, a2)
    ensures Suits(f1 + f2, a1 + a2)
    ensures Formatted(f1 + f2, a1 + a2) == Formatted(f1, a1) + Formatted(f2, a2)
    ensures Stores(Pieces(f1 + f2), a1 + a2, 0)
         == Stores(Pieces(f1), a1, 0) + Stores(Pieces(f2), a2, |Formatted(f1, a1)|)
  {
    hide PieceOut, PieceStores, Demand;
    PiecesAppend(f1, f2);
    AcceptsAppend(Pieces(f1), Pieces(f2), a1, a2);
    RenderedAppend(Pieces(f1), Pieces(f2), a1, a2);
    StoresAppend(Pieces(f1), Pieces(f2), a1, a2, 0);
  }
}
