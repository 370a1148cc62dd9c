/** The format language: what dopr's eight states recognise, as a grammar.

    `Print` writes a list of pieces out as a format; `Pieces` reads a format. The two are inverse to
    each other on all formats and on all well-formed lists, which fixes what each directive means. */
module Format {
  import opened Text
  import opened Numerals
  import opened FormatFlags

  datatype Modifier = NoModifier | Short | Long | LongLong | LongDouble

  /** A conversion directive as written: flag characters, width digits with an optional star after
      them, optional precision likewise, modifier, conversion character. The conversion is NUL when
      the format ends first. */
  datatype Directive = Directive(flags: string, width: string, widthStar: bool, dot: bool, prec: string,
                                 precStar: bool, modifier: Modifier, conv: char)

  const BLANK := Directive("", "", false, false, "", false, NoModifier, NUL)

  /** `skipped` is the character that the unsupported `w` conversion swallows. */
  datatype Piece = Literal(c: char) | Spec(d: Directive, skipped: string)

  // ---- Writing: each part followed by the text t ----

  function ModifierText(m: Modifier): string {
    match m
    case NoModifier => ""
    case Short => "h"
    case Long => "l"
    case LongLong => "ll"
    case LongDouble => "L"
  }

  function ConvText(d: Directive, t: string): string {
    if d.conv == NUL then t else [d.conv] + t
  }

  function ModText(d: Directive, t: string): string {
    ModifierText(d.modifier) + ConvText(d, t)
  }

  function StarText(present: bool, t: string): string {
    if present then "*" + t else t
  }

  function MaxText(d: Directive, t: string): string {
    d.prec + StarText(d.precStar, ModText(d, t))
  }

  function DotText(d: Directive, t: string): string {
    if d.dot then "." + MaxText(d, t) else ModText(d, t)
  }

  function MinText(d: Directive, t: string): string {
    d.width + StarText(d.widthStar, DotText(d, t))
  }

  /** A directive without its percent sign. */
  function DirectiveText(d: Directive, t: string): string {
    d.flags + MinText(d, t)
  }

  function PieceText(p: Piece, t: string): string {
    match p
    case Literal(c) => [c] + t
    case Spec(d, skipped) => "%" + DirectiveText(d, skipped + t)
  }

  function Print(ps: seq<Piece>): string {
    if ps == [] then "" else PieceText(ps[0], Print(ps[1..]))
  }

  // ---- Reading: one function for each scanner state ----

  datatype Scanned = Scanned(d: Directive, rest: string)

  /** What scanning from a state leaves alone: everything read before, and d.conv says whether the
      format was exhausted. */
  function FromConv(d: Directive, s: string): (r: Scanned)
    ensures |r.rest| <= |s| && r.d == d.(conv := r.d.conv)
    ensures s == "" ==> r.d.conv == NUL
  {
    if s == "" then Scanned(d.(conv := NUL), "") else Scanned(d.(conv := s[0]), s[1..])
  }

  function FromMod(d: Directive, s: string): (r: Scanned)
    ensures |r.rest| <= |s| && r.d == d.(modifier := r.d.modifier, conv := r.d.conv)
    ensures s == "" ==> r == Scanned(d.(conv := NUL), "")
  {
    match At(s, 0)
    case 'h' => FromConv(d.(modifier := Short), s[1..])
    case 'l' =>
      if At(s, 1) == 'l' then FromConv(d.(modifier := LongLong), s[2..]) else FromConv(d.(modifier := Long), s[1..])
    case 'L' => FromConv(d.(modifier := LongDouble), s[1..])
    case _ => FromConv(d, s)
  }

  function FromMax(d: Directive, s: string): (r: Scanned)
    ensures |r.rest| <= |s|
    ensures r.d == d.(prec := r.d.prec, precStar := r.d.precStar, modifier := r.d.modifier, conv := r.d.conv)
    ensures d.precStar ==> r.d.precStar
    ensures s == "" ==> r == Scanned(d.(conv := NUL), "")
    decreases s
  {
    if IsDigit(At(s, 0)) then FromMax(d.(prec := d.prec + [s[0]]), s[1..])
    else if At(s, 0) == '*' then FromMod(d.(precStar := true), s[1..])
    else FromMod(d, s)
  }

  function FromDot(d: Directive, s: string): (r: Scanned)
    ensures |r.rest| <= |s|
    ensures r.d == d.(dot := r.d.dot, prec := r.d.prec, precStar := r.d.precStar, modifier := r.d.modifier,
                      conv := r.d.conv)
    ensures s == "" ==> r == Scanned(d.(conv := NUL), "")
  {
    if At(s, 0) == '.' then FromMax(d.(dot := true), s[1..]) else FromMod(d, s)
  }

  function FromMin(d: Directive, s: string): (r: Scanned)
    ensures |r.rest| <= |s| && r.d.flags == d.flags
    ensures d.widthStar ==> r.d.widthStar
    ensures s == "" ==> r == Scanned(d.(conv := NUL), "")
    decreases s
  {
    if IsDigit(At(s, 0)) then FromMin(d.(width := d.width + [s[0]]), s[1..])
    else if At(s, 0) == '*' then FromDot(d.(widthStar := true), s[1..])
    else FromDot(d, s)
  }

  function FromFlags(d: Directive, s: string): (r: Scanned)
    ensures |r.rest| <= |s|
    ensures s == "" ==> r == Scanned(d.(conv := NUL), "")
    decreases s
  {
    if IsFlag(At(s, 0)) then FromFlags(d.(flags := d.flags + [s[0]]), s[1..]) else FromMin(d, s)
  }

  /** The pieces from a scanned directive on. After `w` the scanner skips a character unseen. */
  function After(sc: Scanned): seq<Piece>
    decreases |sc.rest|, 1
  {
    if sc.d.conv == 'w' && sc.rest != "" then [Spec(sc.d, sc.rest[..1])] + Pieces(sc.rest[1..])
    else [Spec(sc.d, "")] + Pieces(sc.rest)
  }

  function Pieces(f: string): seq<Piece>
    decreases |f|, 0
  {
    if f == "" then []
    else if f[0] != '%' then [Literal(f[0])] + Pieces(f[1..])
    else After(FromFlags(BLANK, f[1..]))
  }

  // ---- Well-formed pieces ----

  // No part of a directive may begin with a character that the part before it would take.

  predicate ModOk(d: Directive) {
    && (d.modifier == NoModifier ==> d.conv !in {'h', 'l', 'L'})
    && (d.modifier == Long ==> d.conv != 'l')
  }

  predicate MaxOk(d: Directive) {
    && ModOk(d) && AllDigits(d.prec)
    && (!d.precStar ==> !IsDigit(At(ModText(d, ""), 0)) && At(ModText(d, ""), 0) != '*')
  }

  predicate DotOk(d: Directive) {
    if d.dot then MaxOk(d) else ModOk(d) && d.prec == "" && !d.precStar && At(ModText(d, ""), 0) != '.'
  }

  predicate MinOk(d: Directive) {
    && DotOk(d) && AllDigits(d.width)
    && (!d.widthStar ==> !IsDigit(At(DotText(d, ""), 0)) && At(DotText(d, ""), 0) != '*')
  }

  predicate AllFlags(s: string) {
    forall i :: 0 <= i < |s| ==> IsFlag(s[i])
  }

  predicate WellFormedDirective(d: Directive) {
    MinOk(d) && AllFlags(d.flags) && !IsFlag(At(MinText(d, ""), 0))
  }

  /** The piece leaves the scanner in its default state, inside the format. */
  predicate Closed(p: Piece) {
    p.Spec? ==> p.d.conv != NUL && (p.d.conv == 'w' ==> p.skipped != "")
  }

  predicate WellFormedPiece(p: Piece) {
    match p
    case Literal(c) => c != '%' && c != NUL
    case Spec(d, skipped) => WellFormedDirective(d) && NoNul(skipped) && |skipped| <= if d.conv == 'w' then 1 else 0
  }

  /** Only the last piece may be left open. */
  predicate WellFormed(ps: seq<Piece>) {
    forall i :: 0 <= i < |ps| ==> WellFormedPiece(ps[i]) && (i < |ps| - 1 ==> Closed(ps[i]))
  }

  predicate AllClosed(ps: seq<Piece>) {
    forall i :: 0 <= i < |ps| ==> Closed(ps[i])
  }

  /** What may follow a directive: nothing, when the format ended inside it. */
  predicate Follows(d: Directive, t: string) {
    d.conv == NUL ==> t == ""
  }

  // ---- Reading back what was written ----

  /** A run of characters in front of a text: its first character, and what follows. */
  lemma {:induction false} RunStep(run: string, k: nat, t: string)
    requires k <= |run|
    ensures k < |run| ==> At(run[k..] + t, 0) == run[k] && (run[k..] + t)[1..] == run[k + 1..] + t
    ensures k < |run| ==> run[..k] + [run[k]] == run[..k + 1]
    ensures k == |run| ==> run[k..] + t == t && run[..k] == run
  {
  }

  lemma {:induction false} ModReads(d: Directive, t: string)
    requires ModOk(d) && Follows(d, t)
    ensures FromMod(d.(modifier := NoModifier, conv := NUL), ModText(d, t)) == Scanned(d, t)
    ensures At(ModText(d, t), 0) == At(ModText(d, ""), 0)
  {
    var s := ConvText(d, t);
    assert d.conv != NUL ==> s[1..] == t;
    assert ModText(d, t) == ModifierText(d.modifier) + s;
  }

  lemma {:induction false} MaxReads(d: Directive, k: nat, t: string)
    requires MaxOk(d) && Follows(d, t) && k <= |d.prec|
    ensures FromMax(d.(prec := d.prec[..k], precStar := false, modifier := NoModifier, conv := NUL),
                    d.prec[k..] + StarText(d.precStar, ModText(d, t))) == Scanned(d, t)
    decreases |d.prec| - k
  {
    RunStep(d.prec, k, StarText(d.precStar, ModText(d, t)));
    if k < |d.prec| {
      MaxReads(d, k + 1, t);
    } else {
      ModReads(d, t);
      assert ("*" + ModText(d, t))[1..] == ModText(d, t);
    }
  }

  lemma {:induction false} DotReads(d: Directive, t: string)
    requires DotOk(d) && Follows(d, t)
    ensures FromDot(d.(dot := false, prec := "", precStar := false, modifier := NoModifier, conv := NUL),
                    DotText(d, t)) == Scanned(d, t)
    ensures At(DotText(d, t), 0) == At(DotText(d, ""), 0)
  {
    ModReads(d, t);
    if d.dot {
      MaxReads(d, 0, t);
      assert DotText(d, t)[1..] == MaxText(d, t) == d.prec[0..] + StarText(d.precStar, ModText(d, t));
    }
  }

  lemma {:induction false} MinReads(d: Directive, k: nat, t: string)
    requires MinOk(d) && Follows(d, t) && k <= |d.width|
    ensures FromMin(BLANK.(flags := d.flags, width := d.width[..k]),
                    d.width[k..] + StarText(d.widthStar, DotText(d, t))) == Scanned(d, t)
    decreases |d.width| - k
  {
    RunStep(d.width, k, StarText(d.widthStar, DotText(d, t)));
    if k < |d.width| {
      MinReads(d, k + 1, t);
    } else {
      DotReads(d, t);
      assert ("*" + DotText(d, t))[1..] == DotText(d, t);
    }
  }

  lemma {:induction false} FlagsRead(d: Directive, k: nat, t: string)
    requires WellFormedDirective(d) && Follows(d, t) && k <= |d.flags|
    ensures FromFlags(BLANK.(flags := d.flags[..k]), d.flags[k..] + MinText(d, t)) == Scanned(d, t)
    decreases |d.flags| - k
  {
    RunStep(d.flags, k, MinText(d, t));
    if k < |d.flags| {
      FlagsRead(d, k + 1, t);
    } else {
      MinReads(d, 0, t);
      assert MinText(d, t) == d.width[0..] + StarText(d.widthStar, DotText(d, t));
      DotReads(d, t);
    }
  }

  /** Scanner round trip: a directive written out and scanned comes back with exactly its flags,
      width, precision, modifier and conversion, whatever follows it. */
  lemma {:induction false} DirectiveRoundTrip(d: Directive, t: string)
    requires WellFormedDirective(d) && Follows(d, t)
    ensures FromFlags(BLANK, DirectiveText(d, t)) == Scanned(d, t)
  {
    FlagsRead(d, 0, t);
    assert DirectiveText(d, t) == d.flags[0..] + MinText(d, t);
  }

  lemma {:induction false} PieceReads(p: Piece, t: string)
    requires WellFormedPiece(p) && (!Closed(p) ==> t == "")
    ensures Pieces(PieceText(p, t)) == [p] + Pieces(t)
  {
    match p
    case Literal(c) =>
      assert ([c] + t)[1..] == t;
    case Spec(d, skipped) =>
      DirectiveRoundTrip(d, skipped + t);
      assert PieceText(p, t)[1..] == DirectiveText(d, skipped + t);
      if skipped == "" {
        assert skipped + t == t;
      } else {
        assert (skipped + t)[..1] == skipped && (skipped + t)[1..] == t;
      }
  }

  /** Reading what was written gives the pieces back. */
  lemma {:induction false} PiecesOfPrint(ps: seq<Piece>)
    requires WellFormed(ps)
    ensures Pieces(Print(ps)) == ps
    decreases |ps|
  {
    if ps != [] {
      PiecesOfPrint(ps[1..]);
      assert |ps| == 1 ==> Print(ps[1..]) == "";
      PieceReads(ps[0], Print(ps[1..]));
    }
  }

  // ---- Writing back what was read ----

  /** What is left after a directive, when the format holds no NUL. */
  predicate Left(r: Scanned) {
    NoNul(r.rest) && Follows(r.d, r.rest)
  }

  /** Moving the first character of a text to the end of the run before it. */
  lemma {:induction false} Push(run: string, s: string)
    requires s != ""
    ensures s == [s[0]] + s[1..] && run + s == (run + [s[0]]) + s[1..]
  {
  }

  lemma {:induction false} ConvWrites(d: Directive, s: CString)
    ensures var r := FromConv(d, s); Left(r) && ConvText(r.d, r.rest) == s
  {
    if s != "" {
      Push("", s);
    }
  }

  lemma {:induction false} ModWrites(d: Directive, s: CString)
    requires d.modifier == NoModifier
    ensures var r := FromMod(d, s); Left(r) && ModOk(r.d) && ModText(r.d, r.rest) == s
    ensures At(ModText(FromMod(d, s).d, ""), 0) == At(s, 0)
  {
    hide FromConv;
    if At(s, 0) !in {'h', 'l', 'L'} {
      ConvWrites(d, s);
    } else {
      Push("", s);
      ConvWrites(d.(modifier := FromMod(d, s).d.modifier), s[1..]);
      if At(s, 0) == 'l' == At(s, 1) {
        ConvWrites(d.(modifier := LongLong), s[2..]);
        assert s == "ll" + s[2..];
      }
    }
  }

  lemma {:induction false} MaxWrites(d: Directive, s: CString)
    requires d.modifier == NoModifier && !d.precStar && AllDigits(d.prec)
    ensures var r := FromMax(d, s); Left(r) && MaxOk(r.d) && MaxText(r.d, r.rest) == d.prec + s
    decreases s
  {
    if s != "" {
      Push(d.prec, s);
    }
    if IsDigit(At(s, 0)) {
      MaxWrites(d.(prec := d.prec + [s[0]]), s[1..]);
    } else if At(s, 0) == '*' {
      ModWrites(d.(precStar := true), s[1..]);
    } else {
      ModWrites(d, s);
    }
  }

  lemma {:induction false} DotWrites(d: Directive, s: CString)
    requires d == d.(dot := false, prec := "", precStar := false, modifier := NoModifier)
    ensures var r := FromDot(d, s); Left(r) && DotOk(r.d) && DotText(r.d, r.rest) == s
    ensures At(DotText(FromDot(d, s).d, ""), 0) == At(s, 0)
  {
    if At(s, 0) == '.' {
      Push("", s);
      MaxWrites(d.(dot := true), s[1..]);
      assert "" + s[1..] == s[1..];
    } else {
      ModWrites(d, s);
    }
  }

  lemma {:induction false} MinWrites(d: Directive, s: CString)
    requires d == d.(widthStar := false, dot := false, prec := "", precStar := false, modifier := NoModifier)
    requires AllDigits(d.width)
    ensures var r := FromMin(d, s); Left(r) && MinOk(r.d) && MinText(r.d, r.rest) == d.width + s
    ensures d.width == "" ==> At(MinText(FromMin(d, s).d, ""), 0) == At(s, 0)
    decreases s
  {
    if s != "" {
      Push(d.width, s);
    }
    if IsDigit(At(s, 0)) {
      MinWrites(d.(width := d.width + [s[0]]), s[1..]);
      MinKeepsWidth(d.(width := d.width + [s[0]]), s[1..]);
    } else if At(s, 0) == '*' {
      DotWrites(d.(widthStar := true), s[1..]);
    } else {
      DotWrites(d, s);
    }
  }

  lemma {:induction false} MinKeepsWidth(d: Directive, s: string)
    ensures d.width <= FromMin(d, s).d.width
    decreases s
  {
    if IsDigit(At(s, 0)) {
      MinKeepsWidth(d.(width := d.width + [s[0]]), s[1..]);
    }
  }

  lemma {:induction false} FlagsWrite(d: Directive, s: CString)
    requires d == BLANK.(flags := d.flags) && AllFlags(d.flags)
    ensures var r := FromFlags(d, s);
            Left(r) && WellFormedDirective(r.d) && DirectiveText(r.d, r.rest) == d.flags + s
    decreases s
  {
    hide FromMin, MinOk, MinText;
    if IsFlag(At(s, 0)) {
      Push(d.flags, s);
      FlagsWrite(d.(flags := d.flags + [s[0]]), s[1..]);
    } else {
      MinWrites(d, s);
    }
  }

  lemma {:induction false} PrintCons(p: Piece, ps: seq<Piece>)
    requires WellFormedPiece(p) && WellFormed(ps) && (Closed(p) || ps == [])
    ensures WellFormed([p] + ps) && Print([p] + ps) == PieceText(p, Print(ps))
  {
    assert ([p] + ps)[1..] == ps;
  }

  /** Writing what was read gives the format back: nothing is lost, and the pieces are well-formed. */
  lemma {:induction false} PrintOfPieces(f: CString)
    ensures WellFormed(Pieces(f)) && Print(Pieces(f)) == f
    decreases |f|, 0
  {
    if f != "" {
      Push("", f);
      if f[0] != '%' {
        PrintOfPieces(f[1..]);
        PrintCons(Literal(f[0]), Pieces(f[1..]));
      } else {
        var sc := FromFlags(BLANK, f[1..]);
        FlagsWrite(BLANK, f[1..]);
        assert "" + f[1..] == f[1..];
        AfterWrites(sc);
      }
    }
  }

  lemma {:induction false} AfterWrites(sc: Scanned)
    requires Left(sc) && WellFormedDirective(sc.d)
    ensures WellFormed(After(sc)) && Print(After(sc)) == "%" + DirectiveText(sc.d, sc.rest)
    decreases |sc.rest|, 1
  {
    var more := sc.d.conv == 'w' && sc.rest != "";
    var p := Spec(sc.d, if more then sc.rest[..1] else "");
    var next := if more then sc.rest[1..] else sc.rest;
    assert After(sc) == [p] + Pieces(next) && (next == "" ==> Pieces(next) == []);
    hide After, WellFormed, WellFormedDirective, DirectiveText, Print, Pieces;
    PrintOfPieces(next);
    assert p.skipped + next == sc.rest;
    PrintCons(p, Pieces(next));
  }

  // ---- Consequences ----

  lemma {:induction false} Join(a: string, b: string, c: string, t: string)
    ensures (a + (b + c)) + t == a + (b + (c + t))
  {
  }

  lemma {:induction false} DotSpelled(d: Directive, t: string)
    ensures d.dot && d.precStar ==> DotText(d, t) == ("." + (d.prec + "*")) + ModText(d, t)
    ensures d.dot && !d.precStar ==> DotText(d, t) == ("." + (d.prec + "")) + ModText(d, t)
    ensures !d.dot ==> DotText(d, t) == ModText(d, t)
  {
    hide ModText;
    Join(".", d.prec, "*", ModText(d, t));
    Join(".", d.prec, "", ModText(d, t));
    assert "" + ModText(d, t) == ModText(d, t);
  }

  /** A directive in plain characters. */
  lemma {:induction false} DirectiveSpelled(d: Directive, t: string)
    ensures var conv := if d.conv == NUL then "" else [d.conv];
            var letters := match d.modifier case NoModifier => "" case Short => "h" case Long => "l"
                                            case LongLong => "ll" case LongDouble => "L";
            var prec := if !d.dot then "" else if d.precStar then "." + (d.prec + "*") else "." + (d.prec + "");
            var width := if d.widthStar then d.width + "*" else d.width;
            DirectiveText(d, t) == d.flags + (width + (prec + (letters + (conv + t))))
  {
    DotSpelled(d, t);
    ModSpelled(d, t);
    hide ModText, DotText;
    assert "" + ModText(d, t) == ModText(d, t);
    assert d.widthStar ==> MinText(d, t) == d.width + ("*" + DotText(d, t)) == (d.width + "*") + DotText(d, t);
  }

  lemma {:induction false} ModSpelled(d: Directive, t: string)
    ensures var conv := if d.conv == NUL then "" else [d.conv];
            var letters := match d.modifier case NoModifier => "" case Short => "h" case Long => "l"
                                            case LongLong => "ll" case LongDouble => "L";
            ModText(d, t) == letters + (conv + t)
  {
    assert "" + t == t;
  }

  /** A format has exactly one reading. */
  lemma {:induction false} PiecesUnique(f: CString, ps: seq<Piece>)
    requires WellFormed(ps) && Print(ps) == f
    ensures ps == Pieces(f)
  {
    PiecesOfPrint(ps);
  }

  lemma {:induction false} DirectiveTextAppend(d: Directive, t: string, u: string)
    ensures DirectiveText(d, t + u) == DirectiveText(d, t) + u
  {
    assert ConvText(d, t + u) == ConvText(d, t) + u;
    assert ModText(d, t + u) == ModText(d, t) + u;
    assert StarText(d.precStar, ModText(d, t + u)) == StarText(d.precStar, ModText(d, t)) + u;
    assert MaxText(d, t + u) == MaxText(d, t) + u;
    assert DotText(d, t + u) == DotText(d, t) + u;
    assert StarText(d.widthStar, DotText(d, t + u)) == StarText(d.widthStar, DotText(d, t)) + u;
    assert MinText(d, t + u) == MinText(d, t) + u;
  }

  lemma {:induction false} PieceTextAppend(p: Piece, t: string, u: string)
    ensures PieceText(p, t + u) == PieceText(p, t) + u
  {
    if p.Spec? {
      assert p.skipped + (t + u) == (p.skipped + t) + u;
      DirectiveTextAppend(p.d, p.skipped + t, u);
    }
  }

  lemma {:induction false} PrintAppend(ps: seq<Piece>, qs: seq<Piece>)
    ensures Print(ps + qs) == Print(ps) + Print(qs)
    decreases |ps|
  {
    if ps == [] {
      assert ps + qs == qs;
    } else {
      assert (ps + qs)[1..] == ps[1..] + qs;
      PrintAppend(ps[1..], qs);
      PieceTextAppend(ps[0], Print(ps[1..]), Print(qs));
    }
  }

  /** Concatenation: after a format whose pieces are all closed, the scanner starts afresh. */
  lemma {:induction false} PiecesAppend(f1: CString, f2: CString)
    requires AllClosed(Pieces(f1))
    ensures Pieces(f1 + f2) == Pieces(f1) + Pieces(f2)
  {
    PrintOfPieces(f1);
    PrintOfPieces(f2);
    PrintAppend(Pieces(f1), Pieces(f2));
    PiecesUnique(f1 + f2, Pieces(f1) + Pieces(f2));
  }

  /** The scanner does not read past the terminator: no `w` conversion is the last character. */
  predicate StaysInside(f: string) {
    Inside(Pieces(f))
  }

  predicate Inside(ps: seq<Piece>) {
    ps != [] && ps[|ps| - 1].Spec? && ps[|ps| - 1].d.conv == 'w' ==> ps[|ps| - 1].skipped != ""
  }

  /** A format that closes every directive, followed by a directive that asks for `w`. */
  predicate EndsInW(f: CString, f1: CString, d: Directive) {
    AllClosed(Pieces(f1)) && WellFormedDirective(d) && d.conv == 'w' && f == f1 + "%" + DirectiveText(d, "")
  }

  lemma {:induction false} LastPiece(ps: seq<Piece>)
    requires ps != [] && WellFormed(ps)
    ensures var front := ps[..|ps| - 1];
            WellFormed(front) && AllClosed(front) && Print(ps) == Print(front) + PieceText(ps[|ps| - 1], "")
  {
    var front, last := ps[..|ps| - 1], ps[|ps| - 1];
    assert ps == front + [last];
    PrintAppend(front, [last]);
  }

  lemma {:induction false} RunsOverSplit(f: CString) returns (f1: CString, d: Directive)
    requires !StaysInside(f)
    ensures EndsInW(f, f1, d)
  {
    hide DirectiveText, WellFormedDirective, Pieces, Print;
    var ps := Pieces(f);
    PrintOfPieces(f);
    LastPiece(ps);
    var front := ps[..|ps| - 1];
    d := ps[|ps| - 1].d;
    assert ps[|ps| - 1].skipped + "" == "";
    PiecesOfPrint(front);
    f1 := PrefixOf(Print(front), "%" + DirectiveText(d, ""), f);
  }

  lemma {:induction false} PrefixOf(s: string, t: string, f: CString) returns (r: CString)
    requires f == s + t
    ensures r == s && NoNul(t)
  {
    assert forall i :: 0 <= i < |s| ==> f[i] == s[i];
    assert forall i :: 0 <= i < |t| ==> f[|s| + i] == t[i];
    r := s;
  }

  lemma {:induction false} SplitRunsOver(f: CString, f1: CString, d: Directive)
    requires EndsInW(f, f1, d)
    ensures !StaysInside(f)
  {
    hide DirectiveText, WellFormedDirective, Print, AllClosed;
    var last := "%" + DirectiveText(d, "");
    assert f == f1 + last;
    var same := PrefixOf(f1, last, f);
    PieceReads(Spec(d, ""), "");
    assert "" + "" == "";
    assert PieceText(Spec(d, ""), "") == last;
    assert Pieces(last) == [Spec(d, "")];
    PiecesAppend(f1, last);
  }

  /** Exactly the formats that close every directive and then end in a `w` directive run over. */
  lemma {:induction false} RunsOver(f: CString)
    ensures !StaysInside(f) <==> exists f1: CString, d :: EndsInW(f, f1, d)
  {
    if !StaysInside(f) {
      var f1, d := RunsOverSplit(f);
    }
    forall f1: CString, d | EndsInW(f, f1, d)
      ensures !StaysInside(f)
    {
      SplitRunsOver(f, f1, d);
    }
  }

  /** The shortest such format. */
  lemma {:induction false} PercentWRunsOver()
    ensures !StaysInside("%w") && StaysInside("%w.") && StaysInside("w")
  {
    var d := BLANK.(conv := 'w');
    assert "%w"[1..] == "w" && "%w."[1..] == "w.";
    assert FromFlags(BLANK, "w") == Scanned(d, "") && After(Scanned(d, "")) == [Spec(d, "")];
    assert "."[..1] == "." && "."[1..] == "";
    assert FromFlags(BLANK, "w.") == Scanned(d, ".") && After(Scanned(d, ".")) == [Spec(d, ".")];
    assert Pieces("w") == [Literal('w')] + Pieces("");
  }

  /** In particular, only a format whose last letter is w can run over. */
  lemma {:induction false} OnlyWRunsOver(f: CString)
    requires !StaysInside(f)
    ensures f != "" && f[|f| - 1] == 'w'
  {
    var f1, d := RunsOverSplit(f);
    LastIsConv(d);
  }

  /** Only what stands for the conversion and what follows it matters to the text. */
  lemma {:induction false} SameConvText(d: Directive, e: Directive, t: string, u: string)
    requires e == d.(conv := e.conv) && ConvText(e, t) == ConvText(d, u)
    ensures DirectiveText(e, t) == DirectiveText(d, u)
  {
    assert ModText(e, t) == ModText(d, u);
    hide ModText;
    assert DotText(e, t) == DotText(d, u);
  }

  lemma {:induction false} LastIsConv(d: Directive)
    requires d.conv != NUL
    ensures var t := DirectiveText(d, ""); t != "" && t[|t| - 1] == d.conv
  {
    var e := d.(conv := NUL);
    assert ConvText(e, [d.conv]) == ConvText(d, "");
    hide DirectiveText, ConvText;
    SameConvText(d, e, [d.conv], "");
    DirectiveTextAppend(e, "", [d.conv]);
    assert "" + [d.conv] == [d.conv];
  }
}
