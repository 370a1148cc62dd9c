/** Positional numerals in the three bases the engine prints, and the value they denote. */
module Numerals {
  import opened Text

  datatype Base = Octal | Decimal | Hex

  // Division and multiplication by the base. They are spelled out base by base, so that every
  // product and quotient below has a literal operand.

  function Quot(n: nat, base: Base): nat {
    match base case Octal => n / 8 case Decimal => n / 10 case Hex => n / 16
  }

  function Rem(n: nat, base: Base): nat {
    match base case Octal => n % 8 case Decimal => n % 10 case Hex => n % 16
  }

  function Times(base: Base, n: nat): nat {
    match base case Octal => 8 * n case Decimal => 10 * n case Hex => 16 * n
  }

  function Pow(base: Base, k: nat): (p: nat)
    ensures p > 0
  {
    if k == 0 then 1 else Times(base, Pow(base, k - 1))
  }

  function DigitChar(d: nat, caps: bool): (c: char)
    requires d < 16
    ensures d < 10 ==> c as int == '0' as int + d
    ensures d >= 10 ==> c as int == (if caps then 'A' else 'a') as int + d - 10
  {
    (if caps then "0123456789ABCDEF" else "0123456789abcdef")[d]
  }

  function DigitValue(c: char): nat {
    if '0' <= c <= '9' then c as int - '0' as int
    else if 'a' <= c <= 'f' then c as int - 'a' as int + 10
    else if 'A' <= c <= 'F' then c as int - 'A' as int + 10
    else 0
  }

  predicate IsDigit(c: char) {
    '0' <= c <= '9'
  }

  /** Neither padding, nor sign, nor point. */
  predicate IsInk(c: char) {
    c != ' ' && c != '+' && c != '-' && c != '.'
  }

  predicate AllInk(s: string) {
    forall i :: 0 <= i < |s| ==> IsInk(s[i])
  }

  /** A letter of the other case never stands among hexadecimal digits. */
  predicate IsOfCase(c: char, caps: bool) {
    if caps then !('a' <= c <= 'f') else !('A' <= c <= 'F')
  }

  predicate AllOfCase(s: string, caps: bool) {
    forall i :: 0 <= i < |s| ==> IsOfCase(s[i], caps)
  }

  predicate AllDigits(s: string) {
    forall i :: 0 <= i < |s| ==> IsDigit(s[i])
  }

  /** Most significant digit first, as text is read. */
  function Value(s: string, base: Base): nat {
    if s == "" then 0 else Times(base, Value(s[..|s| - 1], base)) + DigitValue(s[|s| - 1])
  }

  function WithSign(negative: bool, n: nat): int {
    if negative then -(n as int) else n
  }

  /** The digits of n, least significant first, in the order the conversion loops find them. */
  function DigitsLE(n: nat, base: Base, caps: bool): string
    decreases n
  {
    [DigitChar(Rem(n, base), caps)] +
    if Quot(n, base) == 0 then "" else DigitsLE(Quot(n, base), base, caps)
  }

  function Numeral(n: nat, base: Base, caps: bool): string {
    Backwards(DigitsLE(n, base, caps))
  }

  // ---- Powers ----

  lemma {:induction false} TimesMul(base: Base, a: nat, b: nat)
    ensures a * b >= 0
    ensures Times(base, a * b) == Times(base, a) * b == a * Times(base, b)
  {
    match base
    case Octal =>
    case Decimal =>
    case Hex =>
  }

  lemma {:induction false} TimesAdd(base: Base, a: nat, b: nat)
    ensures Times(base, a + b) == Times(base, a) + Times(base, b)
  {
  }

  lemma {:induction false} PowAdd(base: Base, i: nat, j: nat)
    ensures Pow(base, i + j) == Pow(base, i) * Pow(base, j)
  {
    if i > 0 {
      PowAdd(base, i - 1, j);
      TimesMul(base, Pow(base, i - 1), Pow(base, j));
    }
  }

  lemma {:induction false} PowMonotone(base: Base, i: nat, j: nat)
    requires i <= j
    ensures Pow(base, i) <= Pow(base, j)
    decreases j
  {
    if i < j {
      PowMonotone(base, i, j - 1);
    }
  }

  lemma {:induction false} NineteenDigits()
    ensures Pow(Decimal, 19) == 10_000_000_000_000_000_000
    ensures Pow(Octal, 19) == 0x200_0000_0000_0000
    ensures Pow(Hex, 19) == 0x1000_0000_0000_0000_0000
  {
    PowAdd(Decimal, 10, 9);
    PowAdd(Octal, 10, 9);
    PowAdd(Hex, 10, 9);
    assert Pow(Decimal, 9) == 1_000_000_000 && Pow(Octal, 9) == 0x800_0000 && Pow(Hex, 9) == 0x10_0000_0000;
  }

  function Div(n: nat, d: nat): nat
    requires d > 0
  {
    n / d
  }

  function Mod(n: nat, d: nat): (r: nat)
    requires d > 0
    ensures r < d
  {
    n % d
  }

  lemma {:induction false} DivModUnique(n: nat, d: nat, q: int, r: nat)
    requires r < d && n == d * q + r
    ensures n / d == q && n % d == r
  {
    var e := q - n / d;
    assert d * e == n % d - r;
    if e >= 1 {
      MulMonotone(d, 1, e);
    } else if e <= -1 {
      MulMonotone(d, e, -1);
    }
  }

  lemma {:induction false} MulMonotone(a: nat, x: int, y: int)
    requires x <= y
    ensures a * x <= a * y
  {
  }

  // ---- Laws of numerals ----

  /** The positional system, written out. */
  lemma {:induction false} Positions(s: string, c: char, k: nat)
    ensures Value("", Octal) == Value("", Decimal) == Value("", Hex) == 0
    ensures var d := if '0' <= c <= '9' then c as int - '0' as int
                     else if 'a' <= c <= 'f' then c as int - 'a' as int + 10
                     else if 'A' <= c <= 'F' then c as int - 'A' as int + 10
                     else 0;
            && Value(s + [c], Octal) == 8 * Value(s, Octal) + d
            && Value(s + [c], Decimal) == 10 * Value(s, Decimal) + d
            && Value(s + [c], Hex) == 16 * Value(s, Hex) + d
    ensures Pow(Octal, 0) == Pow(Decimal, 0) == Pow(Hex, 0) == 1
    ensures Pow(Octal, k + 1) == 8 * Pow(Octal, k)
    ensures Pow(Decimal, k + 1) == 10 * Pow(Decimal, k)
    ensures Pow(Hex, k + 1) == 16 * Pow(Hex, k)
  {
    ValueSnoc(s, c, Octal);
    ValueSnoc(s, c, Decimal);
    ValueSnoc(s, c, Hex);
  }

  lemma {:induction false} DigitRoundTrip(d: nat, caps: bool)
    requires d < 16
    ensures DigitValue(DigitChar(d, caps)) == d
    ensures d < 10 ==> IsDigit(DigitChar(d, caps))
    ensures DigitChar(d, caps) == '0' <==> d == 0
    ensures IsInk(DigitChar(d, caps)) && IsOfCase(DigitChar(d, caps), caps)
  {
    assert d == 0 || d == 1 || d == 2 || d == 3 || d == 4 || d == 5 || d == 6 || d == 7 || d == 8
        || d == 9 || d == 10 || d == 11 || d == 12 || d == 13 || d == 14 || d == 15;
  }

  lemma {:induction false} ValueSnoc(s: string, c: char, base: Base)
    ensures Value(s + [c], base) == Times(base, Value(s, base)) + DigitValue(c)
  {
    assert (s + [c])[..|s|] == s;
  }

  lemma {:induction false} ValueAppend(s: string, t: string, base: Base)
    ensures Value(s + t, base) == Value(s, base) * Pow(base, |t|) + Value(t, base)
  {
    if t == "" {
      assert s + t == s;
    } else {
      var u := t[..|t| - 1];
      ValueAppend(s, u, base);
      assert (s + t)[..|s + t| - 1] == s + u;
      var v, p := Value(s, base), Pow(base, |u|);
      var d := DigitValue(t[|t| - 1]);
      assert Value(s + t, base) == Times(base, Value(s + u, base)) + d;
      assert Value(t, base) == Times(base, Value(u, base)) + d && Pow(base, |t|) == Times(base, p);
      hide Value, Pow;
      TimesMul(base, v, p);
      TimesAdd(base, v * p, Value(u, base));
    }
  }

  lemma {:induction false} ValueZeros(n: nat, base: Base)
    ensures Value(Repeat('0', n), base) == 0
  {
    if n > 0 {
      ValueZeros(n - 1, base);
      assert Repeat('0', n)[..n - 1] == Repeat('0', n - 1);
    }
  }

  /** Leading zeros do not change a value. */
  lemma {:induction false} ValueZeroPadded(n: nat, s: string, base: Base)
    ensures Value(Repeat('0', n) + s, base) == Value(s, base)
  {
    ValueZeros(n, base);
    ValueAppend(Repeat('0', n), s, base);
  }

  /** One turn of a digit loop: the next digit of m, and the digits still to come. */
  lemma {:induction false} LaterDigits(ds: string, place: nat, m: nat, base: Base, caps: bool)
    requires place < |ds| && ds[place..] == DigitsLE(m, base, caps)
    ensures ds[place] == DigitChar(Rem(m, base), caps)
    ensures if Quot(m, base) == 0 then |ds| == place + 1
            else place + 1 < |ds| && ds[place + 1..] == DigitsLE(Quot(m, base), base, caps)
  {
    assert ds[place + 1..] == ds[place..][1..];
  }

  /** How many digits n has: the least k >= 1 with n < base^k. */
  lemma {:induction false} DigitCount(n: nat, base: Base, caps: bool, k: nat)
    requires k >= 1
    ensures |DigitsLE(n, base, caps)| <= k <==> n < Pow(base, k)
    decreases k
  {
    if Quot(n, base) != 0 && k > 1 {
      DigitCount(Quot(n, base), base, caps, k - 1);
    }
  }

  /** The k low digits, read back, denote what is left of n after taking out multiples of base^k. */
  lemma {:induction false} LowDigits(n: nat, base: Base, caps: bool, k: nat) returns (high: nat)
    requires k <= |DigitsLE(n, base, caps)|
    ensures Value(Backwards(DigitsLE(n, base, caps)[..k]), base) < Pow(base, k)
    ensures n == Assembled(Pow(base, k), high, Value(Backwards(DigitsLE(n, base, caps)[..k]), base))
    decreases k
  {
    high := n;
    if k > 0 {
      hide DigitsLE, Value, Backwards, Rem, Times, Assembled;
      var q, rest := LowStep(n, base, caps, k);
      high := 0;
      if q != 0 {
        high := LowDigits(q, base, caps, k - 1);
      } else {
        AssembledZero(Pow(base, k - 1));
      }
      Recombine(n, base, Pow(base, k - 1), high, Value(Backwards(rest[..k - 1]), base));
    }
  }

  function Assembled(p: nat, high: nat, v: nat): int {
    p * high + v
  }

  lemma {:induction false} AssembledZero(p: nat)
    ensures Assembled(p, 0, 0) == 0
  {
  }

  /** A number from its lowest digit and a splitting of the rest. */
  lemma {:induction false} Recombine(n: nat, base: Base, p: nat, high: nat, v: nat)
    requires v < p && Quot(n, base) == Assembled(p, high, v)
    ensures n == Assembled(Times(base, p), high, Times(base, v) + Rem(n, base))
    ensures Times(base, v) + Rem(n, base) < Times(base, p)
  {
    assert n == Times(base, Quot(n, base)) + Rem(n, base) && Times(base, v + 1) <= Times(base, p);
    assert Rem(n, base) < Times(base, 1) && Times(base, v + 1) == Times(base, v) + Times(base, 1);
    hide Quot, Rem, Times;
    TimesMul(base, p, high);
    TimesAdd(base, p * high, v);
  }

  /** Splitting off the lowest digit. */
  lemma {:induction false} LowStep(n: nat, base: Base, caps: bool, k: nat) returns (q: nat, rest: string)
    requires 0 < k <= |DigitsLE(n, base, caps)|
    ensures q == Quot(n, base) && rest == (if q == 0 then "" else DigitsLE(q, base, caps)) && k - 1 <= |rest|
    ensures Value(Backwards(DigitsLE(n, base, caps)[..k]), base)
         == Times(base, Value(Backwards(rest[..k - 1]), base)) + Rem(n, base)
    ensures rest == "" ==> Value(Backwards(rest[..k - 1]), base) == 0
  {
    var ds := DigitsLE(n, base, caps);
    q := Quot(n, base);
    rest := if q == 0 then "" else DigitsLE(q, base, caps);
    assert ds[..k] == [ds[0]] + rest[..k - 1];
    BackwardsCons(ds[0], rest[..k - 1]);
    ValueSnoc(Backwards(rest[..k - 1]), ds[0], base);
    DigitRoundTrip(Rem(n, base), caps);
  }

  /** The k low digits, read back, denote the number modulo base^k. */
  lemma {:induction false} LowDigitsDenote(n: nat, base: Base, caps: bool, k: nat)
    requires k <= |DigitsLE(n, base, caps)|
    ensures Value(Backwards(DigitsLE(n, base, caps)[..k]), base) == n % Pow(base, k)
  {
    var high := LowDigits(n, base, caps, k);
    DivModUnique(n, Pow(base, k), high, Value(Backwards(DigitsLE(n, base, caps)[..k]), base));
  }

  /** A numeral denotes its number. */
  lemma {:induction false} NumeralDenotes(n: nat, base: Base, caps: bool)
    ensures Value(Numeral(n, base, caps), base) == n
  {
    var ds := DigitsLE(n, base, caps);
    assert ds[..|ds|] == ds;
    hide Value, Pow;
    LowDigitsDenote(n, base, caps, |ds|);
    DigitCount(n, base, caps, |ds|);
    ModFixed(n, Pow(base, |ds|));
  }

  lemma {:induction false} ModFixed(u: nat, p: nat)
    requires p > 0
    ensures u % p == u <==> u < p
  {
    if u < p {
      DivModUnique(u, p, 0, u);
    }
  }

  /** Keeping at most k digits of a numeral keeps the number modulo base^k. */
  lemma {:induction false} KeptDenote(n: nat, base: Base, caps: bool, k: nat)
    requires k >= 1
    ensures var ds := DigitsLE(n, base, caps);
            Value(Backwards(if |ds| > k then ds[..k] else ds), base) == n % Pow(base, k)
  {
    if |DigitsLE(n, base, caps)| > k {
      LowDigitsDenote(n, base, caps, k);
    } else {
      NumeralDenotes(n, base, caps);
      DigitCount(n, base, caps, k);
      ModFixed(n, Pow(base, k));
    }
  }

  lemma {:induction false} DigitsLEChars(n: nat, base: Base, caps: bool)
    ensures AllInk(DigitsLE(n, base, caps)) && AllOfCase(DigitsLE(n, base, caps), caps)
    ensures base != Hex ==> AllDigits(DigitsLE(n, base, caps))
    ensures n > 0 ==> DigitsLE(n, base, caps)[|DigitsLE(n, base, caps)| - 1] != '0'
    decreases n
  {
    DigitRoundTrip(Rem(n, base), caps);
    if Quot(n, base) != 0 {
      DigitsLEChars(Quot(n, base), base, caps);
    }
  }

  /** A numeral begins with a zero only when it is one. */
  lemma {:induction false} NumeralFirst(n: nat, base: Base, caps: bool)
    ensures var digits := Numeral(n, base, caps);
            && digits != "" && AllInk(digits) && (base != Hex ==> AllDigits(digits))
            && (digits[0] == '0' <==> n == 0) && (n == 0 ==> digits == "0")
  {
    DigitsLEChars(n, base, caps);
  }
}
