/** my_modf, ROUND and POW10, over exact reals. */
module Modf {
  import opened Numerals

  /** Conversion of a floating value to an integer: toward zero. */
  function Trunc(x: real): (n: int)
    ensures x >= 0.0 ==> 0 <= n && n as real <= x < n as real + 1.0
    ensures x < 0.0 ==> n <= 0 && n as real - 1.0 < x <= n as real
  {
    if x >= 0.0 then x.Floor else -(-x).Floor
  }

  function Abs(x: real): (r: real)
    ensures r >= 0.0 && (r == x || r == -x)
  {
    if x < 0.0 then -x else x
  }

  /** 10^k. */
  function Ten(k: nat): nat {
    Pow(Decimal, k)
  }

  /** The truncated value fits a 64-bit long. */
  predicate FitsLong(x: real) {
    -9223372036854775809.0 < x < 9223372036854775808.0
  }

  /** `(long)x`. Outside the range C leaves it undefined; here it is then the far end of the range,
      a value that fails the test my_modf makes next. */
  function CastLong(x: real): int {
    if FitsLong(x) then Trunc(x) else if x > 0.0 then -0x8000_0000_0000_0000 else 0x7FFF_FFFF_FFFF_FFFF
  }

  /** x * 10^i, one factor at a time. */
  function Shift(x: real, i: nat): (r: real)
    ensures x >= 0.0 ==> r >= 0.0
    decreases i
  {
    if i == 0 then x else Shift(x * 10.0, i - 1)
  }

  /** What the scalings by ten can bring into the range of a long: below 2^63 * 10^99. */
  predicate InReach(x: real) {
    Within(x, 99)
  }

  lemma {:induction false} ReachIs(x: real)
    ensures InReach(x) <==> -9223372036854775809.0 * Ten(99) as real < x < 9223372036854775808.0 * Ten(99) as real
  {
  }

  predicate Within(x: real, i: nat) {
    -9223372036854775809.0 * Ten(i) as real < x < 9223372036854775808.0 * Ten(i) as real
  }

  /** How many scalings by ten bring x into range, at most `left`. */
  function Scalings(x: real, left: nat): nat
    decreases left
  {
    if left == 0 || FitsLong(x) then 0 else 1 + Scalings(x * 0.1, left - 1)
  }

  // ---- Facts about truncation and scaling ----

  lemma {:induction false} FloorIs(x: real, n: int)
    requires n as real <= x < n as real + 1.0
    ensures x.Floor == n
  {
  }

  /** Taking a whole number out of x, of the sign of x and no larger, takes it out of Trunc(x). */
  lemma {:induction false} TruncSplit(x: real, whole: int)
    requires if x >= 0.0 then 0.0 <= whole as real <= x else x <= whole as real <= 0.0
    ensures Trunc(x) == whole + Trunc(x - whole as real)
  {
    var r := x - whole as real;
    if x >= 0.0 {
      FloorIs(x, whole + r.Floor);
    } else {
      FloorIs(-x, -whole + (-r).Floor);
      assert r == 0.0 ==> (-r).Floor == 0;
    }
  }

  lemma {:induction false} ShiftIsProduct(x: real, i: nat)
    ensures Shift(x, i) == x * Ten(i) as real
    decreases i
  {
    if i > 0 {
      ShiftIsProduct(x * 10.0, i - 1);
      TenTimes(x, Ten(i - 1) as real);
    }
  }

  lemma {:induction false} TenTimes(x: real, f: real)
    ensures (x * 10.0) * f == x * (10.0 * f)
  {
  }

  lemma {:induction false} ShiftMinus(x: real, y: real, i: nat)
    ensures Shift(x - y, i) == Shift(x, i) - Shift(y, i)
    ensures x < y ==> Shift(x, i) < Shift(y, i)
    decreases i
  {
    if i > 0 {
      ShiftMinus(x * 10.0, y * 10.0, i - 1);
      assert (x - y) * 10.0 == x * 10.0 - y * 10.0;
    }
  }

  /** Shifting a whole number gives a whole number. */
  lemma {:induction false} ShiftInt(l: int, i: nat) returns (whole: int)
    ensures Shift(l as real, i) == whole as real
    decreases i
  {
    whole := l;
    if i > 0 {
      whole := ShiftInt(l * 10, i - 1);
      assert (l * 10) as real == l as real * 10.0;
    }
  }

  lemma {:induction false} ShiftNat(n: nat, i: nat)
    ensures Ten(i) * n >= 0
    ensures Shift(n as real, i) == (Ten(i) * n) as real
    decreases i
  {
    if i > 0 {
      ShiftNat(n * 10, i - 1);
      assert (n * 10) as real == n as real * 10.0;
      TimesMul(Decimal, Ten(i - 1), n);
    }
  }

  /** What x is when the scaling loop stops, as a statement about x0. */
  lemma {:induction false} ReachDecided(x: real, x0: real, i: nat, last: nat)
    requires i <= last && Shift(x, i) == x0
    ensures FitsLong(x) ==> Within(x0, last)
    ensures !FitsLong(x) && i == last ==> !Within(x0, last)
  {
    hide Shift, Pow;
    PowMonotone(Decimal, i, last);
    ShiftMinus(x, 9223372036854775808.0, i);
    ShiftMinus(9223372036854775808.0, x, i);
    ShiftMinus(x, -9223372036854775809.0, i);
    ShiftMinus(-9223372036854775809.0, x, i);
    ShiftIsProduct(9223372036854775808.0, i);
    ShiftIsProduct(-9223372036854775809.0, i);
  }

  lemma {:induction false} Reached(x: real, x0: real, i: nat)
    requires i <= 99 && Shift(x, i) == x0
    ensures FitsLong(x) ==> InReach(x0)
    ensures !FitsLong(x) && i == 99 ==> !InReach(x0)
  {
    ReachDecided(x, x0, i, 99);
  }

  /** Taking Trunc(x) * 10^i out of x * 10^i leaves less than 10^i, of the same sign. */
  lemma {:induction false} ShiftedTrunc(x: real, i: nat)
    ensures var x0, whole := Shift(x, i), Shift(Trunc(x) as real, i);
            && Abs(x0 - whole) < Ten(i) as real
            && if x0 >= 0.0 then 0.0 <= whole <= x0 else x0 <= whole <= 0.0
  {
    var l := Trunc(x) as real;
    ShiftIsProduct(1.0, i);
    ShiftIsProduct(-1.0, i);
    ShiftIsProduct(0.0, i);
    ShiftMinus(x, l, i);
    ShiftMinus(l, x, i);
    ShiftMinus(x - l, 1.0, i);
    ShiftMinus(-1.0, x - l, i);
    ShiftMinus(x, 0.0, i);
    ShiftMinus(0.0, l, i);
    ShiftMinus(l, 0.0, i);
  }

  /** What my_modf recurses on, and why adding the two whole parts is right. */
  lemma {:induction false} Remainder(x0: real, x: real, i: nat, rest: real)
    requires Shift(x, i) == x0 && rest == x0 - Shift(Trunc(x) as real, i)
    ensures Abs(rest) < Ten(i) as real && Trunc(x0) as real == x0 - rest + Trunc(rest) as real
  {
    ShiftedTrunc(x, i);
    var whole := ShiftInt(Trunc(x), i);
    TruncSplit(x0, whole);
  }

  /** Below 10^(k+1), k scalings are enough. */
  lemma {:induction false} FewScalings(r: real, k: nat, left: nat)
    requires Abs(r) < Ten(k + 1) as real
    ensures Scalings(r, left) <= k
    decreases k
  {
    if k == 0 {
      assert Ten(1) == 10 * Ten(0);
    } else if left > 0 && !FitsLong(r) {
      assert Ten(k + 1) == 10 * Ten(k);
      FewScalings(r * 0.1, k - 1, left - 1);
    }
  }

  // ---- The code ----

  method MyModf(x0: real) returns (ret: real, iptr: real)
    ensures InReach(x0) ==> iptr == Trunc(x0) as real && ret == x0 - iptr
    ensures !InReach(x0) ==> iptr == 0.0 && ret == 0.0
    decreases Scalings(x0, 100)
  {
    hide Shift, Scalings, Ten;
    var i, l, f, x := Scale(x0);
    if i == 100 {
      return 0.0, 0.0;
    }
    if i != 0 {
      var rest := x0 - l as real * f;
      assert rest == x0 - Shift(l as real, i) by {
        ShiftIsProduct(l as real, i);
      }
      Remainder(x0, x, i, rest);
      FewScalings(rest, i - 1, 100);
      SmallInReach(rest, i, 99);
      var i2;
      ret, i2 := MyModf(rest);
      iptr := l as real * f + i2;
      return;
    }
    iptr := l as real;
    ret := x - iptr;
  }

  /** The scaling loop of my_modf: it stops at the first x in the range of a long. */
  method Scale(x0: real) returns (i: nat, l: int, f: real, x: real)
    ensures i == Scalings(x0, 100) <= 100 && Shift(x, i) == x0 && f == Ten(i) as real
    ensures i < 100 ==> InReach(x0) && FitsLong(x) && l == Trunc(x)
    ensures i == 100 ==> !InReach(x0)
    ensures i == 0 ==> x == x0
  {
    hide InReach;
    l, x, f, i := 0, x0, 1.0, 0;
    while i < 100
      invariant 0 <= i <= 100
      invariant f == Ten(i) as real && Shift(x, i) == x0 && (i == 0 ==> x == x0)
      invariant Scalings(x0, 100) == i + Scalings(x, 100 - i)
      invariant i == 100 ==> !InReach(x0)
    {
      Reached(x, x0, i);
      l := CastLong(x);
      if l as real <= x + 1.0 && l as real >= x - 1.0 {
        break;
      }
      x := x * 0.1;
      f := f * 10.0;
      i := i + 1;
    }
  }

  lemma {:induction false} SmallInReach(r: real, i: nat, last: nat)
    requires i <= last && Abs(r) < Ten(i) as real
    ensures Within(r, last)
  {
    PowMonotone(Decimal, i, last);
  }

  method Pow10(exp: nat) returns (result: real)
    ensures result == Ten(exp) as real
  {
    result := 1.0;
    var left := exp;
    while left != 0
      invariant 0 <= left <= exp && result == Ten(exp - left) as real
    {
      result := result * 10.0;
      left := left - 1;
    }
  }

  /** Rounds half up, but only from zero upwards: a negative value is truncated. */
  method Round(value: real) returns (intpart: int)
    requires -9223372036854775809.0 < value < 9223372036854775807.5
    ensures intpart == if value >= 0.0 then (value + 0.5).Floor else Trunc(value)
    ensures -0x8000_0000_0000_0000 <= intpart < 0x8000_0000_0000_0000
  {
    intpart := Trunc(value);
    var rest := value - intpart as real;
    if rest >= 0.5 {
      intpart := intpart + 1;
    }
    if value >= 0.0 {
      FloorIs(value + 0.5, intpart);
    }
  }
}
