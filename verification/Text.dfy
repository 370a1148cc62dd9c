/** Character sequences: the strings the print engine reads and writes. */
module Text {

  datatype Option<+T> = None | Some(value: T)

  const NUL: char := '\0'

  /** A C string is held without its terminator. */
  type CString = s: string | NoNul(s)

  predicate NoNul(s: string) {
    forall i :: 0 <= i < |s| ==> s[i] != NUL
  }

  function Max(a: int, b: int): (r: int)
    ensures r >= a && r >= b && (r == a || r == b)
  {
    if a >= b then a else b
  }

  function Min(a: int, b: int): (r: int)
    ensures r <= a && r <= b && (r == a || r == b)
  {
    if a <= b then a else b
  }

  /** `*p` for the pointer at offset i of s, the terminator included. */
  function At(s: string, i: nat): char {
    if i < |s| then s[i] else NUL
  }

  /** n copies of c; none when n is negative, as a padding loop that counts down does. */
  function Repeat(c: char, n: int): (r: string)
    ensures |r| == (if n > 0 then n else 0) && forall i :: 0 <= i < |r| ==> r[i] == c
  {
    seq(Max(n, 0), _ => c)
  }

  lemma {:induction false} RepeatNext(c: char, n: nat)
    ensures Repeat(c, n + 1) == Repeat(c, n) + [c] == [c] + Repeat(c, n)
  {
  }

  /** A sign character, where NUL stands for none, as text. */
  function SignChars(signvalue: char): string {
    if signvalue == NUL then "" else [signvalue]
  }

  /** The first n characters, or as many as there are. */
  function Take(s: string, n: int): (r: string)
    ensures r <= s && |r| == (if n < 0 then 0 else if n < |s| then n else |s|)
  {
    s[..Max(0, Min(n, |s|))]
  }

  function Backwards(s: string): (r: string)
    ensures |r| == |s|
    ensures forall i :: 0 <= i < |s| ==> r[i] == s[|s| - 1 - i]
  {
    seq(|s|, i requires 0 <= i < |s| => s[|s| - 1 - i])
  }

  lemma {:induction false} BackwardsCons(c: char, s: string)
    ensures Backwards([c] + s) == Backwards(s) + [c]
  {
  }

  lemma {:induction false} BackwardsInvolutive(s: string)
    ensures Backwards(Backwards(s)) == s
  {
  }

  // ---- Reading padded text ----

  function SkipSpaces(s: string): string {
    if s != "" && s[0] == ' ' then SkipSpaces(s[1..]) else s
  }

  function Trim(s: string): string {
    Backwards(SkipSpaces(Backwards(SkipSpaces(s))))
  }

  predicate Untrimmable(s: string) {
    s != "" && s[0] != ' ' && s[|s| - 1] != ' '
  }

  lemma {:induction false} SkipPadding(n: nat, s: string)
    requires s != "" && s[0] != ' '
    ensures SkipSpaces(Repeat(' ', n) + s) == s
  {
    if n == 0 {
      assert Repeat(' ', n) + s == s;
    } else {
      assert (Repeat(' ', n) + s)[1..] == Repeat(' ', n - 1) + s;
      SkipPadding(n - 1, s);
    }
  }

  /** Space padding on either side does not change what is read. */
  lemma {:induction false} TrimPadding(left: nat, core: string, right: nat)
    requires Untrimmable(core)
    ensures Trim(Repeat(' ', left) + core + Repeat(' ', right)) == core
  {
    var tail := core + Repeat(' ', right);
    assert Repeat(' ', left) + core + Repeat(' ', right) == Repeat(' ', left) + tail;
    SkipPadding(left, tail);
    assert Backwards(tail) == Repeat(' ', right) + Backwards(core);
    SkipPadding(right, Backwards(core));
    BackwardsInvolutive(core);
  }

  /** What a reader makes of the sign of trimmed text. */
  predicate IsNegative(s: string) {
    var t := Trim(s);
    t != "" && t[0] == '-'
  }

  /** What a reader is left with once padding and sign are gone. */
  function Unsigned(s: string): string {
    var t := Trim(s);
    if t != "" && t[0] in {'-', '+'} then t[1..] else t
  }

  /** Padding around a sign and a number is read away. A space as sign column counts as padding. */
  lemma {:induction false} UnsignedPadded(left: nat, sign: string, shown: string, right: nat)
    requires sign in {"", "-", "+", " "} && Untrimmable(shown) && shown[0] !in {'-', '+'}
    ensures Unsigned(Repeat(' ', left) + sign + shown + Repeat(' ', right)) == shown
    ensures IsNegative(Repeat(' ', left) + sign + shown + Repeat(' ', right)) <==> sign == "-"
  {
    var text := Repeat(' ', left) + sign + shown + Repeat(' ', right);
    if sign == " " {
      RepeatNext(' ', left);
      TrimPadding(left + 1, shown, right);
    } else if sign == "" {
      assert Repeat(' ', left) + sign == Repeat(' ', left);
      TrimPadding(left, shown, right);
    } else {
      assert text == Repeat(' ', left) + (sign + shown) + Repeat(' ', right);
      TrimPadding(left, sign + shown, right);
      assert (sign + shown)[1..] == shown;
    }
  }
}
