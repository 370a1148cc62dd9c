/** The bounded output buffer: every character is counted, only those that fit are stored. */
module Output {
  import opened Text

  /** cells with its front replaced by s. */
  function Overlay(cells: string, s: string): (r: string)
    requires |s| <= |cells|
    ensures |r| == |cells| && forall i :: 0 <= i < |r| ==> r[i] == if i < |s| then s[i] else cells[i]
  {
    s + cells[|s|..]
  }

  /** What a buffer of maxlen usable cells must hold after printing text: as much of the text as
      leaves room for the terminator, the terminator, and the cells beyond it as they were. */
  function Stored(cells: string, text: string, maxlen: nat): string
    requires maxlen <= |cells|
  {
    if maxlen == 0 then cells else Overlay(cells, Take(text, maxlen - 1) + [NUL])
  }

  /** Cell by cell: the text up to the last usable cell but one, a NUL behind it, and every other cell
      as it was. */
  lemma {:induction false} StoredCells(cells: string, text: string, maxlen: nat)
    requires maxlen <= |cells|
    ensures |Stored(cells, text, maxlen)| == |cells|
    ensures maxlen == 0 ==> Stored(cells, text, maxlen) == cells
    ensures var n := if |text| < maxlen then |text| else maxlen - 1;
            maxlen > 0 ==>
              && (forall i :: 0 <= i < n ==> Stored(cells, text, maxlen)[i] == text[i])
              && Stored(cells, text, maxlen)[n] == NUL
              && (forall i :: n < i < |cells| ==> Stored(cells, text, maxlen)[i] == cells[i])
  {
  }

  /** The C string in front of the first NUL: what a buffer holds, or what a text shows. */
  function CText(cells: string): string {
    if cells == "" || cells[0] == NUL then "" else [cells[0]] + CText(cells[1..])
  }

  lemma {:induction false} CTextTaken(text: string, n: nat, rest: string)
    ensures CText(Take(text, n) + [NUL] + rest) == Take(CText(text), n)
    decreases n
  {
    if n == 0 || text == "" || text[0] == NUL {
      assert (Take(text, n) + [NUL] + rest)[0] == NUL;
    } else {
      assert (Take(text, n) + [NUL] + rest)[1..] == Take(text[1..], n - 1) + [NUL] + rest;
      CTextTaken(text[1..], n - 1, rest);
      assert Take(CText(text), n) == [text[0]] + Take(CText(text[1..]), n - 1);
    }
  }

  /** A text without NUL shows in full; a `%c` of 0 ends what a caller can read. */
  lemma {:induction false} CTextOf(s: CString)
    ensures CText(s) == s
  {
    if s != "" {
      CTextOf(s[1..]);
    }
  }

  /** What a caller reads back is what the text shows, cut to leave room for the terminator. */
  lemma {:induction false} StoredText(cells: string, text: string, maxlen: nat)
    requires 0 < maxlen <= |cells|
    ensures CText(Stored(cells, text, maxlen)) == Take(CText(text), maxlen - 1)
  {
    var t := Take(text, maxlen - 1);
    CTextTaken(text, maxlen - 1, cells[|t| + 1..]);
    assert Stored(cells, text, maxlen) == t + [NUL] + cells[|t| + 1..];
  }

  /** Truncation is monotone: a smaller buffer holds a prefix of what a larger one holds. */
  lemma {:induction false} TruncationMonotone(cells1: string, cells2: string, text: string, m1: nat, m2: nat)
    requires 0 < m1 <= m2 && m1 <= |cells1| && m2 <= |cells2|
    ensures CText(Stored(cells1, text, m1)) <= CText(Stored(cells2, text, m2)) <= CText(text)
    ensures m2 > |CText(text)| ==> CText(Stored(cells2, text, m2)) == CText(text)
  {
    StoredText(cells1, text, m1);
    StoredText(cells2, text, m2);
  }

  /** `buffer`, `maxlen` and `*currlen`, as every printer receives them. */
  class Sink {
    const buffer: array?<char>
    const maxlen: nat
    var currlen: nat
    ghost const initial: string  // the cells as they were at the start
    ghost var text: string       // everything printed so far, stored or not

    ghost predicate Valid()
      reads this, buffer
    {
      && currlen == |text|
      && (maxlen > 0 ==> buffer != null)
      && (buffer != null ==>
            maxlen <= buffer.Length == |initial| && buffer[..] == Overlay(initial, Take(text, maxlen)))
    }

    constructor (buffer: array?<char>, maxlen: nat)
      requires maxlen > 0 ==> buffer != null && maxlen <= buffer.Length
      requires buffer != null ==> maxlen <= buffer.Length
      ensures Valid() && text == ""
      ensures this.buffer == buffer && this.maxlen == maxlen
      ensures buffer != null ==> initial == buffer[..]
    {
      this.buffer, this.maxlen, currlen := buffer, maxlen, 0;
      initial := if buffer == null then "" else buffer[..];
      text := "";
    }

    /** dopr_outch */
    method Put(c: char)
      requires Valid()
      modifies this, buffer
      ensures Valid() && text == old(text) + [c]
    {
      if currlen < maxlen {
        buffer[currlen] := c;
      }
      currlen := currlen + 1;
      text := text + [c];
    }

    /** `if (signvalue) dopr_outch(signvalue)` */
    method PutSign(signvalue: char)
      requires Valid()
      modifies this, buffer
      ensures Valid() && text == old(text) + SignChars(signvalue)
    {
      if signvalue != NUL {
        Put(signvalue);
      }
    }

    /** The padding loops of the printers: count down, one character each time. */
    method Pad(c: char, n: int)
      requires Valid()
      modifies this, buffer
      ensures Valid() && text == old(text) + Repeat(c, n)
    {
      var left := n;
      while left > 0
        invariant left <= n && (left < n ==> left >= 0)
        invariant Valid() && text == old(text) + Repeat(c, n - left)
      {
        Put(c);
        left := left - 1;
        RepeatNext(c, n - left - 1);
      }
    }

    /** The digit loops of the printers: they empty a digit array from its end. */
    method PutBackwards(digits: array<char>, place: nat)
      requires Valid() && place <= digits.Length && digits != buffer
      modifies this, buffer
      ensures Valid() && text == old(text) + Backwards(old(digits[..place]))
    {
      var left := place;
      ghost var all := Backwards(digits[..place]);
      while left > 0
        invariant 0 <= left <= place && digits[..] == old(digits[..])
        invariant Valid() && text == old(text) + all[..place - left]
      {
        left := left - 1;
        Put(digits[left]);
        assert all[..place - left] == all[..place - left - 1] + [digits[left]];
      }
      assert all[..place] == all;
    }

    /** The end of dopr: the terminator goes after the text, or into the last usable cell. */
    method Terminate()
      requires Valid()
      modifies buffer
      ensures buffer != null ==> buffer[..] == Stored(initial, text, maxlen)
    {
      if maxlen != 0 {
        if currlen < maxlen - 1 {
          buffer[currlen] := NUL;
        } else if maxlen > 0 {
          buffer[maxlen - 1] := NUL;
        }
      }
    }
  }
}
