/** fmtstr: a string cut to a precision and padded to a width. */
module FmtStr {
  import opened Text
  import opened Output
  import opened FormatFlags

  /** The value space-padded to the width, and only then cut to the precision. */
  function StrText(value: string, flags: Flags, min: int, max: int): string {
    var padding := Repeat(' ', min - |value|);
    Take(if flags.minus then value + padding else padding + value, max)
  }

  method FmtStr(out: Sink, value: CString, flags: Flags, min: int, max: int)
    requires out.Valid()
    modifies out, out.buffer
    ensures out.Valid() && out.text == old(out.text) + StrText(value, flags, min, max)
  {
    hide Sink.Valid, StrText;
    ghost var before := out.text;
    var cnt := 0;
    var strln := 0;
    while At(value, strln) != NUL
      invariant 0 <= strln <= |value|
      decreases |value| - strln
    {
      strln := strln + 1;
    }
    var padlen := min - strln;
    if padlen < 0 {
      padlen := 0;
    }
    if flags.minus {
      padlen := -padlen;
    }
    cnt := PadUpTo(out, padlen, cnt, max);
    ghost var lead := cnt;
    var i := 0;
    while At(value, i) != NUL && cnt < max
      invariant 0 <= i <= |value| && cnt == lead + i && cnt <= Max(max, 0)
      invariant out.Valid() && out.text == before + Repeat(' ', lead) + value[..i]
      decreases |value| - i
    {
      out.Put(value[i]);
      i := i + 1;
      cnt := cnt + 1;
    }
    cnt := PadUpTo(out, -padlen, cnt, max);
    StrTextParts(value, flags, min, max, lead, i, cnt - lead - i);
    Regroup(before, Repeat(' ', lead), value[..i], Repeat(' ', cnt - lead - i));
  }

  lemma {:induction false} Regroup(a: string, b: string, c: string, d: string)
    ensures a + b + c + d == a + (b + c + d)
  {
  }

  lemma {:induction false} StrTextParts(value: string, flags: Flags, min: int, max: int, lead: int, shown: int,
                                        trail: int)
    requires 0 <= shown <= |value|
    requires lead == if flags.minus then 0 else Max(0, Min(min - |value|, max))
    requires shown == Max(0, Min(|value|, max - lead))
    requires trail == if flags.minus then Max(0, Min(min - |value|, max - shown)) else 0
    ensures StrText(value, flags, min, max) == Repeat(' ', lead) + value[..shown] + Repeat(' ', trail)
  {
  }

  /** One padding loop of fmtstr: spaces while the padding lasts and the precision allows. */
  method PadUpTo(out: Sink, padlen: int, cnt: nat, max: int) returns (cnt': nat)
    requires out.Valid() && cnt <= Max(max, 0)
    modifies out, out.buffer
    ensures cnt' == cnt + Max(0, Min(padlen, max - cnt))
    ensures out.Valid() && out.text == old(out.text) + Repeat(' ', cnt' - cnt)
  {
    cnt' := cnt;
    var left := padlen;
    while left > 0 && cnt' < max
      invariant cnt <= cnt' <= Max(max, 0)
      invariant left == padlen - (cnt' - cnt) && (left < padlen ==> left >= 0)
      invariant out.Valid() && out.text == old(out.text) + Repeat(' ', cnt' - cnt)
    {
      out.Put(' ');
      left := left - 1;
      cnt' := cnt' + 1;
      RepeatNext(' ', cnt' - cnt - 1);
    }
  }
}
