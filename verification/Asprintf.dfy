/** vsnprintf, snprintf, vasprintf and asprintf: dopr behind C's integer types. */
module Asprintf {
  import opened Text
  import opened Output
  import opened Format
  import opened Render
  import Dopr

  const INT_MAX: nat := 0x7FFF_FFFF

  /** Conversion to a 64-bit size_t, wrapping. */
  function ToSize(x: int): nat {
    x % 0x1_0000_0000_0000_0000
  }

  lemma {:induction false} IntFits(n: nat)
    ensures -0x8000_0000 <= ToInt32(n) <= INT_MAX
    ensures ToInt32(n) == n <==> n <= INT_MAX
    ensures ToInt32(ToSize(ToInt32(n))) == ToInt32(n)
  {
    hide ToInt32;
    Int32Range(n);
    SizeAndBack(ToInt32(n));
  }

  lemma {:induction false} Int32Range(n: int)
    ensures -0x8000_0000 <= ToInt32(n) <= INT_MAX
    ensures ToInt32(n) == n <==> -0x8000_0000 <= n <= INT_MAX
  {
  }

  lemma {:induction false} SizeAndBack(v: int)
    requires -0x8000_0000 <= v <= INT_MAX
    ensures ToInt32(ToSize(v)) == v
  {
    if v < 0 {
      assert ToSize(v) == v + 0x1_0000_0000_0000_0000;
      assert ToSize(v) == (v + 0x1_0000_0000) + 0x1_0000_0000 * 0xFFFF_FFFF;
      assert ToSize(v) % 0x1_0000_0000 == v + 0x1_0000_0000;
    }
  }

  method VSnprintf(str: array?<char>, count: nat, fmt: CString, args: seq<Arg>) returns (ret: int, stores: seq<Store>)
    requires count > 0 ==> str != null
    requires str != null ==> count <= str.Length
    requires StaysInside(fmt) && Suits(fmt, args)
    modifies str
    ensures ret == ToInt32(|Formatted(fmt, args)|) && stores == Stores(Pieces(fmt), args, 0)
    ensures str != null ==> str[..] == Stored(old(str[..]), Formatted(fmt, args), count)
  {
    hide Formatted, Stores, Stored;
    var length, ranOver;
    length, stores, ranOver := Dopr.Dopr(str, count, fmt, args);
    ret := ToInt32(length);
  }

  /** snprintf: vsnprintf by way of a size_t. */
  method Snprintf(str: array?<char>, count: nat, fmt: CString, args: seq<Arg>) returns (ret: int, stores: seq<Store>)
    requires count > 0 ==> str != null
    requires str != null ==> count <= str.Length
    requires StaysInside(fmt) && Suits(fmt, args)
    modifies str
    ensures ret == ToInt32(|Formatted(fmt, args)|) && stores == Stores(Pieces(fmt), args, 0)
    ensures str != null ==> str[..] == Stored(old(str[..]), Formatted(fmt, args), count)
  {
    hide Formatted, Stores, Stored;
    ret, stores := VSnprintf(str, count, fmt, args);
    IntFits(|Formatted(fmt, args)|);
    var size := ToSize(ret);
    ret := ToInt32(size);
  }

  /** A block one longer than the text holds all of it; a shorter one is filled by its beginning. */
  lemma {:induction false} BlockHolds(cells: string, text: string, ret: nat)
    requires |cells| == ret + 1 && ret <= |text|
    ensures Stored(cells, text, ret + 1) == Take(text, ret) + [NUL]
    ensures ret == |text| ==> Take(text, ret) == text
  {
  }

  /** Measure with no buffer, allocate, print: when the second pass is reached, every `%n` stores
      twice. `ptr` is what `*ptr` holds on return, `was` what it
      held before; `allocates` says whether malloc succeeds. */
  method VAsprintf(was: array?<char>, fmt: CString, args: seq<Arg>, allocates: bool)
    returns (ret: int, ptr: array?<char>, stores: seq<Store>)
    requires StaysInside(fmt) && Suits(fmt, args)
    ensures ret == (if 0 < ToInt32(|Formatted(fmt, args)|) && !allocates then -1 else ToInt32(|Formatted(fmt, args)|))
    ensures ToInt32(|Formatted(fmt, args)|) <= 0 ==> ptr == was
    ensures 0 < ToInt32(|Formatted(fmt, args)|) && !allocates ==> ptr == null
    ensures 0 < ToInt32(|Formatted(fmt, args)|) && allocates ==> ptr != null && fresh(ptr)
    ensures 0 < ret < INT_MAX && allocates ==> ptr[..] == Take(Formatted(fmt, args), ret) + [NUL]
    ensures 0 < |Formatted(fmt, args)| < INT_MAX && allocates ==>
              ret == |Formatted(fmt, args)| && ptr[..] == Formatted(fmt, args) + [NUL]
    ensures ret == |Formatted(fmt, args)| ==> |Formatted(fmt, args)| <= INT_MAX
    ensures stores == Stores(Pieces(fmt), args, 0)
                      + if 0 < ToInt32(|Formatted(fmt, args)|) && allocates then Stores(Pieces(fmt), args, 0) else []
  {
    hide Formatted, Stores, Stored;
    ptr := was;
    ret, stores := VSnprintf(null, 0, fmt, args);
    IntFits(|Formatted(fmt, args)|);
    if ret <= 0 {
      return;
    }
    var size := ToSize(ToInt32(ret + 1));
    if !allocates {
      ptr := null;
      ret := -1;
      return;
    }
    ptr := new char[size];
    ghost var cells := ptr[..];
    var again;
    ret, again := VSnprintf(ptr, size, fmt, args);
    stores := stores + again;
    if ret < INT_MAX {
      assert size == ret + 1;
      WrappedShorter(|Formatted(fmt, args)|);
      BlockHolds(cells, Formatted(fmt, args), ret);
    }
  }

  /** A positive int result is never longer than the text it stands for. */
  lemma {:induction false} WrappedShorter(n: nat)
    ensures ToInt32(n) <= n
  {
  }

  /** asprintf: vasprintf on a cleared pointer. */
  method Asprintf(fmt: CString, args: seq<Arg>, allocates: bool)
    returns (ret: int, ptr: array?<char>, stores: seq<Store>)
    requires StaysInside(fmt) && Suits(fmt, args)
    ensures ret == (if 0 < ToInt32(|Formatted(fmt, args)|) && !allocates then -1 else ToInt32(|Formatted(fmt, args)|))
    ensures ToInt32(|Formatted(fmt, args)|) <= 0 || !allocates <==> ptr == null
    ensures 0 < ret < INT_MAX ==> ptr != null && ptr[..] == Take(Formatted(fmt, args), ret) + [NUL]
    ensures 0 < |Formatted(fmt, args)| < INT_MAX && allocates ==>
              ret == |Formatted(fmt, args)| && ptr != null && ptr[..] == Formatted(fmt, args) + [NUL]
    ensures stores == Stores(Pieces(fmt), args, 0)
                      + if 0 < ToInt32(|Formatted(fmt, args)|) && allocates then Stores(Pieces(fmt), args, 0) else []
  {
    hide Formatted, Stores;
    ret, ptr, stores := VAsprintf(null, fmt, args, allocates);
  }
}
