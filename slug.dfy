/** `ArticleService.getSlug`: the slugified title, an underscore, and a random
    number rendered in base 36. `slugify` is foreign code and is a parameter;
    `Math.random()` is the parameter `rnd`, the integer part of
    `Math.random() * 36^6`. */
module Slug {
  import opened Base36

  /** `Math.pow(36, 6)`: the random number is below this bound. */
  const SuffixBound: nat := 2176782336
  const TwoTo31: nat := 2147483648
  const TwoTo32: nat := 4294967296

  /** JavaScript's ToInt32, which `x | 0` applies: the integer taken modulo
      2^32 into the signed range. */
  function ToInt32(n: int): (r: int)
    ensures -(TwoTo31 as int) <= r < TwoTo31
    ensures (n - r) % TwoTo32 == 0
  {
    var m := n % TwoTo32;
    if m >= TwoTo31 then m - TwoTo32 else m
  }

  /** `v.toString(36)` on an integer: a minus sign for negative numbers,
      then the digits of the magnitude. */
  function ToStringRadix36(v: int): (s: string)
    ensures |s| >= 1
    ensures s[0] == '-' <==> v < 0
    ensures forall i :: 0 < i < |s| ==> IsDigit(s[i])
  {
    if v < 0 then "-" + ToBase36(-v) else ToBase36(v)
  }

  /** The suffix as line 18 computes it: `(Math.random() * 36^6) | 0`, then
      `toString(36)`. */
  function SuffixAsWritten(rnd: nat): (s: string)
    requires rnd < SuffixBound
    ensures |s| >= 1
    ensures s[0] == '-' <==> TwoTo31 <= rnd
  {
    ToStringRadix36(ToInt32(rnd))
  }

  /** The suffix with the integer part taken without the 32-bit wrap (what
      `Math.floor` gives): 1 to 6 base-36 digits that read back as `rnd`. */
  function Suffix(rnd: nat): (s: string)
    requires rnd < SuffixBound
    ensures 1 <= |s| <= 6
    ensures forall i :: 0 <= i < |s| ==> IsDigit(s[i])
    ensures FromBase36(s) == rnd
  {
    ToBase36Length(rnd, 6);
    FromToBase36(rnd);
    ToBase36(rnd)
  }

  /** Below 2^31 the wrap does nothing and the written suffix is the intended one. */
  lemma SuffixAsWrittenBelowTwoTo31(rnd: nat)
    requires rnd < TwoTo31
    ensures SuffixAsWritten(rnd) == Suffix(rnd)
  {
    assert rnd % TwoTo32 == rnd;
    assert ToInt32(rnd) == rnd;
  }

  /** From 2^31 up to 36^6 the wrap makes the number negative: the written
      suffix starts with '-' and has 7 characters, so it is not a base-36
      rendering of any draw. */
  lemma SuffixAsWrittenNegative(rnd: nat)
    requires TwoTo31 <= rnd < SuffixBound
    ensures SuffixAsWritten(rnd)[0] == '-'
    ensures |SuffixAsWritten(rnd)| == 7
    ensures !IsDigit(SuffixAsWritten(rnd)[0])
  {
    var v := ToInt32(rnd);
    assert v == rnd - TwoTo32;
    var w: nat := -v;
    assert 60466176 <= w < SuffixBound;
    assert Pow36(5) == 60466176 && Pow36(6) == SuffixBound;
    ToBase36Length(w, 6);
    ToBase36Length(w, 5);
  }

  /** The draw 2^31 (one of about 29 million draws above 2^31) gives a suffix
      that is not made of base-36 digits. */
  lemma SuffixAsWrittenCounterexample()
    ensures SuffixAsWritten(TwoTo31)[0] == '-'
  {
    SuffixAsWrittenNegative(TwoTo31);
  }

  /** `getSlug(title)`: the slugified title, then '_', then the suffix. The
      title part and the random draw can both be read back from the slug. */
  function GetSlug(slugify: string -> string, title: string, rnd: nat): (slug: string)
    requires rnd < SuffixBound
    ensures var p := slugify(title);
      && |p| + 2 <= |slug| <= |p| + 7
      && slug[..|p|] == p
      && slug[|p|] == '_'
      && (forall i :: |p| < i < |slug| ==> IsDigit(slug[i]))
      && FromBase36(slug[|p| + 1..]) == rnd
  {
    var p := slugify(title);
    var s := Suffix(rnd);
    var slug := p + "_" + s;
    assert slug[|p| + 1..] == s;
    slug
  }

  /** `getSlug(title)` as line 18 computes it: the suffix wraps to a negative
      number for draws of 2^31 and above. It agrees with `GetSlug` below
      2^31 and has a '-' right after the underscore from there on. */
  function GetSlugAsWritten(slugify: string -> string, title: string, rnd: nat): (slug: string)
    requires rnd < SuffixBound
    ensures var p := slugify(title);
      && |p| + 2 <= |slug|
      && slug[..|p|] == p
      && slug[|p|] == '_'
      && (slug[|p| + 1] == '-' <==> TwoTo31 <= rnd)
      && (rnd < TwoTo31 ==> slug == GetSlug(slugify, title, rnd))
  {
    var p := slugify(title);
    var slug := p + "_" + SuffixAsWritten(rnd);
    assert slug[|p| + 1] == SuffixAsWritten(rnd)[0];
    if rnd < TwoTo31 then
      SuffixAsWrittenBelowTwoTo31(rnd);
      slug
    else
      slug
  }
}
