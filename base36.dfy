/** `Number.prototype.toString(36)` on non-negative integers: digits
    0-9 then a-z, most significant first, no leading zeros. */
module Base36 {

  /** 36 to the power k. */
  function Pow36(k: nat): (p: nat)
    ensures p >= 1
  {
    if k == 0 then 1 else 36 * Pow36(k - 1)
  }

  /** A character of the base-36 alphabet 0-9a-z. */
  predicate IsDigit(c: char)
  {
    ('0' <= c <= '9') || ('a' <= c <= 'z')
  }

  /** The character for the digit value `d`. */
  function Digit(d: nat): (c: char)
    requires d < 36
    ensures IsDigit(c)
    ensures (c == '0') == (d == 0)
  {
    if d < 10 then ('0' as int + d) as char else ('a' as int + d - 10) as char
  }

  /** The value of a digit character. */
  function DigitValue(c: char): (d: nat)
    requires IsDigit(c)
    ensures d < 36
  {
    if c <= '9' then c as int - '0' as int else c as int - 'a' as int + 10
  }

  /** `n.toString(36)` for n >= 0. */
  function ToBase36(n: nat): (s: string)
    ensures 1 <= |s|
    ensures forall i :: 0 <= i < |s| ==> IsDigit(s[i])
    ensures |s| > 1 ==> s[0] != '0'
  {
    if n < 36 then [Digit(n)] else ToBase36(n / 36) + [Digit(n % 36)]
  }

  /** The value of a string of base-36 digits, most significant first. */
  function FromBase36(s: string): nat
    requires forall i :: 0 <= i < |s| ==> IsDigit(s[i])
  {
    if s == [] then 0 else FromBase36(s[..|s| - 1]) * 36 + DigitValue(s[|s| - 1])
  }

  /** Reading the digits back gives the number that was rendered. */
  lemma {:induction false} FromToBase36(n: nat)
    ensures FromBase36(ToBase36(n)) == n
  {
    var s := ToBase36(n);
    if n >= 36 {
      FromToBase36(n / 36);
      assert s[..|s| - 1] == ToBase36(n / 36);
    }
  }

  /** A rendering with L digits stands for a number in [36^(L-1), 36^L),
      except that 0 also has one digit. */
  lemma {:induction false} ToBase36Magnitude(n: nat)
    ensures n < Pow36(|ToBase36(n)|)
    ensures |ToBase36(n)| > 1 ==> Pow36(|ToBase36(n)| - 1) <= n
  {
    if n >= 36 {
      ToBase36Magnitude(n / 36);
      var l := |ToBase36(n / 36)|;
      assert |ToBase36(n)| == l + 1;
      assert n / 36 < Pow36(l);
      assert n < 36 * Pow36(l);
      if l > 1 {
        assert Pow36(l - 1) <= n / 36;
        assert Pow36(l) == 36 * Pow36(l - 1);
      }
    }
  }

  /** Powers of 36 grow with the exponent. */
  lemma {:induction false} Pow36Monotone(j: nat, k: nat)
    requires j <= k
    ensures Pow36(j) <= Pow36(k)
    decreases k
  {
    if j < k {
      Pow36Monotone(j, k - 1);
    }
  }

  /** For k >= 1, the rendering has at most k digits exactly when the number
      is below 36^k. */
  lemma ToBase36Length(n: nat, k: nat)
    requires k >= 1
    ensures |ToBase36(n)| <= k <==> n < Pow36(k)
  {
    var l := |ToBase36(n)|;
    ToBase36Magnitude(n);
    if l <= k {
      Pow36Monotone(l, k);
    } else {
      Pow36Monotone(k, l - 1);
    }
  }
}
