/**
 * Decimal rendering of natural numbers, as JavaScript's `Number.prototype.toString`
 * produces it for non-negative integers below 10^21 (no sign, no leading zero), and its
 * inverse. From 10^21 on JavaScript switches to exponent form, and above 2^53 a Number
 * no longer holds every integer; neither is modelled.
 */
module Decimal {

  predicate IsDigit(c: char) {
    '0' <= c <= '9'
  }

  predicate AllDigits(s: string) {
    forall i :: 0 <= i < |s| ==> IsDigit(s[i])
  }

  /** The shape `toString` gives a natural number: non-empty, digits only, no leading zero. */
  predicate Canonical(s: string) {
    |s| >= 1 && AllDigits(s) && (|s| > 1 ==> s[0] != '0')
  }

  function DigitChar(d: nat): (c: char)
    requires d < 10
    ensures IsDigit(c)
    ensures (c == '0') == (d == 0)
  {
    ('0' as int + d) as char
  }

  function DigitValue(c: char): (d: nat)
    requires IsDigit(c)
    ensures d < 10 && DigitChar(d) == c
  {
    c as int - '0' as int
  }

  function Pow10(k: nat): (p: nat)
    ensures p >= 1
  {
    if k == 0 then 1 else 10 * Pow10(k - 1)
  }

  /** The decimal string of `n`. */
  function FromNat(n: nat): (s: string)
    ensures Canonical(s)
    ensures (s[0] == '0') == (n == 0)
    decreases n
  {
    if n < 10 then [DigitChar(n)] else FromNat(n / 10) + [DigitChar(n % 10)]
  }

  /** The number a string of digits denotes. */
  function ToNat(s: string): (n: nat)
    requires AllDigits(s)
    decreases |s|
  {
    if s == [] then 0 else 10 * ToNat(s[..|s| - 1]) + DigitValue(s[|s| - 1])
  }

  /** Reading back a rendered number gives the number. */
  lemma {:induction false} ToNatFromNat(n: nat)
    ensures ToNat(FromNat(n)) == n
    decreases n
  {
    if n >= 10 {
      var s := FromNat(n / 10);
      var t := s + [DigitChar(n % 10)];
      assert t[..|t| - 1] == s;
      ToNatFromNat(n / 10);
    }
  }

  /** Different numbers render differently. */
  lemma FromNatInjective(m: nat, n: nat)
    ensures FromNat(m) == FromNat(n) ==> m == n
  {
    ToNatFromNat(m);
    ToNatFromNat(n);
  }

  /** A digit string denoting zero is made of zeros only. */
  lemma {:induction false} ToNatZero(s: string)
    requires AllDigits(s) && |s| >= 1 && ToNat(s) == 0
    ensures s[0] == '0'
    decreases |s|
  {
    if |s| > 1 {
      var init := s[..|s| - 1];
      assert init[0] == s[0];
      ToNatZero(init);
    } else {
      assert DigitValue(s[0]) == 0;
    }
  }

  /** Rendering the number a canonical string denotes gives back that string. */
  lemma {:induction false} FromNatToNat(s: string)
    requires Canonical(s)
    ensures FromNat(ToNat(s)) == s
    decreases |s|
  {
    if |s| > 1 {
      var init := s[..|s| - 1];
      var d := DigitValue(s[|s| - 1]);
      assert init[0] == s[0];
      assert Canonical(init);
      FromNatToNat(init);
      if ToNat(init) == 0 {
        ToNatZero(init);
      }
      var n := ToNat(s);
      assert n == 10 * ToNat(init) + d;
      assert n / 10 == ToNat(init) && n % 10 == d;
      assert s == init + [s[|s| - 1]];
    } else {
      assert ToNat(s) == DigitValue(s[0]);
    }
  }

  /** A number in [10^(k-1), 10^k) has exactly k digits. */
  lemma {:induction false} LengthOfFromNat(n: nat, k: nat)
    requires k >= 1 && n < Pow10(k)
    requires k > 1 ==> Pow10(k - 1) <= n
    ensures |FromNat(n)| == k
    decreases k
  {
    if k > 1 {
      assert n >= 10;
      LengthOfFromNat(n / 10, k - 1);
    }
  }
}
