/** Decimal rendering of unsigned integers, as Rust's `Display` for `usize`
    and `u32` writes them into the validation error messages: base ten, no
    sign, no leading zero, and "0" for zero. */
module Decimal {

  predicate IsDigit(c: char) {
    '0' <= c <= '9'
  }

  predicate AllDigits(s: string) {
    forall i :: 0 <= i < |s| ==> IsDigit(s[i])
  }

  /** A canonical numeral: non-empty, all digits, and no leading zero
      unless it is the single digit "0". */
  predicate Canonical(s: string) {
    |s| >= 1 && AllDigits(s) && (s[0] == '0' ==> |s| == 1)
  }

  function DigitChar(d: nat): (c: char)
    requires d < 10
    ensures IsDigit(c) && DigitValue(c) == d
  {
    (48 + d) as char
  }

  function DigitValue(c: char): (d: nat)
    requires IsDigit(c)
    ensures d < 10
  {
    c as int - 48
  }

  /** The numeral of `n`. */
  function FromNat(n: nat): (s: string)
    ensures Canonical(s)
    decreases n
  {
    if n < 10 then [DigitChar(n)] else FromNat(n / 10) + [DigitChar(n % 10)]
  }

  /** The value of a numeral, read most significant digit first. */
  function ToNat(s: string): nat
    requires AllDigits(s)
  {
    if s == [] then 0 else ToNat(s[..|s| - 1]) * 10 + DigitValue(s[|s| - 1])
  }

  /** Reading back a rendered number gives the number. */
  lemma {:induction false} ToNatFromNat(n: nat)
    ensures ToNat(FromNat(n)) == n
    decreases n
  {
    if n >= 10 {
      var s := FromNat(n);
      assert s[..|s| - 1] == FromNat(n / 10);
      ToNatFromNat(n / 10);
    }
  }

  lemma {:induction false} LeadingDigitPositive(s: string)
    requires AllDigits(s) && |s| >= 1 && s[0] != '0'
    ensures ToNat(s) > 0
    decreases |s|
  {
    if |s| > 1 {
      LeadingDigitPositive(s[..|s| - 1]);
    }
  }

  /** Every canonical numeral is the rendering of its value, so rendering
      is a bijection between `nat` and the canonical numerals. */
  lemma {:induction false} FromNatToNat(s: string)
    requires Canonical(s)
    ensures FromNat(ToNat(s)) == s
    decreases |s|
  {
    if |s| > 1 {
      var init := s[..|s| - 1];
      LeadingDigitPositive(init);
      FromNatToNat(init);
      var n := ToNat(s);
      assert n / 10 == ToNat(init) && n % 10 == DigitValue(s[|s| - 1]);
      assert s == init + [s[|s| - 1]];
    }
  }

  /** Different numbers render differently. */
  lemma FromNatInjective(m: nat, n: nat)
    requires FromNat(m) == FromNat(n)
    ensures m == n
  {
    ToNatFromNat(m);
    ToNatFromNat(n);
  }

  /** A numeral followed by a text that starts with a non-digit is at
      least as long as any numeral its concatenation starts with. */
  lemma NumeralNotShorter(a1: string, t1: string, a2: string, t2: string)
    requires AllDigits(a2)
    requires t1 != [] && !IsDigit(t1[0])
    requires a1 + t1 == a2 + t2
    ensures |a2| <= |a1|
  {
    assert (a1 + t1)[|a1|] == t1[0];
    assert !IsDigit((a2 + t2)[|a1|]);
  }

  /** A numeral followed by a non-digit ends where its digits end, so two
      such concatenations agree only when numeral and rest both agree. */
  lemma NumeralEnds(a1: string, t1: string, a2: string, t2: string)
    requires AllDigits(a1) && AllDigits(a2)
    requires t1 != [] && !IsDigit(t1[0]) && t2 != [] && !IsDigit(t2[0])
    requires a1 + t1 == a2 + t2
    ensures a1 == a2 && t1 == t2
  {
    NumeralNotShorter(a1, t1, a2, t2);
    NumeralNotShorter(a2, t2, a1, t1);
    assert a1 == (a1 + t1)[..|a1|];
    assert a2 == (a2 + t2)[..|a2|];
    assert t1 == (a1 + t1)[|a1|..];
    assert t2 == (a2 + t2)[|a2|..];
  }
}
