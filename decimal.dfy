/** The decimal text Python's f-strings give a non-negative integer, as in
    the captions `f'Detected Plate {i+1}'`. */
module Decimal {

  predicate IsDigit(c: char) {
    '0' <= c <= '9'
  }

  /** A decimal numeral as `str(n)` writes one: non-empty, digits only, and
      no leading zero except for "0" itself. */
  predicate IsCanonical(s: string) {
    |s| > 0 && (forall k :: 0 <= k < |s| ==> IsDigit(s[k])) && (s[0] == '0' ==> |s| == 1)
  }

  function DigitChar(d: nat): (c: char)
    requires d < 10
    ensures IsDigit(c) && (c as int) - ('0' as int) == d
  {
    ('0' as int + d) as char
  }

  /** `str(n)` for `n >= 0`. */
  function Numeral(n: nat): (s: string)
    ensures IsCanonical(s)
    ensures n > 0 ==> s[0] != '0'
  {
    if n < 10 then [DigitChar(n)] else Numeral(n / 10) + [DigitChar(n % 10)]
  }

  /** The number a string of digits denotes. */
  function DecimalValue(s: string): nat
    requires forall k :: 0 <= k < |s| ==> IsDigit(s[k])
  {
    if s == [] then 0
    else
      assert IsDigit(s[|s| - 1]);
      DecimalValue(s[..|s| - 1]) * 10 + ((s[|s| - 1] as int) - ('0' as int))
  }

  /** Reading back the numeral gives the number. */
  lemma {:induction false} DecimalRoundTrip(n: nat)
    ensures DecimalValue(Numeral(n)) == n
  {
    if n >= 10 {
      DecimalRoundTrip(n / 10);
      var s := Numeral(n);
      assert s[..|s| - 1] == Numeral(n / 10);
    }
  }

  /** Every canonical numeral is the one its value prints as. */
  lemma {:induction false} CanonicalRoundTrip(s: string)
    requires IsCanonical(s)
    ensures Numeral(DecimalValue(s)) == s
    decreases |s|
  {
    if |s| > 1 {
      var init := s[..|s| - 1];
      assert IsCanonical(init);
      CanonicalRoundTrip(init);
      var v := DecimalValue(init);
      assert Numeral(0)[0] == '0';
      assert init[0] == s[0] != '0';
      assert v > 0;
      var d := (s[|s| - 1] as int) - ('0' as int);
      assert DecimalValue(s) / 10 == v && DecimalValue(s) % 10 == d;
      assert s == init + [s[|s| - 1]];
    }
  }

  /** Different numbers print differently, so no two plates share a caption. */
  lemma DecimalInjective(m: nat, n: nat)
    requires Numeral(m) == Numeral(n)
    ensures m == n
  {
    DecimalRoundTrip(m);
    DecimalRoundTrip(n);
  }
}
