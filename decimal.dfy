/**
 * Decimal digit strings: the reading of fixed-width numeric fields and the
 * zero-padded rendering `SimpleDateFormat` uses for `yyyy`, `MM`, `dd`, `HH`,
 * `hh`, `mm` and `ss` (at least as many digits as pattern letters, never truncated).
 */
module Decimal {
  predicate IsDigit(c: char) { '0' <= c <= '9' }

  predicate AllDigits(s: string) { forall i :: 0 <= i < |s| ==> IsDigit(s[i]) }

  function DigitValue(c: char): (v: nat)
    requires IsDigit(c)
    ensures v < 10
  {
    c as int - '0' as int
  }

  function DigitChar(v: nat): (c: char)
    requires v < 10
    ensures IsDigit(c) && DigitValue(c) == v
  {
    (v + '0' as int) as char
  }

  function Pow10(n: nat): (p: nat)
    ensures p >= 1
  {
    if n == 0 then 1 else 10 * Pow10(n - 1)
  }

  /** The value of a digit string, most significant digit first. */
  function Value(s: string): nat
    requires AllDigits(s)
  {
    if s == [] then 0 else Value(s[..|s| - 1]) * 10 + DigitValue(s[|s| - 1])
  }

  /**
   * `n` in decimal with at least `width` digits (and at least one), padded
   * with leading zeros and never cut short.
   */
  function ZeroPad(n: nat, width: nat): (r: string)
    ensures AllDigits(r) && Value(r) == n
    ensures |r| >= width && |r| >= 1
    ensures |r| > width && |r| > 1 ==> r[0] != '0'
    ensures width >= 1 && n < Pow10(width) ==> |r| == width
    decreases n + width
  {
    if n < 10 && width <= 1 then [DigitChar(n)]
    else
      var init := ZeroPad(n / 10, if width == 0 then 0 else width - 1);
      var r := init + [DigitChar(n % 10)];
      assert r[..|r| - 1] == init;
      r
  }

  /** Rendering a digit string's value at its own width gives the string back. */
  lemma {:induction false} ZeroPadOfValue(t: string)
    requires AllDigits(t) && |t| >= 1
    ensures ZeroPad(Value(t), |t|) == t
  {
    var init, last := t[..|t| - 1], t[|t| - 1];
    assert AllDigits(init);
    DigitCharOfValue(last);
    if |t| == 1 {
      assert init == [];
      assert t == [last];
    } else {
      assert t == init + [last];
      ZeroPadOfValue(init);
      ZeroPadStep(Value(init), DigitValue(last), |t| - 1);
    }
  }

  /** Appending a digit to a padded field pads the extended number one wider. */
  lemma ZeroPadStep(q: nat, d: nat, w: nat)
    requires d < 10 && w >= 1
    ensures ZeroPad(q * 10 + d, w + 1) == ZeroPad(q, w) + [DigitChar(d)]
  {
    LastDigit(q, d);
  }

  lemma DigitCharOfValue(c: char)
    requires IsDigit(c)
    ensures DigitChar(DigitValue(c)) == c
  {
  }

  lemma LastDigit(q: nat, d: nat)
    requires d < 10
    ensures (q * 10 + d) / 10 == q && (q * 10 + d) % 10 == d
  {
  }
}
