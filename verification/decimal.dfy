/**
 Decimal rendering and parsing of non-negative integers, as used for the
 `timestamp=` header of a wrapped cache entry (seconds since the epoch).
 */
module Decimal {
  import opened Wrappers

  predicate IsDigit(c: char) {
    '0' <= c <= '9'
  }

  predicate AllDigits(s: string) {
    forall i :: 0 <= i < |s| ==> IsDigit(s[i])
  }

  /** Digits only, at least one, and no leading zero unless the number is 0 itself. */
  predicate IsCanonicalDecimal(s: string) {
    |s| >= 1 && AllDigits(s) && (|s| > 1 ==> s[0] != '0')
  }

  function DigitChar(d: nat): (c: char)
    requires d < 10
    ensures IsDigit(c) && DigitValue(c) == d
  {
    "0123456789"[d]
  }

  function DigitValue(c: char): (d: nat)
    requires IsDigit(c)
    ensures d < 10
  {
    c as int - '0' as int
  }

  lemma DigitCharOfValue(c: char)
    requires IsDigit(c)
    ensures DigitChar(DigitValue(c)) == c
  {
    var digits := "0123456789";
    assert forall i :: 0 <= i < 10 ==> digits[i] as int == '0' as int + i;
  }

  lemma QuotientAndRemainder(v: nat, d: nat)
    requires d < 10
    ensures (10 * v + d) / 10 == v && (10 * v + d) % 10 == d
  {
  }

  /** The value of a string of digits, most significant digit first. */
  function DecimalValue(s: string): nat
    requires AllDigits(s)
  {
    if |s| == 0 then 0
    else 10 * DecimalValue(s[..|s| - 1]) + DigitValue(s[|s| - 1])
  }

  /** The shortest decimal rendering of `n`. */
  function NatToDecimal(n: nat): (s: string)
    ensures IsCanonicalDecimal(s)
  {
    if n < 10 then [DigitChar(n)]
    else
      var prefix := NatToDecimal(n / 10);
      assert prefix[0] != '0' by {
        if |prefix| == 1 {
          assert DigitValue(prefix[0]) == n / 10;
        }
      }
      prefix + [DigitChar(n % 10)]
  }

  /** A canonical decimal string read back as a number; anything else is rejected. */
  function ParseDecimal(s: string): (r: Option<nat>)
    ensures r.Some? <==> IsCanonicalDecimal(s)
  {
    if IsCanonicalDecimal(s) then Some(DecimalValue(s)) else None
  }

  /** Rendering then reading gives the number back. */
  lemma {:induction false} DecimalValueOfRendering(n: nat)
    ensures DecimalValue(NatToDecimal(n)) == n
    decreases n
  {
    if n >= 10 {
      var s := NatToDecimal(n);
      DecimalValueOfRendering(n / 10);
      assert s[..|s| - 1] == NatToDecimal(n / 10);
    }
  }

  lemma ParseRendering(n: nat)
    ensures ParseDecimal(NatToDecimal(n)) == Some(n)
  {
    DecimalValueOfRendering(n);
  }

  /** Appending a digit to a positive number appends its character to the rendering. */
  lemma RenderingAppendsDigit(v: nat, d: nat)
    requires v != 0 && d < 10
    ensures NatToDecimal(10 * v + d) == NatToDecimal(v) + [DigitChar(d)]
  {
    QuotientAndRemainder(v, d);
  }

  /** A canonical decimal string is the rendering of its own value. */
  lemma {:induction false} RenderingOfParse(s: string)
    requires IsCanonicalDecimal(s)
    ensures NatToDecimal(DecimalValue(s)) == s
    decreases |s|
  {
    if |s| == 1 {
      DigitCharOfValue(s[0]);
    } else {
      var front := s[..|s| - 1];
      var last := s[|s| - 1];
      assert front[0] == s[0];
      RenderingOfParse(front);
      var v := DecimalValue(front);
      var d := DigitValue(last);
      assert v != 0;
      assert DecimalValue(s) == 10 * v + d;
      RenderingAppendsDigit(v, d);
      DigitCharOfValue(last);
      assert s == front + [last];
    }
  }
}
