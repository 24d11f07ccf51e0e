/**
 * Decimal rendering and parsing of natural numbers: `String(n)` and the part
 * of `Number(s)` that the review-ID allocator relies on.
 */
module Decimal {
  import opened Wrappers

  predicate IsDigit(c: char) {
    '0' <= c <= '9'
  }

  predicate AllDigits(s: string) {
    forall i :: 0 <= i < |s| ==> IsDigit(s[i])
  }

  function DigitValue(c: char): (d: nat)
    requires IsDigit(c)
    ensures d < 10
  {
    c as int - '0' as int
  }

  function DigitChar(d: nat): (c: char)
    requires d < 10
    ensures IsDigit(c) && DigitValue(c) == d
  {
    ('0' as int + d) as char
  }

  /** `String(n)` for a non-negative integer: canonical decimal, no leading zero. */
  function Dec(n: nat): (s: string)
    ensures |s| >= 1 && AllDigits(s)
    ensures |s| > 1 ==> s[0] != '0'
    ensures n < 10 <==> |s| == 1
  {
    if n < 10 then [DigitChar(n)] else Dec(n / 10) + [DigitChar(n % 10)]
  }

  /** Ten to the power `n`. */
  function Pow10(n: nat): (p: nat)
    ensures p >= 1
  {
    if n == 0 then 1 else 10 * Pow10(n - 1)
  }

  /** The number a string of decimal digits denotes; leading zeros are allowed. */
  function Value(s: string): (r: nat)
    requires AllDigits(s)
    ensures r < Pow10(|s|)
  {
    if s == [] then 0 else Value(s[..|s| - 1]) * 10 + DigitValue(s[|s| - 1])
  }

  /**
   * `Number(s)` restricted to the inputs this model covers: the empty string
   * is 0, a string of decimal digits is its value, anything else is NaN (None).
   */
  function JsNumber(s: string): (r: Option<nat>)
    ensures r.Some? <==> AllDigits(s)
    ensures s == [] ==> r == Some(0)
    ensures r.Some? ==> r.value == Value(s)
  {
    if AllDigits(s) then Some(Value(s)) else None
  }

  /**
   * 2^53: JavaScript numbers are doubles, so integers are exact, and `+ 1`
   * and `String` behave as on naturals, only below this bound.
   */
  const SafeLimit: nat := 0x20_0000_0000_0000

  /** Powers of ten grow with the exponent. */
  lemma {:induction false} Pow10Monotone(m: nat, n: nat)
    requires m <= n
    ensures Pow10(m) <= Pow10(n)
    decreases n
  {
    if m < n {
      Pow10Monotone(m, n - 1);
    }
  }

  /**
   * A digit string of at most 15 digits denotes a number that stays below
   * 2^53 even after adding one, so JavaScript computes it exactly.
   */
  lemma ShortDigitsAreSafe(s: string)
    requires AllDigits(s) && |s| <= 15
    ensures Value(s) + 1 < SafeLimit
  {
    Pow10Monotone(|s|, 15);
    assert Pow10(15) == 1_000_000_000_000_000;
  }

  /** Parsing undoes rendering. */
  lemma {:induction false} ValueOfDec(n: nat)
    ensures Value(Dec(n)) == n
  {
    if n >= 10 {
      var s := Dec(n);
      assert s[..|s| - 1] == Dec(n / 10);
      ValueOfDec(n / 10);
    }
  }

  /** `Number(String(n))` is `n`: the number read back is the one written. */
  lemma {:induction false} JsNumberOfDec(n: nat)
    ensures JsNumber(Dec(n)) == Some(n)
  {
    ValueOfDec(n);
  }

  /** Rendering undoes parsing, for canonical digit strings. */
  lemma {:induction false} DecOfValue(s: string)
    requires |s| >= 1 && AllDigits(s) && (|s| > 1 ==> s[0] != '0')
    ensures Dec(Value(s)) == s
  {
    if |s| > 1 {
      var init, last := s[..|s| - 1], s[|s| - 1];
      assert init[0] == s[0];
      DecOfValue(init);
      ValuePositive(init);
      var v := Value(s);
      assert v == Value(init) * 10 + DigitValue(last);
      AppendDigit(Value(init), DigitValue(last));
      assert Dec(v) == Dec(Value(init)) + [DigitChar(DigitValue(last))];
      assert DigitChar(DigitValue(last)) == last;
      assert s == init + [last];
    } else {
      assert DigitChar(DigitValue(s[0])) == s[0];
    }
  }

  /** Appending digit `d` to `v` is undone by `/ 10` and `% 10`. */
  lemma AppendDigit(v: nat, d: nat)
    requires d < 10
    ensures (v * 10 + d) / 10 == v && (v * 10 + d) % 10 == d
  {
  }

  /** A digit string that does not start with `0` denotes a positive number. */
  lemma {:induction false} ValuePositive(s: string)
    requires |s| >= 1 && AllDigits(s) && s[0] != '0'
    ensures Value(s) >= 1
  {
    if |s| > 1 {
      var init := s[..|s| - 1];
      assert init[0] == s[0];
      ValuePositive(init);
    }
  }

  /** A leading zero does not change the value: `Number("07") == 7`. */
  lemma {:induction false} ValueLeadingZero(s: string)
    requires AllDigits(s)
    ensures AllDigits(['0'] + s) && Value(['0'] + s) == Value(s)
  {
    var z := ['0'] + s;
    if s != [] {
      assert z[..|z| - 1] == ['0'] + s[..|s| - 1];
      ValueLeadingZero(s[..|s| - 1]);
    } else {
      assert z[..0] == [];
    }
  }
}
