/** Decimal numerals as text: digit characters, fixed-width and shortest
    renderings of natural numbers, and JavaScript's `parseInt`. */
module Numerals {
  import opened Outcomes

  predicate IsDigit(c: char) {
    '0' <= c <= '9'
  }

  predicate AllDigits(s: string) {
    forall i :: 0 <= i < |s| ==> IsDigit(s[i])
  }

  function DigitChar(n: nat): (c: char)
    requires n < 10
    ensures IsDigit(c)
  {
    (48 + n) as char
  }

  function DigitValue(c: char): (n: nat)
    requires IsDigit(c)
    ensures n < 10 && DigitChar(n) == c
  {
    c as int - 48
  }

  function Pow10(w: nat): (p: nat)
    ensures p >= 1
  {
    if w == 0 then 1 else 10 * Pow10(w - 1)
  }

  /** The value of a string of decimal digits, most significant digit first. */
  function ValueOf(s: string): (n: nat)
    requires AllDigits(s)
    ensures n < Pow10(|s|)
  {
    if s == [] then 0 else 10 * ValueOf(s[..|s| - 1]) + DigitValue(s[|s| - 1])
  }

  /** The low `w` decimal digits of `n`, zero-padded to exactly `w` characters. */
  function Padded(n: nat, w: nat): (s: string)
    ensures |s| == w && AllDigits(s)
  {
    if w == 0 then [] else Padded(n / 10, w - 1) + [DigitChar(n % 10)]
  }

  /** Reading back a zero-padded numeral gives the number, when it fits the width. */
  lemma {:induction false} ValueOfPadded(n: nat, w: nat)
    requires n < Pow10(w)
    ensures ValueOf(Padded(n, w)) == n
  {
    if w > 0 {
      ValueOfPadded(n / 10, w - 1);
      var s := Padded(n, w);
      assert s[..|s| - 1] == Padded(n / 10, w - 1);
    }
  }

  /** Re-rendering the value of a digit string at its own width gives the string back. */
  lemma {:induction false} PaddedValueOf(s: string)
    requires AllDigits(s)
    ensures Padded(ValueOf(s), |s|) == s
  {
    if s != [] {
      var init := s[..|s| - 1];
      PaddedValueOf(init);
      DivMod10(ValueOf(init), DigitValue(s[|s| - 1]));
      assert s == init + [s[|s| - 1]];
    }
  }

  lemma DivMod10(q: nat, r: nat)
    requires r < 10
    ensures (10 * q + r) / 10 == q && (10 * q + r) % 10 == r
  {
  }

  /** The shortest decimal numeral of `n` ("0" for zero), as JavaScript
      renders a non-negative integer. */
  function Decimal(n: nat): (s: string)
    ensures |s| >= 1 && AllDigits(s)
  {
    if n < 10 then [DigitChar(n)] else Decimal(n / 10) + [DigitChar(n % 10)]
  }

  lemma {:induction false} ValueOfDecimal(n: nat)
    ensures ValueOf(Decimal(n)) == n
  {
    if n >= 10 {
      ValueOfDecimal(n / 10);
      var s := Decimal(n);
      assert s[..|s| - 1] == Decimal(n / 10);
    }
  }

  /** The longest prefix of `s` made of decimal digits. */
  function LeadingDigits(s: string): (p: string)
    ensures p <= s && AllDigits(p)
    ensures |p| < |s| ==> !IsDigit(s[|p|])
  {
    if s != [] && IsDigit(s[0]) then [s[0]] + LeadingDigits(s[1..]) else []
  }

  lemma {:induction false} LeadingDigitsAppend(p: string, t: string)
    requires AllDigits(p)
    ensures LeadingDigits(p + t) == p + LeadingDigits(t)
  {
    if p != [] {
      assert (p + t)[0] == p[0] && (p + t)[1..] == p[1..] + t;
      LeadingDigitsAppend(p[1..], t);
      assert IsDigit(p[0]);
      calc {
        LeadingDigits(p + t);
        [p[0]] + LeadingDigits(p[1..] + t);
        [p[0]] + (p[1..] + LeadingDigits(t));
        ([p[0]] + p[1..]) + LeadingDigits(t);
        { assert [p[0]] + p[1..] == p; }
        p + LeadingDigits(t);
      }
    } else {
      assert p + t == t;
    }
  }

  /** JavaScript's `parseInt(s)` without a radix, for strings with no leading
      white space and no `0x` prefix: an optional sign, then the longest run
      of decimal digits; `None` is `NaN` (no digit follows the sign). */
  function ParseInt(s: string): Option<int> {
    var negative := |s| > 0 && s[0] == '-';
    var body := if |s| > 0 && (s[0] == '-' || s[0] == '+') then s[1..] else s;
    var digits := LeadingDigits(body);
    if digits == [] then None
    else if negative then Some(-(ValueOf(digits) as int))
    else Some(ValueOf(digits))
  }

  /** The digits that a numeral followed by a non-digit starts with are the
      numeral, which reads back as its value. */
  lemma LeadingDecimal(n: nat, rest: string)
    requires rest == [] || !IsDigit(rest[0])
    ensures LeadingDigits(Decimal(n) + rest) == Decimal(n)
    ensures ValueOf(Decimal(n)) == n
  {
    LeadingDigitsAppend(Decimal(n), rest);
    assert LeadingDigits(rest) == [];
    assert Decimal(n) + [] == Decimal(n);
    ValueOfDecimal(n);
  }

  /** parseInt reads back a numeral followed by anything that does not start
      with a digit, and stops there. */
  lemma ParseIntDecimal(n: nat, rest: string)
    requires rest == [] || !IsDigit(rest[0])
    ensures ParseInt(Decimal(n) + rest) == Some(n)
  {
    var s := Decimal(n) + rest;
    LeadingDecimal(n, rest);
    assert s[0] == Decimal(n)[0] && IsDigit(s[0]);
  }

  /** parseInt of a minus sign followed by `t` reads the digits `t` starts
      with and negates them. */
  lemma ParseIntMinus(t: string)
    ensures ParseInt("-" + t) ==
      if LeadingDigits(t) == [] then None else Some(-(ValueOf(LeadingDigits(t)) as int))
  {
    var s := "-" + t;
    assert s[0] == '-' && s[1..] == t;
  }

  /** The same with a minus sign in front: parseInt keeps the sign. */
  lemma ParseIntNegativeDecimal(n: nat, rest: string)
    requires rest == [] || !IsDigit(rest[0])
    ensures ParseInt("-" + Decimal(n) + rest) == Some(-(n as int))
  {
    var t := Decimal(n) + rest;
    assert "-" + Decimal(n) + rest == "-" + t;
    ParseIntMinus(t);
    LeadingDecimal(n, rest);
    assert LeadingDigits(t) == Decimal(n) != [];
  }
}
