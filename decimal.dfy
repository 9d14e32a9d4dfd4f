/** Decimal conversion as the parser does it: isDigit, charToInt and stringToNumber.
    Integers are mathematical; the 32-bit `long` of the target is not modelled. */
module Decimal {

  const AsciiFirstNumber: int := 48
  const AsciiLastNumber: int := 57

  /** A character is a digit when its code lies in 48..57 ('0'..'9'); nothing else, not '-'. */
  predicate IsDigit(c: char)
    ensures IsDigit(c) <==> '0' <= c <= '9'
  {
    AsciiFirstNumber <= c as int <= AsciiLastNumber
  }

  /** The code of c minus the code of '0'; it does not check that c is a digit. */
  function CharToInt(c: char): (d: int)
    ensures IsDigit(c) <==> 0 <= d <= 9
    ensures c == '-' ==> d == -3
  {
    c as int - AsciiFirstNumber
  }

  /** Every character of s is a digit. */
  predicate AllDigits(s: string)
  {
    forall k :: 0 <= k < |s| ==> IsDigit(s[k])
  }

  /** 10 to the power n. */
  function Pow10(n: nat): (p: nat)
    ensures p >= 1
  {
    if n == 0 then 1 else 10 * Pow10(n - 1)
  }

  /** The digits of s, in order, everything else dropped. */
  function DigitsOf(s: string): (r: string)
    ensures AllDigits(r)
    ensures |r| <= |s|
    ensures AllDigits(s) ==> r == s
  {
    if s == [] then []
    else DigitsOf(s[..|s| - 1]) + (if IsDigit(s[|s| - 1]) then [s[|s| - 1]] else [])
  }

  /** How DigitsOf extends by one character. */
  lemma DigitsOfSnoc(s: string, c: char)
    ensures DigitsOf(s + [c]) == DigitsOf(s) + (if IsDigit(c) then [c] else [])
  {
    assert (s + [c])[..|s|] == s;
  }

  /** The positional reading: the sum of CharToInt(s[i]) * 10^(|s|-1-i), most significant first. */
  function Positional(s: string): int
  {
    if s == [] then 0
    else CharToInt(s[0]) * Pow10(|s| - 1) + Positional(s[1..])
  }

  /** The incremental reading: fold v := v*10 + digit over s from the left. */
  function Horner(s: string): (v: int)
    ensures AllDigits(s) ==> v >= 0
  {
    if s == [] then 0
    else Horner(s[..|s| - 1]) * 10 + CharToInt(s[|s| - 1])
  }

  /** A string of n digits is worth less than 10^n. */
  lemma {:induction false} HornerBound(s: string)
    requires AllDigits(s)
    ensures Horner(s) < Pow10(|s|)
  {
    if s != [] {
      HornerBound(s[..|s| - 1]);
    }
  }

  /** Shifting a weighted digit and a tail by one decimal place. */
  lemma ShiftPlace(d: int, p: int, t: int, e: int)
    ensures d * (10 * p) + (t * 10 + e) == (d * p + t) * 10 + e
  {
    assert d * (10 * p) == (d * p) * 10;
  }

  /** Appending one character to a positional reading shifts it one decimal place. */
  lemma {:induction false} PositionalSnoc(s: string, c: char)
    ensures Positional(s + [c]) == Positional(s) * 10 + CharToInt(c)
  {
    if s == [] {
      assert [] + [c] == [c];
    } else {
      assert (s + [c])[1..] == s[1..] + [c];
      PositionalSnoc(s[1..], c);
      var d, p, t := CharToInt(s[0]), Pow10(|s| - 1), Positional(s[1..]);
      assert Pow10(|s|) == 10 * p;
      assert Positional(s + [c]) == d * (10 * p) + (t * 10 + CharToInt(c));
      ShiftPlace(d, p, t, CharToInt(c));
    }
  }

  /** The two readings agree on every string: positional weighting is the left fold. */
  lemma {:induction false} PositionalIsHorner(s: string)
    ensures Positional(s) == Horner(s)
  {
    if s != [] {
      var init := s[..|s| - 1];
      PositionalIsHorner(init);
      PositionalSnoc(init, s[|s| - 1]);
      assert init + [s[|s| - 1]] == s;
    }
  }

  /** A single digit is its own digit string, worth its own value. */
  lemma OneDigit(d: char)
    requires IsDigit(d)
    ensures DigitsOf([d]) == [d]
    ensures Horner([d]) == CharToInt(d)
  {
    DigitsOfSnoc([], d);
    assert [] + [d] == [d];
    assert [d][..0] == [];
  }

  /** What stringToNumber returns for s: the positional reading, negated when s starts with '-'.
      The loop reads every index, index 0 included, so a leading '-' is also weighed as CharToInt('-'). */
  function Converted(s: string): int
  {
    if |s| > 0 && s[0] == '-' then -Positional(s) else Positional(s)
  }

  /** stringToNumber: walks s from its last character to its first, adding each digit times a
      multiplier that grows tenfold per step, then negates when s starts with '-'. */
  method StringToNumber(s: string) returns (n: int)
    ensures n == Converted(s)
  {
    var multiplier := 1;
    var isNegative := false;
    n := 0;
    if |s| > 0 {
      if s[0] == '-' {
        isNegative := true;
      }
      var i := |s| - 1;
      while i >= 0
        invariant -1 <= i < |s|
        invariant n == Positional(s[i + 1..])
        invariant multiplier == Pow10(|s| - 1 - i)
      {
        assert s[i..][1..] == s[i + 1..];
        n := n + CharToInt(s[i]) * multiplier;
        multiplier := multiplier * 10;
        i := i - 1;
      }
      assert s[0..] == s;
      if isNegative {
        n := -n;
      }
    }
  }

  /** On the strings the parser hands it (digits only) the conversion as written and the intended
      one agree and give the decimal value: the left fold, non-negative and below 10^|s|; the
      empty string gives 0. */
  lemma ConvertedDigits(s: string)
    requires AllDigits(s)
    ensures Converted(s) == Horner(s) && Value(s) == Horner(s)
    ensures 0 <= Converted(s) < Pow10(|s|)
    ensures s == [] ==> Converted(s) == 0
  {
    PositionalIsHorner(s);
    HornerBound(s);
    if s != [] {
      assert IsDigit(s[0]);
    }
  }

  /** The sign branch, which the parser never reaches: for "-" followed by digits d the '-' is read
      as the digit -3 at the top place before the negation, so the result is 3*10^|d| - value(d). */
  lemma SignBranch(d: string)
    requires AllDigits(d)
    ensures Converted(['-'] + d) == 3 * Pow10(|d|) - Horner(d)
    ensures Converted(['-'] + d) > 0
  {
    var s := ['-'] + d;
    assert s[1..] == d;
    PositionalIsHorner(d);
    HornerBound(d);
  }

  /** The smallest input that shows the sign branch: "-7" converts to 23, not -7. */
  lemma MinusSevenAsWritten()
    ensures Converted(['-', '7']) == 23
  {
    SignBranch(['7']);
    OneDigit('7');
  }

  /** The conversion stringToNumber is evidently meant to perform: the decimal value of what
      follows an optional leading '-', negated when the '-' is there. */
  function Value(s: string): int
  {
    if |s| > 0 && s[0] == '-' then -Horner(s[1..]) else Horner(s)
  }

  /** The intended sign handling: a leading '-' negates the value of the digits after it. */
  lemma ValueNegates(d: string)
    requires AllDigits(d)
    ensures Value(['-'] + d) == -Value(d)
    ensures Value(d) >= 0
  {
    assert (['-'] + d)[1..] == d;
    if d != [] {
      assert IsDigit(d[0]);
    }
  }

  /** stringToNumber with the sign skipped: the loop stops before index 0 when s starts with '-'. */
  method StringToNumberSkippingSign(s: string) returns (n: int)
    ensures n == Value(s)
  {
    var multiplier := 1;
    var first := 0;
    n := 0;
    if |s| > 0 && s[0] == '-' {
      first := 1;
    }
    var i := |s| - 1;
    while i >= first
      invariant first - 1 <= i < |s|
      invariant n == Positional(s[i + 1..])
      invariant multiplier == Pow10(|s| - 1 - i)
    {
      assert s[i..][1..] == s[i + 1..];
      n := n + CharToInt(s[i]) * multiplier;
      multiplier := multiplier * 10;
      i := i - 1;
    }
    PositionalIsHorner(s[first..]);
    if first == 1 {
      n := -n;
    } else {
      assert s[0..] == s;
    }
  }
}
