/** Decimal digit strings and the natural numbers they denote. */
module Decimal {
  import opened Orderings

  predicate IsDigit(c: char) {
    '0' <= c <= '9'
  }

  predicate AllDigits(s: string) {
    forall i :: 0 <= i < |s| ==> IsDigit(s[i])
  }

  /** A non-empty digit string with no redundant leading zero ("0", "7", "120", not "01"). */
  predicate Canonical(s: string) {
    |s| > 0 && AllDigits(s) && (|s| == 1 || s[0] != '0')
  }

  function DigitValue(c: char): (d: nat)
    requires IsDigit(c)
    ensures d < 10
  {
    c as int - '0' as int
  }

  function DigitChar(d: nat): (c: char)
    requires d < 10
    ensures IsDigit(c) && DigitValue(c) == d
  {
    ('0' as int + d) as char
  }

  /** The number a digit string denotes (0 for the empty string). */
  function Value(s: string): nat
    requires AllDigits(s)
  {
    if s == [] then 0 else Value(s[..|s| - 1]) * 10 + DigitValue(s[|s| - 1])
  }

  function Pow10(n: nat): (p: nat)
    ensures p >= 1
  {
    if n == 0 then 1 else 10 * Pow10(n - 1)
  }

  /** The canonical decimal spelling of `n`, as Rust's `Display for u64` writes it. */
  function ToDigits(n: nat): (s: string)
    ensures Canonical(s) && Value(s) == n
    ensures n > 0 ==> s[0] != '0'
    decreases n
  {
    if n < 10 then [DigitChar(n)]
    else
      var prefix := ToDigits(n / 10);
      var s := prefix + [DigitChar(n % 10)];
      assert s[..|s| - 1] == prefix;
      s
  }

  lemma {:induction false} ValueUpperBound(s: string)
    requires AllDigits(s)
    ensures Value(s) < Pow10(|s|)
  {
    if s != [] {
      ValueUpperBound(s[..|s| - 1]);
    }
  }

  /** A digit string that does not start with '0' is at least 10^(length - 1). */
  lemma {:induction false} ValueLowerBound(s: string)
    requires AllDigits(s) && |s| > 0 && s[0] != '0'
    ensures Value(s) >= Pow10(|s| - 1)
  {
    if |s| > 1 {
      var prefix := s[..|s| - 1];
      assert prefix[0] == s[0];
      ValueLowerBound(prefix);
    } else {
      assert s[..0] == [];
    }
  }

  /** Reading and then writing a canonical digit string gives back the same string. */
  lemma {:induction false} ToDigitsValue(s: string)
    requires Canonical(s)
    ensures ToDigits(Value(s)) == s
  {
    var n := |s|;
    if n == 1 {
      assert s[..0] == [];
      assert ToDigits(Value(s)) == [s[0]];
    } else {
      var prefix := s[..n - 1];
      assert prefix[0] == s[0];
      assert Canonical(prefix);
      ValueLowerBound(prefix);
      ToDigitsValue(prefix);
      assert Value(s) / 10 == Value(prefix);
      assert Value(s) % 10 == DigitValue(s[n - 1]);
      assert DigitChar(DigitValue(s[n - 1])) == s[n - 1];
      assert s == prefix + [s[n - 1]];
    }
  }

  /** For digit strings of equal length, character order agrees with numeric order. */
  lemma {:induction false} SameLengthOrder(x: string, y: string)
    requires AllDigits(x) && AllDigits(y) && |x| == |y|
    ensures CompareStrings(x, y) == CompareInt(Value(x), Value(y))
  {
    if x != [] {
      var n := |x|;
      var x', y' := x[..n - 1], y[..n - 1];
      SameLengthOrder(x', y');
      assert x == x' + [x[n - 1]] && y == y' + [y[n - 1]];
      CompareStringsSnoc(x', y', x[n - 1], y[n - 1]);
    }
  }

  /**
   * Ordering canonical digit strings by length first and then character by
   * character is numeric order: "99" < "100".
   */
  lemma LengthThenCharsIsNumeric(x: string, y: string)
    requires Canonical(x) && Canonical(y)
    ensures CompareInt(|x|, |y|).Then(CompareStrings(x, y)) == CompareInt(Value(x), Value(y))
  {
    if |x| == |y| {
      SameLengthOrder(x, y);
    } else if |x| < |y| {
      ValueUpperBound(x);
      ValueLowerBound(y);
      PowMonotone(|x|, |y| - 1);
    } else {
      ValueUpperBound(y);
      ValueLowerBound(x);
      PowMonotone(|y|, |x| - 1);
    }
  }

  lemma {:induction false} PowMonotone(m: nat, n: nat)
    requires m <= n
    ensures Pow10(m) <= Pow10(n)
  {
    if m < n {
      PowMonotone(m, n - 1);
    }
  }

  lemma SingleDigit(s: string)
    requires |s| == 1 && IsDigit(s[0])
    ensures Canonical(s) && Value(s) == DigitValue(s[0])
  {
    assert s[..0] == [];
  }

  lemma TwoDigits(x: char, y: char)
    requires IsDigit(x) && IsDigit(y) && x != '0'
    ensures Canonical([x, y]) && Value([x, y]) == DigitValue(x) * 10 + DigitValue(y)
  {
    assert [x, y][..1] == [x];
    SingleDigit([x]);
  }
}
