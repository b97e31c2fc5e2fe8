/** ASCII-only case folding, as Rust's `eq_ignore_ascii_case` does it. */
module Ascii {

  predicate IsAsciiUppercase(c: char) {
    'A' <= c <= 'Z'
  }

  predicate IsAsciiLetter(c: char) {
    'A' <= c <= 'Z' || 'a' <= c <= 'z'
  }

  /** Rust's `char::to_ascii_lowercase`: A-Z become a-z, every other character is kept. */
  function ToAsciiLowercase(c: char): (r: char)
    ensures IsAsciiUppercase(c) ==> 'a' <= r <= 'z' && r as int - c as int == 'a' as int - 'A' as int
    ensures !IsAsciiUppercase(c) ==> r == c
  {
    if IsAsciiUppercase(c) then (c as int - 'A' as int + 'a' as int) as char else c
  }

  /** Rust's `str::to_ascii_lowercase`. */
  function AsciiLowercase(s: string): (r: string)
    ensures |r| == |s|
  {
    if s == [] then [] else [ToAsciiLowercase(s[0])] + AsciiLowercase(s[1..])
  }

  /**
   * Rust's `str::eq_ignore_ascii_case`: the same length, and each pair of
   * characters equal once A-Z are folded to a-z.
   */
  predicate EqIgnoreAsciiCase(a: string, b: string) {
    |a| == |b| && forall i :: 0 <= i < |a| ==> ToAsciiLowercase(a[i]) == ToAsciiLowercase(b[i])
  }

  lemma {:induction false} AsciiLowercaseAt(s: string, i: nat)
    requires i < |s|
    ensures AsciiLowercase(s)[i] == ToAsciiLowercase(s[i])
  {
    if i > 0 {
      AsciiLowercaseAt(s[1..], i - 1);
    }
  }

  /** Comparing ignoring ASCII case is comparing the ASCII-lowercased strings. */
  lemma EqIgnoreAsciiCaseIsLowercaseEquality(a: string, b: string)
    ensures EqIgnoreAsciiCase(a, b) <==> AsciiLowercase(a) == AsciiLowercase(b)
  {
    forall i | 0 <= i < |a| && i < |b|
      ensures AsciiLowercase(a)[i] == ToAsciiLowercase(a[i]) && AsciiLowercase(b)[i] == ToAsciiLowercase(b[i])
    {
      AsciiLowercaseAt(a, i);
      AsciiLowercaseAt(b, i);
    }
    if AsciiLowercase(a) == AsciiLowercase(b) {
      assert |a| == |b|;
      forall i | 0 <= i < |a|
        ensures ToAsciiLowercase(a[i]) == ToAsciiLowercase(b[i])
      {
        assert AsciiLowercase(a)[i] == AsciiLowercase(b)[i];
      }
    }
  }

  /** Only A-Z and a-z are matched loosely: every other character must match exactly. */
  lemma EqIgnoreAsciiCaseExactOutsideLetters(a: string, b: string, i: nat)
    requires EqIgnoreAsciiCase(a, b) && i < |a|
    requires !IsAsciiLetter(a[i])
    ensures b[i] == a[i]
  {
    assert ToAsciiLowercase(a[i]) == ToAsciiLowercase(b[i]);
  }
}
