/** Three-way comparison results, and the order Rust's `Ord for str` puts on strings. */
module Orderings {

  datatype Ordering = Less | Equal | Greater {

    /** The result of the same comparison with its operands swapped. */
    function Reverse(): Ordering {
      match this
      case Less => Greater
      case Equal => Equal
      case Greater => Less
    }

    /** Lexicographic combination (Rust's `Ordering::then`): `this`, unless it is `Equal`. */
    function Then(next: Ordering): Ordering {
      if this == Equal then next else this
    }
  }

  function CompareInt(a: int, b: int): (r: Ordering)
    ensures (r == Less) == (a < b)
    ensures (r == Equal) == (a == b)
    ensures (r == Greater) == (a > b)
  {
    if a < b then Less else if a == b then Equal else Greater
  }

  function CompareChars(a: char, b: char): (r: Ordering)
    ensures (r == Less) == (a < b)
    ensures (r == Equal) == (a == b)
    ensures (r == Greater) == (a > b)
  {
    CompareInt(a as int, b as int)
  }

  /**
   * Lexicographic order on strings, character by character by code point.
   * UTF-8 preserves code-point order, so this is the byte-wise order Rust's
   * `String::cmp` uses.
   */
  function CompareStrings(a: string, b: string): Ordering
    decreases |a|
  {
    if a == [] then (if b == [] then Equal else Less)
    else if b == [] then Greater
    else CompareChars(a[0], b[0]).Then(CompareStrings(a[1..], b[1..]))
  }

  /** `a` is a proper prefix of `b`. */
  predicate ProperPrefix(a: string, b: string) {
    |a| < |b| && a == b[..|a|]
  }

  /** `a` and `b` first differ at `k`, where `a` holds the smaller character. */
  predicate SmallerAt(a: string, b: string, k: int) {
    0 <= k < |a| && k < |b| && a[..k] == b[..k] && a[k] < b[k]
  }

  /** `a` comes first exactly when it is a proper prefix of `b` or differs first at a smaller character. */
  lemma {:induction false} CompareStringsLess(a: string, b: string)
    ensures CompareStrings(a, b) == Less <==> ProperPrefix(a, b) || exists k :: SmallerAt(a, b, k)
    decreases |a|
  {
    if a == [] {
      assert forall k :: !SmallerAt(a, b, k);
    } else if b == [] {
      assert forall k :: !SmallerAt(a, b, k);
    } else {
      CompareStringsLess(a[1..], b[1..]);
      if a[0] == b[0] {
        SameHeadPrefix(a, b);
        SameHeadSmaller(a, b);
      } else {
        DifferentHeads(a, b);
      }
    }
  }

  lemma SameHeadPrefix(a: string, b: string)
    requires a != [] && b != [] && a[0] == b[0]
    ensures ProperPrefix(a, b) <==> ProperPrefix(a[1..], b[1..])
  {
    if ProperPrefix(a, b) {
      assert a[1..] == b[1..][..|a[1..]|];
    }
    if ProperPrefix(a[1..], b[1..]) {
      assert a == [a[0]] + a[1..];
      assert b[..|a|] == [b[0]] + b[1..][..|a[1..]|];
    }
  }

  lemma SameHeadSmaller(a: string, b: string)
    requires a != [] && b != [] && a[0] == b[0]
    ensures (exists k :: SmallerAt(a, b, k)) <==> (exists k :: SmallerAt(a[1..], b[1..], k))
  {
    if exists k :: SmallerAt(a, b, k) {
      var k :| SmallerAt(a, b, k);
      assert k > 0;
      assert a[1..][..k - 1] == a[..k][1..];
      assert b[1..][..k - 1] == b[..k][1..];
      assert SmallerAt(a[1..], b[1..], k - 1);
    }
    if exists k :: SmallerAt(a[1..], b[1..], k) {
      var k :| SmallerAt(a[1..], b[1..], k);
      assert a[..k + 1] == [a[0]] + a[1..][..k];
      assert b[..k + 1] == [b[0]] + b[1..][..k];
      assert SmallerAt(a, b, k + 1);
    }
  }

  lemma DifferentHeads(a: string, b: string)
    requires a != [] && b != [] && a[0] != b[0]
    ensures !ProperPrefix(a, b)
    ensures (exists k :: SmallerAt(a, b, k)) <==> a[0] < b[0]
  {
    if a[0] < b[0] {
      assert SmallerAt(a, b, 0);
    } else {
      forall k | SmallerAt(a, b, k) ensures false {
      }
    }
  }

  lemma {:induction false} CompareStringsReverse(a: string, b: string)
    ensures CompareStrings(b, a) == CompareStrings(a, b).Reverse()
    decreases |a|
  {
    if a != [] && b != [] {
      CompareStringsReverse(a[1..], b[1..]);
    }
  }

  lemma {:induction false} CompareStringsEqual(a: string, b: string)
    ensures CompareStrings(a, b) == Equal <==> a == b
    decreases |a|
  {
    if a != [] && b != [] {
      CompareStringsEqual(a[1..], b[1..]);
      if a[0] == b[0] && a[1..] == b[1..] {
        assert a == [a[0]] + a[1..] && b == [b[0]] + b[1..];
      }
    }
  }

  lemma {:induction false} CompareStringsTransitive(a: string, b: string, c: string)
    requires CompareStrings(a, b) == Less && CompareStrings(b, c) == Less
    ensures CompareStrings(a, c) == Less
    decreases |a|
  {
    if a != [] && b != [] && c != [] && a[0] == b[0] && b[0] == c[0] {
      CompareStringsTransitive(a[1..], b[1..], c[1..]);
    }
  }

  /** Comparing two strings of the same length extended by one character each. */
  lemma {:induction false} CompareStringsSnoc(a: string, b: string, x: char, y: char)
    requires |a| == |b|
    ensures CompareStrings(a + [x], b + [y]) == CompareStrings(a, b).Then(CompareChars(x, y))
    decreases |a|
  {
    if a != [] {
      assert (a + [x])[1..] == a[1..] + [x];
      assert (b + [y])[1..] == b[1..] + [y];
      CompareStringsSnoc(a[1..], b[1..], x, y);
    }
  }
}
