/**
 * Semantic Versioning 2.0.0 as the program's `semver::Version` implements it:
 * the grammar of sections 2, 9 and 10 (with major, minor and patch held in
 * 64 bits), and the total order of its `Ord`, which is the precedence of
 * section 11 with build metadata compared as a final tie-break.
 */
module SemVer {
  import opened Wrappers
  import opened Orderings
  import opened Decimal
  import opened Strings

  /** Major, minor and patch are `u64`: a number of 2^64 or more is an overflow error. */
  const ComponentLimit: nat := 0x1_0000_0000_0000_0000

  /** A parsed version; pre-release and build identifiers are kept as written. */
  datatype Version = Version(major: nat, minor: nat, patch: nat, pre: seq<string>, build: seq<string>)

  predicate IsIdentifierChar(c: char) {
    IsDigit(c) || 'A' <= c <= 'Z' || 'a' <= c <= 'z' || c == '-'
  }

  /**
   * A pre-release (Semantic Versioning 2.0.0, section 9) or build (section 10) identifier: non-empty, made
   * of [0-9A-Za-z-]; a numeric pre-release identifier has no leading zero.
   */
  predicate ValidIdentifier(id: string, isPre: bool) {
    && |id| > 0
    && (forall i :: 0 <= i < |id| ==> IsIdentifierChar(id[i]))
    && (isPre && AllDigits(id) ==> Canonical(id))
  }

  predicate ValidIdentifiers(ids: seq<string>, isPre: bool) {
    forall i :: 0 <= i < |ids| ==> ValidIdentifier(ids[i], isPre)
  }

  /** The versions that `Parse` can return. */
  predicate Valid(v: Version) {
    && v.major < ComponentLimit && v.minor < ComponentLimit && v.patch < ComponentLimit
    && ValidIdentifiers(v.pre, true) && ValidIdentifiers(v.build, false)
  }

  /** A major, minor or patch number (Semantic Versioning 2.0.0, section 2): digits, no leading zero, below 2^64. */
  function ParseNumber(s: string): (r: Option<nat>)
    ensures r.Some? <==> Canonical(s) && Value(s) < ComponentLimit
    ensures r.Some? ==> r.value == Value(s)
  {
    if Canonical(s) && Value(s) < ComponentLimit then Some(Value(s)) else None
  }

  /** Dot-separated identifiers, every one of them valid. */
  function ParseIdentifiers(s: string, isPre: bool): (r: Option<seq<string>>)
    ensures r.Some? ==> ValidIdentifiers(r.value, isPre) && r.value != [] && Join(r.value, '.') == s
  {
    var ids := Split(s, '.');
    JoinSplit(s, '.');
    if ValidIdentifiers(ids, isPre) then Some(ids) else None
  }

  /** `major.minor.patch`: exactly three numbers separated by dots. */
  function ParseCore(core: string): (r: Option<(nat, nat, nat)>)
    ensures r.Some? ==> r.value.0 < ComponentLimit && r.value.1 < ComponentLimit && r.value.2 < ComponentLimit
  {
    var numbers := Split(core, '.');
    if |numbers| != 3 then None
    else
      match (ParseNumber(numbers[0]), ParseNumber(numbers[1]), ParseNumber(numbers[2]))
      case (Some(x), Some(y), Some(z)) => Some((x, y, z))
      case _ => None
  }

  /** An absent part has no identifiers; a present one must hold valid identifiers. */
  function ParseOptionalIdentifiers(part: Option<string>, isPre: bool): (r: Option<seq<string>>)
    ensures r.Some? ==> ValidIdentifiers(r.value, isPre)
  {
    match part
    case None => Some([])
    case Some(t) => ParseIdentifiers(t, isPre)
  }

  /**
   * `Version::parse`: `major.minor.patch`, then optionally `-` and pre-release
   * identifiers, then optionally `+` and build identifiers, and nothing else.
   * Identifiers cannot hold '+' and numbers cannot hold '-', so the first '+'
   * starts the build metadata and the first '-' before it the pre-release.
   */
  function Parse(s: string): (r: Option<Version>)
    ensures r.Some? ==> Valid(r.value)
  {
    var (main, build) := SplitOnce(s, '+');
    var (core, pre) := SplitOnce(main, '-');
    match (ParseCore(core), ParseOptionalIdentifiers(pre, true), ParseOptionalIdentifiers(build, false))
    case (Some(n), Some(p), Some(b)) => Some(Version(n.0, n.1, n.2, p, b))
    case _ => None
  }

  /** `sep` and the identifiers joined with dots, or nothing when there are none. */
  function Suffix(sep: char, ids: seq<string>): string {
    if ids == [] then "" else [sep] + Join(ids, '.')
  }

  function CoreString(v: Version): string {
    Join([ToDigits(v.major), ToDigits(v.minor), ToDigits(v.patch)], '.')
  }

  /** The version written out (`Display for Version`). */
  function Format(v: Version): string {
    CoreString(v) + Suffix('-', v.pre) + Suffix('+', v.build)
  }

  predicate ValidVersionString(s: string) {
    Parse(s).Some?
  }

  // ---------------------------------------------------------------------
  // Round trips between Parse and Format

  lemma {:induction false} JoinExcludes(parts: seq<string>, c: char, x: char)
    requires x != c
    requires forall i :: 0 <= i < |parts| ==> x !in parts[i]
    ensures x !in Join(parts, c)
  {
    if |parts| > 1 {
      JoinExcludes(parts[1..], c, x);
    }
  }

  lemma IdentifiersExclude(ids: seq<string>, isPre: bool, x: char)
    requires ValidIdentifiers(ids, isPre) && !IsIdentifierChar(x) && x != '.'
    ensures x !in Join(ids, '.')
  {
    forall i | 0 <= i < |ids| ensures x !in ids[i] {
    }
    JoinExcludes(ids, '.', x);
  }

  lemma DigitsExclude(s: string, x: char)
    requires AllDigits(s) && !IsDigit(x)
    ensures x !in s
  {
  }

  lemma CoreStringSplits(v: Version)
    ensures Split(CoreString(v), '.') == [ToDigits(v.major), ToDigits(v.minor), ToDigits(v.patch)]
    ensures '+' !in CoreString(v) && '-' !in CoreString(v)
  {
    var parts := [ToDigits(v.major), ToDigits(v.minor), ToDigits(v.patch)];
    forall i | 0 <= i < 3 ensures '.' !in parts[i] && '+' !in parts[i] && '-' !in parts[i] {
      DigitsExclude(parts[i], '.');
      DigitsExclude(parts[i], '+');
      DigitsExclude(parts[i], '-');
    }
    SplitJoin(parts, '.');
    JoinExcludes(parts, '.', '+');
    JoinExcludes(parts, '.', '-');
  }

  lemma ParseIdentifiersJoin(ids: seq<string>, isPre: bool)
    requires ValidIdentifiers(ids, isPre) && ids != []
    ensures ParseIdentifiers(Join(ids, '.'), isPre) == Some(ids)
  {
    forall i | 0 <= i < |ids| ensures '.' !in ids[i] {
    }
    SplitJoin(ids, '.');
  }

  lemma ParseCoreString(v: Version)
    requires Valid(v)
    ensures ParseCore(CoreString(v)) == Some((v.major, v.minor, v.patch))
  {
    CoreStringSplits(v);
  }

  function OptionalJoin(ids: seq<string>): Option<string> {
    if ids == [] then None else Some(Join(ids, '.'))
  }

  lemma SplitOnceSuffix(a: string, sep: char, ids: seq<string>)
    requires sep !in a
    ensures SplitOnce(a + Suffix(sep, ids), sep) == (a, OptionalJoin(ids))
  {
    if ids != [] {
      var j := Join(ids, '.');
      var t := a + [sep] + j;
      IndexOfFirst(a, sep, j);
      assert a + Suffix(sep, ids) == t;
      assert t[..|a|] == a && t[|a| + 1..] == j;
    } else {
      assert a + Suffix(sep, ids) == a;
    }
  }

  lemma OptionalJoinParses(ids: seq<string>, isPre: bool)
    requires ValidIdentifiers(ids, isPre)
    ensures ParseOptionalIdentifiers(OptionalJoin(ids), isPre) == Some(ids)
  {
    if ids != [] {
      ParseIdentifiersJoin(ids, isPre);
    }
  }

  /** Every valid version is read back from its written form. */
  lemma ParseFormat(v: Version)
    requires Valid(v)
    ensures Parse(Format(v)) == Some(v)
  {
    var core := CoreString(v);
    CoreStringSplits(v);
    ParseCoreString(v);
    SplitOnceSuffix(core, '-', v.pre);
    OptionalJoinParses(v.pre, true);
    var main := core + Suffix('-', v.pre);
    IdentifiersExclude(v.pre, true, '+');
    assert '+' !in main by {
      if v.pre != [] { assert main == core + ['-'] + Join(v.pre, '.'); }
    }
    SplitOnceSuffix(main, '+', v.build);
    OptionalJoinParses(v.build, false);
  }

  lemma SuffixOfParsed(part: Option<string>, sep: char, isPre: bool)
    requires ParseOptionalIdentifiers(part, isPre).Some?
    ensures Suffix(sep, ParseOptionalIdentifiers(part, isPre).value) == if part.None? then "" else [sep] + part.value
  {
  }

  lemma CoreStringOfParsed(core: string, v: Version)
    requires ParseCore(core) == Some((v.major, v.minor, v.patch))
    ensures CoreString(v) == core
  {
    var numbers := Split(core, '.');
    JoinSplit(core, '.');
    ToDigitsValue(numbers[0]);
    ToDigitsValue(numbers[1]);
    ToDigitsValue(numbers[2]);
    assert numbers == [numbers[0], numbers[1], numbers[2]];
  }

  /** What `Parse` found in each of the three parts of a string it accepts. */
  lemma ParsedParts(s: string)
    requires Parse(s).Some?
    ensures var (main, build) := SplitOnce(s, '+');
      var (core, pre) := SplitOnce(main, '-');
      var v := Parse(s).value;
      && ParseCore(core) == Some((v.major, v.minor, v.patch))
      && ParseOptionalIdentifiers(pre, true) == Some(v.pre)
      && ParseOptionalIdentifiers(build, false) == Some(v.build)
  {
  }

  /** Splitting at the first `c` and writing the parts back gives the string. */
  lemma SplitOnceRejoins(s: string, c: char)
    ensures var (head, tail) := SplitOnce(s, c);
      s == head + (if tail.None? then "" else [c] + tail.value)
  {
  }

  /** Every string that parses is the written form of what it parses to. */
  lemma FormatParse(s: string)
    requires Parse(s).Some?
    ensures Format(Parse(s).value) == s
  {
    var v := Parse(s).value;
    var (main, build) := SplitOnce(s, '+');
    var (core, pre) := SplitOnce(main, '-');
    ParsedParts(s);
    CoreStringOfParsed(core, v);
    SuffixOfParsed(pre, '-', true);
    SuffixOfParsed(build, '+', false);
    SplitOnceRejoins(s, '+');
    SplitOnceRejoins(main, '-');
    assert main == CoreString(v) + Suffix('-', v.pre);
    assert s == main + Suffix('+', v.build);
  }

  /** Different strings never parse to the same version. */
  lemma ParseInjective(s: string, t: string)
    requires Parse(s).Some? && Parse(s) == Parse(t)
    ensures s == t
  {
    FormatParse(s);
    FormatParse(t);
  }

  // ---------------------------------------------------------------------
  // The order of `Ord for Version`

  /** `s` without its leading '0's. */
  function TrimLeadingZeros(s: string): (r: string)
    ensures |r| <= |s| && r == s[|s| - |r|..]
    ensures forall i :: 0 <= i < |s| - |r| ==> s[i] == '0'
    ensures r == [] || r[0] != '0'
  {
    if s != [] && s[0] == '0' then
      var r := TrimLeadingZeros(s[1..]);
      assert s[1..][|s| - 1 - |r|..] == s[|s| - |r|..];
      r
    else s
  }

  /**
   * One identifier against another. Numeric identifiers come before
   * alphanumeric ones and alphanumeric ones compare as strings. Numeric
   * pre-release identifiers (which have no leading zero) compare by length and
   * then by characters; numeric build identifiers by the same rule once their
   * leading zeros are dropped, and then the one with more zeros is greater.
   */
  function CompareIdentifier(x: string, y: string, isPre: bool): Ordering {
    if AllDigits(x) && AllDigits(y) then
      if isPre then CompareNumeric(x, y)
      else CompareNumeric(TrimLeadingZeros(x), TrimLeadingZeros(y)).Then(CompareInt(|x|, |y|))
    else if AllDigits(x) then Less
    else if AllDigits(y) then Greater
    else CompareStrings(x, y)
  }

  /** Digit strings without leading zeros, compared as numbers: shorter first, then by characters. */
  function CompareNumeric(x: string, y: string): Ordering {
    CompareInt(|x|, |y|).Then(CompareStrings(x, y))
  }

  /** Identifier by identifier; when one list is a prefix of the other, the longer is greater. */
  function CompareIdentifiers(xs: seq<string>, ys: seq<string>, isPre: bool): Ordering
    decreases |xs|
  {
    if xs == [] then (if ys == [] then Equal else Less)
    else if ys == [] then Greater
    else CompareIdentifier(xs[0], ys[0], isPre).Then(CompareIdentifiers(xs[1..], ys[1..], isPre))
  }

  /** A version without pre-release is greater than any with one. */
  function ComparePre(p: seq<string>, q: seq<string>): Ordering {
    if p == [] && q == [] then Equal
    else if p == [] then Greater
    else if q == [] then Less
    else CompareIdentifiers(p, q, true)
  }

  /** `Ord for Version`: major, minor, patch, pre-release, build metadata, in that order. */
  function Compare(a: Version, b: Version): Ordering {
    CompareInt(a.major, b.major)
      .Then(CompareInt(a.minor, b.minor))
      .Then(CompareInt(a.patch, b.patch))
      .Then(ComparePre(a.pre, b.pre))
      .Then(CompareIdentifiers(a.build, b.build, false))
  }

  // ---------------------------------------------------------------------
  // Compare is a total order

  lemma TrimmedEqual(x: string, y: string)
    requires TrimLeadingZeros(x) == TrimLeadingZeros(y) && |x| == |y|
    ensures x == y
  {
    var t := TrimLeadingZeros(x);
    var k := |x| - |t|;
    forall i | 0 <= i < |x| ensures x[i] == y[i] {
      if i >= k {
        assert x[i] == x[k..][i - k] && y[i] == y[k..][i - k];
      }
    }
  }

  lemma NumericLaws(x: string, y: string)
    ensures CompareNumeric(y, x) == CompareNumeric(x, y).Reverse()
    ensures CompareNumeric(x, y) == Equal <==> x == y
  {
    CompareStringsReverse(x, y);
    CompareStringsEqual(x, y);
  }

  lemma NumericTransitive(x: string, y: string, z: string)
    requires CompareNumeric(x, y) == Less && CompareNumeric(y, z) == Less
    ensures CompareNumeric(x, z) == Less
  {
    if |x| == |y| == |z| {
      CompareStringsTransitive(x, y, z);
    }
  }

  lemma IdentifierLaws(x: string, y: string, isPre: bool)
    ensures CompareIdentifier(y, x, isPre) == CompareIdentifier(x, y, isPre).Reverse()
    ensures CompareIdentifier(x, y, isPre) == Equal <==> x == y
  {
    CompareStringsReverse(x, y);
    CompareStringsEqual(x, y);
    NumericLaws(x, y);
    var tx, ty := TrimLeadingZeros(x), TrimLeadingZeros(y);
    NumericLaws(tx, ty);
    if AllDigits(x) && AllDigits(y) && !isPre && CompareIdentifier(x, y, isPre) == Equal {
      TrimmedEqual(x, y);
    }
  }

  /** Numeric build identifiers: by value once leading zeros are dropped, then by length. */
  lemma BuildNumericTransitive(x: string, y: string, z: string)
    requires AllDigits(x) && AllDigits(y) && AllDigits(z)
    requires CompareIdentifier(x, y, false) == Less && CompareIdentifier(y, z, false) == Less
    ensures CompareIdentifier(x, z, false) == Less
  {
    var tx, ty, tz := TrimLeadingZeros(x), TrimLeadingZeros(y), TrimLeadingZeros(z);
    NumericLaws(tx, ty);
    NumericLaws(ty, tz);
    if CompareNumeric(tx, ty) == Less && CompareNumeric(ty, tz) == Less {
      NumericTransitive(tx, ty, tz);
    }
  }

  lemma IdentifierTransitive(x: string, y: string, z: string, isPre: bool)
    requires CompareIdentifier(x, y, isPre) == Less && CompareIdentifier(y, z, isPre) == Less
    ensures CompareIdentifier(x, z, isPre) == Less
  {
    if AllDigits(x) && AllDigits(y) && AllDigits(z) {
      if isPre {
        NumericTransitive(x, y, z);
      } else {
        BuildNumericTransitive(x, y, z);
      }
    } else if !AllDigits(x) && !AllDigits(y) && !AllDigits(z) {
      CompareStringsTransitive(x, y, z);
    }
  }

  lemma {:induction false} IdentifiersLaws(xs: seq<string>, ys: seq<string>, isPre: bool)
    ensures CompareIdentifiers(ys, xs, isPre) == CompareIdentifiers(xs, ys, isPre).Reverse()
    ensures CompareIdentifiers(xs, ys, isPre) == Equal <==> xs == ys
    decreases |xs|
  {
    if xs != [] && ys != [] {
      IdentifierLaws(xs[0], ys[0], isPre);
      IdentifiersLaws(xs[1..], ys[1..], isPre);
      if xs[0] == ys[0] && xs[1..] == ys[1..] {
        assert xs == [xs[0]] + xs[1..] && ys == [ys[0]] + ys[1..];
      }
    }
  }

  lemma {:induction false} IdentifiersTransitive(xs: seq<string>, ys: seq<string>, zs: seq<string>, isPre: bool)
    requires CompareIdentifiers(xs, ys, isPre) == Less && CompareIdentifiers(ys, zs, isPre) == Less
    ensures CompareIdentifiers(xs, zs, isPre) == Less
    decreases |xs|
  {
    if xs != [] && ys != [] && zs != [] {
      IdentifierLaws(xs[0], ys[0], isPre);
      IdentifierLaws(ys[0], zs[0], isPre);
      var h1, h2 := CompareIdentifier(xs[0], ys[0], isPre), CompareIdentifier(ys[0], zs[0], isPre);
      if h1 == Less && h2 == Less {
        IdentifierTransitive(xs[0], ys[0], zs[0], isPre);
      } else if h1 == Equal && h2 == Equal {
        IdentifiersTransitive(xs[1..], ys[1..], zs[1..], isPre);
      }
    }
  }

  /** Swapping the operands reverses the result. */
  lemma CompareReverse(a: Version, b: Version)
    ensures Compare(b, a) == Compare(a, b).Reverse()
  {
    IdentifiersLaws(a.pre, b.pre, true);
    IdentifiersLaws(a.build, b.build, false);
  }

  /** Two versions compare `Equal` exactly when they are the same version. */
  lemma CompareEqual(a: Version, b: Version)
    ensures Compare(a, b) == Equal <==> a == b
  {
    IdentifiersLaws(a.pre, b.pre, true);
    IdentifiersLaws(a.build, b.build, false);
  }

  lemma CompareTransitive(a: Version, b: Version, c: Version)
    requires Compare(a, b) == Less && Compare(b, c) == Less
    ensures Compare(a, c) == Less
  {
    IdentifiersLaws(a.pre, b.pre, true);
    IdentifiersLaws(b.pre, c.pre, true);
    IdentifiersLaws(a.build, b.build, false);
    IdentifiersLaws(b.build, c.build, false);
    if a.pre != [] && b.pre != [] && c.pre != []
      && CompareIdentifiers(a.pre, b.pre, true) == Less && CompareIdentifiers(b.pre, c.pre, true) == Less {
      IdentifiersTransitive(a.pre, b.pre, c.pre, true);
    }
    if CompareIdentifiers(a.build, b.build, false) == Less && CompareIdentifiers(b.build, c.build, false) == Less {
      IdentifiersTransitive(a.build, b.build, c.build, false);
    }
  }

  // ---------------------------------------------------------------------
  // Precedence as section 11 of Semantic Versioning 2.0.0 defines it

  /** Section 11.4.1-11.4.3: numeric identifiers numerically, below alphanumeric ones, which compare in ASCII order. */
  function PrecedenceIdentifier(x: string, y: string): Ordering {
    if AllDigits(x) && AllDigits(y) then CompareInt(Value(x), Value(y))
    else if AllDigits(x) then Less
    else if AllDigits(y) then Greater
    else CompareStrings(x, y)
  }

  /** Section 11.4.4: the larger set of identifiers is greater when all before are equal. */
  function PrecedenceIdentifiers(xs: seq<string>, ys: seq<string>): Ordering
    decreases |xs|
  {
    if xs == [] then (if ys == [] then Equal else Less)
    else if ys == [] then Greater
    else PrecedenceIdentifier(xs[0], ys[0]).Then(PrecedenceIdentifiers(xs[1..], ys[1..]))
  }

  /**
   * Section 11: major, minor and patch numerically (11.2), a pre-release below
   * the normal version (11.3), pre-releases identifier by identifier (11.4);
   * build metadata plays no part.
   */
  function Precedence(a: Version, b: Version): Ordering {
    CompareInt(a.major, b.major)
      .Then(CompareInt(a.minor, b.minor))
      .Then(CompareInt(a.patch, b.patch))
      .Then(
        if a.pre == [] && b.pre == [] then Equal
        else if a.pre == [] then Greater
        else if b.pre == [] then Less
        else PrecedenceIdentifiers(a.pre, b.pre))
  }

  lemma {:induction false} PreIdentifiersArePrecedence(xs: seq<string>, ys: seq<string>)
    requires ValidIdentifiers(xs, true) && ValidIdentifiers(ys, true)
    ensures CompareIdentifiers(xs, ys, true) == PrecedenceIdentifiers(xs, ys)
    decreases |xs|
  {
    if xs != [] && ys != [] {
      if AllDigits(xs[0]) && AllDigits(ys[0]) {
        LengthThenCharsIsNumeric(xs[0], ys[0]);
      }
      assert ValidIdentifiers(xs[1..], true) && ValidIdentifiers(ys[1..], true) by {
        forall i | 0 <= i < |xs| - 1 ensures ValidIdentifier(xs[1..][i], true) { assert xs[1..][i] == xs[i + 1]; }
        forall i | 0 <= i < |ys| - 1 ensures ValidIdentifier(ys[1..][i], true) { assert ys[1..][i] == ys[i + 1]; }
      }
      PreIdentifiersArePrecedence(xs[1..], ys[1..]);
    }
  }

  /**
   * On valid versions the library's order is the precedence of Semantic
   * Versioning 2.0.0, section 11, with build metadata deciding only between
   * versions of equal precedence.
   */
  lemma CompareIsPrecedenceThenBuild(a: Version, b: Version)
    requires Valid(a) && Valid(b)
    ensures Compare(a, b) == Precedence(a, b).Then(CompareIdentifiers(a.build, b.build, false))
  {
    PreIdentifiersArePrecedence(a.pre, b.pre);
  }

  /** The example chain of Semantic Versioning 2.0.0, section 11.4: 1.0.0-alpha < 1.0.0-alpha.1 < ... < 1.0.0-rc.1 < 1.0.0. */
  lemma PrecedenceExample()
    ensures Compare(Version(1, 0, 0, ["alpha"], []), Version(1, 0, 0, ["alpha", "1"], [])) == Less
    ensures Compare(Version(1, 0, 0, ["alpha", "1"], []), Version(1, 0, 0, ["alpha", "beta"], [])) == Less
    ensures Compare(Version(1, 0, 0, ["alpha", "beta"], []), Version(1, 0, 0, ["beta"], [])) == Less
    ensures Compare(Version(1, 0, 0, ["beta"], []), Version(1, 0, 0, ["beta", "2"], [])) == Less
    ensures Compare(Version(1, 0, 0, ["beta", "2"], []), Version(1, 0, 0, ["beta", "11"], [])) == Less
    ensures Compare(Version(1, 0, 0, ["beta", "11"], []), Version(1, 0, 0, ["rc", "1"], [])) == Less
    ensures Compare(Version(1, 0, 0, ["rc", "1"], []), Version(1, 0, 0, [], [])) == Less
  {
    assert !AllDigits("alpha") && !AllDigits("beta") && !AllDigits("rc") by {
      assert !IsDigit("alpha"[0]) && !IsDigit("beta"[0]) && !IsDigit("rc"[0]);
    }
    assert AllDigits("1") && AllDigits("2") && AllDigits("11");
    assert CompareStrings("alpha", "beta") == Less;
    assert CompareStrings("beta", "rc") == Less;
    assert CompareStrings("2", "11") == Greater;
  }

  /** A version needs three numbers: "1.5" is not one. */
  lemma ParseRejectsTwoNumbers()
    ensures Parse("1.5") == None
  {
    assert IndexOf("1.5", '+') == None;
    assert IndexOf("1.5", '-') == None;
    assert IndexOf("1.5", '.') == Some(1);
    assert "1.5"[2..] == "5";
    assert "1.5"[..1] == "1";
    assert IndexOf("5", '.') == None;
    assert Split("5", '.') == ["5"];
    assert Split("1.5", '.') == ["1", "5"];
  }

  /** Three canonical numbers joined by '.' parse as the release version with those values. */
  lemma ParseRelease(a: string, b: string, c: string)
    requires Canonical(a) && Canonical(b) && Canonical(c)
    requires Value(a) < ComponentLimit && Value(b) < ComponentLimit && Value(c) < ComponentLimit
    ensures Parse(Join([a, b, c], '.')) == Some(Version(Value(a), Value(b), Value(c), [], []))
  {
    var v := Version(Value(a), Value(b), Value(c), [], []);
    ToDigitsValue(a);
    ToDigitsValue(b);
    ToDigitsValue(c);
    assert CoreString(v) == Join([a, b, c], '.');
    assert Format(v) == CoreString(v) + "" + "";
    assert Format(v) == Join([a, b, c], '.');
    ParseFormat(v);
  }

  /** A release version with single-digit numbers, such as "1.9.0". */
  lemma ParseSingleDigitRelease(x: char, y: char, z: char, major: nat, minor: nat, patch: nat)
    requires IsDigit(x) && IsDigit(y) && IsDigit(z)
    requires major == DigitValue(x) && minor == DigitValue(y) && patch == DigitValue(z)
    ensures Parse([x, '.', y, '.', z]) == Some(Version(major, minor, patch, [], []))
  {
    SingleDigit([x]);
    SingleDigit([y]);
    SingleDigit([z]);
    assert [[x], [y], [z]][1..] == [[y], [z]];
    assert [[y], [z]][1..] == [[z]];
    assert Join([[z]], '.') == [z];
    assert Join([[y], [z]], '.') == [y] + "." + [z] == [y, '.', z];
    assert Join([[x], [y], [z]], '.') == [x] + "." + [y, '.', z] == [x, '.', y, '.', z];
    ParseRelease([x], [y], [z]);
  }

  /** A release version with a two-digit minor number, such as "1.10.0". */
  lemma ParseTwoDigitMinorRelease(x: char, y1: char, y2: char, z: char, major: nat, minor: nat, patch: nat)
    requires IsDigit(x) && IsDigit(y1) && IsDigit(y2) && IsDigit(z) && y1 != '0'
    requires major == DigitValue(x) && minor == DigitValue(y1) * 10 + DigitValue(y2) && patch == DigitValue(z)
    ensures Parse([x, '.', y1, y2, '.', z]) == Some(Version(major, minor, patch, [], []))
  {
    SingleDigit([x]);
    SingleDigit([z]);
    TwoDigits(y1, y2);
    assert [[x], [y1, y2], [z]][1..] == [[y1, y2], [z]];
    assert [[y1, y2], [z]][1..] == [[z]];
    assert Join([[z]], '.') == [z];
    assert Join([[y1, y2], [z]], '.') == [y1, y2] + "." + [z] == [y1, y2, '.', z];
    assert Join([[x], [y1, y2], [z]], '.') == [x] + "." + [y1, y2, '.', z] == [x, '.', y1, y2, '.', z];
    ParseRelease([x], [y1, y2], [z]);
  }
}
