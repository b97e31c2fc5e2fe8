/**
 * Chart index records and `format_chart_versions`: the two-branch version
 * comparator, the stable sort of a chart's versions, and the tab-separated
 * row each version becomes.
 */
module Charts {
  import opened Wrappers
  import opened Orderings
  import opened Strings
  import opened Excerpt
  import SemVer
  import Decimal
  import Sorting

  /** One published version of a chart, as `ChartVersion` deserialises it. */
  datatype ChartVersion = ChartVersion(
    version: string,
    description: Option<string>,
    appVersion: Option<string>,
    created: Option<string>,
    kubeVersion: Option<string>,
    chartType: Option<string>)

  /** `IndexFile`: chart name to its versions. */
  datatype IndexFile = IndexFile(entries: map<string, seq<ChartVersion>>)

  const Unspecified: string := "<unspecified>"
  const DescriptionLimit: nat := 50
  const IndexPath: string := "/index.yaml"

  // ---------------------------------------------------------------------
  // The index URL

  /** The URL `fetch_index` requests: the source without trailing '/', then "/index.yaml". */
  function IndexUrl(source: string): (url: string)
    ensures |url| >= |IndexPath| && url[|url| - |IndexPath|..] == IndexPath
  {
    TrimEndMatches(source, '/') + IndexPath
  }

  /**
   * The URL ends in "/index.yaml", and what comes before is the source with
   * all its trailing '/' removed and nothing else.
   */
  lemma IndexUrlShape(source: string)
    ensures var url := IndexUrl(source);
      && |url| >= |IndexPath| && url[|url| - |IndexPath|..] == IndexPath
      && var base := url[..|url| - |IndexPath|];
        && base <= source
        && (forall i :: |base| <= i < |source| ==> source[i] == '/')
        && (base == [] || base[|base| - 1] != '/')
  {
    SuffixAppended(TrimEndMatches(source, '/'), source, IndexPath);
  }

  /** `base`, a prefix of `source` followed only by '/', is what precedes `suffix` in `base + suffix`. */
  lemma SuffixAppended(base: string, source: string, suffix: string)
    requires |base| <= |source| && base == source[..|base|]
    requires forall i :: |base| <= i < |source| ==> source[i] == '/'
    requires base == [] || base[|base| - 1] != '/'
    ensures var url := base + suffix;
      && |url| >= |suffix| && url[|url| - |suffix|..] == suffix
      && var b := url[..|url| - |suffix|];
        && b <= source
        && (forall i :: |b| <= i < |source| ==> source[i] == '/')
        && (b == [] || b[|b| - 1] != '/')
  {
    var url := base + suffix;
    assert url[..|url| - |suffix|] == base;
    assert url[|url| - |suffix|..] == suffix;
  }

  /** Trailing slashes on the source make no difference. */
  lemma IndexUrlIgnoresTrailingSlash(source: string)
    ensures IndexUrl(source + "/") == IndexUrl(source)
  {
    assert (source + "/")[..|source|] == source;
  }

  // ---------------------------------------------------------------------
  // The `created` column

  /**
   * `format_created`: "<unspecified>" when absent; a timestamp that parses as
   * RFC 3339 is rendered in local time by `rfc3339` (which returns `None` when it
   * does not parse); anything else is passed through unchanged.
   */
  function FormatCreated(created: Option<string>, rfc3339: string -> Option<string>): (r: string)
    ensures created.None? ==> r == Unspecified
    ensures created.Some? && rfc3339(created.value).None? ==> r == created.value
    ensures created.Some? && rfc3339(created.value).Some? ==> r == rfc3339(created.value).value
  {
    match created
    case None => Unspecified
    case Some(s) =>
      match rfc3339(s)
      case Some(rendered) => rendered
      case None => s
  }

  // ---------------------------------------------------------------------
  // The comparator given to `sort_by`

  /**
   * Newest first: when both strings parse as semantic versions, by the reverse
   * of their version order; otherwise by the reverse of the raw strings' order.
   */
  function CompareVersionStrings(a: string, b: string): Ordering {
    CompareParsed(a, b, SemVer.Parse(a), SemVer.Parse(b))
  }

  /** The comparator once both strings have been through `Version::parse`. */
  function CompareParsed(a: string, b: string, pa: Option<SemVer.Version>, pb: Option<SemVer.Version>): Ordering {
    match (pa, pb)
    case (Some(va), Some(vb)) => SemVer.Compare(vb, va)
    case _ => CompareStrings(b, a)
  }

  lemma CompareParsedReverse(a: string, b: string, pa: Option<SemVer.Version>, pb: Option<SemVer.Version>)
    ensures CompareParsed(b, a, pb, pa) == CompareParsed(a, b, pa, pb).Reverse()
  {
    CompareStringsReverse(a, b);
    if pa.Some? && pb.Some? {
      SemVer.CompareReverse(pa.value, pb.value);
    }
  }

  function CompareChartVersions(x: ChartVersion, y: ChartVersion): Ordering {
    CompareVersionStrings(x.version, y.version)
  }

  /** Two semantic versions: the one of higher precedence comes first; equal precedence falls to build metadata. */
  lemma SemVerNewestFirst(a: string, b: string)
    requires SemVer.Parse(a).Some? && SemVer.Parse(b).Some?
    ensures var va, vb := SemVer.Parse(a).value, SemVer.Parse(b).value;
      CompareVersionStrings(a, b) ==
        SemVer.Precedence(va, vb).Then(SemVer.CompareIdentifiers(va.build, vb.build, false)).Reverse()
  {
    var va, vb := SemVer.Parse(a).value, SemVer.Parse(b).value;
    SemVer.CompareIsPrecedenceThenBuild(va, vb);
    SemVer.CompareReverse(va, vb);
  }

  /** If either string is not a semantic version, the raw strings are ordered in reverse. */
  lemma FallbackIsReverseLexicographic(a: string, b: string)
    requires SemVer.Parse(a).None? || SemVer.Parse(b).None?
    ensures CompareVersionStrings(a, b) == CompareStrings(a, b).Reverse()
  {
    CompareStringsReverse(a, b);
  }

  predicate SameKind(x: ChartVersion, y: ChartVersion) {
    SemVer.ValidVersionString(x.version) == SemVer.ValidVersionString(y.version)
  }

  /** Swapping the operands reverses the comparator's answer, whatever the strings. */
  lemma VersionOrderReverse(x: ChartVersion, y: ChartVersion)
    ensures CompareChartVersions(y, x) == CompareChartVersions(x, y).Reverse()
  {
    CompareParsedReverse(x.version, y.version, SemVer.Parse(x.version), SemVer.Parse(y.version));
  }

  /** The comparator says `Equal` exactly for equal version strings. */
  lemma VersionOrderEqual(x: ChartVersion, y: ChartVersion)
    ensures CompareChartVersions(x, y) == Equal <==> x.version == y.version
  {
    CompareStringsEqual(y.version, x.version);
    match (SemVer.Parse(x.version), SemVer.Parse(y.version))
    case (Some(vx), Some(vy)) =>
      SemVer.CompareEqual(vy, vx);
      if vx == vy {
        SemVer.ParseInjective(x.version, y.version);
      }
    case _ =>
  }

  /** Among versions that all parse, or all fail to parse, the comparator is transitive. */
  lemma VersionOrderTransitive(x: ChartVersion, y: ChartVersion, z: ChartVersion)
    requires SameKind(x, y) && SameKind(y, z)
    requires CompareChartVersions(x, y) == Less && CompareChartVersions(y, z) == Less
    ensures CompareChartVersions(x, z) == Less
  {
    if SemVer.ValidVersionString(x.version) {
      var vx, vy, vz := SemVer.Parse(x.version).value, SemVer.Parse(y.version).value, SemVer.Parse(z.version).value;
      SemVer.CompareTransitive(vz, vy, vx);
    } else {
      CompareStringsTransitive(z.version, y.version, x.version);
    }
  }

  /** "Not after" is transitive among versions of the same kind. */
  lemma NotAfterTransitive(x: ChartVersion, y: ChartVersion, z: ChartVersion)
    requires SameKind(x, y) && SameKind(y, z)
    requires CompareChartVersions(x, y) != Greater && CompareChartVersions(y, z) != Greater
    ensures CompareChartVersions(x, z) != Greater
  {
    VersionOrderEqual(x, y);
    VersionOrderEqual(y, z);
    if CompareChartVersions(x, y) == Less && CompareChartVersions(y, z) == Less {
      VersionOrderTransitive(x, y, z);
    }
  }

  lemma ParsesOneZeroZero()
    ensures SemVer.Parse("1.0.0") == Some(SemVer.Version(1, 0, 0, [], []))
  {
    SemVer.ParseSingleDigitRelease('1', '0', '0', 1, 0, 0);
  }

  lemma ParsesTwoZeroZero()
    ensures SemVer.Parse("2.0.0") == Some(SemVer.Version(2, 0, 0, [], []))
  {
    SemVer.ParseSingleDigitRelease('2', '0', '0', 2, 0, 0);
  }

  lemma ParsesOneNineZero()
    ensures SemVer.Parse("1.9.0") == Some(SemVer.Version(1, 9, 0, [], []))
  {
    SemVer.ParseSingleDigitRelease('1', '9', '0', 1, 9, 0);
  }

  lemma ParsesOneTenZero()
    ensures SemVer.Parse("1.10.0") == Some(SemVer.Version(1, 10, 0, [], []))
  {
    SemVer.ParseTwoDigitMinorRelease('1', '1', '0', '0', 1, 10, 0);
  }

  /**
   * On a mix of semantic and other version strings the comparator is not an
   * order: "1.10.0" before "1.9.0" (as versions), "1.9.0" before "1.5" and
   * "1.5" before "1.10.0" (as strings).
   */
  lemma MixedVersionsCycle()
    ensures CompareVersionStrings("1.10.0", "1.9.0") == Less
    ensures CompareVersionStrings("1.9.0", "1.5") == Less
    ensures CompareVersionStrings("1.5", "1.10.0") == Less
  {
    ParsesOneNineZero();
    ParsesOneTenZero();
    SemVer.ParseRejectsTwoNumbers();
  }

  // ---------------------------------------------------------------------
  // The stable sort

  function VersionOf(v: ChartVersion): string {
    v.version
  }

  /** The comparator keeps, on all values, the laws the sort relies on; its key is the version string. */
  lemma ComparatorLaws()
    ensures Sorting.Antisymmetric(CompareChartVersions)
    ensures Sorting.EqualMeansSameKey(CompareChartVersions, VersionOf)
  {
    forall x, y ensures CompareChartVersions(y, x) == CompareChartVersions(x, y).Reverse() {
      VersionOrderReverse(x, y);
    }
    forall x, y ensures CompareChartVersions(x, y) == Equal <==> VersionOf(x) == VersionOf(y) {
      VersionOrderEqual(x, y);
    }
  }

  /** All version strings are semantic versions, or none is. */
  predicate Uniform(s: seq<ChartVersion>) {
    (forall x :: x in s ==> SemVer.ValidVersionString(x.version)) ||
    (forall x :: x in s ==> !SemVer.ValidVersionString(x.version))
  }

  lemma UniformIsTransitive(s: seq<ChartVersion>)
    requires Uniform(s)
    ensures Sorting.TransitiveOn(s, CompareChartVersions)
  {
    forall x, y, z | x in s && y in s && z in s &&
        CompareChartVersions(x, y) != Greater && CompareChartVersions(y, z) != Greater
      ensures CompareChartVersions(x, z) != Greater
    {
      NotAfterTransitive(x, y, z);
    }
  }

  /** A chart's versions as `format_chart_versions` orders them. */
  function SortedVersions(vs: seq<ChartVersion>): (r: seq<ChartVersion>)
    ensures multiset(r) == multiset(vs)
  {
    Sorting.InsertionSort(vs, CompareChartVersions)
  }

  /** When all of a chart's versions parse, or none does, they come out newest first. */
  lemma SortedVersionsNewestFirst(vs: seq<ChartVersion>)
    requires Uniform(vs)
    ensures Sorting.Sorted(SortedVersions(vs), CompareChartVersions)
  {
    ComparatorLaws();
    UniformIsTransitive(vs);
    Sorting.InsertionSortSorted(vs, CompareChartVersions);
  }

  /** Entries with the same version string keep their order in the index. */
  lemma SortedVersionsStable(vs: seq<ChartVersion>, v: string)
    ensures Sorting.WithKey(SortedVersions(vs), VersionOf, v) == Sorting.WithKey(vs, VersionOf, v)
  {
    ComparatorLaws();
    Sorting.InsertionSortStable(vs, CompareChartVersions, VersionOf, v);
  }

  /**
   * When all versions parse, or none does, the order is fully determined: any
   * stable sort by this comparator gives `SortedVersions`.
   */
  lemma SortedVersionsDetermined(vs: seq<ChartVersion>, r: seq<ChartVersion>)
    requires Uniform(vs) && multiset(r) == multiset(vs) && Sorting.Sorted(r, CompareChartVersions)
    requires forall v :: Sorting.WithKey(r, VersionOf, v) == Sorting.WithKey(vs, VersionOf, v)
    ensures r == SortedVersions(vs)
  {
    ComparatorLaws();
    UniformIsTransitive(vs);
    Sorting.StableSortIsInsertionSort(vs, r, CompareChartVersions, VersionOf);
  }

  // ---------------------------------------------------------------------
  // Rows

  /**
   * The seven cells of a version's row: chart, type, version, description
   * shortened to 50 characters, app version, created, kube version; absent
   * values are "<unspecified>", an absent description is empty.
   */
  function RowFields(chart: string, v: ChartVersion, rfc3339: string -> Option<string>): (cells: seq<string>)
    ensures |cells| == 7
  {
    [ chart,
      v.chartType.GetOr(Unspecified),
      v.version,
      Ellipsize(v.description.GetOr(""), DescriptionLimit),
      v.appVersion.GetOr(Unspecified),
      FormatCreated(v.created, rfc3339),
      v.kubeVersion.GetOr(Unspecified) ]
  }

  /**
   * Each cell shows its field when present and its placeholder when absent;
   * created is `format_created`'s text; the description cell is the description
   * shortened to 50 characters, at most 53 characters, and empty without one.
   */
  lemma RowPlaceholders(chart: string, v: ChartVersion, rfc3339: string -> Option<string>)
    ensures var cells := RowFields(chart, v, rfc3339);
      && cells[0] == chart && cells[2] == v.version
      && (v.chartType.None? ==> cells[1] == Unspecified) && (v.chartType.Some? ==> cells[1] == v.chartType.value)
      && (v.appVersion.None? ==> cells[4] == Unspecified) && (v.appVersion.Some? ==> cells[4] == v.appVersion.value)
      && (v.kubeVersion.None? ==> cells[6] == Unspecified) && (v.kubeVersion.Some? ==> cells[6] == v.kubeVersion.value)
      && cells[5] == FormatCreated(v.created, rfc3339) && (v.created.None? ==> cells[5] == Unspecified)
      && (v.description.None? ==> cells[3] == [])
      && (v.description.Some? ==> cells[3] == Ellipsize(v.description.value, DescriptionLimit))
      && |cells[3]| <= DescriptionLimit + 3
  {
  }

  /** The row: the cells separated by tabs. */
  function FormatRow(chart: string, v: ChartVersion, rfc3339: string -> Option<string>): string {
    Join(RowFields(chart, v, rfc3339), '\t')
  }

  /** When no cell holds a tab, the row splits back into exactly its seven cells. */
  lemma RowSplitsIntoCells(chart: string, v: ChartVersion, rfc3339: string -> Option<string>)
    requires forall i :: 0 <= i < 7 ==> '\t' !in RowFields(chart, v, rfc3339)[i]
    ensures Split(FormatRow(chart, v, rfc3339), '\t') == RowFields(chart, v, rfc3339)
  {
    SplitJoin(RowFields(chart, v, rfc3339), '\t');
  }

  /** The row-building step as a function of a version. */
  function RowOf(chart: string, rfc3339: string -> Option<string>): ChartVersion -> string {
    v => FormatRow(chart, v, rfc3339)
  }

  /** What `format_chart_versions` returns: the rows of the sorted versions. */
  function ChartLines(chart: string, versions: seq<ChartVersion>, rfc3339: string -> Option<string>): (lines: seq<string>)
    ensures |lines| == |versions|
  {
    var sorted := SortedVersions(versions);
    assert |sorted| == |multiset(sorted)| == |multiset(versions)| == |versions|;
    Sorting.Map(RowOf(chart, rfc3339), sorted)
  }

  /** `format_chart_versions`: copy, sort in place, then push one row per version. */
  method FormatChartVersions(chart: string, versions: seq<ChartVersion>, rfc3339: string -> Option<string>)
    returns (lines: seq<string>)
    ensures lines == ChartLines(chart, versions, rfc3339)
    ensures |lines| == |versions|
  {
    var sorted := new ChartVersion[|versions|](i requires 0 <= i < |versions| => versions[i]);
    assert sorted[..] == versions;
    Sorting.SortBy(sorted, CompareChartVersions);
    lines := PushRows(chart, sorted[..], rfc3339);
  }

  /** The `for` loop of `format_chart_versions`: one row pushed per sorted version. */
  method PushRows(chart: string, ordered: seq<ChartVersion>, rfc3339: string -> Option<string>)
    returns (lines: seq<string>)
    ensures lines == Sorting.Map(RowOf(chart, rfc3339), ordered)
  {
    lines := [];
    for i := 0 to |ordered|
      invariant lines == Sorting.Map(RowOf(chart, rfc3339), ordered[..i])
    {
      Sorting.MapSnoc(RowOf(chart, rfc3339), ordered[..i], ordered[i]);
      assert ordered[..i + 1] == ordered[..i] + [ordered[i]];
      lines := lines + [FormatRow(chart, ordered[i], rfc3339)];
    }
    assert ordered[..|ordered|] == ordered;
  }

  /** Every output line is the row of exactly one input version: the lines are the input's rows, reordered. */
  lemma ChartLinesPermuteRows(chart: string, versions: seq<ChartVersion>, rfc3339: string -> Option<string>)
    ensures multiset(ChartLines(chart, versions, rfc3339)) == multiset(Sorting.Map(RowOf(chart, rfc3339), versions))
  {
    Sorting.MapOfInsertionSort(RowOf(chart, rfc3339), versions, CompareChartVersions);
  }

  /** The versions of the program's own test: "2.0.0" sorts before "1.0.0". */
  lemma TestVersionsCompare()
    ensures CompareVersionStrings("1.0.0", "2.0.0") == Greater
  {
    ParsesOneZeroZero();
    ParsesTwoZeroZero();
  }

  const TestFirst := ChartVersion("1.0.0", Some("Initial release"), Some("1.0"),
    Some("2025-02-13T12:42:23.967760696Z"), Some(">= 1.19.0-0"), Some("application"))
  const TestSecond := ChartVersion("2.0.0", Some("Second release with more features"), Some("2.0"), None, None, None)

  /** The program's own test data: "2.0.0" is listed before "1.0.0". */
  lemma TestSortsNewestFirst()
    ensures SortedVersions([TestFirst, TestSecond]) == [TestSecond, TestFirst]
  {
    TestVersionsCompare();
    Sorting.SortPair(TestFirst, TestSecond, CompareChartVersions);
  }

  /** The program's own test: two lines, the row of "2.0.0" first. */
  lemma TestChartLines(rfc3339: string -> Option<string>)
    ensures ChartLines("test-chart", [TestFirst, TestSecond], rfc3339) ==
      [FormatRow("test-chart", TestSecond, rfc3339), FormatRow("test-chart", TestFirst, rfc3339)]
  {
    TestSortsNewestFirst();
    Sorting.MapPair(RowOf("test-chart", rfc3339), TestSecond, TestFirst);
  }

  /** The row of "2.0.0" shows its version and "<unspecified>" for its type, created and kube version. */
  lemma TestSecondRow(rfc3339: string -> Option<string>)
    ensures var cells := RowFields("test-chart", TestSecond, rfc3339);
      cells[2] == "2.0.0" && cells[1] == Unspecified && cells[5] == Unspecified && cells[6] == Unspecified
  {
  }
}
