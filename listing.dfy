/**
 * `run`: the index's entries in iteration order, the chart-name filter done
 * in place by `retain`, the per-chart type filter, the buffered table text
 * written line by line, and the choice between the two empty outcomes, the
 * pager and standard output.
 */
module Listing {
  import opened Wrappers
  import opened Ascii
  import opened Strings
  import Charts
  import Sorting

  /** A chart name with its versions, as one element of `entries`. */
  type Entry = (string, seq<Charts.ChartVersion>)

  /** The column titles; the header row is these joined by tabs. */
  const Columns: seq<string> := ["CHART", "TYPE", "VERSION", "DESCRIPTION", "APP VERSION", "CREATED", "KUBE VERSION"]
  const Header: string := Join(Columns, '\t')
  /** Outputs of at least this many lines go to the pager. */
  const PagerThreshold: nat := 25
  /** The pager program when `PAGER` is not set to a Unicode value. */
  const DefaultPager: string := "less"

  /** The command line and the environment, as `run` reads them. */
  datatype Settings = Settings(
    chart: Option<string>,      // --chart
    chartType: Option<string>,  // --type
    noPager: bool,              // --no-pager
    helmNoPagerSet: bool,       // HELM_LIST_CHARTS_NO_PAGER is set to a Unicode value
    noPagerSet: bool,           // NO_PAGER is set to a Unicode value
    pagerVar: Option<string>)   // PAGER, when set to a Unicode value

  /** How a run ends. */
  datatype Outcome =
    | InfoNoChartForName(name: string)             // "No charts found for chart name: ..." and success
    | ErrNoCharts                                  // the error "No charts found."
    | Output(text: string, pager: Option<string>)  // `text` piped into the pager program, or with `None` written to standard output

  // ---------------------------------------------------------------------
  // Entries and the chart-name filter

  /** `order` lists every chart name of the index exactly once: the map's iteration order. */
  ghost predicate IsIterationOrder(index: Charts.IndexFile, order: seq<string>) {
    && (forall i, j :: 0 <= i < j < |order| ==> order[i] != order[j])
    && (forall k :: k in order <==> k in index.entries)
  }

  /** `index.entries.iter().collect()`: the (name, versions) pairs in the given order. */
  function Entries(index: Charts.IndexFile, order: seq<string>): (es: seq<Entry>)
    requires forall k :: k in order ==> k in index.entries
    ensures |es| == |order|
    ensures forall i :: 0 <= i < |order| ==> es[i] == (order[i], index.entries[order[i]])
  {
    if order == [] then []
    else
      var last := order[|order| - 1];
      Entries(index, order[..|order| - 1]) + [(last, index.entries[last])]
  }

  /** The entries whose name equals `name` ignoring ASCII case, in their order. */
  function SelectByName(es: seq<Entry>, name: string): (r: seq<Entry>)
    ensures |r| <= |es|
  {
    if es == [] then []
    else
      var r := SelectByName(es[..|es| - 1], name);
      if EqIgnoreAsciiCase(es[|es| - 1].0, name) then r + [es[|es| - 1]] else r
  }

  /** The filter keeps exactly the entries whose name matches. */
  lemma {:induction false} SelectByNameMembers(es: seq<Entry>, name: string)
    ensures forall e :: e in SelectByName(es, name) <==> e in es && EqIgnoreAsciiCase(e.0, name)
  {
    if es != [] {
      assert es == es[..|es| - 1] + [es[|es| - 1]];
      SelectByNameMembers(es[..|es| - 1], name);
    }
  }

  lemma SelectByNameSnoc(s: seq<Entry>, i: nat, name: string)
    requires i < |s|
    ensures SelectByName(s[..i + 1], name)
      == SelectByName(s[..i], name) + (if EqIgnoreAsciiCase(s[i].0, name) then [s[i]] else [])
  {
    assert s[..i + 1][..i] == s[..i];
  }

  /** `entries.retain(...)` with the name test: the kept entries move to the front, in order; returns how many. */
  method Retain(a: array<Entry>, name: string) returns (n: nat)
    modifies a
    ensures n <= a.Length && a[..n] == SelectByName(old(a[..]), name)
  {
    ghost var s := a[..];
    ghost var kept: seq<Entry> := [];
    n := 0;
    for i := 0 to a.Length
      invariant n <= i && |kept| == n
      invariant kept == SelectByName(s[..i], name)
      invariant forall k :: 0 <= k < n ==> a[k] == kept[k]
      invariant forall k :: i <= k < a.Length ==> a[k] == s[k]
    {
      SelectByNameSnoc(s, i, name);
      if EqIgnoreAsciiCase(a[i].0, name) {
        a[n] := a[i];
        kept := kept + [s[i]];
        n := n + 1;
      }
    }
    assert s[..a.Length] == s;
    assert a[..n] == kept;
  }

  /** No entry has the name, up to ASCII case, exactly when the filter keeps nothing. */
  lemma SelectByNameEmpty(es: seq<Entry>, name: string)
    ensures SelectByName(es, name) == [] <==> forall i :: 0 <= i < |es| ==> !EqIgnoreAsciiCase(es[i].0, name)
  {
    SelectByNameMembers(es, name);
    if SelectByName(es, name) != [] {
      var e := SelectByName(es, name)[0];
      assert e in SelectByName(es, name);
    }
  }

  // ---------------------------------------------------------------------
  // The type filter

  /** A version passes `--type t` when it has a type equal to `t` ignoring ASCII case. */
  predicate KeepsType(v: Charts.ChartVersion, t: string) {
    v.chartType.Some? && EqIgnoreAsciiCase(v.chartType.value, t)
  }

  /**
   * `filter(..).cloned().collect()` for `--type t`: every version of that type,
   * as often as it occurs; with `WithTypeAppend`, in the order of `vs`.
   */
  function WithType(vs: seq<Charts.ChartVersion>, t: string): (r: seq<Charts.ChartVersion>)
    ensures |r| <= |vs|
    ensures forall v :: v in r <==> v in vs && KeepsType(v, t)
    ensures forall v :: multiset(r)[v] == if KeepsType(v, t) then multiset(vs)[v] else 0
  {
    if vs == [] then []
    else
      var last := vs[|vs| - 1];
      assert vs == vs[..|vs| - 1] + [last];
      var r := WithType(vs[..|vs| - 1], t);
      if KeepsType(last, t) then r + [last] else r
  }

  /** The versions of a chart after the optional type filter: all of them, or those of that type. */
  function FilterByType(vs: seq<Charts.ChartVersion>, chartType: Option<string>): (r: seq<Charts.ChartVersion>)
    ensures chartType.None? ==> r == vs
    ensures chartType.Some? ==> forall v :: v in r <==> v in vs && KeepsType(v, chartType.value)
    ensures chartType.Some? ==> forall v :: multiset(r)[v] == if KeepsType(v, chartType.value) then multiset(vs)[v] else 0
  {
    match chartType
    case None => vs
    case Some(t) => WithType(vs, t)
  }

  /** Filtering a concatenation filters each part: the kept versions stay in their order. */
  lemma {:induction false} WithTypeAppend(a: seq<Charts.ChartVersion>, b: seq<Charts.ChartVersion>, t: string)
    ensures WithType(a + b, t) == WithType(a, t) + WithType(b, t)
    decreases |b|
  {
    if b == [] {
      assert a + b == a;
      assert WithType(b, t) == [];
    } else {
      var init, last := b[..|b| - 1], b[|b| - 1];
      assert b == init + [last];
      assert a + b == (a + init) + [last];
      var tail: seq<Charts.ChartVersion> := if KeepsType(last, t) then [last] else [];
      WithTypeSnoc(a + init, last, t);
      WithTypeSnoc(init, last, t);
      WithTypeAppend(a, init, t);
      Sorting.AppendAssoc(WithType(a, t), WithType(init, t), tail);
      calc {
        WithType(a + b, t);
        WithType(a + init, t) + tail;
        WithType(a, t) + WithType(init, t) + tail;
        WithType(a, t) + (WithType(init, t) + tail);
        WithType(a, t) + WithType(b, t);
      }
    }
  }

  lemma WithTypeSnoc(vs: seq<Charts.ChartVersion>, v: Charts.ChartVersion, t: string)
    ensures WithType(vs + [v], t) == WithType(vs, t) + if KeepsType(v, t) then [v] else []
  {
    assert (vs + [v])[..|vs|] == vs;
  }

  /** One version passes the type filter exactly when it has that type. */
  lemma WithTypeSingle(v: Charts.ChartVersion, t: string)
    ensures WithType([v], t) == if KeepsType(v, t) then [v] else []
  {
    assert [v][..0] == [];
  }

  /** A version without a type never passes a type filter. */
  lemma UntypedNeverKept(vs: seq<Charts.ChartVersion>, t: string, v: Charts.ChartVersion)
    requires v.chartType.None?
    ensures v !in FilterByType(vs, Some(t))
  {
  }

  // ---------------------------------------------------------------------
  // The table

  /** What formats one chart's remaining versions into its lines. */
  type Formatter = (string, seq<Charts.ChartVersion>) -> seq<string>

  /** A formatter that, like `format_chart_versions`, returns one line per version. */
  ghost predicate OneLinePerVersion(linesOf: Formatter) {
    forall name, vs :: |linesOf(name, vs)| == |vs|
  }

  /** `format_chart_versions` with `created` rendered by `rfc3339`. */
  function ChartFormatter(rfc3339: string -> Option<string>): (linesOf: Formatter)
    ensures OneLinePerVersion(linesOf)
  {
    (name, vs) => Charts.ChartLines(name, vs, rfc3339)
  }

  /** What one chart adds to the table: nothing when no version is left, else its lines. */
  function Contribution(e: Entry, chartType: Option<string>, linesOf: Formatter): (rows: seq<string>)
    ensures OneLinePerVersion(linesOf) ==> |rows| == |FilterByType(e.1, chartType)|
  {
    var vs := FilterByType(e.1, chartType);
    if vs == [] then [] else linesOf(e.0, vs)
  }

  /** All table rows below the header, chart after chart. */
  function TableRows(es: seq<Entry>, chartType: Option<string>, linesOf: Formatter): seq<string> {
    if es == [] then []
    else TableRows(es[..|es| - 1], chartType, linesOf) + Contribution(es[|es| - 1], chartType, linesOf)
  }

  lemma TableRowsSnoc(es: seq<Entry>, i: nat, chartType: Option<string>, linesOf: Formatter)
    requires i < |es|
    ensures TableRows(es[..i + 1], chartType, linesOf)
      == TableRows(es[..i], chartType, linesOf) + Contribution(es[i], chartType, linesOf)
  {
    assert es[..i + 1][..i] == es[..i];
  }

  /** The table has no rows exactly when the type filter leaves every chart without versions. */
  lemma {:induction false} TableRowsEmpty(es: seq<Entry>, chartType: Option<string>, linesOf: Formatter)
    requires OneLinePerVersion(linesOf)
    ensures TableRows(es, chartType, linesOf) == []
      <==> forall i :: 0 <= i < |es| ==> FilterByType(es[i].1, chartType) == []
  {
    if es != [] {
      var init, last := es[..|es| - 1], es[|es| - 1];
      TableRowsEmpty(init, chartType, linesOf);
      ContributionEmpty(last, chartType, linesOf);
      DrainedSnoc(es, init, chartType);
      assert TableRows(es, chartType, linesOf) == TableRows(init, chartType, linesOf) + Contribution(last, chartType, linesOf);
    }
  }

  lemma DrainedSnoc(es: seq<Entry>, init: seq<Entry>, chartType: Option<string>)
    requires es != [] && init == es[..|es| - 1]
    ensures (forall i :: 0 <= i < |es| ==> FilterByType(es[i].1, chartType) == [])
      <==> ((forall i :: 0 <= i < |init| ==> FilterByType(init[i].1, chartType) == [])
        && FilterByType(es[|es| - 1].1, chartType) == [])
  {
    assert forall i :: 0 <= i < |init| ==> init[i] == es[i];
  }

  lemma ContributionEmpty(e: Entry, chartType: Option<string>, linesOf: Formatter)
    requires OneLinePerVersion(linesOf)
    ensures Contribution(e, chartType, linesOf) == [] <==> FilterByType(e.1, chartType) == []
  {
  }

  /** The rows, each followed by a newline: what successive `writeln!` calls put in the buffer. */
  function Block(lines: seq<string>): string {
    if lines == [] then [] else Block(lines[..|lines| - 1]) + lines[|lines| - 1] + "\n"
  }

  lemma BlockSnoc(lines: seq<string>, line: string)
    ensures Block(lines + [line]) == Block(lines) + line + "\n"
  {
    assert (lines + [line])[..|lines|] == lines;
  }

  /** Writing two runs of lines one after the other writes their concatenation. */
  lemma {:induction false} BlockAppend(a: seq<string>, b: seq<string>)
    ensures Block(a + b) == Block(a) + Block(b)
    decreases |b|
  {
    if b == [] {
      assert a + b == a;
    } else {
      var init, last := b[..|b| - 1], b[|b| - 1];
      assert b == init + [last];
      assert a + b == (a + init) + [last];
      BlockSnoc(a + init, last);
      BlockSnoc(init, last);
      BlockAppend(a, init);
      assert Block(a) + Block(init) + last + "\n" == Block(a) + (Block(init) + last + "\n");
    }
  }

  /** The whole buffered text: the header line, then the rows. */
  function Render(rows: seq<string>): string {
    Header + "\n" + Block(rows)
  }

  /** Rust's `str::lines().count()`: the pieces between newlines, without the empty piece after a final one. */
  function LineCount(s: string): nat {
    |Split(s, '\n')| - (if s == [] || s[|s| - 1] == '\n' then 1 else 0)
  }

  /** Splitting yields one piece more than there are separators. */
  lemma {:induction false} SplitCount(s: string, c: char)
    ensures |Split(s, c)| == multiset(s)[c] + 1
    decreases |s|
  {
    match IndexOf(s, c)
    case None =>
    case Some(i) =>
      assert s == s[..i] + [c] + s[i + 1..];
      assert multiset(s[..i])[c] == 0;
      SplitCount(s[i + 1..], c);
  }

  /** For text that is empty or ends in a newline, the lines are counted by its newlines. */
  lemma LineCountTerminated(s: string)
    requires s == [] || s[|s| - 1] == '\n'
    ensures LineCount(s) == multiset(s)['\n']
  {
    SplitCount(s, '\n');
    if s != [] {
      assert s == s[..|s| - 1] + ['\n'];
    }
  }

  /** Every line ends with a newline; a line holding no newline adds exactly one. */
  lemma {:induction false} BlockNewlines(lines: seq<string>)
    ensures Block(lines) == [] || Block(lines)[|Block(lines)| - 1] == '\n'
    ensures multiset(Block(lines))['\n'] >= |lines|
    ensures (forall i :: 0 <= i < |lines| ==> '\n' !in lines[i])
      ==> multiset(Block(lines))['\n'] == |lines|
  {
    if lines != [] {
      var init, last := lines[..|lines| - 1], lines[|lines| - 1];
      BlockNewlines(init);
      assert multiset(Block(lines)) == multiset(Block(init)) + multiset(last) + multiset{'\n'};
      if forall i :: 0 <= i < |lines| ==> '\n' !in lines[i] {
        assert forall i :: 0 <= i < |init| ==> init[i] == lines[i];
        assert '\n' !in last;
      }
    }
  }

  /** A join of pieces without `d`, on a separator other than `d`, holds no `d`. */
  lemma {:induction false} JoinAvoids(parts: seq<string>, c: char, d: char)
    requires c != d && forall i :: 0 <= i < |parts| ==> d !in parts[i]
    ensures d !in Join(parts, c)
  {
    if |parts| > 1 {
      assert forall i :: 0 <= i < |parts| - 1 ==> parts[1..][i] == parts[i + 1];
      JoinAvoids(parts[1..], c, d);
    }
  }

  lemma HeaderIsOneLine()
    ensures '\n' !in Header
  {
    forall i | 0 <= i < |Columns| ensures '\n' !in Columns[i] { }
    JoinAvoids(Columns, '\t', '\n');
  }

  /**
   * The text has at least one line per row besides the header, and exactly
   * that many when no row holds a newline.
   */
  lemma RenderLineCount(rows: seq<string>)
    ensures LineCount(Render(rows)) >= 1 + |rows|
    ensures (forall i :: 0 <= i < |rows| ==> '\n' !in rows[i]) ==> LineCount(Render(rows)) == 1 + |rows|
  {
    BlockNewlines(rows);
    HeaderIsOneLine();
    var text := Render(rows);
    assert text[|text| - 1] == '\n';
    LineCountTerminated(text);
    assert multiset(text) == multiset(Header) + multiset{'\n'} + multiset(Block(rows));
  }

  /** Only the header line: exactly when there are no rows. */
  lemma RenderHeaderOnly(rows: seq<string>)
    ensures LineCount(Render(rows)) == 1 <==> rows == []
  {
    RenderLineCount(rows);
  }

  // ---------------------------------------------------------------------
  // The outcome

  /** The pager is allowed unless `--no-pager` is given or either environment toggle is set to a Unicode value. */
  predicate PagerEnabled(settings: Settings) {
    !settings.noPager && !(settings.helmNoPagerSet || settings.noPagerSet)
  }

  /** The entries left by the optional chart filter. */
  function Selected(es: seq<Entry>, chart: Option<string>): seq<Entry> {
    match chart
    case None => es
    case Some(name) => SelectByName(es, name)
  }

  /** What `run` does with a parsed index whose names are iterated in `order`. */
  function RunOutcome(index: Charts.IndexFile, order: seq<string>, settings: Settings, linesOf: Formatter): Outcome
    requires forall k :: k in order ==> k in index.entries
  {
    var all := Entries(index, order);
    if settings.chart.Some? && SelectByName(all, settings.chart.value) == [] then
      InfoNoChartForName(settings.chart.value)
    else
      var text := Render(TableRows(Selected(all, settings.chart), settings.chartType, linesOf));
      if LineCount(text) == 1 then ErrNoCharts
      else if PagerEnabled(settings) && LineCount(text) >= PagerThreshold then
        Output(text, Some(settings.pagerVar.GetOr(DefaultPager)))
      else Output(text, None)
  }

  /** `run`: collect, retain, write the header and each chart's lines, then decide. */
  method Run(index: Charts.IndexFile, order: seq<string>, settings: Settings, rfc3339: string -> Option<string>)
    returns (outcome: Outcome)
    requires forall k :: k in order ==> k in index.entries
    ensures outcome == RunOutcome(index, order, settings, ChartFormatter(rfc3339))
  {
    var all := Entries(index, order);
    var entries := new Entry[|all|](i requires 0 <= i < |all| => all[i]);
    assert entries[..] == all;
    var count := entries.Length;
    if settings.chart.Some? {
      count := Retain(entries, settings.chart.value);
      if count == 0 {
        return InfoNoChartForName(settings.chart.value);
      }
    }
    var kept := entries[..count];
    assert kept == Selected(all, settings.chart);
    var pagerEnabled := !settings.noPager && !(settings.helmNoPagerSet || settings.noPagerSet);
    var text := WriteTable(Header + "\n", kept, settings.chartType, rfc3339);

    var lineCount := LineCount(text);
    if lineCount == 1 {
      return ErrNoCharts;
    }
    if pagerEnabled && lineCount >= PagerThreshold {
      return Output(text, Some(settings.pagerVar.GetOr(DefaultPager)));
    }
    return Output(text, None);
  }

  /** Writes, after `buffer`, each chart's lines in turn. */
  method WriteTable(buffer: string, kept: seq<Entry>, chartType: Option<string>, rfc3339: string -> Option<string>)
    returns (text: string)
    ensures text == buffer + Block(TableRows(kept, chartType, ChartFormatter(rfc3339)))
  {
    text := buffer;
    ghost var rows: seq<string> := [];
    for i := 0 to |kept|
      invariant rows == TableRows(kept[..i], chartType, ChartFormatter(rfc3339))
      invariant text == buffer + Block(rows)
    {
      TableRowsSnoc(kept, i, chartType, ChartFormatter(rfc3339));
      ghost var lines := Contribution(kept[i], chartType, ChartFormatter(rfc3339));
      text := WriteChart(text, kept[i], chartType, rfc3339);
      WriteStep(buffer, rows, lines);
      rows := rows + lines;
    }
    assert kept[..|kept|] == kept;
  }

  /** One chart: skipped when the type filter leaves no version, else its lines after `buffer`. */
  method WriteChart(buffer: string, e: Entry, chartType: Option<string>, rfc3339: string -> Option<string>)
    returns (text: string)
    ensures text == buffer + Block(Contribution(e, chartType, ChartFormatter(rfc3339)))
  {
    var (name, versions) := e;
    var filtered := FilterByType(versions, chartType);
    if filtered == [] {
      assert buffer + Block([]) == buffer;
      return buffer;
    }
    var lines := Charts.FormatChartVersions(name, filtered, rfc3339);
    text := WriteLines(buffer, lines);
  }

  lemma WriteStep(buffer: string, rows: seq<string>, lines: seq<string>)
    ensures buffer + Block(rows) + Block(lines) == buffer + Block(rows + lines)
  {
    BlockAppend(rows, lines);
  }

  /** `writeln!` of each line in turn onto `buffer`. */
  method WriteLines(buffer: string, lines: seq<string>) returns (out: string)
    ensures out == buffer + Block(lines)
  {
    out := buffer;
    for j := 0 to |lines|
      invariant out == buffer + Block(lines[..j])
    {
      BlockSnoc(lines[..j], lines[j]);
      assert lines[..j + 1] == lines[..j] + [lines[j]];
      out := out + lines[j] + "\n";
    }
    assert lines[..|lines|] == lines;
  }

  // ---------------------------------------------------------------------
  // What the outcome says

  /** The "no chart of that name" message comes exactly when a name is asked for and no chart of the index has it. */
  lemma RunReportsMissingChart(index: Charts.IndexFile, order: seq<string>, settings: Settings, linesOf: Formatter)
    requires IsIterationOrder(index, order)
    ensures RunOutcome(index, order, settings, linesOf).InfoNoChartForName?
      <==> settings.chart.Some? && forall k :: k in index.entries ==> !EqIgnoreAsciiCase(k, settings.chart.value)
  {
    if settings.chart.Some? {
      NoEntryNamed(index, order, settings.chart.value);
    }
  }

  /** The name filter keeps nothing exactly when no chart name of the index matches. */
  lemma NoEntryNamed(index: Charts.IndexFile, order: seq<string>, name: string)
    requires IsIterationOrder(index, order)
    ensures SelectByName(Entries(index, order), name) == []
      <==> forall k :: k in index.entries ==> !EqIgnoreAsciiCase(k, name)
  {
    var all := Entries(index, order);
    SelectByNameEmpty(all, name);
    forall k | k in index.entries ensures exists i :: 0 <= i < |all| && all[i].0 == k {
      var i :| 0 <= i < |order| && order[i] == k;
      assert all[i].0 == k;
    }
  }

  /**
   * "No charts found." comes exactly when the run gets past the name filter
   * and every selected chart is left without versions by the type filter.
   */
  lemma RunReportsNoCharts(index: Charts.IndexFile, order: seq<string>, settings: Settings, linesOf: Formatter)
    requires forall k :: k in order ==> k in index.entries
    requires OneLinePerVersion(linesOf)
    ensures var es := Selected(Entries(index, order), settings.chart);
      RunOutcome(index, order, settings, linesOf) == ErrNoCharts
      <==> && !RunOutcome(index, order, settings, linesOf).InfoNoChartForName?
           && forall i :: 0 <= i < |es| ==> FilterByType(es[i].1, settings.chartType) == []
  {
    var es := Selected(Entries(index, order), settings.chart);
    RunNoChartsIffNoRows(index, order, settings, linesOf);
    TableRowsEmpty(es, settings.chartType, linesOf);
  }

  /** "No charts found." comes exactly when the run gets past the name filter and the table has no rows. */
  lemma RunNoChartsIffNoRows(index: Charts.IndexFile, order: seq<string>, settings: Settings, linesOf: Formatter)
    requires forall k :: k in order ==> k in index.entries
    ensures var rows := TableRows(Selected(Entries(index, order), settings.chart), settings.chartType, linesOf);
      RunOutcome(index, order, settings, linesOf) == ErrNoCharts
      <==> !RunOutcome(index, order, settings, linesOf).InfoNoChartForName? && rows == []
  {
    var rows := TableRows(Selected(Entries(index, order), settings.chart), settings.chartType, linesOf);
    RenderHeaderOnly(rows);
  }

  /** Text is produced exactly when there is at least one row, and it is the header and the rows. */
  lemma RunOutputIsTable(index: Charts.IndexFile, order: seq<string>, settings: Settings, linesOf: Formatter)
    requires forall k :: k in order ==> k in index.entries
    ensures var o := RunOutcome(index, order, settings, linesOf);
      var rows := TableRows(Selected(Entries(index, order), settings.chart), settings.chartType, linesOf);
      && (o.Output? <==> !o.InfoNoChartForName? && rows != [])
      && (o.Output? ==> o.text == Render(rows))
  {
    var rows := TableRows(Selected(Entries(index, order), settings.chart), settings.chartType, linesOf);
    RenderHeaderOnly(rows);
  }

  /**
   * The pager is used exactly when it is enabled and the text has at least 25
   * lines; it is `PAGER` when set to a Unicode value, else "less".
   */
  lemma RunPagerRule(index: Charts.IndexFile, order: seq<string>, settings: Settings, linesOf: Formatter)
    requires forall k :: k in order ==> k in index.entries
    ensures var o := RunOutcome(index, order, settings, linesOf);
      && (o.Output? && o.pager.Some? <==> o.Output? && PagerEnabled(settings) && LineCount(o.text) >= PagerThreshold)
      && (o.Output? && o.pager.Some? ==> o.pager.value == settings.pagerVar.GetOr(DefaultPager))
  {
  }

  /**
   * With no newline inside any row, the pager threshold is a number of rows:
   * the pager is used exactly when it is enabled and there are at least 24 rows.
   */
  lemma RunPagerByRows(index: Charts.IndexFile, order: seq<string>, settings: Settings, linesOf: Formatter)
    requires forall k :: k in order ==> k in index.entries
    requires var rows := TableRows(Selected(Entries(index, order), settings.chart), settings.chartType, linesOf);
      forall i :: 0 <= i < |rows| ==> '\n' !in rows[i]
    ensures var o := RunOutcome(index, order, settings, linesOf);
      var rows := TableRows(Selected(Entries(index, order), settings.chart), settings.chartType, linesOf);
      o.Output? && o.pager.Some?
      <==> !o.InfoNoChartForName? && PagerEnabled(settings) && |rows| >= PagerThreshold - 1
  {
    var rows := TableRows(Selected(Entries(index, order), settings.chart), settings.chartType, linesOf);
    RenderLineCount(rows);
  }
}
