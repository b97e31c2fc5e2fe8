# helm-list-charts, modelled in Dafny

helm-list-charts reads a Helm chart repository's `index.yaml` and prints one
tab-aligned table row per chart version. Rows can be narrowed to one chart
name and to one chart type. Each chart's versions are listed newest first.
Long output goes through a pager. This project models, and proves properties
of, the path from the parsed index to the text and the decision of where it
goes:

- `Excerpt`: `ellipsize`, which shortens a description to 50 characters at a
  word boundary and appends `...`.
- `SemVer`: the parts of the `semver` crate the program relies on. That is
  `Version::parse` (u64 numbers, no leading zeros, pre-release and build
  identifiers), `Display`, and `Ord` (precedence, then build metadata). It
  also holds Semantic Versioning 2.0.0 precedence (section 11), stated on its
  own.
- `Orderings`: Rust's `Ordering` and the lexicographic order of `String`.
  Rust compares strings by their UTF-8 bytes, which orders them the same way
  as their code points.
- `Sorting`: `slice::sort_by` as a stable in-place insertion sort on an
  array. It is proved equal to a functional insertion sort. That sort is
  proved to be a permutation, to be stable and, for an order, to be sorted
  and unique.
- `Charts`: the `ChartVersion` and `IndexFile` records, and `format_created`.
  It also holds `format_chart_versions`: the comparator, the sort of a copy,
  and the tab-separated row per version. And it holds the URL that
  `fetch_index` builds.
- `Listing`: `run`, as far as the output is decided.
  - Entries are collected, then the name filter `retain` works on an array in
    place.
  - A type filter is applied per chart.
  - Header and rows are written into a buffer.
  - The two empty outcomes, the 25-line pager threshold and the pager
    program are decided.
- `Ascii`, `Decimal`, `Strings`, `Wrappers`: `eq_ignore_ascii_case`, digit
  strings, splitting and joining, and `Option`.

Each chart's versions form a `seq<ChartVersion>`, and text is `seq<char>`.
Three things the program gets from its environment are parameters here:
- how `chrono` renders an RFC 3339 timestamp, as `rfc3339: string -> Option<string>`;
- the iteration order of the `HashMap`, as `order`, which lists each chart name once;
- the command line and the environment variables, as `Settings`.

Excerpting is not idempotent: `"abcd efgh"` with budget 5 gives `"abcd..."`,
and shortening that again gives `"abcd...."` (`Excerpt.EllipsizeNotIdempotent`).
Charts are visited in the `HashMap`'s iteration order, which is the parameter
`order`.

## Model

| member | source | states |
|---|---|---|
| Excerpt.Ellipsize | src/main.rs:197-215 | Text of at most `maxChars` characters is returned unchanged. Longer text gives a result that ends in "...", has at most `maxChars + 3` characters, and whose part before "..." is a prefix of the first `maxChars` characters. Without a space among them, the result is exactly those characters and "...". With a space, the kept part is shorter than `maxChars`, lies before the last space, and drops only whitespace between its end and that space. |
| Excerpt.CutAtLastSpace | src/main.rs:204-212 | The kept part is a prefix of the taken text. It is all of it when there is no space. Otherwise it lies before the last space, is followed by whitespace only up to it, and does not end in whitespace. |
| Excerpt.TrimEnd | src/main.rs:209 | `trim_end`: a prefix that does not end in whitespace, and only whitespace is removed. |
| Excerpt.EllipsizeCuts | src/main.rs:203-214 | The over-budget branch of `Excerpt.Ellipsize` unfolded: the cut of the first `maxChars` characters followed by "...". It is a proof step for `Excerpt.EllipsizeSentenceExample`; what the cut is comes from `Excerpt.CutAtLastSpace`. |
| Excerpt.EllipsizeShortExamples | src/main.rs:287-299 | The program's tests: short text, and text exactly at the budget, come back unchanged. |
| Excerpt.EllipsizeNoSpaceExample | src/main.rs:302-307 | The program's test: "abcdefghijk" with 5 gives "abcde...". |
| Excerpt.EllipsizeSentenceExample | src/main.rs:310-316 | The program's test: the long sentence with budget 20 gives "This is a longer...". |
| Excerpt.EllipsizeNotIdempotent | src/main.rs:207-214 | Shortening twice can differ from shortening once ("abcd efgh", 5). |
| Excerpt.EllipsizeFixedPointOverBudget | src/main.rs:199-214 | Text over the budget can come back unchanged ("abcde...", 5), so "unchanged" does not imply "within the budget". |
| Ascii.EqIgnoreAsciiCase | src/main.rs:69 | `eq_ignore_ascii_case`, used on names here and on types at line 102. It has no ensures; its contract is the next two lemmas: equality after ASCII lowercasing, and exact match on non-letters. |
| Ascii.EqIgnoreAsciiCaseIsLowercaseEquality | src/main.rs:69 | Equality ignoring ASCII case is equality after folding A-Z to a-z. |
| Ascii.EqIgnoreAsciiCaseExactOutsideLetters | src/main.rs:102 | Characters other than ASCII letters must match exactly. |
| Ascii.ToAsciiLowercase | src/main.rs:69 | A-Z map to a-z, and every other character is kept. |
| Strings.LastIndexOf | src/main.rs:207 | `rfind`: no index exactly when the character does not occur. Otherwise the index holds the character and no later position does. |
| Strings.TrimEndMatches | src/main.rs:166 | `trim_end_matches('/')`: a prefix not ending in '/', and only '/' characters are removed. |
| Charts.IndexUrl | src/main.rs:166 | The URL ends in "/index.yaml". `Charts.IndexUrlShape` states what precedes it. |
| Charts.IndexUrlShape | src/main.rs:166 | The URL ends in "/index.yaml". Before that comes the source with all its trailing '/' removed, and nothing else removed. |
| Charts.IndexUrlIgnoresTrailingSlash | src/main.rs:166 | A trailing '/' on the source does not change the URL. |
| Charts.FormatCreated | src/main.rs:182-192 | An absent value gives "<unspecified>". A value that parses as RFC 3339 gives its rendering. Any other value is passed through unchanged. |
| SemVer.ParseNumber | src/main.rs:225-226 | A number parses exactly when it is canonical digits below 2^64, and then to its value. |
| SemVer.Parse | src/main.rs:225-226 | Whatever parses is a valid version: numbers below 2^64, and identifiers valid for their part. |
| SemVer.ParseFormat | src/main.rs:225-226 | Every valid version is parsed back from its written form. |
| SemVer.FormatParse | src/main.rs:225-226 | A string that parses is exactly the written form of its version. |
| SemVer.ParseInjective | src/main.rs:225-226 | Different strings never parse to the same version. |
| SemVer.ParseRejectsTwoNumbers | src/main.rs:225-226 | "1.5" is not a version. |
| SemVer.ParseRelease | src/main.rs:225-226 | Three canonical numbers below 2^64 joined by '.' parse as the release version with those values. |
| SemVer.Format | src/main.rs:225-226 | `Display` of a version. It has no ensures; `SemVer.ParseFormat` and `SemVer.FormatParse` make it the inverse of `Parse`. |
| SemVer.Compare | src/main.rs:228 | `Version::cmp`. It has no ensures; its contract is the next four lemmas: antisymmetric, `Equal` only for equal versions, transitive, and Semantic Versioning precedence followed by build metadata. |
| SemVer.CompareReverse | src/main.rs:228 | Swapping the operands of `Version::cmp` reverses the result. |
| SemVer.CompareEqual | src/main.rs:228 | Versions compare equal exactly when they are the same version. |
| SemVer.CompareTransitive | src/main.rs:228 | `Version::cmp` is transitive. |
| SemVer.CompareIsPrecedenceThenBuild | src/main.rs:228 | On parsed versions, `Version::cmp` is Semantic Versioning precedence, with build metadata deciding only between versions of equal precedence. |
| SemVer.PreIdentifiersArePrecedence | src/main.rs:228 | On valid pre-release identifiers, the crate's order is the precedence of Semantic Versioning 2.0.0, section 11.4. |
| SemVer.PrecedenceExample | src/main.rs:228 | The example chain of Semantic Versioning 2.0.0, section 11.4, from 1.0.0-alpha up to 1.0.0, is increasing. |
| Orderings.CompareStringsLess | src/main.rs:229 | One string is below another exactly when it is a proper prefix of it, or is smaller at the first position where they differ. |
| Orderings.CompareStringsReverse | src/main.rs:229 | Swapping the operands reverses the string order. |
| Orderings.CompareStringsEqual | src/main.rs:229 | Strings compare equal exactly when they are equal. |
| Orderings.CompareStringsTransitive | src/main.rs:229 | The string order is transitive. |
| Charts.CompareVersionStrings | src/main.rs:223-231 | The comparator closure on two version strings. It has no ensures; its contract is `Charts.SemVerNewestFirst`, `Charts.FallbackIsReverseLexicographic`, `Charts.VersionOrderReverse`, `Charts.VersionOrderEqual` and `Charts.VersionOrderTransitive`. |
| Charts.CompareParsed | src/main.rs:224-230 | The comparator's two branches, given the results of `Version::parse`. It has no ensures; `Charts.CompareParsedReverse` shows that swapping both operands reverses the answer. |
| Charts.CompareParsedReverse | src/main.rs:224-230 | Swapping the strings and their parse results reverses the comparator's answer. |
| Charts.CompareChartVersions | src/main.rs:223-231 | The closure given to `sort_by`, on two `ChartVersion`s: the comparator of their version strings. It has no ensures; `Charts.ComparatorLaws`, `Charts.VersionOrderReverse`, `Charts.VersionOrderEqual` and `Charts.VersionOrderTransitive` state its laws, and `Charts.SemVerNewestFirst` and `Charts.FallbackIsReverseLexicographic` its two branches. |
| Charts.SemVerNewestFirst | src/main.rs:223-228 | When both strings parse, the comparator is the reverse of precedence followed by build metadata. |
| Charts.FallbackIsReverseLexicographic | src/main.rs:229 | When either string does not parse, the comparator is the reverse of the raw strings' order. |
| Charts.VersionOrderReverse | src/main.rs:223-231 | Swapping the versions reverses the comparator, whatever the strings. |
| Charts.VersionOrderEqual | src/main.rs:223-231 | The comparator says `Equal` exactly when the version strings are equal. |
| Charts.VersionOrderTransitive | src/main.rs:223-231 | The comparator is transitive among versions that all parse, or all fail to parse. |
| Charts.NotAfterTransitive | src/main.rs:223-231 | "Not after" is transitive among versions that all parse, or all fail to parse. |
| Charts.MixedVersionsCycle | src/main.rs:223-231 | On a mix of kinds the comparator has a cycle: "1.10.0", then "1.9.0", then "1.5", then "1.10.0" again. |
| Charts.ComparatorLaws | src/main.rs:223-231 | The comparator is antisymmetric on all values, and `Equal` means the same version string. |
| Charts.UniformIsTransitive | src/main.rs:223-231 | On a chart whose versions all parse, or none does, "not after" is transitive. |
| Sorting.SortBy | src/main.rs:222-231 | Sorting in place leaves the array equal to the insertion sort of its old contents. |
| Sorting.InsertAt | src/main.rs:223 | One step of the sort: the next element is inserted into the sorted prefix, and the rest of the array is unchanged. |
| Sorting.InsertionSort | src/main.rs:223 | The sort is a permutation of its input. |
| Sorting.InsertionSortSorted | src/main.rs:223 | With an antisymmetric comparator that is transitive on the input, the result is sorted. |
| Sorting.InsertionSortStable | src/main.rs:223 | Elements with equal keys keep their input order. |
| Sorting.StableSortIsInsertionSort | src/main.rs:223 | Any sorted, stable permutation by an order equals the insertion sort, so every stable sort gives the same result. |
| Sorting.MapOfInsertionSort | src/main.rs:233-246 | Computing a value from each element after sorting only reorders the values. |
| Charts.SortedVersions | src/main.rs:222-231 | The sorted copy holds the same versions. |
| Charts.SortedVersionsNewestFirst | src/main.rs:222-231 | When all versions parse, or none does, the sorted copy is sorted newest first. |
| Charts.SortedVersionsStable | src/main.rs:222-231 | Versions with the same version string keep the order they have in the input of `format_chart_versions`, which the type filter keeps in index order (`Listing.WithTypeAppend`). |
| Charts.SortedVersionsDetermined | src/main.rs:222-231 | When all versions parse, or none does, every stable sort by the comparator gives `SortedVersions`. |
| Charts.RowFields | src/main.rs:236-245 | A row has seven cells. |
| Charts.RowPlaceholders | src/main.rs:235-245 | The cells are chart name, type, version, description, app version, created and kube version. A present type, app version or kube version is shown as it is, and an absent one gives "<unspecified>". The created cell is `format_created` of the timestamp. A present description is shortened to 50 characters by `ellipsize`, so its cell has at most 53 characters; an absent description gives "". |
| Charts.FormatRow | src/main.rs:236-245 | The row: the seven cells of `Charts.RowFields` joined by tabs. It has no ensures; `Charts.RowSplitsIntoCells` shows the cells can be recovered from it. |
| Charts.RowSplitsIntoCells | src/main.rs:236-237 | When no cell holds a tab, the row splits on tabs back into exactly its seven cells. |
| Charts.ChartLines | src/main.rs:220-249 | One line per input version. |
| Charts.ChartLinesPermuteRows | src/main.rs:222-248 | The lines are the rows of the input versions, reordered. |
| Charts.PushRows | src/main.rs:233-248 | The loop pushes, in order, the row of each sorted version: the lines are the rows of the sorted versions. |
| Charts.FormatChartVersions | src/main.rs:220-249 | Copying, sorting in place and pushing one row per version gives `ChartLines`: one line per version. |
| Charts.TestVersionsCompare | src/main.rs:256-280 | "2.0.0" sorts before "1.0.0". |
| Charts.TestSortsNewestFirst | src/main.rs:256-280 | The test's two versions come out "2.0.0" first. |
| Charts.TestChartLines | src/main.rs:256-282 | The test gives two lines, with the row of "2.0.0" first. |
| Charts.TestSecondRow | src/main.rs:277-282 | The row of "2.0.0" shows its version, and "<unspecified>" for type, created and kube version. |
| Listing.Entries | src/main.rs:65 | The collected entries are the (name, versions) pairs of the index, in iteration order. |
| Listing.SelectByName | src/main.rs:69 | The `retain` predicate applied to the entries in order: never more entries than given. `Listing.SelectByNameMembers` states which are kept, and `Listing.Retain` that the in-place loop computes it. |
| Listing.SelectByNameMembers | src/main.rs:68-69 | The name filter keeps exactly the entries whose name equals the filter ignoring ASCII case. |
| Listing.Retain | src/main.rs:69 | `retain` in place: the first `n` cells of the array become the matching entries, in their order. |
| Listing.SelectByNameEmpty | src/main.rs:69-70 | The filter keeps nothing exactly when no entry's name matches. |
| Listing.WithType | src/main.rs:97-106 | Keeps exactly the versions that have a type equal to the filter ignoring ASCII case, each as many times as it occurs in the input, and drops every other version. |
| Listing.WithTypeSnoc | src/main.rs:97-106 | One more version at the end of the input adds it at the end of the result exactly when it passes the filter. |
| Listing.WithTypeAppend | src/main.rs:97-106 | Filtering a concatenation gives the concatenation of the filtered parts, so the kept versions stay in input order. |
| Listing.WithTypeSingle | src/main.rs:100-103 | A single version is kept exactly when it has a type equal to the filter ignoring ASCII case. |
| Listing.FilterByType | src/main.rs:95-109 | Without a type filter, all versions are kept. With one, exactly the versions of that type are kept, each as many times as it occurs. |
| Listing.KeepsType | src/main.rs:99-104 | The type-filter closure: a version with a type equal to the filter ignoring ASCII case. It has no ensures; `Listing.WithType`, `Listing.WithTypeSingle` and `Listing.UntypedNeverKept` state what it keeps. |
| Listing.UntypedNeverKept | src/main.rs:100-103 | A version without a type never passes a type filter. |
| Listing.ChartFormatter | src/main.rs:115 | The formatter `run` uses, `format_chart_versions`, returns one line per version. |
| Listing.Contribution | src/main.rs:111-115 | A chart adds one row per version that passes the type filter, and nothing when none passes. |
| Listing.TableRows | src/main.rs:93-119 | The rows the loop writes below the header: each selected chart's contribution, chart after chart. It has no ensures; `Listing.TableRowsEmpty`, `Listing.WriteTable` and `Listing.RunOutputIsTable` state its contract. |
| Listing.TableRowsEmpty | src/main.rs:93-119 | The table has no rows exactly when the type filter leaves every selected chart without versions. |
| Listing.Block | src/main.rs:116-118 | What `writeln!` of each line puts in the buffer. It has no ensures; `Listing.BlockAppend` and `Listing.WriteLines` state its contract. |
| Listing.BlockAppend | src/main.rs:116-118 | Writing two runs of lines one after the other writes their concatenation. |
| Listing.WriteLines | src/main.rs:116-118 | `writeln!` of each line in turn appends each line and a newline. |
| Listing.WriteChart | src/main.rs:95-118 | A chart's text is nothing when no version is left, else its lines. |
| Listing.WriteTable | src/main.rs:93-119 | The buffer receives each selected chart's lines, chart after chart. |
| Listing.LineCount | src/main.rs:130 | `lines().count()`. It has no ensures; `Listing.LineCountTerminated` gives its value on text that is empty or ends in a newline. |
| Listing.SplitCount | src/main.rs:130 | Splitting on a character gives one piece more than it has occurrences. |
| Listing.LineCountTerminated | src/main.rs:130 | For text that is empty or ends in a newline, `lines().count()` is its number of newlines. |
| Listing.Render | src/main.rs:87-118 | The buffer's text: the header line, then every row followed by a newline. It has no ensures; `Listing.RenderLineCount` and `Listing.RenderHeaderOnly` count its lines. |
| Listing.HeaderIsOneLine | src/main.rs:87-90 | The header holds no newline. |
| Listing.RenderLineCount | src/main.rs:87-130 | The text has at least one line for the header plus one per row. It has exactly that many when no row holds a newline. |
| Listing.RenderHeaderOnly | src/main.rs:128-131 | The text is a single line exactly when there are no rows. |
| Listing.Selected | src/main.rs:68-74 | The entries after the optional `retain`: all of them without `--chart`, else `Listing.SelectByName`. It has no ensures; `Listing.SelectByNameMembers` states which entries remain and `Listing.Retain` that the in-place loop leaves them. |
| Listing.PagerEnabled | src/main.rs:78-80 | `pager_enabled`: `--no-pager` absent and neither toggle variable set to a Unicode value. It has no ensures; `Listing.RunPagerRule` and `Listing.RunPagerByRows` state how it decides the pager. |
| Listing.RunOutcome | src/main.rs:61-161 | `run` as a function of the index, the iteration order and the settings. It has no ensures; `Listing.Run` shows the imperative steps compute it, and the `Listing.Run…` lemmas below state each outcome's condition. |
| Listing.Run | src/main.rs:61-161 | Collecting, retaining in place, writing the buffer and deciding give exactly `RunOutcome`. |
| Listing.RunReportsMissingChart | src/main.rs:68-74 | "No charts found for chart name" comes exactly when a name is given and no chart of the index has it, ignoring ASCII case. |
| Listing.NoEntryNamed | src/main.rs:68-70 | The name filter keeps nothing exactly when no chart name of the index matches. |
| Listing.RunNoChartsIffNoRows | src/main.rs:128-132 | "No charts found." comes exactly when the name filter is passed and the table has no rows. |
| Listing.RunReportsNoCharts | src/main.rs:93-132 | "No charts found." comes exactly when the name filter is passed and every selected chart is left without versions. |
| Listing.RunOutputIsTable | src/main.rs:83-132 | Text is produced exactly when there is at least one row, and it is the header line followed by the rows. |
| Listing.RunPagerRule | src/main.rs:134-136 | The pager is used exactly when it is enabled and the text has at least 25 lines. It is enabled when `--no-pager` is absent and neither toggle variable is set to a Unicode value (lines 78-80). Its program is `PAGER` when that is set to a Unicode value, else "less". |
| Listing.RunPagerByRows | src/main.rs:134 | When no row holds a newline, the pager is used exactly when it is enabled and there are at least 24 rows. |

## Left out

- Fetching and parsing are not modelled: the HTTP request (src/main.rs:167-171) and YAML deserialisation (src/main.rs:176-178) are foreign libraries. The model starts from a parsed `IndexFile`. Transport and parse errors are therefore not modelled.
- Charts.FormatCreated: `chrono`'s RFC 3339 parsing, conversion to local time and `%b %-d, %Y %-I:%M %P` formatting (src/main.rs:184-186) depend on the system time zone. They are the parameter `rfc3339`, and only the three-way branch is modelled.
- Column alignment by `TabWriter` (src/main.rs:85, 120) is a library. The output text is the tab-separated text before alignment. Alignment pads cells but adds no lines, so the line-count decisions are unaffected.
- Spawning the pager, writing its input and waiting for it (src/main.rs:137-152), and writing to standard output (src/main.rs:155-157), are I/O. `Outcome.Output` names the sink and holds the text. Failures of these steps, and of `writeln!` and `flush`, are not modelled.
- The UTF-8 check (src/main.rs:125-126) is left out. The buffer is built from `string`s, so it always succeeds.
- `clap` argument parsing (src/main.rs:12-30, 56) is left out. Reading `HELM_LIST_CHARTS_NO_PAGER`, `NO_PAGER` and `PAGER` (src/main.rs:79, 136) is also left out; those values are fields of `Settings`. `std::env::var` fails for a variable that is unset or set to a value that is not valid Unicode, so the two toggles are `true` only for a Unicode value, and `pagerVar` is `None` in both failing cases.
- The `semver` crate's code is not part of this model; `SemVer` restates the behaviour the program relies on.
- `SemVer` models only `Version::parse`, `Display` and `Ord`. It does not model the crate's error messages, or its version-requirement syntax.
- Charts.SortedVersionsNewestFirst: sortedness is proved only when all of a chart's versions parse as semantic versions, or none do. On a mix the comparator is not an order (`Charts.MixedVersionsCycle`). The standard library's sort may then give any permutation, or, in recent Rust, panic. For such input the model's sort is an insertion sort, and only permutation and stability are proved.
- Listing.Run: the order in which charts are visited is the `HashMap`'s. It is an input `order`, and no order across charts is claimed.
- Listing.RenderLineCount: an exact line count holds only when no row holds a newline. A description, version or other field may contain one.
- Listing.RunPagerByRows: likewise, it requires that no row holds a newline.
- Charts.RowSplitsIntoCells: the seven-cell split holds only if no field holds a tab.
- Excerpt.Ellipsize: "returned unchanged" is stated only in the direction "within the budget implies unchanged". The converse is false (`Excerpt.EllipsizeFixedPointOverBudget`). No idempotence is claimed (`Excerpt.EllipsizeNotIdempotent`).
- Listing.RunReportsNoCharts and Listing.TableRowsEmpty are proved for any formatter returning one line per version. `Listing.ChartFormatter`, the one the program uses, is shown to be one.
