# Caprae analysis engine in Dafny

Caprae is a set of Streamlit pages for exploring a spreadsheet of base
calls of *Mycobacterium caprae* isolates. The spreadsheet has one row per
isolate, plus the reserved rows `root`, `MQ` and `annotation`. The first
column, `Unnamed: 0`, holds the row identifier, the `Group` column holds the
lineage, and there is one column per genome marker. Behind the pages is a
small analysis engine, which this project models and proves properties about.
It has four parts:

- **Threshold mutation summary** (`getMutationSummary`, `Summary`,
  `SummaryProperties`). For every marker, in column order, it tallies the A, C,
  T and G calls of the selected isolates. A base's frequency is its count over
  the number of selected isolates. A base counts as a mutation when it reaches
  the threshold and differs from the root's call. A marker is reported when it
  has a mutation. Every reported row carries the marker's annotation: a
  comma-separated cell unpacked into mutation, gene, locus and substitution
  (`Annotation`). mainV5.py and mainV4.py differ only in the order of the last
  two fields.
- **Substitution classes and their distribution** (`SnpStats`, `Aggregate`).
  - `get_mutation_type` classifies substitution names.
  - `getSNPTypeStats` counts the summary rows per substitution and adds a
    `Total`. On a summary without rows it raises `KeyError`, and the
    section then stops (see Findings).
  - The distribution section builds these statistics for every group. It
    then lays them out as a table, one row per substitution (sorted, then
    `Not annotated`, then `Total`) and a count and a percentage column per
    group.
  - Finally it computes each group's dN/dS ratio.
- **Mismatch report** (`Mismatch`, main.py and olderVersions/main.py). Per
  marker, it gives the number of rows of a subset whose call differs from the
  root's, and that number as a fraction of the subset's size. The subset is the
  selected isolates, a group, or every row after the root.
- **Variable markers and base frequencies** (`Variation` for mainV3.py,
  `AnalysisApp` for the class `NucleotideAnalysisApp` of
  olderVersions/mainV3oop.py). These keep the markers at which the selected
  isolates do not all agree. They append the annotation row and an `Isolate`
  label column. Then they give the percentage of each of A, T, C and G among
  the isolates' calls at every kept marker.

The isolate options of the sidebar are modelled in `Table`: the reserved
identifiers are removed, and the option list is the sorted, duplicate-free
union of the filtered options and the current selection.

The form follows the source:

- Loops that append to lists or set DataFrame columns are methods with loop
  invariants. Each is proved equal to a recursive specification function, and
  the properties are proved about that function.
- `NucleotideAnalysisApp` is a class whose methods update its fields.
- The vectorised mismatch expressions of main.py are functions.
- Python exceptions are result values: a `Failure`, an `Error` or an
  `Annotated` case. The operation's contract says when each one is raised.
- A DataFrame is a datatype with column labels, columns and a row index.
- Percentages and frequencies are exact reals. The ratio's `inf` is the
  `Infinite` case of `Ratio`. The `NaN` of a mismatch fraction over an empty
  subset is the `NaN` case of `Fraction`.
- The annotation-row position (263 in the spreadsheet the pages read) is a
  parameter.

Where the code and its documentation disagree, the model follows the code:

- No threshold is rejected. The code has no range check, so a threshold above
  1 reports nothing and a threshold of 0 or below reports every non-root base.
- A mismatch fraction over an empty subset is `NaN` (pandas divides 0 by 0),
  not an error.
- In `getMutationSummary` a division by zero is raised before the annotation
  is read. An annotation error is raised even for a marker that would not be
  reported, because the annotation is read for every marker.
- An `annotation` column holding no row raises an `IndexError`, which is
  modelled as `NoAnnotationRow`.

The `FilterMarkers` loop of `filter_isolates` is a module-level method that
the class method calls with its own fields. `FrequencyTable` serves both
mainV3.py and `calculate_frequency`.

## Model

| member | source | states |
|---|---|---|
| Text.Unique | mainV5.py:32 | `unique()` keeps each value once: the result is duplicate-free and holds exactly the input's values |
| Text.Without | mainV5.py:33 | filtering out a set of values keeps exactly the values not in it, and keeps duplicate-freedom |
| Text.SortedUnique | mainV5.py:106-107 | `sorted(set(...))` is strictly sorted and holds exactly the input's values |
| Text.SortedUniqueness | mainV5.py:106-107 | two strictly sorted lists with the same elements are equal, so the sorted option list does not depend on input order |
| Text.Count | mainV5.py:160 | a value count is at most the length and is 0 exactly when the value is absent |
| Text.Lower | mainV5.py:206 | `lower()` on ASCII: 'A' to 'Z' become 'a' to 'z', every other character is kept, and so is the length |
| Text.LowerIdempotent | mainV5.py:206 | lowering twice is lowering once |
| Text.Strip | mainV5.py:196-199 | `strip()` returns the cell with only its leading and trailing runs of white space removed: the result is the slice of the cell between those runs, and every character dropped is white space in Python's sense (ASCII and Unicode spaces, separators 0x1C-0x1F); the result has no surrounding white space, and a string that has none comes back unchanged |
| Text.StripIdempotent | mainV5.py:196-199 | stripping twice is stripping once |
| Text.Split | mainV5.py:178 | `split(',')` always yields at least one part |
| Text.SplitLength | mainV5.py:178 | `split` yields one more part than there are separators |
| Text.SplitPartsLackSeparator | mainV5.py:178 | no part of a split contains the separator |
| Text.JoinSplit | mainV5.py:178 | joining the parts of a split with the separator gives back the string |
| Text.SplitJoin | mainV5.py:178 | splitting a join of separator-free parts gives back the parts |
| Table.Root | mainV5.py:27 | the root calls `df.iloc[0, 2:]`: one call per marker |
| Table.SelectRows | main.py:30 | `isin` keeps exactly the rows whose identifier is selected, never more rows than the table has |
| Table.SelectRowsAppend | mainV3.py:38 | selection goes row by row: the selection of two blocks of rows is the selection of the first followed by that of the second, so table order and duplicates are kept |
| Table.SelectRowsOne | mainV3.py:38 | a single row is kept exactly when its identifier is selected |
| Table.FirstSelectedRow | mainV5.py:175-176 | the first selected row is the first row of the table whose identifier is selected |
| Table.GroupRows | main.py:46 | the group filter keeps exactly the rows of that group |
| Table.AllAfterRoot | main.py:68 | `df.iloc[1:]` has every row but the root |
| Table.AllAfterRootKeepsReservedRows | olderVersions/main.py:89 | every row after the root is in the all-rows subset, so reserved rows such as `MQ` and `annotation` are included |
| Table.SelectRowsNonEmpty | olderVersions/main.py:28-43 | a non-empty selection of existing isolates selects at least one row, so the individual report never divides by 0 |
| Table.Ids | mainV3.py:62 | the identifier column of the rows, in order |
| Table.IsolateOptions | mainV5.py:32-33 | the options are duplicate-free and are exactly the identifiers that are not `root`, `MQ` or `annotation` (the same code is at mainV4.py:29-30) |
| Table.GroupOptions | mainV4.py:47-48 | a group's options are duplicate-free and are exactly its non-reserved identifiers (the same code is at mainV5.py:242-243) |
| Table.OptionList | mainV5.py:106-107 | the option list is strictly sorted, duplicate-free and holds exactly the filtered options and the selected isolates (the same code is at mainV4.py:53-54) |
| Table.OptionListHasNoReserved | mainV4.py:53-54 | when the selection came from the options, the option list has no reserved identifier |
| Table.OptionListOrderIndependent | mainV5.py:106-107 | the option list depends only on which options there are, not on their order |
| Mismatch.Mismatches | main.py:51 | counts the rows whose call differs from the root's, where an empty (NaN) root cell differs from every call; at most the number of rows |
| Mismatch.MismatchesAreColumnCount | olderVersions/main.py:39 | mismatches are the rows minus those whose call equals the root's, or every row when the root cell is empty |
| Mismatch.MismatchesAppend | olderVersions/main.py:73 | the mismatches of two blocks of rows add up |
| Mismatch.FractionOf | main.py:55 | the fraction is defined exactly when the subset is non-empty; then fraction × rows = mismatches and it lies in [0, 1] |
| Mismatch.Report | main.py:59-64 | one row per marker in the root's column order, with `Total Isolates` the subset size, the mismatch count and the fraction |
| Mismatch.FractionInUnitInterval | olderVersions/main.py:39-43 | on a non-empty subset every fraction is defined and lies in [0, 1] |
| Mismatch.NoMismatchWhereAllAgree | main.py:51 | a marker where every row agrees with the root has no mismatch, unless the cells are empty: NaN != NaN makes every row count |
| Mismatch.ReportTotalBound | olderVersions/main.py:91 | the mismatches of a report sum to at most rows × markers |
| Mismatch.SelectedReportDefined | olderVersions/main.py:40-43 | the individual report over a non-empty selection of existing isolates has a defined fraction at every marker |
| Annotation.Assign | mainV5.py:178 | the four unpacked fields, stripped, land in mutation, gene, locus, substitution (V5) or mutation, gene, substitution, locus (V4, mainV4.py:102) |
| Annotation.ParseCell | mainV5.py:177-181 | a cell without a comma is the whole (stripped) mutation with three "Not annotated" fields; with a comma the unpacking fails exactly when there are not three commas |
| Annotation.FrameOf | mainV5.py:20 | `df[df['Unnamed: 0'] == 'annotation']` has every marker column and the rows labelled `annotation` |
| Annotation.Lookup | mainV5.py:175-183 | a marker without a column is "Not annotated" in all four fields; a column without a row raises |
| Annotation.LookupOrdersAgree | mainV4.py:100-104 | the V4 and V5 lookups succeed and fail together and agree on mutation and gene |
| Annotation.TableFrameHasEveryColumn | mainV5.py:175-176 | with the table's own annotation frame the lookup reads the first `annotation` row's cell, or raises when there is no such row |
| Annotation.ParseJoinedFields | mainV5.py:178 | four plain fields joined with commas are read back in the version's order (round trip) |
| Annotation.FieldOrdersSwapLocusAndSubstitution | mainV4.py:102 | for every cell the versions succeed together, agree on mutation and gene, and swap locus and substitution when there is a comma |
| Annotation.ParsedFieldsHaveNoComma | mainV5.py:178 | no field unpacked from a comma cell contains a comma |
| Summary.SelectionQuery | mainV5.py:215-229 | the query of the selected-isolates page: the selected rows, the root and the number of selected identifiers as denominator |
| Summary.Tally | mainV5.py:160-168 | the tallies are exactly the A/C/G/T bases that occur, each with its count (> 0) and count / number of selected isolates |
| Summary.Mutants | mainV5.py:169-170 | `baseSummary` holds exactly the tallies that reach the threshold and differ from the root |
| Summary.Others | mainV5.py:171-172 | `otherBasesSummary` holds exactly the other tallies |
| Summary.Outcomes | mainV5.py:157 | one outcome per marker, in root-column order |
| Summary.FailureIsFinal | mainV5.py:157-200 | an exception ends the summary: every longer prefix fails with it |
| Summary.TallyMarker | mainV5.py:165-172 | the base loop raises a division by zero exactly when no isolate is selected and a base occurs; otherwise it splits the tallies into mutations and the rest |
| Summary.GetMutationSummary | mainV5.py:155-201 | the marker loop returns exactly `MutationSummary`: the first exception or the rows of the reported markers (also mainV4.py:80-122) |
| SummaryProperties.MarkerReportedIff | mainV5.py:165-185 | a marker is reported iff some A/C/G/T base has frequency ≥ threshold and differs from the root base |
| SummaryProperties.ReportedRow | mainV5.py:185-200 | a reported row carries its marker and root base; every mutant base is a base other than the root reaching the threshold, every other base is the root or below it, counts and frequencies are those of the column, and every base that occurs is listed |
| SummaryProperties.AgreeingMarkerNotReported | mainV5.py:169 | a marker where every selected call equals the root is never reported, at any threshold |
| SummaryProperties.SummaryLocations | mainV5.py:157 | the summary's locations are exactly the qualifying markers, in root-column order |
| SummaryProperties.SummaryMutantsAreMutations | mainV5.py:169-170 | every mutant base of every row differs from the root, is a base, reaches the threshold and occurs |
| SummaryProperties.RaiseThresholdMarker | mainV5.py:169 | raising the threshold keeps the marker's exceptions and can only remove the row or its mutant bases |
| SummaryProperties.RaiseThresholdSummary | mainV5.py:169 | raising the threshold keeps the summary's exceptions and can only remove rows |
| SummaryProperties.QualifiesAtLowerThreshold | mainV5.py:169 | a marker that qualifies at a threshold qualifies at every lower one |
| SummaryProperties.QualifyingMarkersShrink | mainV4.py:94 | fewer qualifying markers give a subset of the listed markers |
| SummaryProperties.VersionsAgreeOnMarker | mainV4.py:100-121 | the V4 and V5 versions raise the same exception, report the same markers and agree on every column but locus and substitution |
| SummaryProperties.VersionsAgree | mainV4.py:80-122 | the two summaries fail alike or have the same rows apart from locus and substitution |
| SnpStats.ClassifyIgnoresCase | mainV5.py:206 | the classifier ignores case |
| SnpStats.ClassifyNonsynonymous | mainV5.py:207-208 | a "Nonsynonymous" name classifies as nonsynonymous |
| SnpStats.SynonymousReadsAsNonsynonymous | mainV5.py:207 | as written, "synonymous" classifies as nonsynonymous, because it contains "non" |
| SnpStats.IntendedSynonymous | mainV5.py:209-210 | the corrected classifier sends "synonymous" to synonymous |
| SnpStats.IntendedNegation | mainV5.py:207 | the corrected classifier still sends every "non…" name to nonsynonymous |
| SnpStats.ClassifiersAgree | mainV5.py:204-211 | the two classifiers agree on every name in which "non" only starts a word |
| SnpStats.ClassifyIntergenic | mainV5.py:211 | "intergenic" classifies as other |
| SnpStats.ClassifyIntendedIntergenic | mainV5.py:211 | the corrected classifier also sends "intergenic" to other |
| SnpStats.Set | mainV5.py:145 | `counts['Total'] = total` maps the key to the value and appends it to the index when new |
| SnpStats.ValueCounts | mainV5.py:138 | `value_counts()` indexes each substitution once and maps it to its count |
| SnpStats.ValueCountsSum | mainV5.py:138-139 | the value counts sum to the number of rows |
| SnpStats.Substitutions | mainV5.py:138 | the `Substitution` column of the summary |
| SnpStats.Percentages | mainV5.py:142 | every class's percentage is its count over the total × 100 |
| SnpStats.TypeStatsOf | mainV5.py:136-151 | the corrected statistics: the classes, then `Total`, holding the number of rows and 100 percent |
| SnpStats.TypeStatsCounts | mainV5.py:138-142 | every class other than `Total` occurs in the summary, and its count and percentage are those of its rows |
| SnpStats.TypeStatsLookup | mainV5.py:268 | looking up any label gives its count, its percentage, or 0 for an absent class |
| SnpStats.ClassCountsSumToTotal | mainV5.py:145 | the class counts sum to `Total`, the number of summary rows |
| SnpStats.TypeStatsAsWritten | mainV5.py:136-151 | as written: a `KeyError` on `Substitution` exactly for an empty summary, otherwise the statistics |
| SnpStats.EmptySummaryRaises | mainV5.py:138 | an empty summary raises, where the corrected statistics are just `Total` = 0 |
| Aggregate.UniqueGroups | mainV5.py:37-38 | the groups are duplicate-free and are exactly the `Group` labels other than "nan" and "All Isolates" |
| Aggregate.GroupQuery | mainV5.py:242-248 | a group's query uses its non-reserved isolates and their number as denominator |
| Aggregate.GroupStatsEntries | mainV5.py:241-251 | when the first pass succeeds, the statistics hold exactly the groups with isolates; each group's summary has rows, and its statistics are that summary's, with `Total` its number of rows |
| Aggregate.EmptyGroupSummaryRaises | mainV5.py:245-250 | a group with isolates whose summary has no rows makes `getSNPTypeStats` raise `KeyError`, which ends the first pass |
| Aggregate.GroupFailureIsFinal | mainV5.py:241-251 | an exception in one group ends the first pass |
| Aggregate.CollectGroupStats | mainV5.py:241-251 | the first pass returns the statistics of every group, or the first exception (including the `KeyError` of an empty group summary), and collects every label of them |
| Aggregate.RegularTypes | mainV5.py:256 | the regular classes are strictly sorted and are exactly the labels other than "Not annotated" and "Total" |
| Aggregate.OrderedTypes | mainV5.py:257 | the row order: the sorted regular classes, then "Not annotated", then "Total", each once |
| Aggregate.OrderedTypesIgnoresOrder | mainV5.py:256-257 | the row order depends only on which labels were collected |
| Aggregate.CountColumn | mainV5.py:268 | a count column has one entry per row, the group's count or 0 |
| Aggregate.PercentColumn | mainV5.py:275 | a percentage column has one entry per row, the group's percentage or 0 |
| Aggregate.MissingIndex | mainV5.py:267 | the first group without statistics, where `group_stats[group]` raises |
| Aggregate.CrossTableOf | mainV5.py:260-278 | the table raises exactly when some group has no statistics; otherwise it has one count column per group, each with one entry per row |
| Aggregate.CrossGroupTable | mainV5.py:260-278 | the two column loops build exactly `CrossTableOf` |
| Aggregate.TableCells | mainV5.py:264-275 | every cell in terms of the group's own summary: "Total" is the number of rows (100 percent), any other row the number of rows with that substitution and its percentage |
| Aggregate.TableHasEveryLabel | mainV5.py:251-257 | every label in any group's statistics is a row of the table |
| Aggregate.RatioOf | mainV5.py:299 | the ratio is infinite exactly when there is no synonymous count; otherwise ratio × synonymous = nonsynonymous |
| Aggregate.Ratios | mainV5.py:291-306 | the ratio loop gives one row per group, with the group's nonsynonymous and synonymous totals over the regular rows, as the given classifier sorts them, and their ratio |
| Aggregate.SynonymousRowRatio | mainV5.py:285-299 | a group whose only summary row is "synonymous" gets an infinite ratio as written (counted nonsynonymous) and the ratio 0 with the corrected classifier |
| Aggregate.RatioCountsWithinTotal | mainV5.py:285-297 | in every group, with either classifier, the nonsynonymous and synonymous counts together are at most its `Total`, the number of its summary rows |
| Aggregate.LabelsOf | mainV5.py:251 | the labels of all groups' statistics, each one listed |
| Aggregate.BuildReport | mainV5.py:260-306 | the table loops and the ratio loop, with the given classifier, give exactly `ReportOf`: with `Classify` the page as written, with `ClassifyIntended` the corrected one |
| Aggregate.SnpTypeDistribution | mainV5.py:237-310 | the whole section, with the given classifier, gives exactly `DistributionOf`: an exception (a summary's, or the `KeyError` of an empty group summary), no statistics, a missing group, or the table and ratios |
| Aggregate.ClassifierOnlyChangesRatios | mainV5.py:281-306 | the page as written and the corrected one end alike, and when both report they show the same table and one ratio row per group for the same groups |
| Aggregate.DistributionRaisesOnEmptyGroup | mainV5.py:241-251 | the section ends with a group's `KeyError` when that group has isolates, its summary has no rows and every group before it succeeded |
| Aggregate.SameLabels | mainV5.py:251-257 | the labels the loop collected give the same row order as those of the statistics |
| Variation.VariesIffTwoDistinct | mainV3.py:52 | more than one distinct value is exactly "two calls differ", whatever the root's call |
| Variation.VariesIffTwoDiffer | mainV3.py:52 | varying means that two calls differ |
| Variation.OneCallDoesNotVary | mainV3.py:52 | a single call never varies |
| Variation.HasDifferences | mainV3.py:52 | `len(isolateValues.unique()) > 1` holds exactly when the calls vary |
| Variation.VaryingPositions | mainV3.py:47-53 | the varying positions are in increasing column order |
| Variation.DifferencesArePositions | mainV3.py:47-53 | the loop's frame is the varying columns picked out by position |
| Variation.FindDifferences | mainV3.py:47-53 | the marker loop builds exactly `Differences` |
| Variation.DifferencesKeepVaryingMarkers | mainV3.py:47-53 | a marker is kept iff the selected calls at it differ |
| Variation.DifferencesKeepColumnOrder | mainV3.py:39-47 | kept markers keep the table's column order |
| Variation.Pick | mainV3.py:58 | `.loc[row, columns]`: the row's cells under the kept columns |
| Variation.Append | mainV3.py:59-62 | every column gains the annotation cell, and the labels are the selected isolates in table order, then "Annotation" |
| Variation.AnnotateAsWritten | mainV3.py:58-59 | as written: a missing row raises `KeyError`; setting the row raises exactly when no marker varies |
| Variation.Annotate | mainV3.py:58-62 | corrected: a missing row raises, otherwise the labels, the kept markers and one cell per label in every column |
| Variation.SingleIsolateHasNoColumns | mainV3.py:58-59 | selecting one isolate crashes the page as written, and the corrected step succeeds |
| Variation.AnnotateAgreesWhereDefined | mainV3.py:58-62 | where the page as written succeeds, the correction gives the same result |
| Variation.IsolateCalls | mainV3.py:74 | the calls of the rows not labelled "Annotation" |
| Variation.FrequencyTable | mainV3.py:70-83 | one row per kept marker with the A, T, C and G shares of its isolate calls |
| Variation.SharesArePercentages | mainV3.py:74-80 | each share is in [0, 100], the four sum to at most 100, and to exactly 100 when every call is a base |
| Variation.IsolateCallsSkipAnnotation | mainV3.py:74 | after the annotation step the frequencies see exactly the isolates' calls |
| AnalysisApp.SetColumn | olderVersions/mainV3oop.py:46 | `frame[name] = values` succeeds exactly on a frame without rows (which takes its index from non-empty values) or values of the index's length, raises `ValueError` otherwise, and only adds labels |
| AnalysisApp.SetColumnOnRowlessFrame | olderVersions/mainV3oop.py:46 | a frame with a column but no rows accepts two cells: it takes the index 0, 1 and its column becomes two empty cells |
| AnalysisApp.SetColumnContents | olderVersions/mainV3oop.py:46 | after it the label holds the values, a new label comes last, labels stay unique, and other columns and the index are untouched, unless the frame took its index from the values: then its other columns are empty cells |
| AnalysisApp.SetAnnotationsRow | olderVersions/mainV3oop.py:51 | `.loc["Annotations"] = cells` raises exactly on a frame without columns; otherwise it appends (or overwrites) the row under every column |
| AnalysisApp.InsertFirst | olderVersions/mainV3oop.py:52 | `insert(0, ...)` refuses a present label, then takes the index from the values on a frame without rows, then refuses a wrong length; otherwise it puts the column first |
| AnalysisApp.FilterErrorIsFinal | olderVersions/mainV3oop.py:43-46 | an exception ends the marker loop |
| AnalysisApp.FilterUpToValid | olderVersions/mainV3oop.py:43-46 | the loop keeps labels unique and every column as long as the index |
| AnalysisApp.FilterAddsOnlyVaryingMarkers | olderVersions/mainV3oop.py:43-46 | every label the loop adds is a marker at which the selected calls vary |
| AnalysisApp.FilterFromEmpty | olderVersions/mainV3oop.py:8-46 | from the constructor's empty frame the loop builds the page's `differences` without an exception |
| AnalysisApp.FilterMarkers | olderVersions/mainV3oop.py:43-46 | the loop on the object's frame ends exactly as `FilterUpTo` says, with a valid frame |
| AnalysisApp.AnnotationCells | olderVersions/mainV3oop.py:50 | `df.loc[263, columns]` raises exactly for a missing row or column, and otherwise gives the row's cells under the columns |
| AnalysisApp.AnnotateStep | olderVersions/mainV3oop.py:50-52 | the three statements keep the frame valid, put `Isolate` first when they succeed, and raise the `.loc` `ValueError` exactly for an existing row and a frame without columns |
| AnalysisApp.SessionMatchesPage | olderVersions/mainV3oop.py:33-52 | a fresh object given one selection and then annotated ends as the page of mainV3.py does: the same `KeyError`, the same `ValueError`, or the same frame |
| AnalysisApp.NucleotideAnalysisApp.constructor | olderVersions/mainV3oop.py:6-10 | the object starts with an empty frame, no selection and no frequencies |
| AnalysisApp.NucleotideAnalysisApp.FilterIsolates | olderVersions/mainV3oop.py:33-46 | an empty selection changes nothing; otherwise the selected rows are kept and the marker loop runs on the existing frame, which only grows |
| AnalysisApp.NucleotideAnalysisApp.AddAnnotations | olderVersions/mainV3oop.py:48-52 | the frame becomes `AnnotateStep` of the old frame; the selection and frequencies are unchanged |
| AnalysisApp.NucleotideAnalysisApp.CalculateFrequency | olderVersions/mainV3oop.py:58-67 | the frequencies are reset, then get one row per column after the first, with the A/T/C/G shares over the rows not labelled `Annotation`; a missing `Isolate` column raises |

## Left out

- Streamlit pages, widgets, session state, caching and the search-bar column filter: these are user interface. The model takes the selection, the group and the threshold as parameters.
- Reading the spreadsheet: this is I/O. The model takes the table as rows of string calls. mainV3.py, mainV4.py, mainV5.py and olderVersions/mainV3oop.py convert every object-dtype column with `astype(str)`, so an empty cell in a column that also holds text is the text "nan". main.py and olderVersions/main.py do not convert, so there an empty cell is NaN. The model writes that NaN as the same text "nan", and `Mismatch.Differs` compares it as NaN. A column pandas fills with NaN is filled with it too (unequal to everything, itself included). A cell holding a number rather than a base letter is not modelled.
- Annotation.ParseCell: a marker column that is empty in every row has float dtype, so the object-dtype conversion skips it and its cells stay NaN; its annotation cell (mainV5.py:176) is then a float and `',' in annotationDetails` (mainV5.py:177) raises TypeError. The model reads that cell as the text "nan" and parses it as the mutation "nan" instead.
- Display formatting: the `:.2f` strings, percentages rounded to one decimal with a "%" suffix, the ratio rounded to two decimals, and the joining of the mutant bases into one string. The model keeps exact reals and lists.
- `value_counts` order: the model scans the bases in the fixed order A, C, T, G, and the substitutions in order of first appearance. Every stated property is either about membership or about lookups by key.
- The `fillna("Not annotated")` of `getSNPTypeStats`: the substitutions are always strings, so it never changes anything.
- The hard-coded positions `isolateOptions[1:262]` and `df.loc[263]`: these are parameters (`annotationRow`). The `display_*` and `sidebar_selection` methods of `NucleotideAnalysisApp` are left out because they only display.
- mainV2.py is not part of this model. It reads `rootSeq` before assigning it, so it raises `UnboundLocalError`, and its intended logic is the mismatch report of main.py.
- Text.Lower: only ASCII letters are lower-cased. Python's `lower()` also maps non-ASCII capitals ("É" to "é") and can lengthen a string ("İ" becomes two characters). The classifier looks only for the ASCII words "non", "missense", "syn" and "silent". The only non-ASCII characters that Python lower-cases to ASCII letters are the Kelvin sign (to "k") and "İ" (to "i" followed by a combining dot), and neither can complete one of those words. So the classification is the same.
- Summary.GetMutationSummary: a marker that is not a column of the selected rows, and an `annotation` frame with several rows, are not modelled. The table is rectangular, and the first row of the frame is read.
- Mismatch.Report: pandas' alignment of the root by column label is taken to be position by position. The two are the same for the spreadsheet's own root row.
- A marker column named `Isolate` (`insert` would refuse it) and an isolate named `Annotation` are excluded by preconditions of the lemmas that compare the class with the page, not of the operations.

## Findings

| source | as written | input that shows it | evidently intended | confidence | as-written member | corrected member |
|---|---|---|---|---|---|---|
| mainV5.py:138 | `getSNPTypeStats` reads the `Substitution` column, which an empty summary DataFrame does not have, so it raises `KeyError` | a group whose isolates have no marker reaching the threshold | the statistics of an empty summary: only `Total` = 0 | high (not executed) | SnpStats.EmptySummaryRaises | SnpStats.TypeStatsOf |
| mainV5.py:207 | the test `'non' in name` also matches inside "synonymous", so every name containing "synonymous" is nonsynonymous and the synonymous branch is unreachable for it | "synonymous" | "non" is a negation only at the start of a word | high (not executed) | SnpStats.SynonymousReadsAsNonsynonymous | SnpStats.IntendedSynonymous |
| mainV3.py:58-59 | when no marker varies, `differences` has no columns and `.loc["Annotations"] = ...` raises `ValueError` (also olderVersions/mainV3oop.py:50-51) | selecting a single isolate | the label column and the annotation row, with no marker column | medium (not executed) | Variation.SingleIsolateHasNoColumns | Variation.Annotate |
