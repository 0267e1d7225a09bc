# Marker-gene candidate filtering, modelled in Dafny

This project models the marker-selection core of a mouse-retina single-cell
atlas pipeline. It is three scripts that turn regression tables, gene
annotations and mean-expression tables into ordered, duplicate-free marker
lists, one list per major cell class:

- `scripts/3.1_Marker_Expression.py` (module `MarkerExpression`) builds the
  subtype candidates of one major class. It applies these filters:
  - the sign of the regression coefficient;
  - transcript length and presence in the regression;
  - expression above a floor and below a ceiling.

  It then takes their sorted intersection, looks up and sorts the regression
  rows, and merges them with the major-class markers.
- `scripts/05_Filter_Merged_Marker.py` (module `FilterMerged`) works on the
  merged curated/queried marker table. It covers:
  - the coefficient drop rule;
  - the length/detectable/not-crowding row filter and its sort;
  - `clean_markers`;
  - the per-class marker lists and the class loop that skips empty lists;
  - the fixed-order concatenation of the curated rows;
  - the ordered cell-type list.
- `scripts/curate_filtered_logisticRegression_Marker_plots.py` (module
  `CuratePlots`) does the same per-class selection on the Curated rows. It
  uses two loops, a dedup and then a var-name filter, and the model proves
  that this pair equals `clean_markers`.

Shared modules:
- `Seqs`: boolean-mask selection (`Select`, `Where`), stable first-occurrence
  deduplication (`Dedup`) and the subsequence relation.
- `Order`: lexicographic string order by code point, multi-column sort keys
  with missing values last, a stable insertion sort, and sorted-unique lists
  (`np.intersect1d`).
- `Labels`: the "Unassigned_" relabelling, as pure functions and as in-place
  updates of the cell table and the minorclass mean table, plus ASCII
  upper-casing.
- `Optional`: `Option` and `Result`.

Modelling conventions:
- Tables are sequences of row datatypes.
- Fields brought in by pandas joins and merges are `Option` fields, and a
  missing value never satisfies a comparison, as NaN does not.
- Means and coefficients are `real`. No arithmetic is done on them, only
  comparisons with fixed thresholds.
- Each loop of the source is a method proved equal to a specification
  function. The function's properties are proved as lemmas.

Behaviour of the scripts that the model keeps as written:
- The expression filter returns an empty list when the floor is above the
  ceiling. It raises no error.
- A missing regression row would raise `KeyError` from `.loc`. This is
  modelled as `Err`, and `LookupCannotMiss` proves that it cannot happen.
- The coefficient rule compares the signed coefficient with 0.3.
- Class names are upper-cased before they are compared.
- At 3.1:77, `minorclass_candidates[minorclass_candidates.isin(subtypes)]`
  masks values and keeps every row. So `SubtypeMarkers` is the whole Gene
  index of the ordered markers, and the computed `subtypes` list has no
  effect.
- The relabelling of the minorclass mean table (05:98-100) does not compare
  with a major class, unlike 05:64-67 and curate:33-36.
- A majorclass mean counts as detectable when it is present at all (05:130).

## Model

| member | source | states |
|---|---|---|
| MarkerExpression.TopCoefficientGenes | scripts/3.1_Marker_Expression.py:37-43 | For a class other than Microglia a row is kept iff it is in the table and its coefficient is > 0; for Microglia the table is returned unchanged |
| MarkerExpression.TopCoefficientGenesKeepOrder | scripts/3.1_Marker_Expression.py:39-40 | The kept rows are a subsequence of the regression table, and each kept row occurs as often as in the table |
| MarkerExpression.GenomicsCandidates | scripts/3.1_Marker_Expression.py:47-57 | A name is returned iff it is in the regression's Gene column and some var with that feature name has length >= the threshold |
| MarkerExpression.GenomicsCandidatesInVarOrder | scripts/3.1_Marker_Expression.py:51-52 | The candidates are a subsequence of the var feature names |
| MarkerExpression.ExpressionCandidates | scripts/3.1_Marker_Expression.py:61-71 | Raw var name j is returned iff some group mean of column j is >= the floor and none is > the ceiling; so no returned gene exceeds the ceiling in any group |
| MarkerExpression.ExpressionCandidatesInVarOrder | scripts/3.1_Marker_Expression.py:65-66 | The candidates are a subsequence of the raw var names |
| MarkerExpression.ExpressionCandidatesEmptyWhenFloorAboveCeiling | scripts/3.1_Marker_Expression.py:62-65 | With floor > ceiling every detectable gene is crowded and the result is empty |
| MarkerExpression.Intersect1d | scripts/3.1_Marker_Expression.py:109 | The intersection is strictly ascending and contains g iff g is in both candidate lists |
| MarkerExpression.Intersect1dCommutes | scripts/3.1_Marker_Expression.py:109 | The intersection does not depend on the order of its arguments |
| MarkerExpression.Loc | scripts/3.1_Marker_Expression.py:114 | The lookup succeeds iff every label is a Gene of the table, and then returns exactly the rows whose gene is a label; for labels without repeats it holds, for each label, all of that gene's rows in table order, and the rows of an earlier label come before those of a later one |
| MarkerExpression.OrderedMarkers | scripts/3.1_Marker_Expression.py:114 | The ordered markers are sorted by (Major_Name, Name), are a permutation of the lookup's rows, and rows sharing a key keep the lookup's order (a stable sort); they are exactly the rows of the final candidates; the lookup fails iff some candidate is not a Gene |
| MarkerExpression.LookupCannotMiss | scripts/3.1_Marker_Expression.py:107-114 | The lookup of the intersection of genomic and expression candidates never fails |
| MarkerExpression.CellMarkers | scripts/3.1_Marker_Expression.py:75 | A marker is a cell marker iff some majorclass candidate row named after the class carries it; the list is those rows' markers, one per row, in table order |
| MarkerExpression.SubtypeMarkers | scripts/3.1_Marker_Expression.py:77 | The subtype markers are the ordered-marker rows' genes, one per row in the same order (the value mask removes no row) |
| MarkerExpression.MergeMajorMinorMarkers | scripts/3.1_Marker_Expression.py:74-86 | The loop's list is the first-occurrence dedup of cell markers followed by subtype markers |
| MarkerExpression.MergedMarkersOrder | scripts/3.1_Marker_Expression.py:79-86 | The merged list has no repeats, holds exactly the cell and subtype markers, and every cell marker precedes every marker found only among subtype markers |
| MarkerExpression.ProcessMajorClass | scripts/3.1_Marker_Expression.py:104-117 | For one class the ordered markers are the lookup-and-sort of the intersected candidates: sorted, and exactly the rows kept by the coefficient filter (all rows for Microglia, positive-coefficient rows otherwise) whose gene passes both filters; the merged list is the first-occurrence dedup of the cell markers followed by the subtype markers, so it has no repeats and holds the cell markers and the ordered markers' genes |
| Seqs.Select | scripts/3.1_Marker_Expression.py:52 | Mask selection returns an element iff some position with a true mask holds it |
| Seqs.SelectIsSubsequence | scripts/3.1_Marker_Expression.py:52 | Mask selection keeps the input order |
| Seqs.Where | scripts/05_Filter_Merged_Marker.py:85 | Row selection returns x iff x is in the input and satisfies the predicate |
| Seqs.WhereIsSubsequence | scripts/05_Filter_Merged_Marker.py:85 | Row selection keeps the input order |
| Seqs.WhereCount | scripts/05_Filter_Merged_Marker.py:85 | Row selection keeps every occurrence of a selected row and no occurrence of any other |
| Seqs.WhereConcat | scripts/05_Filter_Merged_Marker.py:266-271 | Selecting from a concatenation is concatenating the selections |
| Seqs.WhereWhere | scripts/05_Filter_Merged_Marker.py:260-265 | Two successive selections are one selection by the conjunction |
| Seqs.WhereNoDup | scripts/05_Filter_Merged_Marker.py:273 | Selecting from a list without repeats leaves no repeats |
| Seqs.Dedup | scripts/3.1_Marker_Expression.py:81-84 | The deduplicated list has no repeats and the same elements as its input |
| Seqs.DedupIsSubsequence | scripts/3.1_Marker_Expression.py:81-84 | Deduplication keeps the input order |
| Seqs.DedupFirstOccurrenceOrder | scripts/curate_filtered_logisticRegression_Marker_plots.py:77-82 | Kept elements appear in the order of their first occurrences in the input |
| Seqs.DedupOfNoDup | scripts/curate_filtered_logisticRegression_Marker_plots.py:77-82 | A list without repeats is its own dedup |
| Seqs.DedupIdempotent | scripts/curate_filtered_logisticRegression_Marker_plots.py:77-82 | Deduplicating twice is deduplicating once |
| Seqs.DedupKeepsPrefixFirst | scripts/3.1_Marker_Expression.py:79-84 | In the dedup of a + b every element of a precedes every element not in a |
| Order.StrLessIrreflexive | scripts/3.1_Marker_Expression.py:114 | No string sorts before itself |
| Order.StrLessTransitive | scripts/3.1_Marker_Expression.py:114 | The string order is transitive |
| Order.StrLessTotal | scripts/3.1_Marker_Expression.py:114 | Two different strings are ordered one way or the other |
| Order.KeyLessTransitive | scripts/05_Filter_Merged_Marker.py:136 | The two-column order with missing values last is transitive |
| Order.KeyLessTotal | scripts/05_Filter_Merged_Marker.py:136 | The two-column order is total on distinct keys |
| Order.SortByKey | scripts/05_Filter_Merged_Marker.py:136 | The sort returns a permutation of its input ordered by the key |
| Order.SortByKeyStable | scripts/05_Filter_Merged_Marker.py:136 | Rows with equal keys keep their input order |
| Order.SortedUnique | scripts/3.1_Marker_Expression.py:109 | The result is strictly ascending with the same elements as the input |
| Order.AscendingUnique | scripts/3.1_Marker_Expression.py:109 | Two strictly ascending lists with the same elements are equal |
| Labels.UnassignedLabel | scripts/curate_filtered_logisticRegression_Marker_plots.py:33-36 | A label changes iff it equals its majorclass and is AC, BC, Microglia or RGC, and then becomes "Unassigned_" + label |
| Labels.UnassignedLabelIdempotent | scripts/05_Filter_Merged_Marker.py:64-67 | Relabelling twice is relabelling once |
| Labels.CellObs.MarkUnassigned | scripts/05_Filter_Merged_Marker.py:64-67 | Every cell's label is replaced by its relabelling; the major classes are unchanged |
| Labels.UnassignedGroupLabel | scripts/05_Filter_Merged_Marker.py:98-100 | A mean-table row label changes iff it is AC, BC, Microglia or RGC, and then gets the "Unassigned_" prefix |
| Labels.UnassignedGroupLabelIdempotent | scripts/05_Filter_Merged_Marker.py:98-100 | The mean-table relabelling is idempotent |
| Labels.MinorMeanTable.MarkUnassigned | scripts/05_Filter_Merged_Marker.py:98-100 | Every row label of the mean table is replaced by its relabelling |
| Labels.UnassignedLabelsAgree | scripts/05_Filter_Merged_Marker.py:98-100 | The two relabellings agree on labels equal to their majorclass |
| Labels.Upper | scripts/05_Filter_Merged_Marker.py:230 | Upper-casing keeps the length, leaves no ASCII lower-case letter, turns each lower-case letter into its upper-case letter and leaves every other character unchanged |
| Labels.UpperIdempotent | scripts/05_Filter_Merged_Marker.py:230 | Upper-casing twice is upper-casing once |
| FilterMerged.CoefficientFilter | scripts/05_Filter_Merged_Marker.py:83-85 | A row is kept iff it is not Queried or both present coefficients exceed 0.3; a missing coefficient is never small |
| FilterMerged.CoefficientFilterKeepsOrder | scripts/05_Filter_Merged_Marker.py:85 | Survivors keep the table order, and each surviving row occurs as often as in the table |
| FilterMerged.NonQueriedRowsKept | scripts/05_Filter_Merged_Marker.py:84-85 | A table without Queried rows passes unchanged |
| FilterMerged.FilterAndSort | scripts/05_Filter_Merged_Marker.py:127-136 | Survivors are exactly the rows with a length, a minorclass or majorclass mean and no group mean > 100, as a permutation of the filtered rows sorted by (Major_Name, Queried_Name) |
| FilterMerged.FilterAndSortStable | scripts/05_Filter_Merged_Marker.py:136 | Survivors with equal sort keys keep their table order |
| FilterMerged.SurvivorsLongAndDetectable | scripts/05_Filter_Merged_Marker.py:89-135 | On rows as the joins build them, every survivor has length >= 960 and a minorclass mean >= 4 or a majorclass mean |
| FilterMerged.Clean | scripts/05_Filter_Merged_Marker.py:192-204 | The cleaned list has no repeats and holds a marker iff it is an input marker and a var name |
| FilterMerged.CleanMarkers | scripts/05_Filter_Merged_Marker.py:192-204 | The loop with its two `continue`s returns the cleaned list |
| FilterMerged.CleanIsSubsequence | scripts/05_Filter_Merged_Marker.py:192-204 | The cleaned list is a subsequence of the input |
| FilterMerged.CleanFirstOccurrenceOrder | scripts/05_Filter_Merged_Marker.py:192-204 | The kept markers are in the order of their first occurrences |
| FilterMerged.CleanOfCleanList | scripts/05_Filter_Merged_Marker.py:192-204 | A list without repeats, made of var names, is already clean |
| FilterMerged.CleanIdempotent | scripts/05_Filter_Merged_Marker.py:192-204 | Cleaning twice is cleaning once |
| FilterMerged.CleanEmptyIff | scripts/05_Filter_Merged_Marker.py:240-244 | The cleaned list is empty iff no input marker is a var name |
| FilterMerged.ClassRows | scripts/05_Filter_Merged_Marker.py:232-238 | All rows are of the class, and a row has Name == class exactly in the leading direct part |
| FilterMerged.ClassRowsPartition | scripts/05_Filter_Merged_Marker.py:232-238 | Every row with Major_Name == class contributes exactly once |
| FilterMerged.ClassRowsKeepTableOrder | scripts/05_Filter_Merged_Marker.py:232-236 | The class rows are the direct rows followed by the subtype rows, and each of the two parts is a subsequence of the table |
| FilterMerged.ClassMarkers | scripts/05_Filter_Merged_Marker.py:229-238 | The list is the marker of every class row in turn, the direct rows first and then the subtype rows, each part in table order; a marker is in it iff some row with Major_Name == upper(class) carries it |
| FilterMerged.ClassPlotMarkers | scripts/05_Filter_Merged_Marker.py:229-240 | The class's final list has no repeats and holds exactly the var names among the class's markers |
| FilterMerged.PlotRequestsSkipEmpty | scripts/05_Filter_Merged_Marker.py:242-244 | A class is plotted, with its final list, iff that list is non-empty |
| FilterMerged.PlotMarkerLists | scripts/05_Filter_Merged_Marker.py:225-253 | The class loop with `continue` yields the plot requests of the specification |
| FilterMerged.CuratedRows | scripts/05_Filter_Merged_Marker.py:260 | A row is kept iff it is in the table and Curated == "Curated" |
| FilterMerged.ConcatGroups | scripts/05_Filter_Merged_Marker.py:261-271 | The concatenation holds a row iff its Major_Name is one of the groups |
| FilterMerged.CuratedConcat | scripts/05_Filter_Merged_Marker.py:260-271 | The concatenation holds exactly the Curated rows whose Major_Name is AC, BC, RGC, MG or RPE |
| FilterMerged.ConcatGroupsRanked | scripts/05_Filter_Merged_Marker.py:266-271 | Rows come in the order of the group list |
| FilterMerged.ConcatGroupsWithinGroup | scripts/05_Filter_Merged_Marker.py:261-271 | Within one group the rows keep table order |
| FilterMerged.CuratedConcatOrder | scripts/05_Filter_Merged_Marker.py:260-271 | Groups in the fixed order AC, BC, RGC, MG, RPE, each the group's curated rows in table order |
| FilterMerged.PresentNames | scripts/05_Filter_Merged_Marker.py:273 | The kept categories have no repeats and are exactly the present queried names other than RGC |
| FilterMerged.PresentNamesFirstOccurrence | scripts/05_Filter_Merged_Marker.py:273 | The kept names are in first-occurrence order |
| FilterMerged.OrderedCelltypes | scripts/05_Filter_Merged_Marker.py:273 | Fails iff no curated row has queried name RGC; otherwise the distinct present names other than RGC, then ROD, CONE, HC, MICROGLIA, ENDOTHELIAL |
| FilterMerged.OrderedCelltypesFirstOccurrence | scripts/05_Filter_Merged_Marker.py:273 | The leading names come in the order of their first occurrence in the curated table |
| CuratePlots.CuratedOnlyRows | scripts/curate_filtered_logisticRegression_Marker_plots.py:56 | The table holds exactly its Curated rows, each as often as before, in original order |
| CuratePlots.MarkerTypesAligned | scripts/curate_filtered_logisticRegression_Marker_plots.py:66-74 | `markers` and `marker2type` have equal length, entry i of both comes from one row of the class, and the class name leads exactly over the cell markers |
| CuratePlots.UniqueMarkers | scripts/curate_filtered_logisticRegression_Marker_plots.py:77-82 | The loop returns the first-occurrence dedup of the markers |
| CuratePlots.KeepVarNames | scripts/curate_filtered_logisticRegression_Marker_plots.py:84-89 | The loop returns exactly the unique markers that are var names, in order |
| CuratePlots.TwoPassIsClean | scripts/curate_filtered_logisticRegression_Marker_plots.py:77-89 | Dedup followed by the var-name filter equals `clean_markers` |
| CuratePlots.CurateClass | scripts/curate_filtered_logisticRegression_Marker_plots.py:63-89 | The two loops give the same final list as the merged-marker script |
| CuratePlots.CuratePlotLists | scripts/curate_filtered_logisticRegression_Marker_plots.py:59-95 | The class loop on the Curated rows, with the empty-list `continue`, yields the same plot requests as the merged-marker loop |

## Left out

- File input and output (`read_csv`, `read_h5ad`, `to_csv`, `os.chdir`, `os.makedirs`), `print` output (including the `verbose` flag of `clean_markers` and the duplicate messages), memory release and `sc.settings`: tables are parameters and results are return values.
- `sc.pl.dotplot` and its settings: the model stops at the class and the marker list handed to it (`PlotRequest`).
- `make_raw_mean_expression.py`: a floating-point group-by mean with I/O; the mean tables are given.
- The gene-set variants of 3.1:89-98 (`highly_variable`, `dispersions`) depend on external var annotations; the var table is a parameter.
- The loops of 3.1:89 and 3.1:100 over variants and classes only read each class's own files and write its outputs; one iteration is `ProcessMajorClass`.
- 3.1:105 selection of the group rows of the mean table: `ProcessMajorClass` takes those rows as given.
- 3.1:76 `subtypes` is computed but has no effect on the result under line 77 as written.
- The pandas merges, joins, `melt`, transposes, renames and index resets of 05:88-125 and the `q2n` fill of 05:94: their result is given as the optional fields of `MarkerRow`; `WellJoined` states what the joins of 05:89 and 05:106 guarantee.
- Duplicate rows that a join on a non-unique var index would create are not modelled.
- 05:116 and 05:207 stop the script as written, so 05:127-293 never run: 05:116 assigns a three-column table to the single column `Detectable_Expression`, which raises ValueError, and 05:207 tests `plot_major`, a name that is never defined (05:34 defines only `plot_major_markers`), which raises NameError. The model covers 05:127-293 as they would run with 05:116 and 05:207-222 removed. 05:116 adds no column that the row filter reads, and 05:207-222 only draws a plot.
- The commented-out blocks (05:141-189, 3.1:119-128) are not modelled.
- `MarkerExpression.ExpressionCandidates`: requires one mean column per raw var. With any other column count, the boolean mask of 3.1:66 has the wrong length and raises IndexError; that error path is not modelled. `MarkerExpression.ProcessMajorClass` carries the same requires.
- The upper-case relabellings of 05:257-258 and 05:283 only prepare the final dotplot's cell groups.
- `august_grant_markers` (05:275-280) is a fixed list passed to the dotplot.
- `Labels.Upper`: models `str.upper` for ASCII letters only; other characters are left unchanged, so non-ASCII case mapping is not modelled. `str.capitalize` (05:76, 05:105, 05:115) is not modelled; names are taken as already capitalized.
- `Major_Name` and `Name` are taken as always present strings; a missing value in those columns is not modelled.
- The categories of `adata.obs['majorclass']` are a parameter of the class loops; their order is not derived from the cell table.
