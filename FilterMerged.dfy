/**
 * Filtering of the merged curated/queried marker table and construction of
 * the per-major-class marker lists (scripts/05_Filter_Merged_Marker.py).
 * The table's joins are given as optional fields on each row; a missing
 * value never satisfies a comparison.
 */
module FilterMerged {
  import opened Optional
  import opened Seqs
  import opened Order
  import opened Labels

  const COEFFICIENT_THRESHOLD: real := 0.3
  const LENGTH_THRESHOLD: int := 960
  /** Minorclass means below this are not joined onto the marker table. */
  const MINOR_MEAN_FLOOR: real := 4.0
  /** A major-group mean above this crowds the assay. */
  const CROWDING_CEILING: real := 100.0

  /**
   * A row of the merged marker table after its joins: `featureLength` only
   * for genes of sufficient length, the minorclass and majorclass means of
   * the row's own class, and `groupMeans` the major-group columns AC..Rod.
   */
  datatype MarkerRow = MarkerRow(
    marker: string,
    majorName: string,
    name: string,
    queriedName: Option<string>,
    queried: Option<string>,
    curated: Option<string>,
    minorCoefficient: Option<real>,
    majorCoefficient: Option<real>,
    featureLength: Option<int>,
    minorMean: Option<real>,
    majorMean: Option<real>,
    groupMeans: seq<Option<real>>)

  /** `x <= bound`, false for a missing value. */
  predicate AtMost(x: Option<real>, bound: real) {
    x.Some? && x.value <= bound
  }

  /** `x > bound`, false for a missing value. */
  predicate Exceeds(x: Option<real>, bound: real) {
    x.Some? && x.value > bound
  }

  // ---------------------------------------------------------------- coefficient filter

  predicate SmallCoefficientInQuery(row: MarkerRow) {
    && row.queried == Some("Queried")
    && (AtMost(row.minorCoefficient, COEFFICIENT_THRESHOLD) || AtMost(row.majorCoefficient, COEFFICIENT_THRESHOLD))
  }

  predicate KeepsCoefficient(row: MarkerRow) {
    !SmallCoefficientInQuery(row)
  }

  /**
   * Drops exactly the queried rows with a minor or major coefficient of at
   * most 0.3; a missing coefficient is never small.
   */
  function CoefficientFilter(rows: seq<MarkerRow>): (r: seq<MarkerRow>)
    ensures forall row :: row in r <==>
              && row in rows
              && (|| row.queried != Some("Queried")
                  || ((row.minorCoefficient.None? || row.minorCoefficient.value > 0.3)
                      && (row.majorCoefficient.None? || row.majorCoefficient.value > 0.3)))
  {
    Where(rows, KeepsCoefficient)
  }

  lemma CoefficientFilterKeepsOrder(rows: seq<MarkerRow>)
    ensures IsSubsequence(CoefficientFilter(rows), rows)
    ensures forall row :: multiset(CoefficientFilter(rows))[row] ==
              if KeepsCoefficient(row) then multiset(rows)[row] else 0
  {
    WhereIsSubsequence(rows, KeepsCoefficient);
    WhereCount(rows, KeepsCoefficient);
  }

  /** A table without queried rows passes unchanged. */
  lemma NonQueriedRowsKept(rows: seq<MarkerRow>)
    requires forall row :: row in rows ==> row.queried != Some("Queried")
    ensures CoefficientFilter(rows) == rows
  {
    WhereAll(rows, KeepsCoefficient);
  }

  // ---------------------------------------------------------------- row filter and sort

  predicate NotCrowding(row: MarkerRow) {
    forall k :: 0 <= k < |row.groupMeans| ==> !Exceeds(row.groupMeans[k], CROWDING_CEILING)
  }

  /** `long_enough & detectable & not_crowding`. */
  predicate KeepsRow(row: MarkerRow) {
    && row.featureLength.Some?
    && (row.minorMean.Some? || row.majorMean.Some?)
    && NotCrowding(row)
  }

  /** The sort key of `sort_values(['Major_Name', 'Queried_Name'])`; a missing name sorts last. */
  function MergedKey(row: MarkerRow): SortKey {
    SortKey(row.majorName, row.queriedName)
  }

  /**
   * The surviving rows, sorted by (Major_Name, Queried_Name): a row survives
   * iff it has a length, has a minorclass or majorclass mean, and no group
   * mean above 100.
   */
  function FilterAndSort(rows: seq<MarkerRow>): (r: seq<MarkerRow>)
    ensures SortedByKey(r, MergedKey)
    ensures multiset(r) == multiset(Where(rows, KeepsRow))
    ensures forall row :: row in r <==>
              && row in rows
              && row.featureLength.Some?
              && (row.minorMean.Some? || row.majorMean.Some?)
              && forall k :: 0 <= k < |row.groupMeans| ==> row.groupMeans[k].None? || row.groupMeans[k].value <= 100.0
  {
    var kept := Where(rows, KeepsRow);
    var r := SortByKey(kept, MergedKey);
    assert forall row :: row in r <==> row in multiset(kept);
    assert forall row :: row in r <==> row in rows && KeepsRow(row);
    r
  }

  function KeptWithKey(k: SortKey): MarkerRow -> bool {
    (row: MarkerRow) => KeepsRow(row) && MergedKey(row) == k
  }

  /** The sort is stable: rows with equal keys keep their table order. */
  lemma FilterAndSortStable(rows: seq<MarkerRow>, k: SortKey)
    ensures Where(FilterAndSort(rows), HasKey(MergedKey, k)) == Where(rows, KeptWithKey(k))
  {
    SortByKeyStable(Where(rows, KeepsRow), MergedKey, k);
    WhereWhere(rows, KeepsRow, HasKey(MergedKey, k), KeptWithKey(k));
  }

  /** What the coefficient and minorclass-mean joins guarantee about the optional fields. */
  predicate WellJoined(row: MarkerRow) {
    && (row.featureLength.Some? ==> row.featureLength.value >= LENGTH_THRESHOLD)
    && (row.minorMean.Some? ==> row.minorMean.value >= MINOR_MEAN_FLOOR)
  }

  /** On a well-joined table the survivors are long enough and detectable. */
  lemma SurvivorsLongAndDetectable(rows: seq<MarkerRow>)
    requires forall row :: row in rows ==> WellJoined(row)
    ensures forall row :: row in FilterAndSort(rows) ==>
              && row.featureLength.value >= 960
              && ((row.minorMean.Some? && row.minorMean.value >= 4.0) || row.majorMean.Some?)
  {
  }

  // ---------------------------------------------------------------- clean_markers

  /**
   * `clean_markers`: the markers in order, skipping one already kept and one
   * that is not a var name.
   */
  function Clean(varNames: seq<string>, dirty: seq<string>): (r: seq<string>)
    ensures NoDup(r)
    ensures forall m :: m in r <==> m in dirty && m in varNames
    decreases |dirty|
  {
    if dirty == [] then []
    else
      var n := |dirty| - 1;
      var init := Clean(varNames, dirty[..n]);
      assert dirty == dirty[..n] + [dirty[n]];
      if dirty[n] in init || dirty[n] !in varNames then init else init + [dirty[n]]
  }

  /** The last marker is kept exactly when it is a var name not seen before. */
  lemma CleanLast(varNames: seq<string>, dirty: seq<string>)
    requires dirty != []
    ensures var n := |dirty| - 1;
            Clean(varNames, dirty) == Clean(varNames, dirty[..n]) + if dirty[n] !in dirty[..n] && dirty[n] in varNames then [dirty[n]] else []
  {
  }

  method CleanMarkers(varNames: seq<string>, dirtyMarkers: seq<string>) returns (finalMarkers: seq<string>)
    ensures finalMarkers == Clean(varNames, dirtyMarkers)
  {
    finalMarkers := [];
    for i := 0 to |dirtyMarkers|
      invariant finalMarkers == Clean(varNames, dirtyMarkers[..i])
    {
      var m := dirtyMarkers[i];
      assert dirtyMarkers[..i + 1][..i] == dirtyMarkers[..i];
      if m in finalMarkers {
        continue;
      }
      if m !in varNames {
        continue;
      }
      finalMarkers := finalMarkers + [m];
    }
    assert dirtyMarkers[..|dirtyMarkers|] == dirtyMarkers;
  }

  /** The positions of the markers that `clean_markers` keeps. */
  lemma {:induction false} CleanEmbedding(varNames: seq<string>, dirty: seq<string>) returns (idx: seq<int>)
    ensures Embeds(Clean(varNames, dirty), dirty, idx)
    decreases |dirty|
  {
    if dirty == [] {
      idx := [];
    } else {
      var n := |dirty| - 1;
      var init := Clean(varNames, dirty[..n]);
      var initIdx := CleanEmbedding(varNames, dirty[..n]);
      var keep := dirty[n] !in init && dirty[n] in varNames;
      assert Clean(varNames, dirty) == if keep then init + [dirty[n]] else init;
      assert dirty[..n] + [dirty[n]] == dirty;
      idx := EmbedsStep(init, dirty[..n], dirty[n], keep, initIdx);
    }
  }

  lemma CleanIsSubsequence(varNames: seq<string>, dirty: seq<string>)
    ensures IsSubsequence(Clean(varNames, dirty), dirty)
  {
    var idx := CleanEmbedding(varNames, dirty);
  }

  /** The kept markers are in the order of their first occurrences. */
  lemma {:induction false} CleanFirstOccurrenceOrder(varNames: seq<string>, dirty: seq<string>)
    ensures forall i, j :: 0 <= i < j < |Clean(varNames, dirty)| ==>
              FirstIndex(dirty, Clean(varNames, dirty)[i]) < FirstIndex(dirty, Clean(varNames, dirty)[j])
    decreases |dirty|
  {
    if dirty != [] {
      var n := |dirty| - 1;
      var init := Clean(varNames, dirty[..n]);
      CleanFirstOccurrenceOrder(varNames, dirty[..n]);
      assert dirty == dirty[..n] + [dirty[n]];
      forall y | y in init
        ensures FirstIndex(dirty, y) == FirstIndex(dirty[..n], y) < n
      {
        FirstIndexOfPrefix(dirty, n, y);
      }
      if dirty[n] !in init && dirty[n] in varNames {
        assert dirty[n] !in dirty[..n];
        assert FirstIndex(dirty, dirty[n]) == n;
      }
    }
  }

  /** A list without repeats, all of whose markers are var names, is already clean. */
  lemma {:induction false} CleanOfCleanList(varNames: seq<string>, ms: seq<string>)
    requires NoDup(ms)
    requires forall m :: m in ms ==> m in varNames
    ensures Clean(varNames, ms) == ms
    decreases |ms|
  {
    if ms != [] {
      var n := |ms| - 1;
      assert NoDup(ms[..n]);
      CleanOfCleanList(varNames, ms[..n]);
      assert ms[n] !in ms[..n];
      assert ms[..n] + [ms[n]] == ms;
    }
  }

  lemma CleanIdempotent(varNames: seq<string>, dirty: seq<string>)
    ensures Clean(varNames, Clean(varNames, dirty)) == Clean(varNames, dirty)
  {
    CleanOfCleanList(varNames, Clean(varNames, dirty));
  }

  /** The cleaned list is empty exactly when no marker is a var name. */
  lemma CleanEmptyIff(varNames: seq<string>, dirty: seq<string>)
    ensures Clean(varNames, dirty) == [] <==> forall m :: m in dirty ==> m !in varNames
  {
    NoMemberIsEmpty(Clean(varNames, dirty));
  }

  // ---------------------------------------------------------------- per-major selection

  function HasMajor(majorName: string): MarkerRow -> bool {
    (row: MarkerRow) => row.majorName == majorName
  }

  /** `is_major_marker`: the class's own markers. */
  function IsDirect(majorName: string): MarkerRow -> bool {
    (row: MarkerRow) => row.majorName == majorName && row.name == majorName
  }

  /** `is_subtype_marker`: the markers of the class's subtypes. */
  function IsSubtype(majorName: string): MarkerRow -> bool {
    (row: MarkerRow) => row.majorName == majorName && row.name != majorName
  }

  /** The `Marker` column. */
  function Markers(rows: seq<MarkerRow>): (r: seq<string>)
    ensures |r| == |rows| && forall i :: 0 <= i < |rows| ==> r[i] == rows[i].marker
  {
    seq(|rows|, i requires 0 <= i < |rows| => rows[i].marker)
  }

  /**
   * The rows behind `cell_markers + subtype_markers`: every row of the class,
   * the direct rows first and the subtype rows after them.
   */
  function ClassRows(rows: seq<MarkerRow>, majorName: string): (r: seq<MarkerRow>)
    ensures forall i :: 0 <= i < |r| ==> r[i].majorName == majorName
    ensures forall i :: 0 <= i < |r| ==> (r[i].name == majorName <==> i < |Where(rows, IsDirect(majorName))|)
  {
    var direct := Where(rows, IsDirect(majorName));
    var subtype := Where(rows, IsSubtype(majorName));
    assert forall i :: 0 <= i < |direct| ==> direct[i] in direct;
    assert forall i :: 0 <= i < |subtype| ==> subtype[i] in subtype;
    direct + subtype
  }

  /** Every row whose Major_Name is the class contributes exactly one entry. */
  lemma {:induction false} ClassRowsPartition(rows: seq<MarkerRow>, majorName: string)
    ensures multiset(ClassRows(rows, majorName)) == multiset(Where(rows, HasMajor(majorName)))
    decreases |rows|
  {
    if rows != [] {
      var n := |rows| - 1;
      ClassRowsPartition(rows[..n], majorName);
      WhereStep(rows, IsDirect(majorName));
      WhereStep(rows, IsSubtype(majorName));
      WhereStep(rows, HasMajor(majorName));
    }
  }

  /**
   * The class rows split into the direct rows and then the subtype rows,
   * and each part keeps the table order.
   */
  lemma ClassRowsKeepTableOrder(rows: seq<MarkerRow>, majorName: string)
    ensures var r, k := ClassRows(rows, majorName), |Where(rows, IsDirect(majorName))|;
            && k <= |r|
            && r[..k] == Where(rows, IsDirect(majorName))
            && r[k..] == Where(rows, IsSubtype(majorName))
            && IsSubsequence(r[..k], rows)
            && IsSubsequence(r[k..], rows)
  {
    var direct, subtype := Where(rows, IsDirect(majorName)), Where(rows, IsSubtype(majorName));
    assert (direct + subtype)[..|direct|] == direct;
    assert (direct + subtype)[|direct|..] == subtype;
    WhereIsSubsequence(rows, IsDirect(majorName));
    WhereIsSubsequence(rows, IsSubtype(majorName));
  }

  /**
   * `markers = cell_markers + subtype_markers` for `majorclass.upper()`: the
   * marker of every class row, direct rows first, each part in table order.
   */
  function ClassMarkers(rows: seq<MarkerRow>, majorclass: string): (r: seq<string>)
    ensures forall m :: m in r <==> exists row :: row in rows && row.majorName == Upper(majorclass) && row.marker == m
    ensures var classRows := ClassRows(rows, Upper(majorclass));
            |r| == |classRows| && forall i :: 0 <= i < |r| ==> r[i] == classRows[i].marker
  {
    var classRows := ClassRows(rows, Upper(majorclass));
    ClassRowsMembers(rows, Upper(majorclass));
    MarkersMembers(classRows);
    Markers(classRows)
  }

  lemma ClassRowsMembers(rows: seq<MarkerRow>, majorName: string)
    ensures forall row :: row in ClassRows(rows, majorName) <==> row in rows && row.majorName == majorName
  {
    ClassRowsPartition(rows, majorName);
    assert forall row :: row in ClassRows(rows, majorName) <==> row in multiset(ClassRows(rows, majorName));
  }

  lemma MarkersMembers(rows: seq<MarkerRow>)
    ensures forall m :: m in Markers(rows) <==> exists row :: row in rows && row.marker == m
  {
    var r := Markers(rows);
    assert forall m :: m in r ==> rows[FirstIndex(r, m)] in rows;
    assert forall row :: row in rows ==> r[FirstIndex(rows, row)] == row.marker;
  }

  /** The list handed to the dotplot for one class. */
  function ClassFinalMarkers(varNames: seq<string>, rows: seq<MarkerRow>, majorclass: string): seq<string> {
    Clean(varNames, ClassMarkers(rows, majorclass))
  }

  method ClassPlotMarkers(varNames: seq<string>, rows: seq<MarkerRow>, majorclass: string)
    returns (finalMarkers: seq<string>)
    ensures finalMarkers == ClassFinalMarkers(varNames, rows, majorclass)
    ensures NoDup(finalMarkers)
    ensures forall m :: m in finalMarkers <==>
              m in varNames && exists row :: row in rows && row.majorName == Upper(majorclass) && row.marker == m
  {
    var majorName := Upper(majorclass);
    var markers := Markers(ClassRows(rows, majorName));
    finalMarkers := CleanMarkers(varNames, markers);
  }

  /** A dotplot of one major class with its marker list. */
  datatype PlotRequest = PlotRequest(majorclass: string, markers: seq<string>)

  /** The dotplots of the loop over the major-class categories, classes without markers skipped. */
  function PlotRequests(categories: seq<string>, varNames: seq<string>, rows: seq<MarkerRow>): seq<PlotRequest>
    decreases |categories|
  {
    if categories == [] then []
    else
      var n := |categories| - 1;
      var finalMarkers := ClassFinalMarkers(varNames, rows, categories[n]);
      PlotRequests(categories[..n], varNames, rows) + (if finalMarkers == [] then [] else [PlotRequest(categories[n], finalMarkers)])
  }

  /** A class is plotted with its final list exactly when that list is not empty. */
  lemma {:induction false} PlotRequestsSkipEmpty(categories: seq<string>, varNames: seq<string>, rows: seq<MarkerRow>)
    ensures forall req :: req in PlotRequests(categories, varNames, rows) <==>
              && req.majorclass in categories
              && req.markers == ClassFinalMarkers(varNames, rows, req.majorclass)
              && req.markers != []
    decreases |categories|
  {
    if categories != [] {
      var n := |categories| - 1;
      PlotRequestsSkipEmpty(categories[..n], varNames, rows);
      assert categories == categories[..n] + [categories[n]];
    }
  }

  method PlotMarkerLists(categories: seq<string>, varNames: seq<string>, rows: seq<MarkerRow>)
    returns (requests: seq<PlotRequest>)
    ensures requests == PlotRequests(categories, varNames, rows)
  {
    requests := [];
    for i := 0 to |categories|
      invariant requests == PlotRequests(categories[..i], varNames, rows)
    {
      assert categories[..i + 1][..i] == categories[..i];
      var majorclass := categories[i];
      var finalMarkers := ClassPlotMarkers(varNames, rows, majorclass);
      if finalMarkers == [] {
        continue;
      }
      requests := requests + [PlotRequest(majorclass, finalMarkers)];
    }
    assert categories[..|categories|] == categories;
  }

  // ---------------------------------------------------------------- curated concat

  const CURATED_GROUPS: seq<string> := ["AC", "BC", "RGC", "MG", "RPE"]

  lemma CuratedGroupsNoDup()
    ensures NoDup(CURATED_GROUPS)
  {
  }

  predicate IsCurated(row: MarkerRow) {
    row.curated == Some("Curated")
  }

  /** The rows marked Curated, in table order. */
  function CuratedRows(rows: seq<MarkerRow>): (r: seq<MarkerRow>)
    ensures forall row :: row in r <==> row in rows && row.curated == Some("Curated")
  {
    Where(rows, IsCurated)
  }

  /** The rows of each group in turn. */
  function ConcatGroups(rows: seq<MarkerRow>, groups: seq<string>): (r: seq<MarkerRow>)
    ensures forall row :: row in r <==> row in rows && row.majorName in groups
    decreases |groups|
  {
    if groups == [] then []
    else Where(rows, HasMajor(groups[0])) + ConcatGroups(rows, groups[1..])
  }

  function CuratedConcat(rows: seq<MarkerRow>): (r: seq<MarkerRow>)
    ensures forall row :: row in r <==> row in rows && row.curated == Some("Curated") && row.majorName in CURATED_GROUPS
  {
    ConcatGroups(CuratedRows(rows), CURATED_GROUPS)
  }

  lemma NoDupTail(groups: seq<string>)
    requires groups != [] && NoDup(groups)
    ensures NoDup(groups[1..]) && groups[0] !in groups[1..]
  {
    forall k | 0 <= k < |groups[1..]|
      ensures groups[1..][k] != groups[0]
    {
      assert groups[1..][k] == groups[k + 1];
    }
  }

  /** Every row's Major_Name is a group, and the rows come in the order of the group list. */
  predicate Ranked(r: seq<MarkerRow>, groups: seq<string>) {
    && (forall x :: x in r ==> x.majorName in groups)
    && forall i, j :: 0 <= i < j < |r| ==> FirstIndex(groups, r[i].majorName) <= FirstIndex(groups, r[j].majorName)
  }

  lemma {:induction false} ConcatGroupsRanked(rows: seq<MarkerRow>, groups: seq<string>)
    requires NoDup(groups)
    ensures Ranked(ConcatGroups(rows, groups), groups)
    decreases |groups|
  {
    if groups != [] {
      var a := Where(rows, HasMajor(groups[0]));
      var b := ConcatGroups(rows, groups[1..]);
      NoDupTail(groups);
      ConcatGroupsRanked(rows, groups[1..]);
      forall x | x in b
        ensures FirstIndex(groups, x.majorName) == 1 + FirstIndex(groups[1..], x.majorName)
      {
        FirstIndexOfTail(groups, x.majorName);
      }
      RankedConcat(a, b, groups);
    }
  }

  /** Putting rows of the first group before rows ranked in the tail keeps the ranking. */
  lemma RankedConcat(a: seq<MarkerRow>, b: seq<MarkerRow>, groups: seq<string>)
    requires groups != []
    requires forall x :: x in a ==> x.majorName == groups[0]
    requires Ranked(b, groups[1..])
    requires forall x :: x in b ==> FirstIndex(groups, x.majorName) == 1 + FirstIndex(groups[1..], x.majorName)
    ensures Ranked(a + b, groups)
  {
    var r := a + b;
    forall i, j | 0 <= i < j < |r|
      ensures FirstIndex(groups, r[i].majorName) <= FirstIndex(groups, r[j].majorName)
    {
      if i < |a| {
        assert r[i] == a[i] && a[i] in a;
        if j < |a| {
          assert r[j] == a[j] && a[j] in a;
        } else {
          assert r[j] == b[j - |a|] && b[j - |a|] in b;
        }
      } else {
        assert r[i] == b[i - |a|] && r[j] == b[j - |a|];
        assert b[i - |a|] in b && b[j - |a|] in b;
      }
    }
  }

  /** Within one group the rows keep the table order. */
  lemma {:induction false} ConcatGroupsWithinGroup(rows: seq<MarkerRow>, groups: seq<string>, g: string)
    requires NoDup(groups) && g in groups
    ensures Where(ConcatGroups(rows, groups), HasMajor(g)) == Where(rows, HasMajor(g))
    decreases |groups|
  {
    var a := Where(rows, HasMajor(groups[0]));
    var b := ConcatGroups(rows, groups[1..]);
    NoDupTail(groups);
    WhereConcat(a, b, HasMajor(g));
    if groups[0] == g {
      WhereWhere(rows, HasMajor(g), HasMajor(g), HasMajor(g));
      WhereNone(b, HasMajor(g));
    } else {
      WhereNone(a, HasMajor(g));
      ConcatGroupsWithinGroup(rows, groups[1..], g);
    }
  }

  function CuratedOfMajor(g: string): MarkerRow -> bool {
    (row: MarkerRow) => IsCurated(row) && row.majorName == g
  }

  /**
   * The concatenation holds the curated rows of AC, BC, RGC, MG and RPE in
   * that group order, each group in table order.
   */
  lemma CuratedConcatOrder(rows: seq<MarkerRow>)
    ensures Ranked(CuratedConcat(rows), CURATED_GROUPS)
    ensures forall g :: g in CURATED_GROUPS ==> Where(CuratedConcat(rows), HasMajor(g)) == Where(rows, CuratedOfMajor(g))
  {
    CuratedGroupsNoDup();
    ConcatGroupsRanked(CuratedRows(rows), CURATED_GROUPS);
    forall g | g in CURATED_GROUPS
      ensures Where(CuratedConcat(rows), HasMajor(g)) == Where(rows, CuratedOfMajor(g))
    {
      CuratedGroupInOrder(rows, g);
    }
  }

  lemma CuratedGroupInOrder(rows: seq<MarkerRow>, g: string)
    requires g in CURATED_GROUPS
    ensures Where(CuratedConcat(rows), HasMajor(g)) == Where(rows, CuratedOfMajor(g))
  {
    CuratedGroupsNoDup();
    ConcatGroupsWithinGroup(CuratedRows(rows), CURATED_GROUPS, g);
    WhereWhere(rows, IsCurated, HasMajor(g), CuratedOfMajor(g));
  }

  // ---------------------------------------------------------------- ordered cell types

  const TRAILING_CELLTYPES: seq<string> := ["ROD", "CONE", "HC", "MICROGLIA", "ENDOTHELIAL"]

  /** The `Queried_Name` column. */
  function QueriedNames(rows: seq<MarkerRow>): (r: seq<Option<string>>)
    ensures |r| == |rows| && forall i :: 0 <= i < |rows| ==> r[i] == rows[i].queriedName
  {
    seq(|rows|, i requires 0 <= i < |rows| => rows[i].queriedName)
  }

  predicate PresentNotRGC(x: Option<string>) {
    x.Some? && x.value != "RGC"
  }

  function Values(xs: seq<Option<string>>): (r: seq<string>)
    requires forall i :: 0 <= i < |xs| ==> xs[i].Some?
    ensures |r| == |xs| && forall i :: 0 <= i < |xs| ==> xs[i] == Some(r[i])
  {
    seq(|xs|, i requires 0 <= i < |xs| => xs[i].value)
  }

  /**
   * The categories left after `drop_duplicates`, `remove_categories('RGC')`
   * and `dropna`: the distinct present names other than RGC.
   */
  function PresentNames(names: seq<Option<string>>): (r: seq<string>)
    ensures NoDup(r)
    ensures forall x :: x in r <==> x != "RGC" && Some(x) in names
  {
    var kept := Where(Dedup(names), PresentNotRGC);
    assert forall i :: 0 <= i < |kept| ==> kept[i] in kept;
    WhereNoDup(Dedup(names), PresentNotRGC);
    var r := Values(kept);
    forall x | x in r
      ensures Some(x) in kept
    {
      assert kept[FirstIndex(r, x)] == Some(x);
    }
    forall x | Some(x) in kept
      ensures x in r
    {
      assert r[FirstIndex(kept, Some(x))] == x;
    }
    r
  }

  /**
   * `ordered_celltypes`: the distinct present queried names other than RGC,
   * followed by the five fixed cell types. Removing the category RGC fails
   * when no row has that queried name.
   */
  function OrderedCelltypes(curated: seq<MarkerRow>): (r: Result<seq<string>>)
    ensures r.Ok? <==> exists row :: row in curated && row.queriedName == Some("RGC")
    ensures r.Ok? ==> |r.value| >= 5 && r.value[|r.value| - 5..] == TRAILING_CELLTYPES
    ensures r.Ok? ==> NoDup(r.value[..|r.value| - 5])
    ensures r.Ok? ==> forall x :: x in r.value[..|r.value| - 5] <==>
                        x != "RGC" && exists row :: row in curated && row.queriedName == Some(x)
  {
    var names := QueriedNames(curated);
    QueriedNamesMembers(curated);
    if Some("RGC") !in names then
      Err("ValueError: removals must all be in old categories: ['RGC']")
    else
      var prefix := PresentNames(names);
      var r := prefix + TRAILING_CELLTYPES;
      assert r[..|r| - 5] == prefix;
      Ok(r)
  }

  lemma QueriedNamesMembers(rows: seq<MarkerRow>)
    ensures forall x :: x in QueriedNames(rows) <==> exists row :: row in rows && row.queriedName == x
  {
    var names := QueriedNames(rows);
    assert forall row :: row in rows ==> names[FirstIndex(rows, row)] == row.queriedName;
    assert forall x :: x in names ==> rows[FirstIndex(names, x)] in rows;
  }

  /** The kept names come in the order of their first occurrence. */
  lemma PresentNamesFirstOccurrence(names: seq<Option<string>>)
    ensures var r := PresentNames(names);
            forall i, j :: 0 <= i < j < |r| ==> FirstIndex(names, Some(r[i])) < FirstIndex(names, Some(r[j]))
  {
    var d := Dedup(names);
    var kept := Where(d, PresentNotRGC);
    var r := PresentNames(names);
    assert r == Values(kept);
    DedupFirstOccurrenceOrder(names);
    WhereIsSubsequence(d, PresentNotRGC);
    var idx :| Embeds(kept, d, idx);
    forall i, j | 0 <= i < j < |r|
      ensures FirstIndex(names, Some(r[i])) < FirstIndex(names, Some(r[j]))
    {
      assert Some(r[i]) == kept[i] == d[idx[i]];
      assert Some(r[j]) == kept[j] == d[idx[j]];
    }
  }

  /** The queried names come in the order of their first occurrence in the curated table. */
  lemma OrderedCelltypesFirstOccurrence(curated: seq<MarkerRow>)
    requires OrderedCelltypes(curated).Ok?
    ensures var r := OrderedCelltypes(curated).value;
            forall i, j :: 0 <= i < j < |r| - 5 ==>
              FirstIndex(QueriedNames(curated), Some(r[i])) < FirstIndex(QueriedNames(curated), Some(r[j]))
  {
    var r := OrderedCelltypes(curated).value;
    var prefix := PresentNames(QueriedNames(curated));
    assert r == prefix + TRAILING_CELLTYPES;
    PresentNamesFirstOccurrence(QueriedNames(curated));
    assert forall i :: 0 <= i < |r| - 5 ==> r[i] == prefix[i];
  }
}
