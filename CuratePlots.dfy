/**
 * Marker lists for the curated-only dotplots
 * (scripts/curate_filtered_logisticRegression_Marker_plots.py): the same
 * per-class selection as the merged-marker script, deduplicated and then
 * restricted to the var names in two separate passes.
 */
module CuratePlots {
  import opened Optional
  import opened Seqs
  import opened Labels
  import opened FilterMerged

  /** After the Curated-column filter the table holds exactly its Curated rows, in table order. */
  lemma CuratedOnlyRows(table: seq<MarkerRow>)
    ensures IsSubsequence(CuratedRows(table), table)
    ensures forall row :: row in CuratedRows(table) <==> row in table && row.curated == Some("Curated")
    ensures forall row :: multiset(CuratedRows(table))[row] ==
              if row.curated == Some("Curated") then multiset(table)[row] else 0
  {
    WhereIsSubsequence(table, IsCurated);
    WhereCount(table, IsCurated);
  }

  /** The `Name` column. */
  function Names(rows: seq<MarkerRow>): (r: seq<string>)
    ensures |r| == |rows| && forall i :: 0 <= i < |rows| ==> r[i] == rows[i].name
  {
    seq(|rows|, i requires 0 <= i < |rows| => rows[i].name)
  }

  /** `marker2type`: the Name of each row behind `markers`. */
  function MarkerTypes(rows: seq<MarkerRow>, majorclass: string): seq<string> {
    Names(ClassRows(rows, Upper(majorclass)))
  }

  /**
   * `markers` and `marker2type` are aligned: entry i of both comes from one
   * row of the class, and the class's own name leads, exactly over the cell
   * markers.
   */
  lemma MarkerTypesAligned(rows: seq<MarkerRow>, majorclass: string)
    ensures var markers := ClassMarkers(rows, majorclass);
            var types := MarkerTypes(rows, majorclass);
            var cellCount := |Where(rows, IsDirect(Upper(majorclass)))|;
            && |markers| == |types|
            && (forall i :: 0 <= i < |markers| ==>
                  exists row :: row in rows && row.majorName == Upper(majorclass) && row.marker == markers[i] && row.name == types[i])
            && (forall i :: 0 <= i < |types| ==> (types[i] == Upper(majorclass) <==> i < cellCount))
  {
    var majorName := Upper(majorclass);
    var classRows := ClassRows(rows, majorName);
    ClassRowsPartition(rows, majorName);
    forall i | 0 <= i < |classRows|
      ensures classRows[i] in rows
    {
      assert classRows[i] in multiset(Where(rows, HasMajor(majorName)));
    }
  }

  /** The loop that collects the unique markers of a class. */
  method UniqueMarkers(markers: seq<string>) returns (uniqueMarkers: seq<string>)
    ensures uniqueMarkers == Dedup(markers)
  {
    uniqueMarkers := [];
    for i := 0 to |markers|
      invariant uniqueMarkers == Dedup(markers[..i])
    {
      var m := markers[i];
      assert markers[..i + 1][..i] == markers[..i];
      DedupLast(markers[..i + 1]);
      if m !in uniqueMarkers {
        uniqueMarkers := uniqueMarkers + [m];
      }
    }
    assert markers[..|markers|] == markers;
  }

  function InVarNames(varNames: seq<string>): string -> bool {
    m => m in varNames
  }

  /** The loop that keeps the markers that are var names. */
  method KeepVarNames(uniqueMarkers: seq<string>, varNames: seq<string>) returns (finalMarkers: seq<string>)
    ensures finalMarkers == Where(uniqueMarkers, InVarNames(varNames))
  {
    finalMarkers := [];
    for i := 0 to |uniqueMarkers|
      invariant finalMarkers == Where(uniqueMarkers[..i], InVarNames(varNames))
    {
      var m := uniqueMarkers[i];
      WhereStep(uniqueMarkers[..i + 1], InVarNames(varNames));
      assert uniqueMarkers[..i + 1][..i] == uniqueMarkers[..i];
      if m in varNames {
        finalMarkers := finalMarkers + [m];
      }
    }
    assert uniqueMarkers[..|uniqueMarkers|] == uniqueMarkers;
  }

  /** Deduplicating and then keeping the var names is `clean_markers` in one pass. */
  lemma {:induction false} TwoPassIsClean(varNames: seq<string>, markers: seq<string>)
    ensures Where(Dedup(markers), InVarNames(varNames)) == Clean(varNames, markers)
    decreases |markers|
  {
    if markers != [] {
      var n := |markers| - 1;
      var m := markers[n];
      var step := if m in markers[..n] then [] else [m];
      TwoPassIsClean(varNames, markers[..n]);
      DedupLast(markers);
      CleanLast(varNames, markers);
      WhereConcat(Dedup(markers[..n]), step, InVarNames(varNames));
      if m !in markers[..n] {
        WhereSingleton(m, InVarNames(varNames));
      }
    }
  }

  /** The final list of one class: the dedup loop, then the var-name loop. */
  method CurateClass(varNames: seq<string>, rows: seq<MarkerRow>, majorclass: string)
    returns (finalMarkers: seq<string>)
    ensures finalMarkers == ClassFinalMarkers(varNames, rows, majorclass)
  {
    var majorName := Upper(majorclass);
    var markers := Markers(ClassRows(rows, majorName));
    var uniqueMarkers := UniqueMarkers(markers);
    finalMarkers := KeepVarNames(uniqueMarkers, varNames);
    TwoPassIsClean(varNames, markers);
  }

  /**
   * The loop over the major-class categories on the curated table: the
   * dotplots it draws are those of the merged-marker script's loop on the
   * Curated rows, classes with an empty list skipped.
   */
  method CuratePlotLists(categories: seq<string>, varNames: seq<string>, table: seq<MarkerRow>)
    returns (requests: seq<PlotRequest>)
    ensures requests == PlotRequests(categories, varNames, CuratedRows(table))
  {
    var rows := CuratedRows(table);
    requests := [];
    for i := 0 to |categories|
      invariant requests == PlotRequests(categories[..i], varNames, rows)
    {
      assert categories[..i + 1][..i] == categories[..i];
      var majorclass := categories[i];
      var finalMarkers := CurateClass(varNames, rows, majorclass);
      if finalMarkers == [] {
        continue;
      }
      requests := requests + [PlotRequest(majorclass, finalMarkers)];
    }
    assert categories[..|categories|] == categories;
  }
}
