/**
 * Subtype marker determination (scripts/3.1_Marker_Expression.py): for one
 * major class, the regression genes that are long enough, detectable and not
 * crowded, looked up and ordered by class and subtype, then merged with the
 * major-class markers into one duplicate-free list.
 */
module MarkerExpression {
  import opened Optional
  import opened Seqs
  import opened Order

  /** Default transcript-length threshold of the genomic filter. */
  const LENGTH_THRESHOLD: int := 960
  /** Detection floor: a gene must reach this mean in some group. */
  const COUNT_LOWCLUSTER: real := 4.0
  /** Detection ceiling: a gene over this mean in any group crowds the assay. */
  const COUNT_HIGHCLUSTER: real := 100.0

  /** A row of a class's one-vs-rest regression table, indexed by `Gene`. */
  datatype RegressionRow = RegressionRow(gene: string, coefficient: real, majorName: string, name: string)

  /** A gene of the expression matrix (`adata.var`). */
  datatype GeneVar = GeneVar(featureName: string, featureLength: int)

  /** A row of the majorclass candidate table. */
  datatype MajorCandidate = MajorCandidate(marker: string, name: string)

  /** The `Gene` column. */
  function Genes(rows: seq<RegressionRow>): (r: seq<string>)
    ensures |r| == |rows| && forall i :: 0 <= i < |rows| ==> r[i] == rows[i].gene
  {
    seq(|rows|, i requires 0 <= i < |rows| => rows[i].gene)
  }

  /** The `feature_name` column. */
  function FeatureNames(vars: seq<GeneVar>): (r: seq<string>)
    ensures |r| == |vars| && forall i :: 0 <= i < |vars| ==> r[i] == vars[i].featureName
  {
    seq(|vars|, i requires 0 <= i < |vars| => vars[i].featureName)
  }

  predicate PositiveCoefficient(row: RegressionRow) {
    row.coefficient > 0.0
  }

  /**
   * `get_top_coefficient_genes`: the regression rows with a positive
   * coefficient, except for Microglia, whose table is kept whole.
   */
  function TopCoefficientGenes(table: seq<RegressionRow>, majorclass: string): (r: seq<RegressionRow>)
    ensures majorclass == "Microglia" ==> r == table
    ensures majorclass != "Microglia" ==> forall row :: row in r <==> row in table && row.coefficient > 0.0
  {
    if majorclass != "Microglia" then Where(table, PositiveCoefficient) else table
  }

  lemma TopCoefficientGenesKeepOrder(table: seq<RegressionRow>, majorclass: string)
    ensures IsSubsequence(TopCoefficientGenes(table, majorclass), table)
    ensures forall row :: multiset(TopCoefficientGenes(table, majorclass))[row] ==
              if majorclass == "Microglia" || row.coefficient > 0.0 then multiset(table)[row] else 0
  {
    if majorclass != "Microglia" {
      WhereIsSubsequence(table, PositiveCoefficient);
      WhereCount(table, PositiveCoefficient);
    } else {
      assert Embeds(table, table, seq(|table|, i => i));
    }
  }

  /**
   * `filter_gene_by_genomics`: the var names that occur in the regression's
   * Gene column and whose feature length reaches the threshold, in var order.
   */
  function GenomicsCandidates(vars: seq<GeneVar>, top: seq<RegressionRow>, lengthThreshold: int): (r: seq<string>)
    ensures forall g :: g in r <==>
              g in Genes(top) && exists v :: v in vars && v.featureName == g && v.featureLength >= lengthThreshold
  {
    var genes := Genes(top);
    var mask := seq(|vars|, i requires 0 <= i < |vars| =>
                      vars[i].featureName in genes && vars[i].featureLength >= lengthThreshold);
    var r := Select(FeatureNames(vars), mask);
    assert forall v :: v in vars ==> exists i :: 0 <= i < |vars| && vars[i] == v;
    r
  }

  lemma GenomicsCandidatesInVarOrder(vars: seq<GeneVar>, top: seq<RegressionRow>, lengthThreshold: int)
    ensures IsSubsequence(GenomicsCandidates(vars, top, lengthThreshold), FeatureNames(vars))
  {
    var genes := Genes(top);
    var mask := seq(|vars|, i requires 0 <= i < |vars| =>
                      vars[i].featureName in genes && vars[i].featureLength >= lengthThreshold);
    SelectIsSubsequence(FeatureNames(vars), mask);
  }

  /** Column `j` reaches the floor in at least one group (row). */
  predicate Detectable(means: seq<seq<real>>, j: nat, low: real)
    requires forall i :: 0 <= i < |means| ==> j < |means[i]|
  {
    exists i :: 0 <= i < |means| && means[i][j] >= low
  }

  /** Column `j` exceeds the ceiling in at least one group (row). */
  predicate Crowded(means: seq<seq<real>>, j: nat, high: real)
    requires forall i :: 0 <= i < |means| ==> j < |means[i]|
  {
    exists i :: 0 <= i < |means| && means[i][j] > high
  }

  /**
   * `filter_gene_by_expression`: the raw var names of the columns of the
   * group-by-gene mean table that are detectable and not crowded. The table
   * is rectangular with one column per raw var (the mask is applied to the
   * raw var names by position).
   */
  function ExpressionCandidates(rawNames: seq<string>, means: seq<seq<real>>, low: real, high: real): (r: seq<string>)
    requires forall i :: 0 <= i < |means| ==> |means[i]| == |rawNames|
    ensures forall g :: g in r <==>
              exists j :: 0 <= j < |rawNames| && rawNames[j] == g && Detectable(means, j, low) && !Crowded(means, j, high)
    ensures forall g :: g in r ==>
              exists j :: 0 <= j < |rawNames| && rawNames[j] == g && forall i :: 0 <= i < |means| ==> means[i][j] <= high
  {
    var mask := seq(|rawNames|, j requires 0 <= j < |rawNames| =>
                      Detectable(means, j, low) && !Crowded(means, j, high));
    Select(rawNames, mask)
  }

  lemma ExpressionCandidatesInVarOrder(rawNames: seq<string>, means: seq<seq<real>>, low: real, high: real)
    requires forall i :: 0 <= i < |means| ==> |means[i]| == |rawNames|
    ensures IsSubsequence(ExpressionCandidates(rawNames, means, low, high), rawNames)
  {
    var mask := seq(|rawNames|, j requires 0 <= j < |rawNames| =>
                      Detectable(means, j, low) && !Crowded(means, j, high));
    SelectIsSubsequence(rawNames, mask);
  }

  /** With the floor above the ceiling every detectable gene is crowded, so nothing is returned. */
  lemma ExpressionCandidatesEmptyWhenFloorAboveCeiling(rawNames: seq<string>, means: seq<seq<real>>, low: real, high: real)
    requires forall i :: 0 <= i < |means| ==> |means[i]| == |rawNames|
    requires low > high
    ensures ExpressionCandidates(rawNames, means, low, high) == []
  {
    forall j: nat | j < |rawNames| && Detectable(means, j, low)
      ensures Crowded(means, j, high)
    {
      var i :| 0 <= i < |means| && means[i][j] >= low;
      assert means[i][j] > high;
    }
    NoMemberIsEmpty(ExpressionCandidates(rawNames, means, low, high));
  }

  predicate IsIn(names: seq<string>, g: string) {
    g in names
  }

  /** `np.intersect1d`: the genes of both lists, sorted and without repeats. */
  function Intersect1d(a: seq<string>, b: seq<string>): (r: seq<string>)
    ensures StrictlyAscending(r)
    ensures forall g :: g in r <==> g in a && g in b
  {
    SortedUnique(Where(a, g => IsIn(b, g)))
  }

  /** The intersection does not depend on which list comes first. */
  lemma Intersect1dCommutes(a: seq<string>, b: seq<string>)
    ensures Intersect1d(a, b) == Intersect1d(b, a)
  {
    AscendingUnique(Intersect1d(a, b), Intersect1d(b, a));
  }

  function HasGene(g: string): RegressionRow -> bool {
    (row: RegressionRow) => row.gene == g
  }

  /** For every label, `rows` holds exactly the table's rows of that gene, in table order. */
  ghost predicate GroupedByLabel(rows: seq<RegressionRow>, table: seq<RegressionRow>, labels: seq<string>) {
    forall g :: g in labels ==> Where(rows, HasGene(g)) == Where(table, HasGene(g))
  }

  /** Every row's gene is a label, and rows of an earlier label come before rows of a later one. */
  ghost predicate LabelOrdered(rows: seq<RegressionRow>, labels: seq<string>) {
    && (forall row :: row in rows ==> row.gene in labels)
    && forall i, j :: 0 <= i < j < |rows| ==> FirstIndex(labels, rows[i].gene) <= FirstIndex(labels, rows[j].gene)
  }

  /**
   * `table.loc[labels]` on the Gene index: for each label in turn, every row
   * with that gene in table order; a label with no row raises KeyError.
   */
  function Loc(table: seq<RegressionRow>, labels: seq<string>): (r: Result<seq<RegressionRow>>)
    ensures r.Ok? <==> forall g :: g in labels ==> g in Genes(table)
    ensures r.Ok? ==> forall row :: row in r.value <==> row in table && row.gene in labels
    ensures r.Ok? && NoDup(labels) ==> GroupedByLabel(r.value, table, labels) && LabelOrdered(r.value, labels)
    decreases |labels|
  {
    if labels == [] then Ok([])
    else
      var n := |labels| - 1;
      assert labels == labels[..n] + [labels[n]];
      var rows := Where(table, HasGene(labels[n]));
      assert rows != [] <==> labels[n] in Genes(table) by {
        if labels[n] in Genes(table) {
          var i :| 0 <= i < |table| && Genes(table)[i] == labels[n];
          assert table[i] in rows;
        }
        if rows != [] {
          assert rows[0] in rows;
          var i :| 0 <= i < |table| && table[i] == rows[0];
          assert Genes(table)[i] == labels[n];
        }
      }
      match Loc(table, labels[..n])
      case Err(e) => Err(e)
      case Ok(init) =>
        if rows == [] then Err("KeyError: " + labels[n] + " not in index")
        else
          LocExtend(table, labels, init);
          Ok(init + rows)
  }

  /** One label more: the rows of the new label go after those of the earlier ones. */
  lemma LocExtend(table: seq<RegressionRow>, labels: seq<string>, init: seq<RegressionRow>)
    requires labels != []
    requires forall row :: row in init ==> row.gene in labels[..|labels| - 1]
    requires NoDup(labels[..|labels| - 1]) ==>
               GroupedByLabel(init, table, labels[..|labels| - 1]) && LabelOrdered(init, labels[..|labels| - 1])
    ensures NoDup(labels) ==>
              var rows := Where(table, HasGene(labels[|labels| - 1]));
              GroupedByLabel(init + rows, table, labels) && LabelOrdered(init + rows, labels)
  {
    if NoDup(labels) {
      assert NoDup(labels[..|labels| - 1]);
      LocExtendGrouped(table, labels, init);
      LocExtendOrdered(table, labels, init);
    }
  }

  lemma LocExtendGrouped(table: seq<RegressionRow>, labels: seq<string>, init: seq<RegressionRow>)
    requires labels != [] && NoDup(labels)
    requires forall row :: row in init ==> row.gene in labels[..|labels| - 1]
    requires GroupedByLabel(init, table, labels[..|labels| - 1])
    ensures GroupedByLabel(init + Where(table, HasGene(labels[|labels| - 1])), table, labels)
  {
    var n := |labels| - 1;
    var front, g0 := labels[..n], labels[n];
    assert labels == front + [g0];
    assert g0 !in front;
    forall g | g in labels
      ensures Where(init + Where(table, HasGene(g0)), HasGene(g)) == Where(table, HasGene(g))
    {
      LocGroupStep(table, front, g0, init, g);
    }
  }

  /** The rows of one label `g` after appending the rows of a new label `g0`. */
  lemma LocGroupStep(table: seq<RegressionRow>, front: seq<string>, g0: string, init: seq<RegressionRow>, g: string)
    requires g0 !in front && (g == g0 || g in front)
    requires forall row :: row in init ==> row.gene in front
    requires g in front ==> Where(init, HasGene(g)) == Where(table, HasGene(g))
    ensures Where(init + Where(table, HasGene(g0)), HasGene(g)) == Where(table, HasGene(g))
  {
    var rows := Where(table, HasGene(g0));
    WhereConcat(init, rows, HasGene(g));
    if g == g0 {
      WhereNone(init, HasGene(g0));
      WhereWhere(table, HasGene(g0), HasGene(g0), HasGene(g0));
    } else {
      WhereNone(rows, HasGene(g));
    }
  }

  lemma LocExtendOrdered(table: seq<RegressionRow>, labels: seq<string>, init: seq<RegressionRow>)
    requires labels != [] && NoDup(labels)
    requires LabelOrdered(init, labels[..|labels| - 1])
    ensures LabelOrdered(init + Where(table, HasGene(labels[|labels| - 1])), labels)
  {
    var n := |labels| - 1;
    var front, g0 := labels[..n], labels[n];
    var rows := Where(table, HasGene(g0));
    assert FirstIndex(labels, g0) == n;
    forall row | row in init
      ensures FirstIndex(labels, row.gene) == FirstIndex(front, row.gene) < n
    {
      FirstIndexOfPrefix(labels, n, row.gene);
    }
    var all := init + rows;
    forall row | row in all
      ensures row.gene in labels
    {
      if row in init {
        assert row.gene in front;
      }
    }
    forall i, j | 0 <= i < j < |all|
      ensures FirstIndex(labels, all[i].gene) <= FirstIndex(labels, all[j].gene)
    {
      if j < |init| {
        assert all[i] == init[i] && all[j] == init[j];
      } else if i < |init| {
        assert all[i] in init && all[j] in rows;
      } else {
        assert all[i] in rows && all[j] in rows;
      }
    }
  }

  /** The sort key of `sort_values(['Major_Name', 'Name'])`. */
  function RegressionKey(row: RegressionRow): SortKey {
    SortKey(row.majorName, Some(row.name))
  }

  /**
   * The regression rows of the final candidates, looked up label by label
   * and then stably sorted by (Major_Name, Name): rows sharing a key keep
   * the order the lookup gave them.
   */
  function OrderedMarkers(top: seq<RegressionRow>, finalCandidates: seq<string>): (r: Result<seq<RegressionRow>>)
    ensures r.Ok? <==> forall g :: g in finalCandidates ==> g in Genes(top)
    ensures r.Ok? ==> SortedByKey(r.value, RegressionKey)
    ensures r.Ok? ==> forall row :: row in r.value <==> row in top && row.gene in finalCandidates
    ensures r.Ok? ==> multiset(r.value) == multiset(Loc(top, finalCandidates).value)
    ensures r.Ok? ==> forall k :: Where(r.value, HasKey(RegressionKey, k)) == Where(Loc(top, finalCandidates).value, HasKey(RegressionKey, k))
  {
    match Loc(top, finalCandidates)
    case Err(e) => Err(e)
    case Ok(rows) =>
      var sorted := SortByKey(rows, RegressionKey);
      assert forall row :: row in sorted <==> row in multiset(rows);
      SortByKeyStableAll(rows, RegressionKey);
      Ok(sorted)
  }

  /** The lookup cannot miss: every final candidate passed the genomic filter, so it is a Gene of the table. */
  lemma LookupCannotMiss(vars: seq<GeneVar>, top: seq<RegressionRow>, lengthThreshold: int, expressionCandidates: seq<string>)
    ensures OrderedMarkers(top, Intersect1d(GenomicsCandidates(vars, top, lengthThreshold), expressionCandidates)).Ok?
  {
  }

  function NamedAfter(majorclass: string): MajorCandidate -> bool {
    (row: MajorCandidate) => row.name == majorclass
  }

  /** The `Marker`s of the majorclass candidates named after the class, in table order. */
  function CellMarkers(majorTable: seq<MajorCandidate>, majorclass: string): (r: seq<string>)
    ensures forall m :: m in r <==> exists row :: row in majorTable && row.name == majorclass && row.marker == m
    ensures var rows := Where(majorTable, NamedAfter(majorclass));
            |r| == |rows| && forall i :: 0 <= i < |r| ==> r[i] == rows[i].marker
  {
    var rows := Where(majorTable, NamedAfter(majorclass));
    var r := seq(|rows|, i requires 0 <= i < |rows| => rows[i].marker);
    CellMarkersMembers(majorTable, majorclass, rows, r);
    r
  }

  lemma CellMarkersMembers(majorTable: seq<MajorCandidate>, majorclass: string, rows: seq<MajorCandidate>, r: seq<string>)
    requires rows == Where(majorTable, NamedAfter(majorclass))
    requires |r| == |rows| && forall i :: 0 <= i < |r| ==> r[i] == rows[i].marker
    ensures forall m :: m in r <==> exists row :: row in majorTable && row.name == majorclass && row.marker == m
  {
    forall m | m in r
      ensures exists row :: row in majorTable && row.name == majorclass && row.marker == m
    {
      var i := FirstIndex(r, m);
      assert rows[i] in rows;
    }
    forall row | row in majorTable && row.name == majorclass
      ensures row.marker in r
    {
      assert row in rows;
      assert r[FirstIndex(rows, row)] == row.marker;
    }
  }

  /**
   * The subtype markers as written: indexing the ordered-marker table with
   * the boolean table of `isin(subtypes)` masks values and keeps every row,
   * so the subtype markers are the whole Gene index of the ordered markers,
   * row by row.
   */
  function SubtypeMarkers(ordered: seq<RegressionRow>): (r: seq<string>)
    ensures forall g :: g in r <==> exists row :: row in ordered && row.gene == g
    ensures |r| == |ordered| && forall i :: 0 <= i < |r| ==> r[i] == ordered[i].gene
  {
    var r := Genes(ordered);
    assert forall row :: row in ordered ==> exists i :: 0 <= i < |ordered| && ordered[i] == row;
    r
  }

  /**
   * `merge_major_minor_markers`: the cell markers followed by the subtype
   * markers, each kept at its first occurrence.
   */
  method MergeMajorMinorMarkers(majorTable: seq<MajorCandidate>, ordered: seq<RegressionRow>, majorclass: string)
    returns (uniqueMarkers: seq<string>)
    ensures uniqueMarkers == Dedup(CellMarkers(majorTable, majorclass) + SubtypeMarkers(ordered))
  {
    var markers := CellMarkers(majorTable, majorclass) + SubtypeMarkers(ordered);
    uniqueMarkers := [];
    for i := 0 to |markers|
      invariant uniqueMarkers == Dedup(markers[..i])
    {
      var m := markers[i];
      assert markers[..i + 1][..i] == markers[..i];
      DedupLast(markers[..i + 1]);
      if m !in uniqueMarkers {
        uniqueMarkers := uniqueMarkers + [m];
      }
    }
    assert markers[..|markers|] == markers;
  }

  /**
   * The merged list has no repeats, holds exactly the cell and subtype
   * markers, and puts every cell marker before every marker found only among
   * the subtype markers.
   */
  lemma MergedMarkersOrder(majorTable: seq<MajorCandidate>, ordered: seq<RegressionRow>, majorclass: string)
    ensures var cell := CellMarkers(majorTable, majorclass);
            var r := Dedup(cell + SubtypeMarkers(ordered));
            && NoDup(r)
            && (forall m :: m in r <==> m in cell || m in SubtypeMarkers(ordered))
            && (forall i, j :: 0 <= i < |r| && 0 <= j < |r| && r[i] in cell && r[j] !in cell ==> i < j)
  {
    DedupKeepsPrefixFirst(CellMarkers(majorTable, majorclass), SubtypeMarkers(ordered));
  }

  /**
   * The per-class step of the marker-expression loop: regression rows, genomic and
   * expression filters, intersection, lookup and sort, and the merged list.
   * `groupMeans` holds the minorclass mean rows of the class's subtypes.
   */
  method ProcessMajorClass(majorclass: string, regression: seq<RegressionRow>, vars: seq<GeneVar>,
                           rawNames: seq<string>, groupMeans: seq<seq<real>>, majorTable: seq<MajorCandidate>)
    returns (ordered: seq<RegressionRow>, markers: seq<string>)
    requires forall i :: 0 <= i < |groupMeans| ==> |groupMeans[i]| == |rawNames|
    ensures SortedByKey(ordered, RegressionKey)
    ensures forall row :: row in ordered <==>
              && row in TopCoefficientGenes(regression, majorclass)
              && row.gene in GenomicsCandidates(vars, TopCoefficientGenes(regression, majorclass), LENGTH_THRESHOLD)
              && row.gene in ExpressionCandidates(rawNames, groupMeans, COUNT_LOWCLUSTER, COUNT_HIGHCLUSTER)
    ensures ordered == OrderedMarkers(TopCoefficientGenes(regression, majorclass),
                                      Intersect1d(GenomicsCandidates(vars, TopCoefficientGenes(regression, majorclass), LENGTH_THRESHOLD),
                                                  ExpressionCandidates(rawNames, groupMeans, COUNT_LOWCLUSTER, COUNT_HIGHCLUSTER))).value
    ensures markers == Dedup(CellMarkers(majorTable, majorclass) + SubtypeMarkers(ordered))
    ensures NoDup(markers)
    ensures forall m :: m in markers <==>
              m in CellMarkers(majorTable, majorclass) || exists row :: row in ordered && row.gene == m
  {
    var top := TopCoefficientGenes(regression, majorclass);
    var genomicsCandidates := GenomicsCandidates(vars, top, LENGTH_THRESHOLD);
    var expressionCandidates := ExpressionCandidates(rawNames, groupMeans, COUNT_LOWCLUSTER, COUNT_HIGHCLUSTER);
    var finalCandidates := Intersect1d(genomicsCandidates, expressionCandidates);
    LookupCannotMiss(vars, top, LENGTH_THRESHOLD, expressionCandidates);
    ordered := OrderedMarkers(top, finalCandidates).value;
    markers := MergeMajorMinorMarkers(majorTable, ordered, majorclass);
  }
}
