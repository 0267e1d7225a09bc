/**
 * Cell-type labels: marking the cells of a subtyped major class that carry no
 * subtype, and the ASCII upper-casing used to match class names.
 */
module Labels {

  /** The major classes whose cells without a subtype are labelled with the class name itself. */
  const SUBTYPED_CLASSES: seq<string> := ["AC", "BC", "Microglia", "RGC"]

  const UNASSIGNED_PREFIX: string := "Unassigned_"

  /**
   * The new `author_cell_type` of a cell: a cellType equal to the cell's major
   * class, for a subtyped class, becomes "Unassigned_" + cellType.
   */
  function UnassignedLabel(cellType: string, majorclass: string): (r: string)
    ensures r != cellType <==> cellType == majorclass && cellType in SUBTYPED_CLASSES
    ensures r != cellType ==> r == UNASSIGNED_PREFIX + cellType
  {
    if cellType == majorclass && cellType in SUBTYPED_CLASSES then UNASSIGNED_PREFIX + cellType else cellType
  }

  /** A relabelled cellType is never relabelled again. */
  lemma UnassignedLabelIdempotent(cellType: string, majorclass: string)
    ensures UnassignedLabel(UnassignedLabel(cellType, majorclass), majorclass) == UnassignedLabel(cellType, majorclass)
  {
    var r := UnassignedLabel(cellType, majorclass);
    if r != cellType {
      assert |r| > 9;
      assert r !in SUBTYPED_CLASSES;
    }
  }

  /**
   * The relabelling of the minorclass mean table's rows: every cellType of a
   * subtyped class is marked, with no comparison to a major class.
   */
  function UnassignedGroupLabel(cellType: string): (r: string)
    ensures r != cellType <==> cellType in SUBTYPED_CLASSES
    ensures r != cellType ==> r == UNASSIGNED_PREFIX + cellType
  {
    if cellType in SUBTYPED_CLASSES then UNASSIGNED_PREFIX + cellType else cellType
  }

  lemma UnassignedGroupLabelIdempotent(cellType: string)
    ensures UnassignedGroupLabel(UnassignedGroupLabel(cellType)) == UnassignedGroupLabel(cellType)
  {
    var r := UnassignedGroupLabel(cellType);
    if r != cellType {
      assert |r| > 9;
      assert r !in SUBTYPED_CLASSES;
    }
  }

  /** The two relabellings agree exactly on the cells whose cellType is their major class. */
  lemma UnassignedLabelsAgree(cellType: string, majorclass: string)
    ensures UnassignedLabel(cellType, majorclass) == if cellType == majorclass then UnassignedGroupLabel(cellType) else cellType
  {
  }

  /** The per-cell annotation table (`adata.obs`): major class and cell-type cellType per cell. */
  class CellObs {
    var majorclass: seq<string>
    var authorCellType: seq<string>

    ghost predicate Valid()
      reads this
    {
      |majorclass| == |authorCellType|
    }

    constructor (majorclass: seq<string>, authorCellType: seq<string>)
      requires |majorclass| == |authorCellType|
      ensures Valid()
      ensures this.majorclass == majorclass && this.authorCellType == authorCellType
    {
      this.majorclass := majorclass;
      this.authorCellType := authorCellType;
    }

    /** Relabel, in place, every cell whose cellType is its subtyped major class. */
    method MarkUnassigned()
      requires Valid()
      modifies this
      ensures Valid()
      ensures majorclass == old(majorclass) && |authorCellType| == |old(authorCellType)|
      ensures forall i :: 0 <= i < |authorCellType| ==>
                authorCellType[i] == UnassignedLabel(old(authorCellType)[i], majorclass[i])
    {
      var labels, majors := authorCellType, majorclass;
      authorCellType := seq(|labels|, i requires 0 <= i < |labels| => UnassignedLabel(labels[i], majors[i]));
    }
  }

  /** The row labels (`author_cell_type`) of the minorclass mean-expression table. */
  class MinorMeanTable {
    var authorCellType: seq<string>

    constructor (authorCellType: seq<string>)
      ensures this.authorCellType == authorCellType
    {
      this.authorCellType := authorCellType;
    }

    /** Relabel, in place, every row labelled with a subtyped class name. */
    method MarkUnassigned()
      modifies this
      ensures |authorCellType| == |old(authorCellType)|
      ensures forall i :: 0 <= i < |authorCellType| ==>
                authorCellType[i] == UnassignedGroupLabel(old(authorCellType)[i])
    {
      var labels := authorCellType;
      authorCellType := seq(|labels|, i requires 0 <= i < |labels| => UnassignedGroupLabel(labels[i]));
    }
  }

  /** ASCII upper-casing of one character, the part of `str.upper` this model covers. */
  function UpperChar(c: char): char {
    if 'a' <= c <= 'z' then (c as int - 32) as char else c
  }

  function Upper(s: string): (r: string)
    ensures |r| == |s|
    ensures forall i :: 0 <= i < |r| ==> !('a' <= r[i] <= 'z')
    ensures forall i :: 0 <= i < |s| && 'a' <= s[i] <= 'z' ==> r[i] as int == s[i] as int - ('a' as int - 'A' as int)
    ensures forall i :: 0 <= i < |s| && !('a' <= s[i] <= 'z') ==> r[i] == s[i]
  {
    seq(|s|, i requires 0 <= i < |s| => UpperChar(s[i]))
  }

  lemma UpperIdempotent(s: string)
    ensures Upper(Upper(s)) == Upper(s)
  {
  }
}
