/** The data shaping of the volcano-plot (differential expression) view: the ids of the
    two selected sets, their names, their expression rows cut out of the row-major matrix,
    the plotted records, and the condition under which the analysis is requested. */
module DegSubscriber {
  import opened Common
  import opened SetTree
  import opened PathResolver

  // ---------------------------------------------------------------------------
  // [cellSet1, cellSet2]

  /** The ids of the two compared sets. */
  datatype CellSetPair = CellSetPair(group1: seq<CellId>, group2: seq<CellId>)

  /** Lines 63-102: both lists empty unless exactly two paths are selected and the
      membership map is present; otherwise each path resolved on its own. */
  function SelectedCellSets(selection: Option<seq<Path>>, membership: Option<seq<MembershipEntry>>,
                            tree: Option<seq<Node>>, norm: string -> string): (r: CellSetPair)
    ensures !(selection.Some? && |selection.value| == 2 && membership.Some?) ==> r == CellSetPair([], [])
    ensures selection.Some? && |selection.value| == 2 && membership.Some? ==>
              r.group1 == CellsFromPath(selection.value[0], membership.value, tree, norm) &&
              r.group2 == CellsFromPath(selection.value[1], membership.value, tree, norm)
  {
    if selection.None? || |selection.value| != 2 || membership.None? then CellSetPair([], [])
    else
      var paths := selection.value;
      CellSetPair(CellsFromPath(paths[0], membership.value, tree, norm),
                  CellsFromPath(paths[1], membership.value, tree, norm))
  }

  // ---------------------------------------------------------------------------
  // selectedCellGroups

  /** `path[path.length - 1]`, which is `undefined` for an empty path. */
  function LastSegment(path: Path): (r: Option<string>)
    ensures r.None? <==> |path| == 0
    ensures r.Some? ==> r.value == path[|path| - 1]
  {
    if |path| == 0 then None else Some(path[|path| - 1])
  }

  /** Lines 105-110: the last segment of each of two selected paths, else nothing. */
  function SelectedCellGroups(selection: Option<seq<Path>>): (r: seq<Option<string>>)
    ensures selection.Some? && |selection.value| == 2 ==>
              |r| == 2 && r[0] == LastSegment(selection.value[0]) && r[1] == LastSegment(selection.value[1])
    ensures !(selection.Some? && |selection.value| == 2) ==> r == []
  {
    if selection.Some? && |selection.value| == 2 then
      [LastSegment(selection.value[0]), LastSegment(selection.value[1])]
    else []
  }

  // ---------------------------------------------------------------------------
  // filteredExpressionData

  /** `ids.map(id => obsIndex.indexOf(id)).filter(index => index !== -1)`. */
  function FoundIndices(ids: seq<CellId>, obsIndex: seq<CellId>): (r: seq<nat>)
    ensures |r| <= |ids|
    ensures forall j :: 0 <= j < |r| ==> r[j] < |obsIndex|
  {
    if |ids| == 0 then []
    else
      var init := FoundIndices(ids[..|ids| - 1], obsIndex);
      var n := IndexOf(obsIndex, ids[|ids| - 1]);
      if n != -1 then init + [n] else init
  }

  /** The ids that occur in `obsIndex`, in order. */
  function Present(ids: seq<CellId>, obsIndex: seq<CellId>): (r: seq<CellId>)
    ensures |r| <= |ids|
  {
    if |ids| == 0 then []
    else
      var init := Present(ids[..|ids| - 1], obsIndex);
      if ids[|ids| - 1] in obsIndex then init + [ids[|ids| - 1]] else init
  }

  /** Absent ids are dropped, the others keep their order, and each maps to its first
      position in `obsIndex`. */
  lemma {:induction false} FoundIndicesOfPresent(ids: seq<CellId>, obsIndex: seq<CellId>)
    ensures |FoundIndices(ids, obsIndex)| == |Present(ids, obsIndex)|
    ensures forall j :: 0 <= j < |Present(ids, obsIndex)| ==>
              obsIndex[FoundIndices(ids, obsIndex)[j]] == Present(ids, obsIndex)[j] &&
              Present(ids, obsIndex)[j] !in obsIndex[..FoundIndices(ids, obsIndex)[j]]
  {
    if |ids| > 0 {
      FoundIndicesOfPresent(ids[..|ids| - 1], obsIndex);
    }
  }

  /** `data.slice(start, end)` for `0 <= start <= end`: both bounds are clamped to the
      length. */
  function Slice<E>(data: seq<E>, start: nat, end: nat): (r: seq<E>)
    requires start <= end
    ensures |r| <= end - start
    ensures end <= |data| ==> r == data[start..end]
    ensures start < |data| < end ==> r == data[start..]
    ensures start >= |data| ==> r == []
  {
    var lo := if start <= |data| then start else |data|;
    var hi := if end <= |data| then end else |data|;
    data[lo..hi]
  }

  /** `extractExpressionData(cellIndices)`: row `i` is the `k`-th block of `genesCount`
      values of the row-major matrix, where `k` is the `i`-th index; a block that runs past
      the end of the data is cut short, and one that starts past it is empty. */
  function ExpressionRows<E>(cellIndices: seq<nat>, data: seq<E>, genesCount: nat): (r: seq<seq<E>>)
    ensures |r| == |cellIndices|
    ensures forall i :: 0 <= i < |cellIndices| && cellIndices[i] * genesCount + genesCount <= |data| ==>
              |r[i]| == genesCount &&
              forall g :: 0 <= g < genesCount ==> r[i][g] == data[cellIndices[i] * genesCount + g]
    ensures forall i :: 0 <= i < |cellIndices| && cellIndices[i] * genesCount < |data| < cellIndices[i] * genesCount + genesCount ==>
              r[i] == data[cellIndices[i] * genesCount..]
    ensures forall i :: 0 <= i < |cellIndices| && cellIndices[i] * genesCount >= |data| ==> r[i] == []
  {
    seq(|cellIndices|, i requires 0 <= i < |cellIndices| => Block(data, cellIndices[i], genesCount))
  }

  /** The `k`-th block of `genesCount` values, clamped to the data. */
  function Block<E>(data: seq<E>, k: nat, genesCount: nat): (r: seq<E>)
    ensures k * genesCount + genesCount <= |data| ==>
              |r| == genesCount && forall g :: 0 <= g < genesCount ==> r[g] == data[k * genesCount + g]
    ensures k * genesCount < |data| < k * genesCount + genesCount ==> r == data[k * genesCount..]
    ensures k * genesCount >= |data| ==> r == []
  {
    var start := k * genesCount;
    Slice(data, start, start + genesCount)
  }

  /** `filteredExpressionData` when present. */
  datatype FilteredExpression<E> = FilteredExpression(cellSet1Expressions: seq<seq<E>>, cellSet2Expressions: seq<seq<E>>,
                                                      featureIndex: Option<seq<string>>)

  /** Lines 113-135: `null` without the matrix data or the observation index; otherwise
      the rows of both sets, with `featureIndex.length` (or 0) genes per row. */
  function FilteredExpressionData<E>(data: Option<seq<E>>, obsIndex: Option<seq<CellId>>, featureIndex: Option<seq<string>>,
                                     cells: CellSetPair): (r: Option<FilteredExpression<E>>)
    ensures r.None? <==> data.None? || obsIndex.None?
    ensures r.Some? ==>
              var genesCount := |featureIndex.GetOr([])|;
              r.value.cellSet1Expressions == ExpressionRows(FoundIndices(cells.group1, obsIndex.value), data.value, genesCount) &&
              r.value.cellSet2Expressions == ExpressionRows(FoundIndices(cells.group2, obsIndex.value), data.value, genesCount) &&
              r.value.featureIndex == featureIndex
  {
    if data.None? || obsIndex.None? then None
    else
      var genesCount := match featureIndex case Some(f) => |f| case None => 0;
      var set1 := FoundIndices(cells.group1, obsIndex.value);
      var set2 := FoundIndices(cells.group2, obsIndex.value);
      Some(FilteredExpression(ExpressionRows(set1, data.value, genesCount), ExpressionRows(set2, data.value, genesCount), featureIndex))
  }

  // ---------------------------------------------------------------------------
  // degData

  /** One entry of the analysis response, as the server sends it. */
  datatype DegResult<N> = DegResult(gene: string, log2FoldChange: N, pValue: N, negLogPValue: N)

  /** One plotted point. */
  datatype DegRecord<N> = DegRecord(gene: string, log2FoldChange: N, pValue: N, negLogPValue: N, isHighlighted: bool)

  /** Lines 170-176: one record per response entry, in key order, fields copied, and
      highlighted exactly when the gene is selected or highlighted. */
  function DegData<N>(response: seq<DegResult<N>>, geneSelection: Option<seq<string>>, geneHighlight: Option<seq<string>>): (r: seq<DegRecord<N>>)
    ensures |r| == |response|
    ensures forall i :: 0 <= i < |response| ==>
              r[i].gene == response[i].gene && r[i].log2FoldChange == response[i].log2FoldChange &&
              r[i].pValue == response[i].pValue && r[i].negLogPValue == response[i].negLogPValue &&
              (r[i].isHighlighted <==> response[i].gene in geneSelection.GetOr([]) || response[i].gene in geneHighlight.GetOr([]))
  {
    seq(|response|, i requires 0 <= i < |response| =>
      var d := response[i];
      DegRecord(d.gene, d.log2FoldChange, d.pValue, d.negLogPValue,
                d.gene in geneSelection.GetOr([]) || d.gene in geneHighlight.GetOr([])))
  }

  // ---------------------------------------------------------------------------
  // The request guard

  /** Lines 183-187: the expression data is present and both row lists are non-empty. */
  predicate FetchGuard<E>(filtered: Option<FilteredExpression<E>>)
  {
    filtered.Some? && |filtered.value.cellSet1Expressions| > 0 && |filtered.value.cellSet2Expressions| > 0
  }

  /** The analysis is requested only when exactly two paths are selected, the membership
      map, the matrix data and the observation index are present, and each selected set
      has a cell that occurs in the observation index. */
  lemma FetchNeedsTwoSelectedSets<E>(selection: Option<seq<Path>>, membership: Option<seq<MembershipEntry>>,
                                     tree: Option<seq<Node>>, norm: string -> string,
                                     data: Option<seq<E>>, obsIndex: Option<seq<CellId>>, featureIndex: Option<seq<string>>)
    requires FetchGuard(FilteredExpressionData(data, obsIndex, featureIndex, SelectedCellSets(selection, membership, tree, norm)))
    ensures selection.Some? && |selection.value| == 2 && membership.Some? && data.Some? && obsIndex.Some?
    ensures exists j :: 0 <= j < |SelectedCellSets(selection, membership, tree, norm).group1| &&
                        SelectedCellSets(selection, membership, tree, norm).group1[j] in obsIndex.value
    ensures exists j :: 0 <= j < |SelectedCellSets(selection, membership, tree, norm).group2| &&
                        SelectedCellSets(selection, membership, tree, norm).group2[j] in obsIndex.value
  {
    var cells := SelectedCellSets(selection, membership, tree, norm);
    var oi := obsIndex.value;
    FoundIndicesOfPresent(cells.group1, oi);
    FoundIndicesOfPresent(cells.group2, oi);
    PresentIn(cells.group1, oi);
    PresentIn(cells.group2, oi);
    var x1 := Present(cells.group1, oi)[0];
    var j1 :| 0 <= j1 < |cells.group1| && cells.group1[j1] == x1;
    var x2 := Present(cells.group2, oi)[0];
    var j2 :| 0 <= j2 < |cells.group2| && cells.group2[j2] == x2;
  }

  /** Every kept id is one of the input ids and occurs in `obsIndex`. */
  lemma {:induction false} PresentIn(ids: seq<CellId>, obsIndex: seq<CellId>)
    ensures forall j :: 0 <= j < |Present(ids, obsIndex)| ==>
              Present(ids, obsIndex)[j] in obsIndex && Present(ids, obsIndex)[j] in ids
  {
    if |ids| > 0 {
      PresentIn(ids[..|ids| - 1], obsIndex);
    }
  }
}
