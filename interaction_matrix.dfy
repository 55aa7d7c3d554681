/** The interaction-matrix view: what it shows for its inputs, and the heatmap rows it
    builds from the matrix the server returns. */
module InteractionMatrixView {
  import opened Common
  import opened SetTree
  import opened InteractionSubscriber

  /** One `{ x, y }` cell; `y` is `None` where the matrix row is too short (`undefined`). */
  datatype HeatCell<V> = HeatCell(x: string, y: Option<V>)

  /** One `{ id, data }` row of `heatmapDataNivo`. */
  datatype HeatRow<V> = HeatRow(id: string, data: seq<HeatCell<V>>)

  /** What the view renders: the placeholder text, the loading text, the heatmap, or the
      `TypeError` thrown when a matrix row is missing. */
  datatype View<V> = Placeholder | Loading | Heatmap(rows: seq<HeatRow<V>>) | Failure

  /** Lines 22-28: one row per unique type, whose cell in column `c` holds
      `interactData[c][r]`; the heatmap is the transpose of the matrix. */
  function HeatmapRows<V>(uniqueCellTypes: seq<string>, interactData: seq<seq<V>>): (rows: seq<HeatRow<V>>)
    requires |uniqueCellTypes| <= |interactData|
    ensures |rows| == |uniqueCellTypes|
    ensures forall r :: 0 <= r < |rows| ==> rows[r].id == uniqueCellTypes[r] && |rows[r].data| == |uniqueCellTypes|
    ensures forall r, c :: 0 <= r < |rows| && 0 <= c < |uniqueCellTypes| ==>
              rows[r].data[c].x == uniqueCellTypes[c] &&
              (r < |interactData[c]| ==> rows[r].data[c].y == Some(interactData[c][r])) &&
              (r >= |interactData[c]| ==> rows[r].data[c].y == None)
  {
    var u := uniqueCellTypes;
    seq(|u|, r requires 0 <= r < |u| =>
      HeatRow(u[r], seq(|u|, c requires 0 <= c < |u| => HeatCell(u[c], Lookup(interactData[c], r)))))
  }

  /** `InteractionMatrix(props)` up to the heatmap data (lines 12-28). */
  function Render<V>(cellType: Option<seq<string>>, interactData: Option<seq<seq<V>>>, hexColors: Option<seq<string>>): (v: View<V>)
    ensures v.Placeholder? <==> cellType.None? || interactData.None? || hexColors.None? || |hexColors.value| == 1
    ensures v.Loading? <==> !v.Placeholder? && |interactData.value| != |hexColors.value|
    ensures v.Failure? <==> !v.Placeholder? && !v.Loading? && |Distinct(cellType.value)| > |interactData.value|
    ensures v.Heatmap? ==> |v.rows| == |Distinct(cellType.value)| &&
                           forall r :: 0 <= r < |v.rows| ==> v.rows[r].id == Distinct(cellType.value)[r]
  {
    if cellType.None? || interactData.None? || hexColors.None? || |hexColors.value| == 1 then Placeholder
    else if |interactData.value| != |hexColors.value| then Loading
    else
      var uniqueCellTypes := Distinct(cellType.value);
      if |uniqueCellTypes| > |interactData.value| then Failure
      else Heatmap(HeatmapRows(uniqueCellTypes, interactData.value))
  }

  /** The labels of the subscriber are the labels of the selected paths, so there are
      never more distinct labels than selected paths. */
  lemma {:induction false} FewerTypesThanSelections(selected: seq<seq<CellId>>, selection: seq<Path>)
    requires |selected| <= |selection|
    ensures |Distinct(CellType(CellTypeMatrix(selected, selection)))| <= |selection|
  {
    var rows := CellTypeMatrix(selected, selection);
    var cellType := CellType(rows);
    var labels := seq(|selection|, k requires 0 <= k < |selection| => Label(selection[k]));
    var u := Distinct(cellType);
    CellTypeMatrixLabels(selected, selection);
    forall i | 0 <= i < |u| ensures u[i] in labels {
      var j :| 0 <= j < |cellType| && cellType[j] == u[i];
      assert LabelledFromSelection(rows[j], selected, selection);
      var k :| 0 <= k < |selected| && rows[j].typeName == Label(selection[k]) && rows[j].cellId in selected[k];
      assert labels[k] == u[i];
    }
    DistinctElementsFit(u, labels);
  }

  /** Whenever the subscriber renders the view (line 199 of the subscriber), the view never
      falls back to the placeholder and never reads a missing matrix row: it shows the
      heatmap exactly when the matrix has one row per selected path, and the loading text
      otherwise. */
  lemma SubscriberRenderOutcome<V>(selected: seq<seq<CellId>>, selection: seq<Path>, table: seq<ColorEntry>,
                                   interactData: seq<seq<V>>)
    requires |selected| <= |selection|
    requires RenderGuard(CellType(CellTypeMatrix(selected, selection)), Some(interactData), HexColors(Some(selection), table))
    ensures var v := Render(Some(CellType(CellTypeMatrix(selected, selection))), Some(interactData), HexColors(Some(selection), table));
            !v.Placeholder? && !v.Failure? &&
            (v.Heatmap? <==> |interactData| == |selection|) &&
            (v.Loading? <==> |interactData| != |selection|)
  {
    FewerTypesThanSelections(selected, selection);
  }
}
