/** The data shaping of the cell-cell interaction view: the ids of the selected sets, one
    label per id, one hex colour per selected path, one centroid per id, and the
    conditions under which the view asks for and shows a matrix. */
module InteractionSubscriber {
  import opened Common
  import opened SetTree
  import opened PathResolver

  // ---------------------------------------------------------------------------
  // selectedCellSetsId

  /** `selectedCellSetsId`: nothing without a non-empty selection and a membership map,
      otherwise the resolved ids of each selected path, in selection order. */
  function SelectedCellSetsId(selection: Option<seq<Path>>, membership: Option<seq<MembershipEntry>>,
                              tree: Option<seq<Node>>, norm: string -> string): (r: seq<seq<CellId>>)
    ensures selection.None? || |selection.value| == 0 || membership.None? ==> r == []
    ensures selection.Some? && |selection.value| > 0 && membership.Some? ==>
              |r| == |selection.value| &&
              forall i :: 0 <= i < |r| ==> r[i] == CellsFromPath(selection.value[i], membership.value, tree, norm)
    ensures |r| <= |selection.GetOr([])|
  {
    if selection.None? || |selection.value| == 0 || membership.None? then []
    else
      var paths := selection.value;
      seq(|paths|, i requires 0 <= i < |paths| => CellsFromPath(paths[i], membership.value, tree, norm))
  }

  // ---------------------------------------------------------------------------
  // cellTypeMatrix, cellIndex, cellType

  /** One `[cellId, label]` row of `cellTypeMatrix`. */
  datatype TypedCell = TypedCell(cellId: CellId, typeName: string)

  /** `path.slice(1).join(' ')`: the path without its first segment, space-separated. */
  function Label(path: Path): (r: string)
    ensures |path| <= 1 ==> r == ""
    ensures |path| == 2 ==> r == path[1]
  {
    Join(if |path| == 0 then [] else path[1..], " ")
  }

  /** `selected.flatMap((cellIds, index) => cellIds.map(id => [id, label of selection[index]]))`. */
  function CellTypeMatrix(selected: seq<seq<CellId>>, selection: seq<Path>): (r: seq<TypedCell>)
    requires |selected| <= |selection|
    ensures |r| == |Flatten(selected)|
    ensures forall i :: 0 <= i < |r| ==> r[i].cellId == Flatten(selected)[i]
  {
    if |selected| == 0 then []
    else
      var k := |selected| - 1;
      var ids := selected[k];
      CellTypeMatrix(selected[..k], selection) + seq(|ids|, j requires 0 <= j < |ids| => TypedCell(ids[j], Label(selection[k])))
  }

  /** `row` carries the label of a selection path whose ids include the row's id. */
  ghost predicate LabelledFromSelection(row: TypedCell, selected: seq<seq<CellId>>, selection: seq<Path>)
    requires |selected| <= |selection|
  {
    exists k :: 0 <= k < |selected| && row.typeName == Label(selection[k]) && row.cellId in selected[k]
  }

  /** Every resolved id appears labelled with its own selection path, and every row
      carries the label of a selection path whose ids include the row's id. */
  lemma {:induction false} CellTypeMatrixLabels(selected: seq<seq<CellId>>, selection: seq<Path>)
    requires |selected| <= |selection|
    ensures forall k, j :: 0 <= k < |selected| && 0 <= j < |selected[k]| ==>
              TypedCell(selected[k][j], Label(selection[k])) in CellTypeMatrix(selected, selection)
    ensures forall i :: 0 <= i < |CellTypeMatrix(selected, selection)| ==>
              LabelledFromSelection(CellTypeMatrix(selected, selection)[i], selected, selection)
  {
    if |selected| > 0 {
      var k := |selected| - 1;
      var init := selected[..k];
      CellTypeMatrixLabels(init, selection);
      var ids := selected[k];
      var front := CellTypeMatrix(init, selection);
      var back := seq(|ids|, j requires 0 <= j < |ids| => TypedCell(ids[j], Label(selection[k])));
      var r := CellTypeMatrix(selected, selection);
      assert r == front + back;
      forall k', j | 0 <= k' < |selected| && 0 <= j < |selected[k']|
        ensures TypedCell(selected[k'][j], Label(selection[k'])) in r
      {
        if k' < k {
          assert selected[k'] == init[k'];
        } else {
          assert back[j] == TypedCell(selected[k'][j], Label(selection[k']));
        }
      }
      forall i | 0 <= i < |r| ensures LabelledFromSelection(r[i], selected, selection) {
        if i < |front| {
          assert r[i] == front[i];
          assert LabelledFromSelection(front[i], init, selection);
          var k' :| 0 <= k' < |init| && front[i].typeName == Label(selection[k']) && front[i].cellId in init[k'];
          assert selected[k'] == init[k'];
          assert 0 <= k' < |selected| && r[i].typeName == Label(selection[k']) && r[i].cellId in selected[k'];
        } else {
          assert r[i] == back[i - |front|];
          assert r[i].cellId == ids[i - |front|] && ids[i - |front|] in selected[k];
          assert 0 <= k < |selected| && r[i].typeName == Label(selection[k]) && r[i].cellId in selected[k];
        }
      }
    }
  }

  /** Where the rows of the `k`-th selected path start: the number of ids before it. */
  function Offset(selected: seq<seq<CellId>>, k: nat): nat
    requires k <= |selected|
  {
    |Flatten(selected[..k])|
  }

  /** Row `Offset(selected, k) + j` holds the `j`-th id of the `k`-th selected path,
      labelled with that path. */
  predicate RowIs(selected: seq<seq<CellId>>, selection: seq<Path>, k: int, j: int)
    requires |selected| <= |selection| && 0 <= k < |selected| && 0 <= j < |selected[k]|
  {
    var rows := CellTypeMatrix(selected, selection);
    Offset(selected, k) + j < |rows| && rows[Offset(selected, k) + j] == TypedCell(selected[k][j], Label(selection[k]))
  }

  /** The ids of the `k`-th selected path fill the rows from `Offset(selected, k)` on, in
      order, each labelled with that path. */
  lemma CellTypeMatrixAt(selected: seq<seq<CellId>>, selection: seq<Path>)
    requires |selected| <= |selection|
    ensures forall k, j :: 0 <= k < |selected| && 0 <= j < |selected[k]| ==> RowIs(selected, selection, k, j)
  {
    forall k, j | 0 <= k < |selected| && 0 <= j < |selected[k]| ensures RowIs(selected, selection, k, j) {
      RowAt(selected, selection, k, j);
    }
  }

  lemma {:induction false} RowAt(selected: seq<seq<CellId>>, selection: seq<Path>, k: int, j: int)
    requires |selected| <= |selection| && 0 <= k < |selected| && 0 <= j < |selected[k]|
    ensures Offset(selected, k) + j < |CellTypeMatrix(selected, selection)| &&
            CellTypeMatrix(selected, selection)[Offset(selected, k) + j] == TypedCell(selected[k][j], Label(selection[k]))
  {
    var n := |selected| - 1;
    var init := selected[..n];
    var front := CellTypeMatrix(init, selection);
    var back := seq(|selected[n]|, j requires 0 <= j < |selected[n]| => TypedCell(selected[n][j], Label(selection[n])));
    var r := CellTypeMatrix(selected, selection);
    assert r == front + back;
    if k < n {
      RowAt(init, selection, k, j);
      assert selected[..k] == init[..k];
      assert Offset(selected, k) == Offset(init, k);
      assert r[Offset(selected, k) + j] == front[Offset(init, k) + j];
    } else {
      assert selected[..k] == init;
      assert r[Offset(selected, k) + j] == back[j];
    }
  }

  /** `cellIndex`: the first column of `cellTypeMatrix`. */
  function CellIndex(rows: seq<TypedCell>): (r: seq<CellId>)
    ensures |r| == |rows|
    ensures forall i :: 0 <= i < |rows| ==> r[i] == rows[i].cellId
  {
    seq(|rows|, i requires 0 <= i < |rows| => rows[i].cellId)
  }

  /** `cellType`: the second column of `cellTypeMatrix`. */
  function CellType(rows: seq<TypedCell>): (r: seq<string>)
    ensures |r| == |rows|
    ensures forall i :: 0 <= i < |rows| ==> r[i] == rows[i].typeName
  {
    seq(|rows|, i requires 0 <= i < |rows| => rows[i].typeName)
  }

  // ---------------------------------------------------------------------------
  // componentToHex / rgbToHex

  /** The lower-case hexadecimal digit for `d`. */
  function HexDigit(d: nat): char
    requires d < 16
  {
    if d < 10 then ('0' as int + d) as char else ('a' as int + d - 10) as char
  }

  /** The value of a hexadecimal digit, or -1 for any other character. */
  function HexValue(ch: char): int
  {
    if '0' <= ch <= '9' then ch as int - '0' as int
    else if 'a' <= ch <= 'f' then ch as int - 'a' as int + 10
    else -1
  }

  predicate IsHexDigit(ch: char)
  {
    '0' <= ch <= '9' || 'a' <= ch <= 'f'
  }

  /** `n.toString(16)` for a non-negative integer: no leading zeros, `"0"` for 0. */
  function HexDigits(n: nat): (r: string)
    ensures |r| > 0
    ensures forall i :: 0 <= i < |r| ==> IsHexDigit(r[i])
    ensures (n < 16) == (|r| == 1)
  {
    if n < 16 then [HexDigit(n)] else HexDigits(n / 16) + [HexDigit(n % 16)]
  }

  /** `c.toString(16)` for an integer: a minus sign before the digits of a negative value. */
  function ToString16(c: int): (r: string)
    ensures |r| > 0
    ensures r[0] == '-' <==> c < 0
  {
    if c < 0 then "-" + HexDigits(-c) else HexDigits(c)
  }

  /** `componentToHex(c)`: pads a single character with a leading `0`. */
  function ComponentToHex(c: int): (r: string)
    ensures |r| >= 2
  {
    var hex := ToString16(c);
    if |hex| == 1 then "0" + hex else hex
  }

  /** `rgbToHex(color)`. */
  function RgbToHex(color: Color): (r: string)
    ensures |r| >= 7 && r[0] == '#'
  {
    "#" + ComponentToHex(color.r) + ComponentToHex(color.g) + ComponentToHex(color.b)
  }

  predicate InByteRange(color: Color)
  {
    0 <= color.r < 256 && 0 <= color.g < 256 && 0 <= color.b < 256
  }

  /** Reading a two-digit hexadecimal pair back. */
  function ParsePair(s: string): int
    requires |s| == 2
  {
    16 * HexValue(s[0]) + HexValue(s[1])
  }

  /** Reading `#rrggbb` back into a colour; `None` for any other shape. */
  function DecodeHex(hex: string): Option<Color>
  {
    if |hex| == 7 && hex[0] == '#' then Some(Color(ParsePair(hex[1..3]), ParsePair(hex[3..5]), ParsePair(hex[5..7])))
    else None
  }

  lemma HexDigitValue(d: nat)
    requires d < 16
    ensures HexValue(HexDigit(d)) == d
  {
  }

  /** A component in 0..255 becomes two lower-case hexadecimal digits that read back as
      the component. */
  lemma ComponentRoundTrip(c: int)
    requires 0 <= c < 256
    ensures |ComponentToHex(c)| == 2
    ensures IsHexDigit(ComponentToHex(c)[0]) && IsHexDigit(ComponentToHex(c)[1])
    ensures ParsePair(ComponentToHex(c)) == c
  {
    if c < 16 {
      HexDigitValue(c);
      assert ComponentToHex(c) == ['0', HexDigit(c)];
    } else {
      assert HexDigits(c / 16) == [HexDigit(c / 16)];
      assert ComponentToHex(c) == [HexDigit(c / 16), HexDigit(c % 16)];
      HexDigitValue(c / 16);
      HexDigitValue(c % 16);
    }
  }

  /** A colour with components in 0..255 becomes a seven-character `#rrggbb` string of
      lower-case digits that decodes back to the same colour. */
  lemma RgbToHexRoundTrip(color: Color)
    requires InByteRange(color)
    ensures |RgbToHex(color)| == 7 && RgbToHex(color)[0] == '#'
    ensures forall i :: 1 <= i < 7 ==> IsHexDigit(RgbToHex(color)[i])
    ensures DecodeHex(RgbToHex(color)) == Some(color)
  {
    ComponentRoundTrip(color.r);
    ComponentRoundTrip(color.g);
    ComponentRoundTrip(color.b);
    var h := RgbToHex(color);
    assert h[1..3] == ComponentToHex(color.r);
    assert h[3..5] == ComponentToHex(color.g);
    assert h[5..7] == ComponentToHex(color.b);
  }

  /** A component above 255 needs at least three digits, so its colour string is longer
      than `#rrggbb`. */
  lemma LargeComponentWidens(c: int)
    requires c >= 256
    ensures |ComponentToHex(c)| >= 3
  {
    assert HexDigits(c) == HexDigits(c / 16) + [HexDigit(c % 16)];
    assert c / 16 >= 16;
  }

  // ---------------------------------------------------------------------------
  // getColorForSelection / hexColors

  /** `getColorForSelection(selection)`: the colour of the first table entry whose path
      equals the selection, black without one. */
  function ColorForSelection(table: seq<ColorEntry>, selection: Path): (r: Color)
    ensures FindColorEntry(table, selection).None? ==> r == Color(0, 0, 0)
  {
    ResolvedColor(table, selection, Color(0, 0, 0))
  }

  /** `hexColors`: `null` without a selection, else one colour string per selected path. */
  function HexColors(selection: Option<seq<Path>>, table: seq<ColorEntry>): (r: Option<seq<string>>)
    ensures r.Some? <==> selection.Some?
    ensures selection.Some? ==> |r.value| == |selection.value|
  {
    match selection
    case None => None
    case Some(paths) => Some(seq(|paths|, i requires 0 <= i < |paths| => RgbToHex(ColorForSelection(table, paths[i]))))
  }

  /** Every colour stored in the table is a byte triple. */
  predicate TableInByteRange(table: seq<ColorEntry>)
  {
    forall i :: 0 <= i < |table| && table[i].color.Some? ==> InByteRange(table[i].color.value)
  }

  /** With byte-range table colours, every colour string decodes to the colour of the
      first entry for its path, or to black. */
  lemma HexColorsDecode(selection: seq<Path>, table: seq<ColorEntry>)
    requires TableInByteRange(table)
    ensures forall i :: 0 <= i < |selection| ==>
              |HexColors(Some(selection), table).value[i]| == 7 &&
              DecodeHex(HexColors(Some(selection), table).value[i]) == Some(ColorForSelection(table, selection[i]))
  {
    forall i | 0 <= i < |selection|
      ensures |HexColors(Some(selection), table).value[i]| == 7 &&
              DecodeHex(HexColors(Some(selection), table).value[i]) == Some(ColorForSelection(table, selection[i]))
    {
      var c := ColorForSelection(table, selection[i]);
      match FindColorEntry(table, selection[i])
      case None =>
      case Some(e) =>
        var k :| 0 <= k < |table| && table[k] == e && table[k].path == selection[i];
      RgbToHexRoundTrip(c);
    }
  }

  // ---------------------------------------------------------------------------
  // spatial

  /** `obsCentroids.data`: the x row and the y row. */
  datatype Centroids<C> = Centroids(xs: seq<C>, ys: seq<C>)

  /** One `[x, y]` entry of `spatial`; `None` is `null` or `undefined`. */
  datatype Point<C> = Point(x: Option<C>, y: Option<C>)

  /** `spatial`: for each id, the coordinates at its first position in the centroid
      index, or `[null, null]` when it has none. */
  function Spatial<C>(cellIndex: seq<CellId>, centroidIndex: seq<CellId>, centroids: Option<Centroids<C>>): (r: seq<Point<C>>)
    ensures |r| == |cellIndex|
    ensures forall i :: 0 <= i < |cellIndex| && cellIndex[i] !in centroidIndex ==> r[i] == Point(None, None)
  {
    seq(|cellIndex|, i requires 0 <= i < |cellIndex| =>
      var n := IndexOf(centroidIndex, cellIndex[i]);
      if n != -1 then
        match centroids
        case None => Point(None, None)
        case Some(c) => Point(Lookup(c.xs, n), Lookup(c.ys, n))
      else Point(None, None))
  }

  /** Lines 136-142 with the centroid index possibly not loaded: `obsCentroidsIndex` is
      read without `?.`, so the map throws as soon as there is an id to look up, while
      an empty `cellIndex` never calls it. */
  function SpatialOutcome<C>(cellIndex: seq<CellId>, centroidIndex: Option<seq<CellId>>, centroids: Option<Centroids<C>>): (r: Outcome<seq<Point<C>>>)
    ensures r.Throws? <==> centroidIndex.None? && |cellIndex| > 0
    ensures r.Returns? ==> |r.value| == |cellIndex|
    ensures centroidIndex.Some? ==> r == Returns(Spatial(cellIndex, centroidIndex.value, centroids))
  {
    match centroidIndex
    case Some(ci) => Returns(Spatial(cellIndex, ci, centroids))
    case None => if |cellIndex| == 0 then Returns([]) else Throws
  }

  /** An id found in the centroid index takes the coordinates at its first position there,
      never at a later duplicate. */
  lemma SpatialAtFirstIndex<C>(cellIndex: seq<CellId>, centroidIndex: seq<CellId>, c: Centroids<C>, i: int, n: int)
    requires 0 <= i < |cellIndex| && 0 <= n < |centroidIndex|
    requires centroidIndex[n] == cellIndex[i] && cellIndex[i] !in centroidIndex[..n]
    ensures Spatial(cellIndex, centroidIndex, Some(c))[i] == Point(Lookup(c.xs, n), Lookup(c.ys, n))
  {
    var k := IndexOf(centroidIndex, cellIndex[i]);
    assert forall j :: 0 <= j < n ==> centroidIndex[..n][j] == centroidIndex[j];
    assert forall j :: 0 <= j < k ==> centroidIndex[..k][j] == centroidIndex[j];
  }

  // ---------------------------------------------------------------------------
  // The request and render guards

  /** Line 174: `new Set(cellType).size !== 1 && spatial && hexColors && cellType.length !== 0`
      (`spatial` is always an array). */
  predicate FetchGuard(cellType: seq<string>, hexColors: Option<seq<string>>)
    ensures FetchGuard(cellType, hexColors) ==> |cellType| >= 2 && hexColors.Some?
  {
    assert |cellType| != 0 ==> cellType[0] in Distinct(cellType);
    |Distinct(cellType)| != 1 && hexColors.Some? && |cellType| != 0
  }

  /** Line 199: `cellType && interactData && hexColors && new Set(cellType).size >= 2`. */
  predicate RenderGuard<M>(cellType: seq<string>, interactData: Option<M>, hexColors: Option<seq<string>>)
    ensures RenderGuard(cellType, interactData, hexColors) ==> |cellType| >= 2
  {
    interactData.Some? && hexColors.Some? && |Distinct(cellType)| >= 2
  }

  /** The request is issued exactly when there are colours and at least two distinct
      labels. */
  lemma FetchGuardIff(cellType: seq<string>, hexColors: Option<seq<string>>)
    ensures FetchGuard(cellType, hexColors) <==> |Distinct(cellType)| >= 2 && hexColors.Some?
  {
    if |cellType| != 0 {
      assert cellType[0] in Distinct(cellType);
    }
  }

  /** Whenever the view asks for or shows a matrix, there are at least two labels that
      differ. */
  lemma GuardsNeedTwoLabels<M>(cellType: seq<string>, interactData: Option<M>, hexColors: Option<seq<string>>)
    requires FetchGuard(cellType, hexColors) || RenderGuard(cellType, interactData, hexColors)
    ensures |cellType| >= 2
    ensures exists i, j :: 0 <= i < |cellType| && 0 <= j < |cellType| && cellType[i] != cellType[j]
  {
    FetchGuardIff(cellType, hexColors);
    var d := Distinct(cellType);
    assert d[0] in cellType && d[1] in cellType && d[0] != d[1];
    var i :| 0 <= i < |cellType| && cellType[i] == d[0];
    var j :| 0 <= j < |cellType| && cellType[j] == d[1];
  }
}
