/** The row utilities: the per-cell markup and title of `addRow`, and the
    reshaping of the data view into a view model in `visualTransform`. */
module ViewModel {
  import opened JsString
  import opened Highlight
  import opened DataView
  import Roles
  import Render

  /** The highlight condition `addRow` receives: the switch and the four
      column indices (any of them may be -1). */
  datatype Condition = Condition(isShowHighlight: bool, content: int, keyword: int, position: int, length: int)

  /** The markup of one cell: its inner HTML, its `title` attribute, and
      whether it carries the 400px maximum width of the content column. */
  datatype CellMarkup = CellMarkup(html: string, title: string, capped: bool)

  /** `values[i]` as `slice` and `+` see it. `addRow` passes the raw cell
      value without `Number(...)`; the model takes position and length cells
      to hold numbers, read through `co.number`. An `undefined` start or sum
      acts as 0 in `slice`, exactly like NaN. */
  function NumOf<V>(co: Coercion<V>, values: seq<Option<V>>, i: int): Num
  {
    match Entry(values, i)
    case None => NaN
    case Some(v) => Int(co.number(v))
  }

  /** The cell `addRow` draws for value `i`, as written: when the offset gate
      holds, it replaces the FIRST occurrence of the keyword in the text,
      which lies at or before the occurrence the offset points at. The title
      is always the raw text, and only the content column is width-capped.
      `None` means `toString()` was called on `undefined` and threw. */
  function AddRowCell<V>(values: seq<Option<V>>, i: nat, cond: Condition, co: Coercion<V>, style: string -> string): (r: Option<CellMarkup>)
    requires i < |values|
    ensures r.None? <==>
      values[i].None? || (cond.isShowHighlight && i == cond.content && Entry(values, cond.keyword).None?)
    ensures r.Some? ==> r.value.title == co.show(values[i].value)
    ensures r.Some? ==> (r.value.capped <==> i == cond.content)
    ensures r.Some? && r.value.html != r.value.title ==> cond.isShowHighlight && i == cond.content
    ensures r.Some? && cond.isShowHighlight && i == cond.content ==>
      var raw, keyword := co.show(values[i].value), co.show(Entry(values, cond.keyword).value);
      var index, length := NumOf(co, values, cond.position), NumOf(co, values, cond.length);
      if KeywordAt(raw, keyword, index, length) then
        var q := IndexOf(raw, keyword);
        && 0 <= q
        && (index.Int? ==> q <= Clamp(index, |raw|))
        && OccursAt(raw, keyword, q)
        && r.value.html == ReplaceAt(raw, q, |keyword|, style(keyword))
      else
        r.value.html == raw
  {
    match values[i]
    case None => None
    case Some(d) =>
      var raw := co.show(d);
      if cond.isShowHighlight && i == cond.content then
        match Entry(values, cond.keyword)
        case None => None
        case Some(kv) =>
          var keyword := co.show(kv);
          var index, length := NumOf(co, values, cond.position), NumOf(co, values, cond.length);
          var hit := KeywordAt(raw, keyword, index, length);
          if hit then
            FirstOccurrenceNoLater(raw, keyword, index, length);
            Some(CellMarkup(ReplaceFirst(raw, keyword, style(keyword)), raw, true))
          else
            Some(CellMarkup(raw, raw, true))
      else if i == cond.content then
        Some(CellMarkup(raw, raw, true))
      else
        Some(CellMarkup(raw, raw, false))
  }

  /** When the gate holds, the keyword occurs somewhere, and its first
      occurrence is no later than the clamped offset. */
  lemma FirstOccurrenceNoLater(raw: string, keyword: string, index: Num, length: Num)
    requires KeywordAt(raw, keyword, index, length)
    ensures 0 <= IndexOf(raw, keyword)
    ensures index.Int? ==> IndexOf(raw, keyword) <= Clamp(index, |raw|)
  {
    var p := Clamp(index, |raw|);
    var to := Clamp(Plus(index, length), |raw|);
    if p >= to {
      assert keyword == "";
      assert OccursAt(raw, keyword, 0);
    } else {
      assert raw[p..to] == keyword;
      assert OccursAt(raw, keyword, p);
    }
  }

  /** The cell with the occurrence at the offset highlighted, as the visual's
      own renderer does it: when the gate holds with numeric arguments, the
      keyword at the clamped offset, and nothing else, is replaced. */
  function AddRowCellAtOffset<V>(values: seq<Option<V>>, i: nat, cond: Condition, co: Coercion<V>, style: string -> string): (r: Option<CellMarkup>)
    requires i < |values|
    ensures r.None? <==> AddRowCell(values, i, cond, co, style).None?
    ensures r.Some? ==> r.value.title == co.show(values[i].value)
    ensures r.Some? ==> (r.value.capped <==> i == cond.content)
    ensures r.Some? && r.value.html != r.value.title ==> cond.isShowHighlight && i == cond.content
    ensures r.Some? && cond.isShowHighlight && i == cond.content
            && Entry(values, cond.position).Some? && Entry(values, cond.length).Some? ==>
      var raw, keyword := co.show(values[i].value), co.show(Entry(values, cond.keyword).value);
      var p := Clamp(Int(co.number(Entry(values, cond.position).value)), |raw|);
      if KeywordAt(raw, keyword, NumOf(co, values, cond.position), NumOf(co, values, cond.length)) then
        OccursAt(raw, keyword, p) && r.value.html == ReplaceAt(raw, p, |keyword|, style(keyword))
      else
        r.value.html == raw
  {
    match AddRowCell(values, i, cond, co, style)
    case None => None
    case Some(cell) =>
      if cond.isShowHighlight && i == cond.content then
        var raw, keyword := cell.title, co.show(Entry(values, cond.keyword).value);
        var index, length := NumOf(co, values, cond.position), NumOf(co, values, cond.length);
        var parts := Split(raw, keyword, index, length);
        if |parts| == 2 then
          (if index.Int? && length.Int? then
             JoinReplacesLocatedKeyword(raw, keyword, index.n, length.n, style(keyword));
             Some(cell.(html := Join(parts, style(keyword))))
           else
             Some(cell.(html := Join(parts, style(keyword)))))
        else
          Some(cell)
      else
        Some(cell)
  }

  /** Where the offset's occurrence is the first one, `addRow` as written
      and the corrected cell agree. */
  lemma FirstOccurrenceAgrees<V>(values: seq<Option<V>>, i: nat, cond: Condition, co: Coercion<V>, style: string -> string)
    requires i < |values|
    requires AddRowCell(values, i, cond, co, style).Some? && cond.isShowHighlight && i == cond.content
    requires Entry(values, cond.position).Some? && Entry(values, cond.length).Some?
    requires var raw, keyword := co.show(values[i].value), co.show(Entry(values, cond.keyword).value);
      IndexOf(raw, keyword) == Clamp(Int(co.number(Entry(values, cond.position).value)), |raw|)
    ensures AddRowCellAtOffset(values, i, cond, co, style) == AddRowCell(values, i, cond, co, style)
  {
  }

  /** The corrected cell draws what the visual's renderer draws for a row
      with every value present, under the same roles: it throws exactly when
      the renderer does, and otherwise has the same markup. */
  lemma AtOffsetMatchesRenderer<V>(row: seq<V>, i: nat, roles: Roles.Roles, co: Coercion<V>, style: string -> string)
    requires i < |row|
    ensures var values := seq(|row|, j requires 0 <= j < |row| => Some(row[j]));
      var cond := Condition(Roles.ShowHighlight(roles), roles.content, roles.keyword, roles.position, roles.length);
      var mine, theirs := AddRowCellAtOffset(values, i, cond, co, style), Render.RenderCell(row, i, roles, co, style);
      && (mine.None? <==> theirs.None?)
      && (mine.Some? ==> mine.value.html == theirs.value)
  {
    var values := seq(|row|, j requires 0 <= j < |row| => Some(row[j]));
    assert forall j :: Entry(values, j) == At(row, j);
    assert forall j :: NumOf(co, values, j) == NumberAt(co, row, j);
  }

  /** `addRow`: one cell per value, in order; `None` when a cell threw. */
  function AddRow<V>(values: seq<Option<V>>, cond: Condition, co: Coercion<V>, style: string -> string): (r: Option<seq<CellMarkup>>)
    ensures r.None? <==> exists i :: 0 <= i < |values| && AddRowCell(values, i, cond, co, style).None?
    ensures r.Some? ==> |r.value| == |values|
    ensures r.Some? ==> forall i :: 0 <= i < |values| ==> Some(r.value[i]) == AddRowCell(values, i, cond, co, style)
    ensures r.Some? ==> forall i :: 0 <= i < |values| ==> r.value[i].title == co.show(values[i].value)
  {
    if exists i :: 0 <= i < |values| && AddRowCell(values, i, cond, co, style).None? then None
    else Some(seq(|values|, i requires 0 <= i < |values| => AddRowCell(values, i, cond, co, style).value))
  }

  datatype TableRow<V, S> = TableRow(values: seq<Option<V>>, selectionIds: seq<S>)

  datatype DataPoint<V, S> = DataPoint(value: Option<V>, selectionId: S, identity: S, selected: bool)

  datatype Model<V, S, St> = Model(tableRows: seq<TableRow<V, S>>, data: seq<DataPoint<V, S>>, settings: St)

  /** The data point for one value of row `r`, not selected. */
  function Point<V, S>(v: Option<V>, id: S): DataPoint<V, S>
  {
    DataPoint(v, id, id, false)
  }

  /** The data points of row `r`, one per column. */
  function RowPoints<V, S>(rows: seq<seq<V>>, r: nat, w: nat, selectionFor: nat -> S): seq<DataPoint<V, S>>
    requires r < |rows|
  {
    seq(w, c requires 0 <= c < w => Point(At(rows[r], c), selectionFor(r)))
  }

  /** The data points of the first `n` rows, row after row. */
  function Points<V, S>(rows: seq<seq<V>>, n: nat, w: nat, selectionFor: nat -> S): seq<DataPoint<V, S>>
    requires n <= |rows|
  {
    if n == 0 then [] else Points(rows, n - 1, w, selectionFor) + RowPoints(rows, n - 1, w, selectionFor)
  }

  /** The row-by-row list holds `n * w` points. */
  lemma {:induction false} PointsLength<V, S>(rows: seq<seq<V>>, n: nat, w: nat, selectionFor: nat -> S)
    requires n <= |rows|
    ensures |Points(rows, n, w, selectionFor)| == n * w
  {
    if n > 0 {
      PointsLength(rows, n - 1, w, selectionFor);
      assert (n - 1) * w + w == n * w;
    }
  }

  /** The position of row `r`, column `c` in a row-major list of rows of
      width `w`. */
  function Flat(r: nat, w: nat, c: nat): nat
  {
    r * w + c
  }

  /** The value at row `r` and column `c` sits at index `r * w + c`. */
  lemma {:induction false} PointsAt<V, S>(rows: seq<seq<V>>, n: nat, w: nat, selectionFor: nat -> S, r: nat, c: nat)
    requires n <= |rows| && r < n && c < w
    ensures Flat(r, w, c) < |Points(rows, n, w, selectionFor)|
    ensures Points(rows, n, w, selectionFor)[Flat(r, w, c)] == Point(At(rows[r], c), selectionFor(r))
  {
    PointsLength(rows, n, w, selectionFor);
    RowMajorBelow(r, c, w, n);
    PointsLength(rows, n - 1, w, selectionFor);
    var before := Points(rows, n - 1, w, selectionFor);
    if r < n - 1 {
      PointsAt(rows, n - 1, w, selectionFor, r, c);
      assert Points(rows, n, w, selectionFor)[r * w + c] == before[r * w + c];
    } else {
      assert r * w + c == |before| + c;
      assert Points(rows, n, w, selectionFor)[r * w + c] == RowPoints(rows, n - 1, w, selectionFor)[c];
    }
  }

  lemma RowMajorBelow(r: nat, c: nat, w: nat, n: nat)
    requires r < n && c < w
    ensures r * w + c < n * w
  {
    assert r * w + c < r * w + w;
    assert r * w + w == (r + 1) * w;
    assert (r + 1) * w <= n * w;
  }

  /** The table rows of `model` mirror `rows`: one per data row, each with
      the row's value for every one of the `w` columns (`undefined` past the
      row's end) and the row's selection id for every column. */
  ghost predicate RowsOf<V, S, St>(model: Model<V, S, St>, rows: seq<seq<V>>, w: nat, selectionFor: nat -> S)
  {
    && |model.tableRows| == |rows|
    && (forall r :: 0 <= r < |rows| ==>
          |model.tableRows[r].values| == w && |model.tableRows[r].selectionIds| == w)
    && (forall r, c :: 0 <= r < |rows| && 0 <= c < w ==>
          model.tableRows[r].values[c] == At(rows[r], c)
          && model.tableRows[r].selectionIds[c] == selectionFor(r))
  }

  /** The data points of `model` list every value of the `rows`-by-`w` grid
      in row-major order, each unselected and tagged with its row's id. */
  ghost predicate RowMajor<V, S, St>(model: Model<V, S, St>, rows: seq<seq<V>>, w: nat, selectionFor: nat -> S)
  {
    && |model.data| == |rows| * w
    && (forall r, c :: 0 <= r < |rows| && 0 <= c < w ==>
          Flat(r, w, c) < |model.data|
          && model.data[Flat(r, w, c)] == Point(At(rows[r], c), selectionFor(r)))
  }

  /** The inner loop of `visualTransform` for row `ridx`: the table row
      for it, and the data list extended by the row's points. */
  method BuildRow<V, S>(rows: seq<seq<V>>, ridx: nat, w: nat, selectionFor: nat -> S, data: seq<DataPoint<V, S>>)
    returns (row: TableRow<V, S>, data': seq<DataPoint<V, S>>)
    requires ridx < |rows|
    ensures |row.values| == w && |row.selectionIds| == w
    ensures forall c :: 0 <= c < w ==> row.values[c] == At(rows[ridx], c) && row.selectionIds[c] == selectionFor(ridx)
    ensures data' == data + RowPoints(rows, ridx, w, selectionFor)
  {
    var values: seq<Option<V>> := [];
    var ids: seq<S> := [];
    data' := data;
    ghost var points := RowPoints(rows, ridx, w, selectionFor);
    var colIndex := 0;
    while colIndex < w
      invariant 0 <= colIndex <= w
      invariant |values| == colIndex && |ids| == colIndex
      invariant forall c :: 0 <= c < colIndex ==> values[c] == At(rows[ridx], c) && ids[c] == selectionFor(ridx)
      invariant data' == data + points[..colIndex]
    {
      var id := selectionFor(ridx);
      values := values + [At(rows[ridx], colIndex)];
      ids := ids + [id];
      data' := data' + [Point(At(rows[ridx], colIndex), id)];
      assert points[..colIndex + 1] == points[..colIndex] + [points[colIndex]];
      colIndex := colIndex + 1;
    }
    assert points[..w] == points;
    row := TableRow(values, ids);
  }

  /** The outer loop of `visualTransform`: a table row per data row, and
      every row's points one row after another. */
  method Reshape<V, S>(rows: seq<seq<V>>, w: nat, selectionFor: nat -> S)
    returns (tableRows: seq<TableRow<V, S>>, data: seq<DataPoint<V, S>>)
    ensures |tableRows| == |rows|
    ensures forall r :: 0 <= r < |rows| ==> |tableRows[r].values| == w && |tableRows[r].selectionIds| == w
    ensures forall r, c :: 0 <= r < |rows| && 0 <= c < w ==>
      tableRows[r].values[c] == At(rows[r], c) && tableRows[r].selectionIds[c] == selectionFor(r)
    ensures data == Points(rows, |rows|, w, selectionFor)
  {
    tableRows := [];
    data := [];
    var ridx := 0;
    while ridx < |rows|
      invariant 0 <= ridx <= |rows|
      invariant |tableRows| == ridx
      invariant forall r :: 0 <= r < ridx ==> |tableRows[r].values| == w && |tableRows[r].selectionIds| == w
      invariant forall r, c :: 0 <= r < ridx && 0 <= c < w ==>
        tableRows[r].values[c] == At(rows[r], c) && tableRows[r].selectionIds[c] == selectionFor(r)
      invariant data == Points(rows, ridx, w, selectionFor)
    {
      var row;
      row, data := BuildRow(rows, ridx, w, selectionFor, data);
      tableRows := tableRows + [row];
      ridx := ridx + 1;
    }
  }

  /** `visualTransform`: an unusable data view gives an empty model carrying
      the settings. Otherwise there is one table row per data row, holding
      that row's value for every column (`undefined` past its end) and the
      row's selection id for every column, and the data points list every
      value in row-major order, none selected. Selection ids come from an
      opaque function of the row index. */
  method VisualTransform<V, S, St>(views: seq<View<V>>, settings: St, selectionFor: nat -> S)
    returns (model: Model<V, S, St>)
    ensures model.settings == settings
    ensures Usable(views).None? ==> model.tableRows == [] && model.data == []
    ensures Usable(views).Some? ==>
      RowsOf(model, Usable(views).value.0, |Usable(views).value.1|, selectionFor)
      && RowMajor(model, Usable(views).value.0, |Usable(views).value.1|, selectionFor)
  {
    if Usable(views).None? {
      return Model([], [], settings);
    }
    var rows, w := Usable(views).value.0, |Usable(views).value.1|;
    var tableRows, data := Reshape(rows, w, selectionFor);
    model := Model(tableRows, data, settings);
    assert RowsOf(model, rows, w, selectionFor);
    PointsAreRowMajor(model, rows, w, selectionFor);
  }

  /** A model whose data is the row-by-row point list lists the grid in
      row-major order. */
  lemma PointsAreRowMajor<V, S, St>(model: Model<V, S, St>, rows: seq<seq<V>>, w: nat, selectionFor: nat -> S)
    requires model.data == Points(rows, |rows|, w, selectionFor)
    ensures RowMajor(model, rows, w, selectionFor)
  {
    PointsLength(rows, |rows|, w, selectionFor);
    forall r, c | 0 <= r < |rows| && 0 <= c < w
      ensures Flat(r, w, c) < |model.data| && model.data[Flat(r, w, c)] == Point(At(rows[r], c), selectionFor(r))
    {
      PointsAt(rows, |rows|, w, selectionFor, r, c);
    }
  }
}
