/** The table drawn by the visual's update: a header cell per column and a
    body row per data row, where only the content cell of a row can get the
    styled keyword spliced in. */
module Render {
  import opened JsString
  import opened Highlight
  import opened Roles
  import opened DataView

  /** The two row colourings: odd-numbered body rows take the alternate
      background and text colours. */
  datatype Shade = Base | Alternate

  datatype BodyRow = BodyRow(shade: Shade, cells: seq<string>)

  /** What an update leaves in the container: nothing when the data view is
      unusable, the drawn table, or an aborted draw when a cell threw. The
      `head` entries are plain text, set with `.text`; the body cells are
      HTML strings, set with `.html`. */
  datatype Page = Blank | Drawn(head: seq<string>, body: seq<BodyRow>) | Aborted

  function ShadeOf(idx: nat): Shade
  {
    if idx % 2 == 1 then Alternate else Base
  }

  /** Rendering the row throws: highlighting is on, the row has a content
      cell, and the keyword cell is missing, so `undefined.toString()` fails. */
  predicate ContentCellThrows<V>(row: seq<V>, roles: Roles)
  {
    ShowHighlight(roles) && 0 <= roles.content < |row| && roles.keyword >= |row|
  }

  /** The markup of cell `cidx` of a row. Every cell is its raw text except
      the content cell, which differs from its raw text only when
      highlighting is on and the keyword really sits at the offset the row
      reports. When the position and length cells are present, it then has
      that occurrence, and only it, replaced by the styled keyword.
      `None` means the cell threw. */
  function RenderCell<V>(row: seq<V>, cidx: nat, roles: Roles, co: Coercion<V>, style: string -> string): (r: Option<string>)
    requires cidx < |row|
    ensures r.None? <==> ShowHighlight(roles) && cidx == roles.content && roles.keyword >= |row|
    ensures !ShowHighlight(roles) || cidx != roles.content ==> r == Some(co.show(row[cidx]))
    ensures r.Some? && r.value != co.show(row[cidx]) ==>
      ShowHighlight(roles) && cidx == roles.content
      && KeywordAt(co.show(row[cidx]), co.show(row[roles.keyword]),
                   NumberAt(co, row, roles.position), NumberAt(co, row, roles.length))
    ensures r.Some? && ShowHighlight(roles) && cidx == roles.content
            && roles.position < |row| && roles.length < |row| ==>
      var raw, keyword := co.show(row[cidx]), co.show(row[roles.keyword]);
      var i, l := co.number(row[roles.position]), co.number(row[roles.length]);
      if KeywordAt(raw, keyword, Int(i), Int(l)) then
        OccursAt(raw, keyword, Clamp(Int(i), |raw|))
        && r.value == ReplaceAt(raw, Clamp(Int(i), |raw|), |keyword|, style(keyword))
      else
        r.value == raw
  {
    var raw := co.show(row[cidx]);
    if ShowHighlight(roles) && cidx == roles.content then
      match At(row, roles.keyword)
      case None => None
      case Some(kv) =>
        var keyword := co.show(kv);
        var index, length := NumberAt(co, row, roles.position), NumberAt(co, row, roles.length);
        var parts := Split(raw, keyword, index, length);
        if |parts| >= 2 then
          (if index.Int? && length.Int? then
             JoinReplacesLocatedKeyword(raw, keyword, index.n, length.n, style(keyword));
             Some(Join(parts, style(keyword)))
           else
             Some(Join(parts, style(keyword))))
        else
          Some(raw)
    else
      Some(raw)
  }

  /** A row whose length cell is missing: `index + length` is NaN, so the
      gate compares the keyword with an empty slice and holds only for the
      empty keyword. The text after the keyword is then sliced from NaN, that
      is from 0, so the drawn cell repeats the text before the offset. */
  lemma MissingLengthRepeatsText<V>(row: seq<V>, cidx: nat, roles: Roles, co: Coercion<V>, style: string -> string)
    requires cidx < |row| && ShowHighlight(roles) && cidx == roles.content
    requires roles.keyword < |row| && roles.position < |row| && roles.length >= |row|
    ensures var raw, keyword := co.show(row[cidx]), co.show(row[roles.keyword]);
      var p := Clamp(Int(co.number(row[roles.position])), |raw|);
      RenderCell(row, cidx, roles, co, style)
        == if keyword == "" then Some(raw[..p] + style("") + raw) else Some(raw)
  {
    var raw, keyword := co.show(row[cidx]), co.show(row[roles.keyword]);
    var index := Int(co.number(row[roles.position]));
    assert NumberAt(co, row, roles.length) == NaN;
    assert Slice(raw, index, NaN) == "";
    if keyword == "" {
      var parts := Split(raw, keyword, index, NaN);
      assert parts[0] == raw[..Clamp(index, |raw|)];
      assert parts[1] == raw[0..|raw|] == raw;
    }
  }

  /** The cells of a body row, one per value and in order; `None` when the
      content cell throws. */
  function RenderRow<V>(row: seq<V>, roles: Roles, co: Coercion<V>, style: string -> string): (r: Option<seq<string>>)
    ensures r.None? <==> ContentCellThrows(row, roles)
    ensures r.Some? ==> |r.value| == |row|
    ensures r.Some? ==> forall i :: 0 <= i < |row| ==> Some(r.value[i]) == RenderCell(row, i, roles, co, style)
    ensures r.Some? ==> forall i :: 0 <= i < |row| && i != roles.content ==> r.value[i] == co.show(row[i])
  {
    if ContentCellThrows(row, roles) then None
    else Some(seq(|row|, i requires 0 <= i < |row| => RenderCell(row, i, roles, co, style).value))
  }

  /** Consecutive rows never share a shade. */
  lemma ShadesAlternate(idx: nat)
    ensures ShadeOf(idx) != ShadeOf(idx + 1)
  {
  }

  /** The body rows of a table none of whose rows throws: one per data row,
      rendered cell by cell, the first one plain and the shades alternating. */
  function DrawBody<V>(rows: seq<seq<V>>, roles: Roles, co: Coercion<V>, style: string -> string): (body: seq<BodyRow>)
    requires forall r :: 0 <= r < |rows| ==> !ContentCellThrows(rows[r], roles)
    ensures |body| == |rows|
    ensures forall r :: 0 <= r < |rows| ==> Some(body[r].cells) == RenderRow(rows[r], roles, co, style)
    ensures forall r :: 0 <= r < |rows| ==> |body[r].cells| == |rows[r]|
    ensures |rows| > 0 ==> body[0].shade == Base
    ensures forall r :: 0 <= r < |rows| - 1 ==> body[r].shade != body[r + 1].shade
  {
    var body := seq(|rows|, r requires 0 <= r < |rows| => BodyRow(ShadeOf(r), RenderRow(rows[r], roles, co, style).value));
    assert forall r :: 0 <= r < |rows| - 1 ==> body[r].shade != body[r + 1].shade by {
      forall r | 0 <= r < |rows| - 1 ensures body[r].shade != body[r + 1].shade {
        ShadesAlternate(r);
      }
    }
    body
  }

  /** The drawing pass on a usable data view: the header carries the column
      names and the body the rendered rows, unless some row throws. */
  function Paint<V>(rows: seq<seq<V>>, columns: seq<Column>, co: Coercion<V>, style: string -> string): (p: Page)
    ensures !p.Blank?
    ensures p.Aborted? <==> exists r :: 0 <= r < |rows| && ContentCellThrows(rows[r], ScanRoles(Names(columns)))
    ensures p.Drawn? ==>
      && |p.head| == |columns|
      && (forall c :: 0 <= c < |columns| ==> p.head[c] == columns[c].displayName)
      && |p.body| == |rows|
      && (forall r :: 0 <= r < |rows| ==>
            Some(p.body[r].cells) == RenderRow(rows[r], ScanRoles(Names(columns)), co, style))
      && (forall r :: 0 <= r < |rows| ==> |p.body[r].cells| == |rows[r]|)
      && (|rows| > 0 ==> p.body[0].shade == Base)
      && (forall r :: 0 <= r < |rows| - 1 ==> p.body[r].shade != p.body[r + 1].shade)
  {
    var roles := ScanRoles(Names(columns));
    if exists r :: 0 <= r < |rows| && ContentCellThrows(rows[r], roles) then
      Aborted
    else
      Drawn(Names(columns), DrawBody(rows, roles, co, style))
  }

  /** The update's drawing pass. An unusable data view draws nothing. Otherwise
      the header has one cell per column carrying its display name, and the
      body has one row per data row, rendered cell by cell and shaded by
      parity; the draw aborts when some row's content cell throws. */
  function Update<V>(views: seq<View<V>>, co: Coercion<V>, style: string -> string): (p: Page)
    ensures p.Blank? <==> Usable(views).None?
    ensures Usable(views).Some? ==> p == Paint(Usable(views).value.0, Usable(views).value.1, co, style)
  {
    match Usable(views)
    case None => Blank
    case Some(rc) => Paint(rc.0, rc.1, co, style)
  }

  /** When every data row has a value for every column, as the host's table
      promises, the draw never aborts. */
  lemma {:induction false} FullRowsNeverAbort<V>(views: seq<View<V>>, co: Coercion<V>, style: string -> string)
    requires Usable(views).Some?
    requires var rows, columns := Usable(views).value.0, Usable(views).value.1;
      forall r :: 0 <= r < |rows| ==> |rows[r]| == |columns|
    ensures Update(views, co, style).Drawn?
  {
    var rows, columns := Usable(views).value.0, Usable(views).value.1;
    var roles := ScanRoles(Names(columns));
    forall r | 0 <= r < |rows|
      ensures !ContentCellThrows(rows[r], roles)
    {
      assert roles.keyword < |columns|;
    }
  }
}
