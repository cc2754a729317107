/** Worked examples on concrete tables: the host's primitive values are
    strings and non-negative whole numbers, the style wraps the keyword in a
    span, and the collation is plain code-point order. */
module Samples {
  import opened JsString
  import opened DataView
  import opened Roles
  import opened Render
  import ViewModel
  import Markup
  import opened SortTable
  import opened StableSort

  /** A primitive cell value. */
  datatype Prim = Str(s: string) | Whole(n: nat)

  /** The decimal digits of `n`. */
  function Decimal(n: nat): string
  {
    if n < 10 then [Digit(n)] else Decimal(n / 10) + [Digit(n % 10)]
  }

  function Digit(d: nat): char
    requires d < 10
  {
    "0123456789"[d]
  }

  /** `toString()` and `Number(...)` on primitives; only whole numbers are
      used as offsets here, so a string's number is immaterial. */
  const Co: Coercion<Prim> := Coercion(
    (v: Prim) => match v case Str(s) => s case Whole(n) => Decimal(n),
    (v: Prim) => match v case Str(_) => 0 case Whole(n) => n)

  function Mark(keyword: string): string
  {
    "<span>" + keyword + "</span>"
  }

  /** Code-point order on strings. */
  predicate CodeLe(a: string, b: string)
  {
    if |a| == 0 then true
    else if |b| == 0 then false
    else if a[0] != b[0] then a[0] < b[0]
    else CodeLe(a[1..], b[1..])
  }

  const Headings := [Column(ContentLabel), Column(KeywordLabel), Column(PositionLabel), Column(LengthLabel)]

  function OneRow(row: seq<Prim>): seq<View<Prim>>
  {
    [View(Some(TableView(Some([row]), Some(Headings))), true)]
  }

  /** The headings name the content, keyword, position and length columns
      in that order. */
  lemma HeadingRoles()
    ensures Names(Headings) == [ContentLabel, KeywordLabel, PositionLabel, LengthLabel]
    ensures ScanRoles(Names(Headings)) == Roles(1, 2, 3, 0)
  {
    var names := Names(Headings);
    assert names == [ContentLabel, KeywordLabel, PositionLabel, LengthLabel];
    var r := ScanRoles(names);
    OnlyAt(names, ContentLabel, 0, r.content);
    OnlyAt(names, KeywordLabel, 1, r.keyword);
    OnlyAt(names, PositionLabel, 2, r.position);
    OnlyAt(names, LengthLabel, 3, r.length);
  }

  /** A heading carried by exactly one column has that column as its last
      index. */
  lemma OnlyAt(names: seq<string>, heading: string, i: nat, r: int)
    requires names == [ContentLabel, KeywordLabel, PositionLabel, LengthLabel]
    requires i < 4 && names[i] == heading
    requires IsLastIndex(names, heading, r)
    ensures r == i
  {
    assert heading in names;
    assert ContentLabel != KeywordLabel && ContentLabel != PositionLabel && ContentLabel != LengthLabel;
    assert KeywordLabel != PositionLabel && KeywordLabel != LengthLabel && PositionLabel != LengthLabel;
  }

  /** A one-row table under the headings draws the header and that row,
      cell by cell. */
  lemma DrawsOneRow(row: seq<Prim>, cells: seq<string>)
    requires |row| == 4 && |cells| == 4
    requires forall i :: 0 <= i < 4 ==> RenderCell(row, i, Roles(1, 2, 3, 0), Co, Mark) == Some(cells[i])
    ensures Update(OneRow(row), Co, Mark)
      == Drawn([ContentLabel, KeywordLabel, PositionLabel, LengthLabel], [BodyRow(Base, cells)])
  {
    assert Usable(OneRow(row)) == Some(([row], Headings));
    PaintsOneRow(row, cells);
  }

  lemma PaintsOneRow(row: seq<Prim>, cells: seq<string>)
    requires |row| == 4 && |cells| == 4
    requires forall i :: 0 <= i < 4 ==> RenderCell(row, i, Roles(1, 2, 3, 0), Co, Mark) == Some(cells[i])
    ensures Paint([row], Headings, Co, Mark)
      == Drawn([ContentLabel, KeywordLabel, PositionLabel, LengthLabel], [BodyRow(Base, cells)])
  {
    HeadingRoles();
    RendersCells(row, cells);
    var p := Paint([row], Headings, Co, Mark);
    assert !ContentCellThrows([row][0], Roles(1, 2, 3, 0));
    assert p.Drawn?;
    assert p.head == [ContentLabel, KeywordLabel, PositionLabel, LengthLabel];
    assert p.body[0] == BodyRow(Base, cells);
  }

  lemma RendersCells(row: seq<Prim>, cells: seq<string>)
    requires |row| == 4 && |cells| == 4
    requires forall i :: 0 <= i < 4 ==> RenderCell(row, i, Roles(1, 2, 3, 0), Co, Mark) == Some(cells[i])
    ensures RenderRow(row, Roles(1, 2, 3, 0), Co, Mark) == Some(cells)
  {
    assert !ContentCellThrows(row, Roles(1, 2, 3, 0));
    var r := RenderRow(row, Roles(1, 2, 3, 0), Co, Mark);
    assert forall i :: 0 <= i < 4 ==> Some(r.value[i]) == Some(cells[i]);
    assert r.value == cells;
  }

  /** The highlighted content cell of the first sample row. */
  lemma StyledQuick(row: seq<Prim>)
    requires row == [Str("the quick fox"), Str("quick"), Whole(4), Whole(5)]
    ensures RenderCell(row, 0, Roles(1, 2, 3, 0), Co, Mark) == Some("the " + Mark("quick") + " fox")
  {
    assert Co.show(row[0]) == "the quick fox" && Co.show(row[1]) == "quick";
    assert Co.number(row[2]) == 4 && Co.number(row[3]) == 5;
    assert "the quick fox"[4..9] == "quick";
    assert Highlight.KeywordAt("the quick fox", "quick", Int(4), Int(5));
    assert "the quick fox"[..4] == "the " && "the quick fox"[9..] == " fox";
  }

  /** The keyword sits at the reported offset: the content cell gets it
      styled in place, and every other cell shows its raw text. */
  lemma KeywordAtOffsetIsStyled()
    ensures Update(OneRow([Str("the quick fox"), Str("quick"), Whole(4), Whole(5)]), Co, Mark)
      == Drawn([ContentLabel, KeywordLabel, PositionLabel, LengthLabel],
               [BodyRow(Base, ["the " + Mark("quick") + " fox", "quick", "4", "5"])])
  {
    var row := [Str("the quick fox"), Str("quick"), Whole(4), Whole(5)];
    StyledQuick(row);
    assert Co.show(row[1]) == "quick" && Co.show(row[2]) == "4" && Co.show(row[3]) == "5";
    DrawsOneRow(row, ["the " + Mark("quick") + " fox", "quick", "4", "5"]);
  }

  /** The unhighlighted content cell of the second sample row. */
  lemma RawSlow(row: seq<Prim>)
    requires row == [Str("the quick fox"), Str("slow"), Whole(4), Whole(5)]
    ensures RenderCell(row, 0, Roles(1, 2, 3, 0), Co, Mark) == Some("the quick fox")
  {
    assert Co.show(row[0]) == "the quick fox" && Co.show(row[1]) == "slow";
    assert Co.number(row[2]) == 4 && Co.number(row[3]) == 5;
    assert "the quick fox"[4..9] == "quick";
    assert !Highlight.KeywordAt("the quick fox", "slow", Int(4), Int(5));
  }

  /** A keyword that is not at the reported offset leaves the content cell
      as its raw text. */
  lemma KeywordElsewhereIsRaw()
    ensures Update(OneRow([Str("the quick fox"), Str("slow"), Whole(4), Whole(5)]), Co, Mark)
      == Drawn([ContentLabel, KeywordLabel, PositionLabel, LengthLabel],
               [BodyRow(Base, ["the quick fox", "slow", "4", "5"])])
  {
    var row := [Str("the quick fox"), Str("slow"), Whole(4), Whole(5)];
    RawSlow(row);
    assert Co.show(row[1]) == "slow" && Co.show(row[2]) == "4" && Co.show(row[3]) == "5";
    DrawsOneRow(row, ["the quick fox", "slow", "4", "5"]);
  }

  /** The tags of a cell are dropped before it is compared. */
  lemma CleanStripsSpan()
    ensures Markup.CleanString("<span>ab</span>c") == "abc"
  {
    Markup.CleanDropsTag("<span>ab</span>c", 5);
    assert "<span>ab</span>c"[6..] == "ab</span>c";
    CleanAb();
  }

  lemma CleanAb()
    ensures Markup.CleanString("ab</span>c") == "abc"
  {
    Markup.CleanKeepsChar("ab</span>c");
    assert "ab</span>c"[1..] == "b</span>c";
    Markup.CleanKeepsChar("b</span>c");
    assert "b</span>c"[1..] == "</span>c";
    CleanClose();
  }

  lemma CleanClose()
    ensures Markup.CleanString("</span>c") == "c"
  {
    Markup.CleanDropsTag("</span>c", 6);
    assert "</span>c"[7..] == "c";
    Markup.CleanKeepsChar("c");
  }

  const Letters: Table := [[Cell("name", "name")], [Cell("b", "b")], [Cell("a", "a")], [Cell("c", "c")]]

  /** The sort keys of the letter rows are the letters themselves. */
  lemma LetterKeys()
    ensures SortKey(0)([Some("a")]) == "a" && SortKey(0)([Some("b")]) == "b" && SortKey(0)([Some("c")]) == "c"
  {
    Markup.CleanKeepsChar("a");
    Markup.CleanKeepsChar("b");
    Markup.CleanKeepsChar("c");
  }

  /** Sorting the letter rows in code-point order. */
  lemma SortLetters()
    ensures Sort([[Some("b")], [Some("a")], [Some("c")]], SortKey(0), CodeLe) == [[Some("a")], [Some("b")], [Some("c")]]
  {
    var xs := [[Some("b")], [Some("a")], [Some("c")]];
    SortAC();
    assert xs[1..] == [[Some("a")], [Some("c")]];
    InsertB();
  }

  lemma SortAC()
    ensures Sort([[Some("a")], [Some("c")]], SortKey(0), CodeLe) == [[Some("a")], [Some("c")]]
  {
    LetterKeys();
    var xs := [[Some("a")], [Some("c")]];
    assert xs[1..] == [[Some("c")]];
    assert Sort([[Some("c")]], SortKey(0), CodeLe) == [[Some("c")]];
    assert CodeLe("a", "c");
  }

  lemma InsertB()
    ensures Insert([Some("b")], [[Some("a")], [Some("c")]], SortKey(0), CodeLe) == [[Some("a")], [Some("b")], [Some("c")]]
  {
    LetterKeys();
    var ys := [[Some("a")], [Some("c")]];
    assert !CodeLe("b", "a") && CodeLe("b", "c");
    assert ys[1..] == [[Some("c")]];
    assert Insert([Some("b")], [[Some("c")]], SortKey(0), CodeLe) == [[Some("b")], [Some("c")]];
  }

  /** The data rows of the letter table, as a click reads them. */
  lemma LetterRows()
    ensures Rectangular(Letters)
    ensures DataRows(Letters) == [[Some("b")], [Some("a")], [Some("c")]]
  {
    var g := ReadGrid(Letters);
    assert g[1] == [Some("b")] && g[2] == [Some("a")] && g[3] == [Some("c")];
  }

  /** The first click on the column sorts its rows ascending. */
  lemma FirstClickOnLetters()
    ensures Click(Initial, Letters, 0, CodeLe).Done?
    ensures Click(Initial, Letters, 0, CodeLe).ascending
    ensures Click(Initial, Letters, 0, CodeLe).state.cPrev == 0
    ensures Rectangular(Click(Initial, Letters, 0, CodeLe).table)
    ensures DataRows(Click(Initial, Letters, 0, CodeLe).table) == [[Some("a")], [Some("b")], [Some("c")]]
  {
    LetterRows();
    assert !ComparatorThrows(DataRows(Letters), 0);
    ClickReadBack(Initial, Letters, 0, CodeLe);
    SortLetters();
  }

  /** The first click on a column sorts its rows ascending; the second click
      on it reverses them and reports descending. */
  lemma ClickTwiceOnLetters()
    ensures var first := Click(Initial, Letters, 0, CodeLe);
      && first.Done? && first.ascending
      && DataRows(first.table) == [[Some("a")], [Some("b")], [Some("c")]]
      && var second := Click(first.state, first.table, 0, CodeLe);
      && second.Done? && !second.ascending
      && DataRows(second.table) == [[Some("c")], [Some("b")], [Some("a")]]
  {
    FirstClickOnLetters();
    var first := Click(Initial, Letters, 0, CodeLe);
    SameColumnReverses(first.state, first.table, CodeLe);
    ReverseLetters(DataRows(first.table));
  }

  lemma ReverseLetters(xs: Grid)
    requires xs == [[Some("a")], [Some("b")], [Some("c")]]
    ensures Reverse(xs) == [[Some("c")], [Some("b")], [Some("a")]]
  {
    var r := Reverse(xs);
    assert r[0] == xs[2] && r[1] == xs[1] && r[2] == xs[0];
  }

  /** `addRow` highlights the first occurrence of the keyword even when the
      offset points at a later one; the renderer highlights the later one. */
  lemma AddRowStylesEarlierOccurrence()
    ensures ViewModel.AddRowCell([Some(Str("aXa")), Some(Str("a")), Some(Whole(2)), Some(Whole(1))], 0,
                                 ViewModel.Condition(true, 0, 1, 2, 3), Co, Mark)
      == Some(ViewModel.CellMarkup(Mark("a") + "Xa", "aXa", true))
    ensures ViewModel.AddRowCellAtOffset([Some(Str("aXa")), Some(Str("a")), Some(Whole(2)), Some(Whole(1))], 0,
                                         ViewModel.Condition(true, 0, 1, 2, 3), Co, Mark)
      == Some(ViewModel.CellMarkup("aX" + Mark("a"), "aXa", true))
  {
    var values := [Some(Str("aXa")), Some(Str("a")), Some(Whole(2)), Some(Whole(1))];
    var cond := ViewModel.Condition(true, 0, 1, 2, 3);
    assert Co.show(Str("aXa")) == "aXa" && Co.show(Str("a")) == "a";
    assert ViewModel.NumOf(Co, values, 2) == Int(2) && ViewModel.NumOf(Co, values, 3) == Int(1);
    assert "aXa"[2..3] == "a";
    assert Highlight.KeywordAt("aXa", "a", Int(2), Int(1));
    assert OccursAt("aXa", "a", 0);
    assert IndexOf("aXa", "a") == 0;
    var r := ViewModel.AddRowCell(values, 0, cond, Co, Mark);
    assert r.value.html == "" + Mark("a") + "aXa"[1..];
    assert "aXa"[1..] == "Xa";
    assert "" + Mark("a") + "Xa" == Mark("a") + "Xa";
    assert r == Some(ViewModel.CellMarkup(Mark("a") + "Xa", "aXa", true));
    var r' := ViewModel.AddRowCellAtOffset(values, 0, cond, Co, Mark);
    assert r'.value.html == "aXa"[..2] + Mark("a") + "aXa"[3..];
    assert "aXa"[..2] == "aX" && "aXa"[3..] == "";
    assert "aX" + Mark("a") + "" == "aX" + Mark("a");
    assert r' == Some(ViewModel.CellMarkup("aX" + Mark("a"), "aXa", true));
  }

  /** A row of "abc" with an empty keyword at 2 and no length cell: the
      content cell draws "ab", the styled empty keyword, then all of "abc". */
  lemma MissingLengthRepeatsPrefix()
    ensures RenderCell([Str("abc"), Str(""), Whole(2)], 0, Roles(1, 2, 3, 0), Co, Mark)
      == Some("ab" + Mark("") + "abc")
  {
    var row := [Str("abc"), Str(""), Whole(2)];
    MissingLengthRepeatsText(row, 0, Roles(1, 2, 3, 0), Co, Mark);
    assert Co.show(row[0]) == "abc" && Co.show(row[1]) == "" && Co.number(row[2]) == 2;
    assert "abc"[..2] == "ab";
  }

  /** A ragged table: a two-cell header, a one-cell row and a two-cell row. */
  const Ragged: Table := [[Cell("h0", "h0"), Cell("h1", "h1")], [Cell("x", "x")], [Cell("y", "y"), Cell("z", "z")]]

  /** The grid a click reads from the ragged table. */
  lemma RaggedGrid()
    ensures ReadGrid(Ragged) == [[Some("h0"), Some("h1")], [Some("x"), None], [Some("y"), Some("z")]]
  {
    var g := ReadGrid(Ragged);
    assert g[0] == [Some("h0"), Some("h1")] by {
      assert g[0][0] == Some("h0") && g[0][1] == Some("h1");
    }
    assert g[1] == [Some("x"), None] by {
      assert g[1][0] == Some("x") && g[1][1] == None;
    }
    assert g[2] == [Some("y"), Some("z")] by {
      assert g[2][0] == Some("y") && g[2][1] == Some("z");
    }
  }

  /** Clicking the last clicked column again reverses the two data rows of
      the grid. */
  lemma RaggedArranged()
    ensures Arranged(SortState(0, true), Ragged, 0, CodeLe)
      == [[Some("h0"), Some("h1")], [Some("y"), Some("z")], [Some("x"), None]]
  {
    RaggedGrid();
    var data: Grid := [[Some("x"), None], [Some("y"), Some("z")]];
    assert ReadGrid(Ragged)[1..] == data;
    var r := Reverse(data);
    assert r == [[Some("y"), Some("z")], [Some("x"), None]] by {
      assert r[0] == data[1] && r[1] == data[0];
    }
  }

  /** On a ragged table the write-back does not move whole rows: after the
      rows are reversed, "z" is lost with the short row, and the long row
      gets the text "undefined" where the short one had no cell. */
  lemma RaggedClickLosesCell()
    ensures Click(SortState(0, true), Ragged, 0, CodeLe).Done?
    ensures Click(SortState(0, true), Ragged, 0, CodeLe).table
      == [[Cell("h0", "h0"), Cell("h1", "h1")], [Cell("y", "y")], [Cell("x", "x"), Cell("undefined", "undefined")]]
  {
    RaggedArranged();
    var t := Click(SortState(0, true), Ragged, 0, CodeLe).table;
    assert |t| == 3 && |t[0]| == 2 && |t[1]| == 1 && |t[2]| == 2;
    assert t[0] == [Cell("h0", "h0"), Cell("h1", "h1")] by {
      assert t[0][0] == Cell("h0", "h0") && t[0][1] == Cell("h1", "h1");
    }
    assert t[1] == [Cell("y", "y")] by {
      assert t[1][0] == Cell("y", "y");
    }
    assert t[2] == [Cell("x", "x"), Cell("undefined", "undefined")] by {
      assert t[2][0] == Cell("x", "x") && t[2][1] == Cell("undefined", "undefined");
    }
  }
}
