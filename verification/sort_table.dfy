/** `sortTable`: a click on column `c` of the rendered table. The table is
    read into a grid, the header row is set aside, the data rows are sorted
    by the column (or reversed when the same column is clicked again), the
    header is put back, and the grid is written back into the cells. The
    module-level `cPrev`/`isASCDirection` pair becomes an explicit state. */
module SortTable {
  import opened JsString
  import Markup
  import opened StableSort

  /** A rendered cell: its inner HTML and its `title` attribute. */
  datatype Cell = Cell(html: string, title: string)

  /** The table's rows of cells, row 0 being the header row. Rows may hold
      fewer or more cells than the header. */
  type Table = seq<seq<Cell>>

  /** `arrTable`: one entry per row and header column, `undefined` where the
      row has no such cell. */
  type Grid = seq<seq<Option<string>>>

  /** The last clicked column (-1 before any click) and the direction flag. */
  datatype SortState = SortState(cPrev: int, ascending: bool)

  const Initial := SortState(-1, true)

  /** A click either completes, with the new state, the rewritten table and
      the returned direction, or throws part-way with the state as it was
      left at that point and the table untouched. */
  datatype SortOutcome = Done(state: SortState, table: Table, ascending: bool) | Threw(state: SortState)

  /** The nested read loop: the grid is as wide as the header row. */
  function ReadGrid(t: Table): (g: Grid)
    requires |t| > 0
    ensures |g| == |t|
    ensures forall ro :: 0 <= ro < |t| ==> |g[ro]| == |t[0]|
    ensures forall ro, co :: 0 <= ro < |t| && 0 <= co < |t[0]| ==>
      g[ro][co] == if co < |t[ro]| then Some(t[ro][co].html) else None
  {
    seq(|t|, ro requires 0 <= ro < |t| =>
      seq(|t[0]|, co requires 0 <= co < |t[0]| =>
        if co < |t[ro]| then Some(t[ro][co].html) else None))
  }

  /** The sort key of a row: its entry in column `c` with the tags removed.
      A missing entry never gets compared (the comparator would throw
      first), so its key is immaterial. */
  function SortKey(c: nat): seq<Option<string>> -> string
  {
    row => match Entry(row, c) case Some(h) => Markup.CleanString(h) case None => ""
  }

  /** What assigning a grid entry to `innerHTML` or `title` stores:
      `undefined` becomes the text "undefined". */
  function Stringify(v: Option<string>): string
  {
    match v
    case Some(h) => h
    case None => "undefined"
  }

  /** The nested write loop: each existing cell within the header's width
      gets the grid entry as both inner HTML and title; missing cells are
      skipped and cells past the header's width are not visited. */
  function WriteBack(t: Table, g: Grid): (t': Table)
    requires |t| > 0 && |g| == |t| && forall ro :: 0 <= ro < |t| ==> |g[ro]| == |t[0]|
    ensures |t'| == |t| && forall ro :: 0 <= ro < |t| ==> |t'[ro]| == |t[ro]|
  {
    seq(|t|, ro requires 0 <= ro < |t| =>
      seq(|t[ro]|, co requires 0 <= co < |t[ro]| =>
        if co < |t[0]| then Cell(Stringify(g[ro][co]), Stringify(g[ro][co])) else t[ro][co]))
  }

  /** Sorting would call the comparator on a row without a cell in column
      `c`, where `cleanString(undefined)` throws: with two or more data rows
      every row takes part in some comparison. */
  predicate ComparatorThrows(data: Grid, c: nat)
  {
    |data| >= 2 && exists r :: 0 <= r < |data| && Entry(data[r], c).None?
  }

  /** The data rows after the click: sorted by column `c` when it differs
      from the last clicked column, otherwise reversed. */
  function Reorder(s: SortState, data: Grid, c: nat, le: (string, string) -> bool): (r: Grid)
    ensures multiset(r) == multiset(data)
    ensures |r| == |data|
  {
    if c != s.cPrev then Sort(data, SortKey(c), le)
    else
      ReverseMultiset(data);
      Reverse(data)
  }

  /** The grid written back: the header row first, then the reordered data. */
  function Arranged(s: SortState, t: Table, c: nat, le: (string, string) -> bool): (g: Grid)
    requires |t| > 0
    ensures |g| == |t| && forall ro :: 0 <= ro < |t| ==> |g[ro]| == |t[0]|
  {
    var g := ReadGrid(t);
    var data := Reorder(s, g[1..], c, le);
    assert forall r :: 0 <= r < |data| ==> data[r] in multiset(g[1..]);
    assert forall r :: 0 <= r < |data| ==> |data[r]| == |t[0]| by {
      forall r | 0 <= r < |data| ensures |data[r]| == |t[0]| {
        assert data[r] in multiset(g[1..]);
        var m :| 0 <= m < |g[1..]| && g[1..][m] == data[r];
        assert g[m + 1] == data[r];
      }
    }
    [g[0]] + data
  }

  /** One call of `sortTable(c)`.
      - A table without rows throws at once and changes nothing.
      - A new column (including the first click from the initial state)
        sets the flag to ascending before sorting; the sort throws when the
        comparator meets a missing cell, leaving the last column unchanged.
      - Otherwise the last column becomes `c`, the flag is ascending for a
        new column and flipped for the same column, the returned value is
        the flag, and every existing cell within the header's width holds
        the arranged grid entry as both inner HTML and title, the header's
        inner HTML being unchanged, while cells past that width keep their
        content. */
  function Click(s: SortState, t: Table, c: nat, le: (string, string) -> bool): (r: SortOutcome)
    ensures r.Threw? <==>
      |t| == 0 || (c != s.cPrev && ComparatorThrows(ReadGrid(t)[1..], c))
    ensures r.Threw? ==> r.state == if |t| == 0 then s else SortState(s.cPrev, true)
    ensures r.Done? ==> r.state.cPrev == c && r.ascending == r.state.ascending
    ensures r.Done? ==> r.ascending == if c == s.cPrev then !s.ascending else true
    ensures r.Done? ==>
      && |r.table| == |t|
      && (forall ro :: 0 <= ro < |t| ==> |r.table[ro]| == |t[ro]|)
      && (forall co :: 0 <= co < |t[0]| ==> r.table[0][co].html == t[0][co].html)
      && (forall ro, co :: 0 <= ro < |t| && 0 <= co < |t[ro]| ==>
            if co < |t[0]| then
              var v := Stringify(Arranged(s, t, c, le)[ro][co]);
              r.table[ro][co].html == v && r.table[ro][co].title == v
            else
              r.table[ro][co] == t[ro][co])
  {
    if |t| == 0 then Threw(s)
    else
      var g := ReadGrid(t);
      if c != s.cPrev && ComparatorThrows(g[1..], c) then
        Threw(SortState(s.cPrev, true))
      else
        var flag := if c != s.cPrev then true else !s.ascending;
        Done(SortState(c, flag), WriteBack(t, Arranged(s, t, c, le)), flag)
  }

  /** Every row has exactly as many cells as the header. */
  predicate Rectangular(t: Table)
  {
    |t| > 0 && forall ro :: 0 <= ro < |t| ==> |t[ro]| == |t[0]|
  }

  /** The data rows of a table as the next click will read them. */
  function DataRows(t: Table): Grid
    requires |t| > 0
  {
    ReadGrid(t)[1..]
  }

  /** On a rectangular table a click keeps the table rectangular, and reading
      it back gives exactly the arranged grid: the header row as before and
      the reordered data rows. */
  lemma {:induction false} ClickReadBack(s: SortState, t: Table, c: nat, le: (string, string) -> bool)
    requires Rectangular(t)
    requires Click(s, t, c, le).Done?
    ensures Rectangular(Click(s, t, c, le).table)
    ensures ReadGrid(Click(s, t, c, le).table) == Arranged(s, t, c, le)
    ensures DataRows(Click(s, t, c, le).table) == Reorder(s, DataRows(t), c, le)
  {
    var g: Grid := Arranged(s, t, c, le);
    ArrangedFull(s, t, c, le);
    var t' := WriteBack(t, g);
    assert Click(s, t, c, le).table == t';
    WriteBackReadBack(t, g);
  }

  /** Every row of `g` is `w` entries wide and every entry is defined. */
  predicate Full(g: Grid, w: nat)
  {
    forall r :: 0 <= r < |g| ==> |g[r]| == w && forall co :: 0 <= co < w ==> g[r][co].Some?
  }

  /** Reordering the rows of a full grid keeps it full. */
  lemma PermutedFull(xs: Grid, ys: Grid, w: nat)
    requires Full(xs, w) && multiset(ys) == multiset(xs)
    ensures Full(ys, w)
  {
    forall r | 0 <= r < |ys| ensures |ys[r]| == w && forall co :: 0 <= co < w ==> ys[r][co].Some? {
      assert ys[r] in multiset(xs);
      var m :| 0 <= m < |xs| && xs[m] == ys[r];
    }
  }

  /** On a rectangular table every entry of the arranged grid is defined:
      each row of it is a row of the table. */
  lemma ArrangedFull(s: SortState, t: Table, c: nat, le: (string, string) -> bool)
    requires Rectangular(t)
    ensures Full(Arranged(s, t, c, le), |t[0]|)
  {
    var g0: Grid := ReadGrid(t);
    assert Full(g0, |t[0]|);
    assert Full(g0[1..], |t[0]|) by {
      forall r | 0 <= r < |g0[1..]| ensures g0[1..][r] == g0[r + 1] { }
    }
    var data := Reorder(s, g0[1..], c, le);
    PermutedFull(g0[1..], data, |t[0]|);
    FullCons(g0[0], data, |t[0]|);
  }

  lemma FullCons(row: seq<Option<string>>, data: Grid, w: nat)
    requires Full([row], w) && Full(data, w)
    ensures Full([row] + data, w)
  {
    var g: Grid := [row] + data;
    forall r | 0 <= r < |g| ensures |g[r]| == w && forall co :: 0 <= co < w ==> g[r][co].Some? {
      if r > 0 {
        assert g[r] == data[r - 1];
      } else {
        assert g[0] == [row][0];
      }
    }
  }

  /** Writing a grid with every entry defined into a rectangular table and
      reading it back gives the grid. */
  lemma WriteBackReadBack(t: Table, g: Grid)
    requires Rectangular(t) && |g| == |t| && forall ro :: 0 <= ro < |t| ==> |g[ro]| == |t[0]|
    requires Full(g, |t[0]|)
    ensures Rectangular(WriteBack(t, g))
    ensures ReadGrid(WriteBack(t, g)) == g
  {
    var t' := WriteBack(t, g);
    var back := ReadGrid(t');
    forall ro | 0 <= ro < |t| ensures back[ro] == g[ro] {
      forall co | 0 <= co < |t[0]| ensures back[ro][co] == g[ro][co] {
        assert back[ro][co] == Some(t'[ro][co].html);
      }
    }
    assert back == g;
  }

  /** On a rectangular table, a completed click permutes the data rows. */
  lemma ClickPermutesRows(s: SortState, t: Table, c: nat, le: (string, string) -> bool)
    requires Rectangular(t)
    requires Click(s, t, c, le).Done?
    ensures multiset(DataRows(Click(s, t, c, le).table)) == multiset(DataRows(t))
  {
    ClickReadBack(s, t, c, le);
  }

  /** On a rectangular table, a click on a new column leaves the data rows
      sorted by the column's tag-stripped text under the collation, rows
      whose keys collate equal keeping their previous relative order. */
  lemma NewColumnSortsStably(s: SortState, t: Table, c: nat, le: (string, string) -> bool)
    requires Rectangular(t) && TotalPreorder(le)
    requires c != s.cPrev && c < |t[0]|
    ensures Click(s, t, c, le).Done? && Click(s, t, c, le).ascending
    ensures Sorted(DataRows(Click(s, t, c, le).table), SortKey(c), le)
    ensures Stable(DataRows(t), DataRows(Click(s, t, c, le).table), SortKey(c), le)
  {
    var data := DataRows(t);
    forall r | 0 <= r < |data| ensures Entry(data[r], c).Some? {
      assert data[r] == ReadGrid(t)[r + 1];
    }
    ClickReadBack(s, t, c, le);
    SortSorted(data, SortKey(c), le);
    SortStable(data, SortKey(c), le);
  }

  /** On a rectangular table, a click on the same column reverses the data
      rows without sorting them and flips the flag. */
  lemma SameColumnReverses(s: SortState, t: Table, le: (string, string) -> bool)
    requires Rectangular(t) && s.cPrev >= 0
    ensures Click(s, t, s.cPrev, le).Done?
    ensures Click(s, t, s.cPrev, le).ascending == !s.ascending
    ensures DataRows(Click(s, t, s.cPrev, le).table) == Reverse(DataRows(t))
  {
    ClickReadBack(s, t, s.cPrev, le);
  }

  /** Two clicks in a row on the same column of a rectangular table: the
      second leaves the data rows in the reverse of the order the first left
      them in, and the two returned flags differ. */
  lemma TwoClicksReverse(s: SortState, t: Table, c: nat, le: (string, string) -> bool)
    requires Rectangular(t) && c < |t[0]|
    ensures var first := Click(s, t, c, le);
      && first.Done?
      && var second := Click(first.state, first.table, c, le);
      && second.Done?
      && DataRows(second.table) == Reverse(DataRows(first.table))
      && second.ascending != first.ascending
  {
    var data := DataRows(t);
    forall r | 0 <= r < |data| ensures Entry(data[r], c).Some? {
      assert data[r] == ReadGrid(t)[r + 1];
    }
    var first := Click(s, t, c, le);
    ClickReadBack(s, t, c, le);
    SameColumnReverses(first.state, first.table, le);
  }
}
