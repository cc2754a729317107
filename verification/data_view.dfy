/** The host's data view, reduced to the parts the visual reads: a table of
    rows and named columns, each part possibly absent. */
module DataView {
  import opened JsString

  datatype Column = Column(displayName: string)

  datatype TableView<V> = TableView(rows: Option<seq<seq<V>>>, columns: Option<seq<Column>>)

  /** One data view. An empty list of data views stands both for an absent
      list and for a missing first entry. */
  datatype View<V> = View(table: Option<TableView<V>>, hasMetadata: bool)

  /** The rows and columns of the first data view, when the view has a
      table with rows and columns and carries metadata; both renderers give
      up on anything less. */
  function Usable<V>(views: seq<View<V>>): (r: Option<(seq<seq<V>>, seq<Column>)>)
    ensures r.Some? <==>
      |views| > 0 && views[0].table.Some? && views[0].table.value.rows.Some?
      && views[0].table.value.columns.Some? && views[0].hasMetadata
    ensures r.Some? ==>
      r.value.0 == views[0].table.value.rows.value && r.value.1 == views[0].table.value.columns.value
  {
    if |views| == 0 then None
    else match views[0].table
      case None => None
      case Some(t) =>
        if t.rows.Some? && t.columns.Some? && views[0].hasMetadata then
          Some((t.rows.value, t.columns.value))
        else
          None
  }

  /** The display names of the columns, in order. */
  function Names(columns: seq<Column>): (names: seq<string>)
    ensures |names| == |columns|
    ensures forall i :: 0 <= i < |columns| ==> names[i] == columns[i].displayName
  {
    seq(|columns|, i requires 0 <= i < |columns| => columns[i].displayName)
  }
}
