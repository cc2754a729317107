/** Role discovery: which columns carry the keyword, its position, its
    length and the text to highlight, found by their fixed display names. */
module Roles {

  const KeywordLabel: string := "正規語"
  const PositionLabel: string := "文字位置"
  const LengthLabel: string := "文字数"
  const ContentLabel: string := "文"

  /** The four role indices; -1 means that no column carries the role. */
  datatype Roles = Roles(keyword: int, position: int, length: int, content: int)

  const Unassigned := Roles(-1, -1, -1, -1)

  /** `r` is the index of the last name equal to `heading`, or -1 if none is. */
  ghost predicate IsLastIndex(names: seq<string>, heading: string, r: int)
  {
    if heading in names then
      0 <= r < |names| && names[r] == heading
      && forall k :: r < k < |names| ==> names[k] != heading
    else
      r == -1
  }

  /** One step of the column scan: the `switch` on a column's display name. */
  function Assign(roles: Roles, name: string, cidx: nat): Roles
  {
    if name == KeywordLabel then roles.(keyword := cidx)
    else if name == PositionLabel then roles.(position := cidx)
    else if name == LengthLabel then roles.(length := cidx)
    else if name == ContentLabel then roles.(content := cidx)
    else roles
  }

  /** The scan over the columns in order, starting from all roles unassigned.
      A later column with the same label overrides an earlier one, so each
      role ends up at the last column carrying its label. */
  function ScanRoles(names: seq<string>): (r: Roles)
    ensures IsLastIndex(names, KeywordLabel, r.keyword)
    ensures IsLastIndex(names, PositionLabel, r.position)
    ensures IsLastIndex(names, LengthLabel, r.length)
    ensures IsLastIndex(names, ContentLabel, r.content)
    ensures -1 <= r.keyword < |names| && -1 <= r.position < |names|
    ensures -1 <= r.length < |names| && -1 <= r.content < |names|
    decreases |names|
  {
    if |names| == 0 then Unassigned
    else
      var init, last := names[..|names| - 1], names[|names| - 1];
      assert names == init + [last];
      var before := ScanRoles(init);
      LastIndexStep(init, last, KeywordLabel, before.keyword);
      LastIndexStep(init, last, PositionLabel, before.position);
      LastIndexStep(init, last, LengthLabel, before.length);
      LastIndexStep(init, last, ContentLabel, before.content);
      Assign(before, last, |names| - 1)
  }

  /** A column carries at most one role: two roles that were both found sit
      in different columns. */
  lemma RolesDistinct(names: seq<string>)
    ensures var r := ScanRoles(names);
      && (r.keyword == -1 || (r.keyword != r.position && r.keyword != r.length && r.keyword != r.content))
      && (r.position == -1 || (r.position != r.length && r.position != r.content))
      && (r.length == -1 || r.length != r.content)
  {
  }

  /** Appending one column moves the last index of `heading` to that column
      exactly when the column carries `heading`. */
  lemma LastIndexStep(init: seq<string>, name: string, heading: string, r: int)
    requires IsLastIndex(init, heading, r)
    ensures IsLastIndex(init + [name], heading, if name == heading then |init| else r)
  {
    var names := init + [name];
    if heading in init {
      assert heading in names;
    }
    if name != heading && heading in names {
      var j :| 0 <= j < |names| && names[j] == heading;
      assert j < |init| && init[j] == heading;
    }
  }

  /** Highlighting is switched on when the keyword, position and length
      columns were all found; the content column is not part of the test. */
  predicate ShowHighlight(roles: Roles)
  {
    roles.keyword > -1 && roles.position > -1 && roles.length > -1
  }
}
