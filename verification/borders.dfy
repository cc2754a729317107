/** Section borders: `updatingBorder` picks the elements a section's border
    setting is applied to, and `addElementBorder` the sides. The model
    returns the (element, side) pairs styled, in the order they are styled. */
module Borders {

  datatype Element = Head | Body

  datatype Side = Top | Bottom | Left | Right

  /** The three sections `update` styles, in the order it styles them. */
  datatype Section = All | Header | Value

  datatype BorderSetting = BorderSetting(topBorder: bool, botBorder: bool, leftBorder: bool, rightBorder: bool)

  /** The sides `addElementBorder` styles, as written: the bottom border is
      switched by `leftBorder`, and `botBorder` is never read. */
  predicate StyledAsWritten(s: BorderSetting, side: Side)
  {
    match side
    case Top => s.topBorder
    case Bottom => s.leftBorder
    case Left => s.leftBorder
    case Right => s.rightBorder
  }

  /** The sides meant to be styled: each by its own flag. */
  predicate StyledIntended(s: BorderSetting, side: Side)
  {
    match side
    case Top => s.topBorder
    case Bottom => s.botBorder
    case Left => s.leftBorder
    case Right => s.rightBorder
  }

  /** `addElementBorder`: top, bottom, left, right, each when its test holds. */
  function ElementBorders(e: Element, s: BorderSetting): seq<(Element, Side)>
  {
    (if s.topBorder then [(e, Top)] else [])
    + (if s.leftBorder then [(e, Bottom)] else [])
    + (if s.leftBorder then [(e, Left)] else [])
    + (if s.rightBorder then [(e, Right)] else [])
  }

  /** `addElementBorder` styles only the element it is given, and exactly
      the sides the setting switches on as written. */
  lemma ElementBordersStyles(e: Element, s: BorderSetting)
    ensures forall e', side :: (e', side) in ElementBorders(e, s) <==> e' == e && StyledAsWritten(s, side)
  {
    var top := if s.topBorder then [(e, Top)] else [];
    var bottom := if s.leftBorder then [(e, Bottom)] else [];
    var left := if s.leftBorder then [(e, Left)] else [];
    var right := if s.rightBorder then [(e, Right)] else [];
    assert ElementBorders(e, s) == top + bottom + left + right;
    forall e', side
      ensures (e', side) in ElementBorders(e, s) <==> e' == e && StyledAsWritten(s, side)
    {
      assert (e', side) in ElementBorders(e, s) <==>
        (e', side) in top || (e', side) in bottom || (e', side) in left || (e', side) in right;
      assert (e', side) in top <==> s.topBorder && e' == e && side == Top;
      assert (e', side) in bottom <==> s.leftBorder && e' == e && side == Bottom;
      assert (e', side) in left <==> s.leftBorder && e' == e && side == Left;
      assert (e', side) in right <==> s.rightBorder && e' == e && side == Right;
    }
  }

  /** The elements the `switch` reaches: its cases have no `break`, so
      control falls through every case below the matching one. */
  function Reached(section: Section): seq<Element>
  {
    match section
    case All => [Head, Body, Head, Body]
    case Header => [Head, Body]
    case Value => [Body]
  }

  /** The pairs styled by calling `addElementBorder` on each element in turn. */
  function BordersOn(es: seq<Element>, s: BorderSetting): seq<(Element, Side)>
  {
    if |es| == 0 then [] else ElementBorders(es[0], s) + BordersOn(es[1..], s)
  }

  /** An element visited at least once gets exactly the sides its setting
      switches on; an element never visited gets none. */
  lemma {:induction false} BordersOnStyles(es: seq<Element>, s: BorderSetting)
    ensures forall e, side :: (e, side) in BordersOn(es, s) <==> e in es && StyledAsWritten(s, side)
  {
    if |es| > 0 {
      ElementBordersStyles(es[0], s);
      BordersOnStyles(es[1..], s);
      assert forall e :: e in es <==> e == es[0] || e in es[1..];
    }
  }

  /** `updatingBorder`, as written: for `All` the head and the body are
      styled twice each, for `Header` the body is styled as well as the
      head, for `Value` only the body; on each the bottom side follows
      `leftBorder`. */
  function UpdatingBorder(s: BorderSetting, section: Section): (r: seq<(Element, Side)>)
    ensures forall side :: (Head, side) in r <==> section != Value && StyledAsWritten(s, side)
    ensures forall side :: (Body, side) in r <==> StyledAsWritten(s, side)
  {
    BordersOnStyles(Reached(section), s);
    BordersOn(Reached(section), s)
  }

  /** The order of styling: `Value` styles the body; `Header` styles the
      head, then the body; `All` does everything `Header` does, twice. */
  lemma {:induction false} StylingOrder(s: BorderSetting)
    ensures UpdatingBorder(s, Value) == ElementBorders(Body, s)
    ensures UpdatingBorder(s, Header) == ElementBorders(Head, s) + ElementBorders(Body, s)
    ensures UpdatingBorder(s, All) == UpdatingBorder(s, Header) + UpdatingBorder(s, Header)
  {
    OneElement(Body, s);
    assert [Head, Body][1..] == [Body];
    assert [Head, Body] + [Head, Body] == [Head, Body, Head, Body];
    BordersOnAppend([Head, Body], [Head, Body], s);
  }

  lemma OneElement(e: Element, s: BorderSetting)
    ensures BordersOn([e], s) == ElementBorders(e, s)
  {
    assert [e][1..] == [];
  }

  /** Visiting two lists of elements in turn styles the pairs of the first,
      then those of the second. */
  lemma {:induction false} BordersOnAppend(a: seq<Element>, b: seq<Element>, s: BorderSetting)
    ensures BordersOn(a + b, s) == BordersOn(a, s) + BordersOn(b, s)
  {
    if |a| == 0 {
      assert a + b == b;
    } else {
      assert (a + b)[0] == a[0] && (a + b)[1..] == a[1..] + b;
      BordersOnAppend(a[1..], b, s);
    }
  }

  /** The behaviour the section names and the `botBorder` flag call for:
      each section styles only its own elements, each side by its own
      flag, each element once. */
  function UpdatingBorderIntended(s: BorderSetting, section: Section): (r: seq<(Element, Side)>)
    ensures forall side :: (Head, side) in r <==> section != Value && StyledIntended(s, side)
    ensures forall side :: (Body, side) in r <==> section != Header && StyledIntended(s, side)
    ensures forall i, j :: 0 <= i < j < |r| ==> r[i] != r[j]
  {
    var head := if section != Value then IntendedOn(Head, s) else [];
    var body := if section != Header then IntendedOn(Body, s) else [];
    head + body
  }

  /** The intended sides of one element, in the order top, bottom, left,
      right, each side once. */
  function IntendedOn(e: Element, s: BorderSetting): (r: seq<(Element, Side)>)
    ensures forall i :: 0 <= i < |r| ==> r[i].0 == e
    ensures forall side :: (e, side) in r <==> StyledIntended(s, side)
    ensures forall i, j :: 0 <= i < j < |r| ==> r[i].1 != r[j].1
  {
    SidesOf(e, [Top, Bottom, Left, Right], s)
  }

  function SidesOf(e: Element, sides: seq<Side>, s: BorderSetting): (r: seq<(Element, Side)>)
    ensures forall i :: 0 <= i < |r| ==> r[i].0 == e && r[i].1 in sides
    ensures forall side :: (e, side) in r <==> side in sides && StyledIntended(s, side)
    ensures (forall i, j :: 0 <= i < j < |sides| ==> sides[i] != sides[j]) ==>
      forall i, j :: 0 <= i < j < |r| ==> r[i].1 != r[j].1
  {
    if |sides| == 0 then []
    else
      var rest := SidesOf(e, sides[1..], s);
      assert forall side :: side in sides <==> side == sides[0] || side in sides[1..];
      assert (forall i, j :: 0 <= i < j < |sides| ==> sides[i] != sides[j]) ==> sides[0] !in sides[1..];
      (if StyledIntended(s, sides[0]) then [(e, sides[0])] else []) + rest
  }

  /** As written, the header section's setting also borders the body. */
  lemma HeaderSectionBordersBody()
    ensures (Body, Top) in UpdatingBorder(BorderSetting(true, false, false, false), Header)
    ensures (Body, Top) !in UpdatingBorderIntended(BorderSetting(true, false, false, false), Header)
  {
  }

  /** As written, the bottom flag alone draws no bottom border, and the left
      flag alone draws one. */
  lemma BottomFollowsLeft()
    ensures (Body, Bottom) !in UpdatingBorder(BorderSetting(false, true, false, false), Value)
    ensures (Body, Bottom) in UpdatingBorder(BorderSetting(false, false, true, false), Value)
    ensures (Body, Bottom) in UpdatingBorderIntended(BorderSetting(false, true, false, false), Value)
  {
  }

  /** Both definitions style the same pairs whenever the section is not the
      header section and the bottom flag equals the left flag. */
  lemma AgreeWhenBottomIsLeft(s: BorderSetting, section: Section, e: Element, side: Side)
    requires section != Header && s.botBorder == s.leftBorder
    ensures (e, side) in UpdatingBorder(s, section) <==> (e, side) in UpdatingBorderIntended(s, section)
  {
    assert StyledAsWritten(s, side) == StyledIntended(s, side);
    if e == Head {
      assert (Head, side) in UpdatingBorder(s, section) <==> section != Value && StyledAsWritten(s, side);
      assert (Head, side) in UpdatingBorderIntended(s, section) <==> section != Value && StyledIntended(s, side);
    } else {
      assert (Body, side) in UpdatingBorder(s, section) <==> StyledAsWritten(s, side);
      assert (Body, side) in UpdatingBorderIntended(s, section) <==> StyledIntended(s, side);
    }
  }
}
