/** The highlight locator: checks that a keyword really sits at the offset
    and length the host reports, and splits the cell text around it. */
module Highlight {
  import opened JsString

  /** The gate shared by both renderers: `content.slice(index, index + length)`
      equals `keyword`. For numeric arguments it holds exactly when the keyword
      occurs at the clamped offset and either has the claimed length or is cut
      short by the end of the content. */
  function KeywordAt(content: string, keyword: string, index: Num, length: Num): (r: bool)
    ensures index.Int? && length.Int? ==>
      var p := Clamp(index, |content|);
      (r <==> OccursAt(content, keyword, p)
              && (|keyword| == length.n || (|keyword| < length.n && p + |keyword| == |content|)))
  {
    Slice(content, index, Plus(index, length)) == keyword
  }

  /** `splitContentWithCondition`: the text before and after the keyword when
      the gate holds, and no parts at all otherwise. */
  function Split(content: string, keyword: string, index: Num, length: Num): (parts: seq<string>)
    ensures |parts| == 2 <==> KeywordAt(content, keyword, index, length)
    ensures |parts| == 0 <==> !KeywordAt(content, keyword, index, length)
    ensures |parts| == 2 && index.Int? && length.Int? ==> parts[0] + keyword + parts[1] == content
  {
    if KeywordAt(content, keyword, index, length) then
      var prefix := Slice(content, Int(0), index);
      var suffix := Slice(content, Plus(index, length), Int(|content|));
      assert index.Int? && length.Int? ==>
        var p := Clamp(index, |content|);
        prefix == content[..p] && suffix == content[p + |keyword|..]
        && content == content[..p] + content[p..p + |keyword|] + content[p + |keyword|..];
      [prefix, suffix]
    else
      []
  }

  /** `joinHighlightText`: the first part, the styled keyword, the second part. */
  function Join(parts: seq<string>, styled: string): string
    requires |parts| >= 2
  {
    parts[0] + styled + parts[1]
  }

  /** The text with `styled` standing in for the `width` characters at `p`. */
  function ReplaceAt(s: string, p: nat, width: nat, styled: string): string
    requires p + width <= |s|
  {
    s[..p] + styled + s[p + width..]
  }

  /** A successful split followed by a join replaces exactly the occurrence
      of the keyword found at the (clamped) offset, and nothing else. */
  lemma {:induction false} JoinReplacesLocatedKeyword(content: string, keyword: string, i: nat, l: nat, styled: string)
    requires KeywordAt(content, keyword, Int(i), Int(l))
    ensures |Split(content, keyword, Int(i), Int(l))| == 2
    ensures OccursAt(content, keyword, Clamp(Int(i), |content|))
    ensures Join(Split(content, keyword, Int(i), Int(l)), styled)
            == ReplaceAt(content, Clamp(Int(i), |content|), |keyword|, styled)
  {
    var p := Clamp(Int(i), |content|);
    var parts := Split(content, keyword, Int(i), Int(l));
    assert parts[0] == content[..p];
    assert parts[1] == content[p + |keyword|..];
  }

  /** A stale offset with NaN as its start (a missing position cell) only
      matches the empty keyword, and the split still reassembles the content. */
  lemma NaNOffsetMatchesOnlyEmpty(content: string, keyword: string, length: Num)
    ensures KeywordAt(content, keyword, NaN, length) <==> keyword == ""
    ensures |Split(content, keyword, NaN, length)| == 2 ==>
      var parts := Split(content, keyword, NaN, length);
      parts[0] == "" && parts[1] == content
  {
  }
}
