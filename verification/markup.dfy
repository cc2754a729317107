/** `cleanString` of the table sorter: `s.replace(/(<([^>]+)>)/ig, '')`,
    which deletes every run made of `<`, one or more characters other than
    `>`, and the `>` that ends it, scanning from left to right. */
module Markup {

  /** The first position at or after `from` holding `>`, if any. */
  function FirstClose(s: string, from: nat): (j: int)
    requires from <= |s|
    ensures j == -1 <==> forall k :: from <= k < |s| ==> s[k] != '>'
    ensures j != -1 ==> from <= j < |s| && s[j] == '>' && forall k :: from <= k < j ==> s[k] != '>'
    decreases |s| - from
  {
    if from == |s| then -1
    else if s[from] == '>' then from
    else FirstClose(s, from + 1)
  }

  /** A tag starts at position 0: a `<`, at least one character that is not
      `>`, then a `>`. */
  predicate TagAtStart(s: string)
  {
    |s| >= 3 && s[0] == '<' && s[1] != '>' && FirstClose(s, 2) != -1
  }

  /** `cleanString`: at a tag, the whole tag up to its first `>` is dropped;
      any other character is kept and the scan moves on by one. */
  function CleanString(s: string): (r: string)
    ensures |r| <= |s|
    ensures forall k :: 0 <= k < |r| ==> r[k] in s
    decreases |s|
  {
    if |s| == 0 then ""
    else if TagAtStart(s) then
      var j := FirstClose(s, 2);
      var rest := CleanString(s[j + 1..]);
      assert forall k :: 0 <= k < |rest| ==> rest[k] in s by {
        forall k | 0 <= k < |rest| ensures rest[k] in s {
          var m :| 0 <= m < |s[j + 1..]| && s[j + 1..][m] == rest[k];
          assert s[j + 1 + m] == rest[k];
        }
      }
      rest
    else
      var rest := CleanString(s[1..]);
      assert forall k :: 0 <= k < |rest| ==> rest[k] in s by {
        forall k | 0 <= k < |rest| ensures rest[k] in s {
          var m :| 0 <= m < |s[1..]| && s[1..][m] == rest[k];
          assert s[1 + m] == rest[k];
        }
      }
      [s[0]] + rest
  }

  /** A tag at the front, a `<`, then characters other than `>` up to the
      first `>` at `j`, is deleted whole, and cleaning goes on after it. */
  lemma CleanDropsTag(s: string, j: nat)
    requires j < |s| && 2 <= j && s[0] == '<' && s[1] != '>' && s[j] == '>'
    requires forall k :: 2 <= k < j ==> s[k] != '>'
    ensures CleanString(s) == CleanString(s[j + 1..])
  {
    assert FirstClose(s, 2) == j;
  }

  /** A first character that does not open a tag (it is not `<`, or no
      non-empty run up to a `>` follows it) is kept, and cleaning goes on
      with the next character. */
  lemma CleanKeepsChar(s: string)
    requires |s| > 0
    requires s[0] != '<' || |s| < 3 || s[1] == '>' || forall k :: 2 <= k < |s| ==> s[k] != '>'
    ensures CleanString(s) == [s[0]] + CleanString(s[1..])
  {
  }

  /** No tag left anywhere: every `<` followed somewhere later by a `>` is
      followed by one immediately. */
  ghost predicate TagFree(s: string)
  {
    forall i, j :: 0 <= i < j < |s| && s[i] == '<' && s[j] == '>' ==> s[i + 1] == '>'
  }

  /** A string without tags is left as it is; in particular one without any
      `<` is returned unchanged. */
  lemma {:induction false} TagFreeUnchanged(s: string)
    requires TagFree(s)
    ensures CleanString(s) == s
    decreases |s|
  {
    if |s| > 0 {
      if TagAtStart(s) {
        assert false;
      }
      assert TagFree(s[1..]) by {
        forall i, j | 0 <= i < j < |s[1..]| && s[1..][i] == '<' && s[1..][j] == '>'
          ensures s[1..][i + 1] == '>'
        {
          assert s[i + 1] == '<' && s[j + 1] == '>';
        }
      }
      TagFreeUnchanged(s[1..]);
    }
  }

  /** Cleaning leaves no tag behind. */
  lemma {:induction false} CleanIsTagFree(s: string)
    ensures TagFree(CleanString(s))
    decreases |s|
  {
    if |s| == 0 {
    } else if TagAtStart(s) {
      CleanIsTagFree(s[FirstClose(s, 2) + 1..]);
    } else {
      var t := CleanString(s[1..]);
      CleanIsTagFree(s[1..]);
      var r := [s[0]] + t;
      assert CleanString(s) == r;
      forall i, j | 0 <= i < j < |r| && r[i] == '<' && r[j] == '>'
        ensures r[i + 1] == '>'
      {
        if i == 0 {
          if |s| >= 2 && s[1] == '>' {
            // `>` is kept by the scan, so it heads the rest.
            assert !TagAtStart(s[1..]);
            assert t == [s[1]] + CleanString(s[2..]);
          } else {
            // Without a tag here, no `>` follows the `<` at all.
            assert false;
          }
        } else {
          assert r[i] == t[i - 1] && r[j] == t[j - 1] && r[i + 1] == t[i];
        }
      }
    }
  }

  /** Cleaning twice is cleaning once. */
  lemma CleanIdempotent(s: string)
    ensures CleanString(CleanString(s)) == CleanString(s)
  {
    CleanIsTagFree(s);
    TagFreeUnchanged(CleanString(s));
  }
}
