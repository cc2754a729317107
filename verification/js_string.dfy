/** The small part of JavaScript's value and string semantics the table code
    leans on: `undefined`, array reads, `Number` arithmetic with NaN,
    `String.prototype.slice`, `indexOf` and `replace` with a string pattern.
    A `char` stands for one UTF-16 code unit, the unit JavaScript strings
    count in; only text whose characters each take one unit is modelled. */
module JsString {

  /** A value that may be JavaScript's `undefined` (`None`). */
  datatype Option<+T> = None | Some(value: T)

  /** `a[i]` on a JavaScript array: `undefined` outside `0 .. |a|-1`
      (negative indices included). */
  function At<T>(a: seq<T>, i: int): Option<T>
  {
    if 0 <= i < |a| then Some(a[i]) else None
  }

  /** `a[i]` on an array whose entries may themselves be `undefined`:
      `undefined` when the entry is, or when `i` is out of range. */
  function Entry<T>(a: seq<Option<T>>, i: int): Option<T>
  {
    if 0 <= i < |a| then a[i] else None
  }

  /** A number as these routines see it: a non-negative integer, or NaN,
      which is what `Number(undefined)` and `undefined + n` give. */
  datatype Num = Int(n: nat) | NaN

  /** JavaScript `+` on two numbers: NaN is absorbing. */
  function Plus(a: Num, b: Num): Num
  {
    if a.Int? && b.Int? then Int(a.n + b.n) else NaN
  }

  /** The position a `slice` argument denotes in a string of length `len`:
      NaN counts as 0 and anything past the end is clamped to the end. */
  function Clamp(a: Num, len: nat): (p: nat)
    ensures p <= len
    ensures a.Int? && a.n <= len ==> p == a.n
    ensures a.Int? && a.n >= len ==> p == len
  {
    match a
    case NaN => 0
    case Int(n) => if n < len then n else len
  }

  /** `s.slice(start, end)`: the characters from the clamped start up to the
      clamped end, or the empty string when the two cross. */
  function Slice(s: string, start: Num, end: Num): (r: string)
    ensures Clamp(start, |s|) <= Clamp(end, |s|) ==> r == s[Clamp(start, |s|)..Clamp(end, |s|)]
    ensures Clamp(start, |s|) > Clamp(end, |s|) ==> r == ""
  {
    var from, to := Clamp(start, |s|), Clamp(end, |s|);
    if from < to then s[from..to] else ""
  }

  /** `pat` occurs in `s` starting at position `p`. */
  predicate OccursAt(s: string, pat: string, p: nat)
  {
    p + |pat| <= |s| && s[p..p + |pat|] == pat
  }

  /** `s.indexOf(pat, from)`: the first position at or after `from` where
      `pat` occurs, or -1. */
  function IndexFrom(s: string, pat: string, from: nat): (r: int)
    requires from <= |s|
    ensures r == -1 || from <= r <= |s|
    ensures r == -1 <==> forall p :: from <= p <= |s| ==> !OccursAt(s, pat, p)
    ensures r >= 0 ==> OccursAt(s, pat, r) && forall p :: from <= p < r ==> !OccursAt(s, pat, p)
    decreases |s| - from
  {
    if OccursAt(s, pat, from) then from
    else if from == |s| then -1
    else IndexFrom(s, pat, from + 1)
  }

  /** `s.indexOf(pat)`. */
  function IndexOf(s: string, pat: string): int
  {
    IndexFrom(s, pat, 0)
  }

  /** `s.replace(pat, rep)` with a string pattern: only the FIRST occurrence
      of `pat` is replaced; `s` is returned unchanged when there is none. */
  function ReplaceFirst(s: string, pat: string, rep: string): (r: string)
    ensures IndexOf(s, pat) == -1 ==> r == s
    ensures IndexOf(s, pat) >= 0 ==>
      var p := IndexOf(s, pat);
      OccursAt(s, pat, p) && r == s[..p] + rep + s[p + |pat|..]
  {
    var p := IndexOf(s, pat);
    if p < 0 then s else s[..p] + rep + s[p + |pat|..]
  }

  /** How the host's primitive cell values turn into text (`toString()`) and
      into numbers (`Number(...)`); both are supplied by the caller. */
  datatype Coercion<-V> = Coercion(show: V -> string, number: V -> nat)

  /** `Number(a[i])` for a cell of a row: NaN when the cell is missing. */
  function NumberAt<V>(co: Coercion<V>, a: seq<V>, i: int): Num
  {
    if 0 <= i < |a| then Int(co.number(a[i])) else NaN
  }
}
