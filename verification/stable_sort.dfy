/** A stable sort of a sequence by a string key under a collation, the
    reference for what `Array.prototype.sort` does with a comparator that
    answers 0 for equal keys (the sort has been stable since ES2019). */
module StableSort {

  /** A collation: `le(a, b)` says `a` may come before `b`. It is taken to be
      a total preorder; distinct strings may collate as equal. */
  ghost predicate TotalPreorder(le: (string, string) -> bool)
  {
    && (forall a, b :: le(a, b) || le(b, a))
    && (forall a, b, c :: le(a, b) && le(b, c) ==> le(a, c))
  }

  ghost predicate Equivalent(le: (string, string) -> bool, a: string, b: string)
  {
    le(a, b) && le(b, a)
  }

  /** `xs` is in ascending order of its keys. */
  ghost predicate Sorted<T>(xs: seq<T>, key: T -> string, le: (string, string) -> bool)
  {
    forall i, j :: 0 <= i < j < |xs| ==> le(key(xs[i]), key(xs[j]))
  }

  /** The elements of `xs` whose key collates equal to `k`, in their order. */
  function Class<T>(xs: seq<T>, key: T -> string, le: (string, string) -> bool, k: string): seq<T>
  {
    if |xs| == 0 then []
    else (if le(key(xs[0]), k) && le(k, key(xs[0])) then [xs[0]] else []) + Class(xs[1..], key, le, k)
  }

  /** `ys` keeps the relative order of every group of equally collating
      elements of `xs`. */
  ghost predicate Stable<T>(xs: seq<T>, ys: seq<T>, key: T -> string, le: (string, string) -> bool)
  {
    forall k :: Class(ys, key, le, k) == Class(xs, key, le, k)
  }

  /** Puts `x` in front of the first element it may precede. */
  function Insert<T>(x: T, ys: seq<T>, key: T -> string, le: (string, string) -> bool): (r: seq<T>)
    ensures multiset(r) == multiset(ys) + multiset{x}
    ensures |r| == |ys| + 1
  {
    if |ys| == 0 then [x]
    else if le(key(x), key(ys[0])) then [x] + ys
    else
      assert ys == [ys[0]] + ys[1..];
      [ys[0]] + Insert(x, ys[1..], key, le)
  }

  /** Insertion sort, each element going in front of the elements after it
      that collate equal to it. The result is a permutation of the input. */
  function Sort<T>(xs: seq<T>, key: T -> string, le: (string, string) -> bool): (r: seq<T>)
    ensures multiset(r) == multiset(xs)
    ensures |r| == |xs|
  {
    if |xs| == 0 then []
    else
      assert xs == [xs[0]] + xs[1..];
      Insert(xs[0], Sort(xs[1..], key, le), key, le)
  }

  lemma SortedCons<T>(h: T, tail: seq<T>, key: T -> string, le: (string, string) -> bool)
    requires Sorted(tail, key, le)
    requires forall j :: 0 <= j < |tail| ==> le(key(h), key(tail[j]))
    ensures Sorted([h] + tail, key, le)
  {
    var r := [h] + tail;
    forall i, j | 0 <= i < j < |r| ensures le(key(r[i]), key(r[j])) {
      assert r[j] == tail[j - 1];
      if i > 0 {
        assert r[i] == tail[i - 1];
      }
    }
  }

  /** Every element of `Insert(x, ys)` is `x` or an element of `ys`. */
  lemma {:induction false} InsertFrom<T>(x: T, ys: seq<T>, key: T -> string, le: (string, string) -> bool, j: nat)
    requires j < |ys| + 1
    ensures Insert(x, ys, key, le)[j] == x || exists m :: 0 <= m < |ys| && ys[m] == Insert(x, ys, key, le)[j]
  {
    if |ys| > 0 && !le(key(x), key(ys[0])) && j > 0 {
      InsertFrom(x, ys[1..], key, le, j - 1);
      var r := Insert(x, ys[1..], key, le)[j - 1];
      if r != x {
        var m :| 0 <= m < |ys[1..]| && ys[1..][m] == r;
        assert ys[m + 1] == r;
      }
    } else if |ys| > 0 && j > 0 {
      assert Insert(x, ys, key, le)[j] == ys[j - 1];
    }
  }

  lemma {:induction false} InsertSorted<T>(x: T, ys: seq<T>, key: T -> string, le: (string, string) -> bool)
    requires TotalPreorder(le)
    requires Sorted(ys, key, le)
    ensures Sorted(Insert(x, ys, key, le), key, le)
  {
    if |ys| > 0 {
      if !le(key(x), key(ys[0])) {
        SortedTail(ys, key, le);
        InsertSorted(x, ys[1..], key, le);
        var tail := Insert(x, ys[1..], key, le);
        forall j | 0 <= j < |tail| ensures le(key(ys[0]), key(tail[j])) {
          InsertFrom(x, ys[1..], key, le, j);
          if tail[j] != x {
            var m :| 0 <= m < |ys[1..]| && ys[1..][m] == tail[j];
            assert ys[m + 1] == tail[j];
          }
        }
        SortedCons(ys[0], tail, key, le);
      } else {
        forall j | 0 <= j < |ys| ensures le(key(x), key(ys[j])) {
          assert le(key(ys[0]), key(ys[j])) || j == 0;
        }
        SortedCons(x, ys, key, le);
      }
    }
  }

  /** The sort puts the keys in ascending order. */
  lemma {:induction false} SortSorted<T>(xs: seq<T>, key: T -> string, le: (string, string) -> bool)
    requires TotalPreorder(le)
    ensures Sorted(Sort(xs, key, le), key, le)
  {
    if |xs| > 0 {
      SortSorted(xs[1..], key, le);
      InsertSorted(xs[0], Sort(xs[1..], key, le), key, le);
    }
  }

  lemma {:induction false} ClassAppend<T>(a: seq<T>, b: seq<T>, key: T -> string, le: (string, string) -> bool, k: string)
    ensures Class(a + b, key, le, k) == Class(a, key, le, k) + Class(b, key, le, k)
  {
    if |a| > 0 {
      assert (a + b)[1..] == a[1..] + b;
      ClassAppend(a[1..], b, key, le, k);
    } else {
      assert a + b == b;
    }
  }

  /** Inserting into a sorted sequence puts `x` ahead of everything that
      collates equal to it, so within its group `x` comes first. */
  lemma {:induction false} InsertClass<T>(x: T, ys: seq<T>, key: T -> string, le: (string, string) -> bool, k: string)
    requires TotalPreorder(le)
    requires Sorted(ys, key, le)
    ensures Class(Insert(x, ys, key, le), key, le, k) == Class([x] + ys, key, le, k)
  {
    ClassAppend([x], ys, key, le, k);
    if |ys| > 0 && !le(key(x), key(ys[0])) {
      SortedTail(ys, key, le);
      InsertClass(x, ys[1..], key, le, k);
      var r := Insert(x, ys, key, le);
      assert r == [ys[0]] + Insert(x, ys[1..], key, le);
      ClassAppend([ys[0]], Insert(x, ys[1..], key, le), key, le, k);
      ClassAppend([x], ys[1..], key, le, k);
      ClassAppend([ys[0]], ys[1..], key, le, k);
      assert ys == [ys[0]] + ys[1..];
      // ys[0] collates strictly before x, so the two never share a group.
      assert !(Equivalent(le, key(x), k) && Equivalent(le, key(ys[0]), k));
    }
  }

  lemma {:induction false} SortedTail<T>(ys: seq<T>, key: T -> string, le: (string, string) -> bool)
    requires |ys| > 0 && Sorted(ys, key, le)
    ensures Sorted(ys[1..], key, le)
  {
    forall i, j | 0 <= i < j < |ys[1..]| ensures le(key(ys[1..][i]), key(ys[1..][j])) {
      assert ys[1..][i] == ys[i + 1] && ys[1..][j] == ys[j + 1];
    }
  }

  /** The sort is stable: each group of equally collating elements keeps its
      relative order. */
  lemma {:induction false} SortStable<T>(xs: seq<T>, key: T -> string, le: (string, string) -> bool)
    requires TotalPreorder(le)
    ensures Stable(xs, Sort(xs, key, le), key, le)
  {
    if |xs| > 0 {
      SortStable(xs[1..], key, le);
      SortSorted(xs[1..], key, le);
      var rest := Sort(xs[1..], key, le);
      forall k ensures Class(Sort(xs, key, le), key, le, k) == Class(xs, key, le, k) {
        InsertClass(xs[0], rest, key, le, k);
        ClassAppend([xs[0]], rest, key, le, k);
        ClassAppend([xs[0]], xs[1..], key, le, k);
        assert xs == [xs[0]] + xs[1..];
      }
    }
  }

  /** `xs.reverse()`. */
  function Reverse<T>(xs: seq<T>): (r: seq<T>)
    ensures |r| == |xs|
    ensures forall i :: 0 <= i < |xs| ==> r[i] == xs[|xs| - 1 - i]
  {
    if |xs| == 0 then [] else Reverse(xs[1..]) + [xs[0]]
  }

  lemma {:induction false} ReverseMultiset<T>(xs: seq<T>)
    ensures multiset(Reverse(xs)) == multiset(xs)
  {
    if |xs| > 0 {
      ReverseMultiset(xs[1..]);
      assert xs == [xs[0]] + xs[1..];
    }
  }

  lemma ReverseReverse<T>(xs: seq<T>)
    ensures Reverse(Reverse(xs)) == xs
  {
  }
}
