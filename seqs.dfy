/** Small facts about sequences used as Python lists and sets. */
module Seqs {

  datatype Option<T> = None | Some(value: T)

  /** The set of elements of a list, `set(xs)` in Python. */
  function SetOf<T>(xs: seq<T>): set<T>
  {
    set x | x in xs
  }

  /** Every element of the list occurs once. */
  predicate NoDuplicates<T(==)>(xs: seq<T>)
  {
    forall i, j :: 0 <= i < j < |xs| ==> xs[i] != xs[j]
  }

  lemma PrefixExtend<T>(xs: seq<T>, i: nat)
    requires i < |xs|
    ensures xs[..i] + [xs[i]] == xs[..i + 1]
  {
  }

  /** Appending an element not yet present keeps the list free of
      duplicates and adds just that element. */
  lemma AppendFresh<T>(xs: seq<T>, x: T)
    requires NoDuplicates(xs) && x !in xs
    ensures NoDuplicates(xs + [x])
    ensures SetOf(xs + [x]) == SetOf(xs) + {x}
  {
  }

  /** Prepending an element not yet present keeps the list free of
      duplicates and adds just that element. */
  lemma PrependFresh<T>(x: T, xs: seq<T>)
    requires NoDuplicates(xs) && x !in xs
    ensures NoDuplicates([x] + xs)
    ensures SetOf([x] + xs) == SetOf(xs) + {x}
    ensures |[x] + xs| == |xs| + 1
  {
    var ys := [x] + xs;
    forall i, j | 0 <= i < j < |ys| ensures ys[i] != ys[j] {
      assert ys[j] == xs[j - 1];
      if i > 0 { assert ys[i] == xs[i - 1]; }
    }
  }

  /** A list without duplicates counts each of its elements once. */
  lemma {:induction false} DistinctMultiset<T>(xs: seq<T>)
    requires NoDuplicates(xs)
    ensures multiset(xs) == multiset(SetOf(xs))
    ensures |SetOf(xs)| == |xs|
  {
    if xs != [] {
      var tail := xs[1..];
      DistinctTail(xs);
      DistinctMultiset(tail);
      assert xs == [xs[0]] + tail;
      SetOfCons(xs);
      MultisetOfFreshAdd(SetOf(tail), xs[0]);
    }
  }

  lemma SetOfCons<T>(xs: seq<T>)
    requires xs != []
    ensures SetOf(xs) == SetOf(xs[1..]) + {xs[0]}
  {
    assert xs == [xs[0]] + xs[1..];
  }

  /** A list has at least as many entries as its set has elements. */
  lemma {:induction false} SetOfSize<T>(xs: seq<T>)
    ensures |SetOf(xs)| <= |xs|
  {
    if xs != [] {
      SetOfCons(xs);
      SetOfSize(xs[1..]);
    }
  }

  lemma MultisetOfFreshAdd<T>(a: set<T>, x: T)
    requires x !in a
    ensures multiset(a + {x}) == multiset(a) + multiset{x}
    ensures |a + {x}| == |a| + 1
  {
  }

  /** The tail of a duplicate-free list is duplicate-free and lacks the head. */
  lemma DistinctTail<T>(xs: seq<T>)
    requires NoDuplicates(xs) && xs != []
    ensures NoDuplicates(xs[1..]) && xs[0] !in xs[1..]
  {
    var tail := xs[1..];
    forall i, j | 0 <= i < j < |tail| ensures tail[i] != tail[j] {
      assert tail[i] == xs[i + 1] && tail[j] == xs[j + 1];
    }
    forall j | 0 <= j < |tail| ensures tail[j] != xs[0] {
      assert tail[j] == xs[j + 1];
    }
  }

  /** A list without duplicates holds each value at most once. */
  lemma {:induction false} DistinctCount<T>(xs: seq<T>, x: T)
    requires NoDuplicates(xs)
    ensures multiset(xs)[x] <= 1
  {
    if xs != [] {
      var tail := xs[1..];
      assert xs == [xs[0]] + tail;
      DistinctTail(xs);
      DistinctCount(tail, x);
    }
  }

  lemma RepeatedCount<T>(ys: seq<T>, i: int, j: int)
    requires 0 <= i < j < |ys| && ys[i] == ys[j]
    ensures multiset(ys)[ys[i]] >= 2
  {
    assert ys == ys[..j] + ys[j..];
    assert ys[i] in ys[..j] && ys[j] in ys[j..];
  }

  /** A permutation of a list without duplicates has none either. */
  lemma PermutationKeepsDistinct<T>(xs: seq<T>, ys: seq<T>)
    requires NoDuplicates(xs) && multiset(xs) == multiset(ys)
    ensures NoDuplicates(ys)
  {
    forall i, j | 0 <= i < j < |ys| ensures ys[i] != ys[j] {
      if ys[i] == ys[j] {
        RepeatedCount(ys, i, j);
        DistinctCount(xs, ys[i]);
      }
    }
  }

  /** Some enumeration of a finite set, in an unspecified order. */
  ghost function SetToSeq<T>(s: set<T>): (xs: seq<T>)
    ensures SetOf(xs) == s
    ensures NoDuplicates(xs)
    ensures |xs| == |s|
    decreases s
  {
    if s == {} then []
    else
      var x :| x in s;
      var rest := SetToSeq(s - {x});
      assert x !in SetOf(rest);
      PrependFresh(x, rest);
      [x] + rest
  }
}
