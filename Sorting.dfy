/** The order every sorting routine must produce, given independently of
    the routines: insertion into a sorted sequence, one element at a time. */
module Sorting {
  import opened Sequences

  /** The elements of `s` in non-decreasing order. */
  function Sort(s: seq<int>): seq<int> {
    if s == [] then [] else SortedInsert(Sort(s[..|s| - 1]), s[|s| - 1])
  }

  lemma {:induction false} SortedInsertSorted(s: seq<int>, x: int)
    requires Sorted(s)
    ensures Sorted(SortedInsert(s, x))
  {
    if s != [] && x >= s[0] {
      SortedInsertSorted(s[1..], x);
      SortedInsertElems(s[1..], x);
      var t := SortedInsert(s[1..], x);
      forall y | y in t ensures s[0] <= y {
        assert y in multiset(t);
      }
      SortedAround([], s[0], t);
      assert SortedInsert(s, x) == [] + [s[0]] + t;
    } else {
      assert forall y | y in s :: x <= y;
      SortedAround([], x, s);
      assert SortedInsert(s, x) == [] + [x] + s;
    }
  }

  /** `Sort` orders its input and keeps every element with its multiplicity. */
  lemma {:induction false} SortCorrect(s: seq<int>)
    ensures Sorted(Sort(s))
    ensures multiset(Sort(s)) == multiset(s)
  {
    if s != [] {
      var init := s[..|s| - 1];
      SortCorrect(init);
      SortedInsertSorted(Sort(init), s[|s| - 1]);
      SortedInsertElems(Sort(init), s[|s| - 1]);
      assert s == init + [s[|s| - 1]];
    }
  }

  /** The head of a sorted sequence is its least element. */
  lemma HeadLeast(a: seq<int>, x: int)
    requires Sorted(a) && x in multiset(a)
    ensures a[0] <= x
  {
    assert x in a;
  }

  /** Sorted sequences with the same elements agree on their heads, and
      their tails are again sorted with the same elements. */
  lemma SameHeads(a: seq<int>, b: seq<int>)
    requires Sorted(a) && Sorted(b) && multiset(a) == multiset(b) && a != []
    ensures b != [] && a[0] == b[0]
    ensures Sorted(a[1..]) && Sorted(b[1..]) && multiset(a[1..]) == multiset(b[1..])
  {
    assert |b| == |a| by { assert |multiset(a)| == |multiset(b)|; }
    HeadLeast(a, b[0]);
    HeadLeast(b, a[0]);
    Tail(a);
    Tail(b);
  }

  lemma Tail(a: seq<int>)
    requires Sorted(a) && a != []
    ensures Sorted(a[1..]) && multiset(a[1..]) == multiset(a) - multiset{a[0]}
  {
    assert a == [a[0]] + a[1..];
  }

  lemma SameParts(a: seq<int>, b: seq<int>)
    requires a != [] && b != [] && a[0] == b[0] && a[1..] == b[1..]
    ensures a == b
  {
    assert a == [a[0]] + a[1..] && b == [b[0]] + b[1..];
  }

  /** Two sorted sequences with the same elements are the same sequence. */
  lemma {:induction false} SortedUnique(a: seq<int>, b: seq<int>)
    requires Sorted(a) && Sorted(b)
    requires multiset(a) == multiset(b)
    ensures a == b
  {
    if a != [] {
      SameHeads(a, b);
      SortedUnique(a[1..], b[1..]);
      SameParts(a, b);
    }
  }

  /** Any sorted rearrangement of `s` is `Sort(s)`. */
  lemma IsSort(r: seq<int>, s: seq<int>)
    requires Sorted(r) && multiset(r) == multiset(s)
    ensures r == Sort(s)
  {
    SortCorrect(s);
    SortedUnique(r, Sort(s));
  }
}
