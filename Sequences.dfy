/** Facts about integer sequences shared by the trees and the sorting routines. */
module Sequences {

  /** `s` is non-decreasing. */
  ghost predicate Sorted(s: seq<int>) {
    forall i, j :: 0 <= i < j < |s| ==> s[i] <= s[j]
  }

  /** `x` inserted into `s` after every leading element that is not larger
      than `x`, i.e. just before the first element greater than `x`. */
  function SortedInsert(s: seq<int>, x: int): seq<int> {
    if s == [] then [x]
    else if x < s[0] then [x] + s
    else [s[0]] + SortedInsert(s[1..], x)
  }

  /** `s` with its first occurrence of `x` dropped (unchanged if there is none). */
  function RemoveFirst(s: seq<int>, x: int): seq<int> {
    if s == [] then []
    else if s[0] == x then s[1..]
    else [s[0]] + RemoveFirst(s[1..], x)
  }

  /** `s` with every occurrence of `x` dropped, the rest kept in order. */
  function Without(s: seq<int>, x: int): seq<int> {
    if s == [] then []
    else (if s[0] == x then [] else [s[0]]) + Without(s[1..], x)
  }

  /** Sorted concatenation around a pivot. */
  lemma SortedAround(a: seq<int>, k: int, b: seq<int>)
    requires Sorted(a) && Sorted(b)
    requires forall y | y in a :: y <= k
    requires forall y | y in b :: k <= y
    ensures Sorted(a + [k] + b)
  {
    var s := a + [k] + b;
    forall i, j | 0 <= i < j < |s| ensures s[i] <= s[j] {
      if j < |a| {
      } else if i < |a| {
        assert s[i] in a;
        if j > |a| { assert s[j] in b; }
      } else if i == |a| {
        assert s[j] in b;
      } else {
        assert s[i] == b[i - |a| - 1] && s[j] == b[j - |a| - 1];
      }
    }
  }

  lemma {:induction false} SortedInsertElems(s: seq<int>, x: int)
    ensures multiset(SortedInsert(s, x)) == multiset(s) + multiset{x}
  {
    if s != [] && x >= s[0] {
      SortedInsertElems(s[1..], x);
      assert s == [s[0]] + s[1..];
    }
  }

  /** Inserting before a suffix that starts above `x` stays inside the prefix. */
  lemma {:induction false} SortedInsertBefore(a: seq<int>, c: seq<int>, x: int)
    requires c == [] || x < c[0]
    ensures SortedInsert(a + c, x) == SortedInsert(a, x) + c
  {
    if a == [] {
      assert a + c == c;
    } else {
      assert (a + c)[0] == a[0] && (a + c)[1..] == a[1..] + c;
      if x >= a[0] {
        SortedInsertBefore(a[1..], c, x);
      }
    }
  }

  /** Inserting past a prefix of elements not above `x` leaves the prefix. */
  lemma {:induction false} SortedInsertAfter(a: seq<int>, c: seq<int>, x: int)
    requires forall y | y in a :: y <= x
    ensures SortedInsert(a + c, x) == a + SortedInsert(c, x)
  {
    if a == [] {
      assert a + c == c;
    } else {
      assert (a + c)[0] == a[0] && (a + c)[1..] == a[1..] + c;
      assert a[0] in a;
      assert forall y | y in a[1..] :: y in a;
      SortedInsertAfter(a[1..], c, x);
      assert a == [a[0]] + a[1..];
    }
  }

  lemma {:induction false} RemoveFirstAbsent(s: seq<int>, x: int)
    requires x !in s
    ensures RemoveFirst(s, x) == s
  {
    if s != [] {
      RemoveFirstAbsent(s[1..], x);
      assert s == [s[0]] + s[1..];
    }
  }

  lemma {:induction false} RemoveFirstConcat(a: seq<int>, b: seq<int>, x: int)
    ensures RemoveFirst(a + b, x) == if x in a then RemoveFirst(a, x) + b else a + RemoveFirst(b, x)
  {
    if a == [] {
      assert a + b == b;
    } else {
      assert (a + b)[0] == a[0] && (a + b)[1..] == a[1..] + b;
      if a[0] != x {
        RemoveFirstConcat(a[1..], b, x);
        assert x in a <==> x in a[1..] by { assert a == [a[0]] + a[1..]; }
        if x !in a {
          assert a == [a[0]] + a[1..];
        }
      }
    }
  }

  lemma {:induction false} RemoveFirstElems(s: seq<int>, x: int)
    ensures multiset(RemoveFirst(s, x)) == multiset(s) - multiset{x}
  {
    if s != [] {
      assert s == [s[0]] + s[1..];
      if s[0] != x {
        RemoveFirstElems(s[1..], x);
      }
    }
  }

  lemma {:induction false} WithoutAbsent(s: seq<int>, x: int)
    requires x !in s
    ensures Without(s, x) == s
  {
    if s != [] {
      WithoutAbsent(s[1..], x);
      assert s == [s[0]] + s[1..];
    }
  }

  lemma {:induction false} WithoutRemoveFirst(s: seq<int>, x: int)
    ensures Without(RemoveFirst(s, x), x) == Without(s, x)
  {
    if s != [] && s[0] != x {
      var t := RemoveFirst(s[1..], x);
      assert ([s[0]] + t)[0] == s[0] && ([s[0]] + t)[1..] == t;
      WithoutRemoveFirst(s[1..], x);
    }
  }

  lemma {:induction false} WithoutFacts(s: seq<int>, x: int)
    ensures x !in Without(s, x)
    ensures multiset(Without(s, x)) == multiset(s)[x := 0]
    ensures |Without(s, x)| == |s| - multiset(s)[x]
  {
    if s != [] {
      WithoutFacts(s[1..], x);
      assert s == [s[0]] + s[1..];
    }
  }
}
