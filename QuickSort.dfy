/** Quicksort of the prefix `A[0..n)` of an integer array with a three-way
    partition around the pivot `A[0]` into fresh arrays. */
module QuickSort {
  import opened Sequences

  /** Every element of `s` is below `pivot`. */
  ghost predicate Below(s: seq<int>, pivot: int) {
    forall k :: 0 <= k < |s| ==> s[k] < pivot
  }

  /** Every element of `s` is `pivot`. */
  ghost predicate Equal(s: seq<int>, pivot: int) {
    forall k :: 0 <= k < |s| ==> s[k] == pivot
  }

  /** `x` repeated `m` times. */
  function Repeat(x: int, m: nat): (r: seq<int>)
    ensures |r| == m
  {
    if m == 0 then [] else Repeat(x, m - 1) + [x]
  }

  lemma {:induction false} RepeatEqual(x: int, m: nat)
    ensures Equal(Repeat(x, m), x)
  {
    if m > 0 {
      RepeatEqual(x, m - 1);
      assert forall k :: 0 <= k < m - 1 ==> Repeat(x, m)[k] == Repeat(x, m - 1)[k];
    }
  }

  /** Every element of `s` is above `pivot`. */
  ghost predicate Above(s: seq<int>, pivot: int) {
    forall k :: 0 <= k < |s| ==> s[k] > pivot
  }

  /** A rearrangement of a sequence below (above) the pivot stays below (above) it. */
  lemma SideElems(s: seq<int>, t: seq<int>, pivot: int)
    requires multiset(t) == multiset(s)
    ensures Below(s, pivot) ==> Below(t, pivot)
    ensures Above(s, pivot) ==> Above(t, pivot)
  {
    forall k | 0 <= k < |t| ensures exists j :: 0 <= j < |s| && s[j] == t[k] {
      assert t[k] in multiset(s);
    }
  }

  /** The smaller part, the equal part and the larger part, each sorted and
      in that order, make a sorted sequence. */
  lemma Joined(s: seq<int>, e: seq<int>, l: seq<int>, pivot: int)
    requires Sorted(s) && Below(s, pivot)
    requires Equal(e, pivot)
    requires Sorted(l) && Above(l, pivot)
    ensures Sorted(s + e + l)
  {
    var t := s + e + l;
    forall a, b | 0 <= a < b < |t| ensures t[a] <= t[b] {
      if b < |s| {
        assert t[a] == s[a] && t[b] == s[b];
      } else if a >= |s| + |e| {
        assert t[a] == l[a - |s| - |e|] && t[b] == l[b - |s| - |e|];
      } else if a < |s| {
        assert t[a] == s[a];
        if b < |s| + |e| {
          assert t[b] == e[b - |s|];
        } else {
          assert t[b] == l[b - |s| - |e|];
        }
      } else {
        assert t[a] == e[a - |s|];
        if b < |s| + |e| {
          assert t[b] == e[b - |s|];
        } else {
          assert t[b] == l[b - |s| - |e|];
        }
      }
    }
  }

  /** The result of the copy-back loops is a sorted rearrangement of the
      three parts. */
  lemma Combined(s0: seq<int>, s: seq<int>, e: seq<int>, l0: seq<int>, l: seq<int>, pivot: int)
    requires Below(s0, pivot) && Sorted(s) && multiset(s) == multiset(s0)
    requires e == Repeat(pivot, |e|)
    requires Above(l0, pivot) && Sorted(l) && multiset(l) == multiset(l0)
    ensures Sorted(s + e + l)
    ensures multiset(s + e + l) == multiset(s0) + multiset(e) + multiset(l0)
  {
    SideElems(s0, s, pivot);
    SideElems(l0, l, pivot);
    RepeatEqual(pivot, |e|);
    Joined(s, e, l, pivot);
  }

  /** The for loops of the copy-back: `src[..m]` is written to `A[i..i + m)`. */
  method CopyInto(A: array<int>, i: int, src: array<int>, m: int) returns (next: int)
    requires A != src && 0 <= i && 0 <= m <= src.Length && i + m <= A.Length
    modifies A
    ensures next == i + m
    ensures A[..] == old(A[..i]) + src[..m] + old(A[i + m..])
  {
    next := i;
    var j := 0;
    while j < m
      invariant 0 <= j <= m && next == i + j
      invariant forall k :: 0 <= k < A.Length && !(i <= k < next) ==> A[k] == old(A[k])
      invariant forall k :: i <= k < next ==> A[k] == src[k - i]
    {
      A[next] := src[j];
      next := next + 1;
      j := j + 1;
    }
    assert A[..] == old(A[..i]) + src[..m] + old(A[i + m..]);
  }

  /** The three copy-back loops, one after the other, lay the three parts
      out in order over `A[0..n)`. */
  lemma Reassembled(a0: seq<int>, a1: seq<int>, a2: seq<int>, a3: seq<int>,
                    s: seq<int>, e: seq<int>, l: seq<int>)
    requires |s| + |e| + |l| <= |a0|
    requires a1 == a0[..0] + s + a0[|s|..]
    requires a2 == a1[..|s|] + e + a1[|s| + |e|..]
    requires a3 == a2[..|s| + |e|] + l + a2[|s| + |e| + |l|..]
    ensures a3[..|s| + |e| + |l|] == s + e + l
    ensures a3[|s| + |e| + |l|..] == a0[|s| + |e| + |l|..]
  {
  }

  /** The elements of `a` below `pivot`, in their order in `a`. */
  function Smaller(a: seq<int>, pivot: int): (r: seq<int>)
    ensures |r| <= |a|
  {
    if a == [] then []
    else Smaller(a[..|a| - 1], pivot) + (if a[|a| - 1] < pivot then [a[|a| - 1]] else [])
  }

  /** The elements of `a` equal to `pivot`. */
  function Equals(a: seq<int>, pivot: int): (r: seq<int>)
    ensures |r| <= |a|
  {
    if a == [] then []
    else Equals(a[..|a| - 1], pivot) + (if a[|a| - 1] == pivot then [a[|a| - 1]] else [])
  }

  /** The elements of `a` above `pivot`, in their order in `a`. */
  function Larger(a: seq<int>, pivot: int): (r: seq<int>)
    ensures |r| <= |a|
  {
    if a == [] then []
    else Larger(a[..|a| - 1], pivot) + (if a[|a| - 1] > pivot then [a[|a| - 1]] else [])
  }

  /** Together the three parts hold exactly the elements of `a`. */
  lemma {:induction false} PartsMultiset(a: seq<int>, pivot: int)
    ensures multiset(Smaller(a, pivot)) + multiset(Equals(a, pivot)) + multiset(Larger(a, pivot))
         == multiset(a)
  {
    if a != [] {
      PartsMultiset(a[..|a| - 1], pivot);
      assert a == a[..|a| - 1] + [a[|a| - 1]];
    }
  }

  /** The smaller part lies below the pivot and the larger part above it. */
  lemma {:induction false} PartsSides(a: seq<int>, pivot: int)
    ensures Below(Smaller(a, pivot), pivot) && Above(Larger(a, pivot), pivot)
  {
    if a != [] {
      PartsSides(a[..|a| - 1], pivot);
    }
  }

  /** The equal part is the pivot repeated, and it is not empty when the
      pivot occurs in `a`. */
  lemma {:induction false} PartsEqual(a: seq<int>, pivot: int)
    ensures Equals(a, pivot) == Repeat(pivot, |Equals(a, pivot)|)
    ensures pivot in a ==> 0 < |Equals(a, pivot)|
  {
    if a != [] {
      var b := a[..|a| - 1];
      PartsEqual(b, pivot);
      if pivot in a && a[|a| - 1] != pivot {
        assert a == b + [a[|a| - 1]];
        assert pivot in b;
      }
    }
  }

  /** The three parts are as long as `a` together. */
  lemma {:induction false} PartsLength(a: seq<int>, pivot: int)
    ensures |Smaller(a, pivot)| + |Equals(a, pivot)| + |Larger(a, pivot)| == |a|
  {
    if a != [] {
      PartsLength(a[..|a| - 1], pivot);
    }
  }

  /** The partition loop of quickSort: every cell of `A[0..n)` goes, in
      order, to `equal` if it equals the pivot `A[0]`, else to `smaller` or
      `larger`. */
  method Partition(A: array<int>, n: int)
      returns (smaller: array<int>, nSmaller: int, equal: array<int>, nEqual: int,
               larger: array<int>, nLarger: int)
    requires 1 < n <= A.Length
    ensures fresh(smaller) && fresh(equal) && fresh(larger)
    ensures smaller != equal && smaller != larger && equal != larger
    ensures smaller.Length == equal.Length == larger.Length == n
    ensures 0 <= nSmaller <= n && 0 <= nEqual <= n && 0 <= nLarger <= n
    ensures smaller[..nSmaller] == Smaller(A[..n], A[0])
    ensures equal[..nEqual] == Equals(A[..n], A[0])
    ensures larger[..nLarger] == Larger(A[..n], A[0])
    ensures nSmaller + nEqual + nLarger == n && nSmaller < n && nLarger < n
  {
    smaller := new int[n];
    equal := new int[n];
    larger := new int[n];
    nSmaller, nEqual, nLarger := 0, 0, 0;
    var pivot := A[0];
    ghost var a := A[..n];
    ghost var s, e, l := [], [], [];
    var i := 0;
    while i < n
      invariant 0 <= i <= n
      invariant smaller != equal && smaller != larger && equal != larger
      invariant s == Smaller(a[..i], pivot) && e == Equals(a[..i], pivot) && l == Larger(a[..i], pivot)
      invariant |s| == nSmaller && |e| == nEqual && |l| == nLarger
      invariant forall k :: 0 <= k < nSmaller ==> smaller[k] == s[k]
      invariant forall k :: 0 <= k < nEqual ==> equal[k] == e[k]
      invariant forall k :: 0 <= k < nLarger ==> larger[k] == l[k]
    {
      assert a[..i + 1][..i] == a[..i];
      if A[i] == pivot {
        equal[nEqual] := A[i];
        nEqual := nEqual + 1;
        e := e + [A[i]];
      } else if A[i] < pivot {
        smaller[nSmaller] := A[i];
        nSmaller := nSmaller + 1;
        s := s + [A[i]];
      } else {
        larger[nLarger] := A[i];
        nLarger := nLarger + 1;
        l := l + [A[i]];
      }
      i := i + 1;
    }
    Prefix(smaller, s);
    Prefix(equal, e);
    Prefix(larger, l);
    assert a[..n] == a;
    PartsLength(a, pivot);
    PartsEqual(a, pivot);
    assert pivot in a;
  }

  lemma Prefix(a: array<int>, s: seq<int>)
    requires |s| <= a.Length && forall k :: 0 <= k < |s| ==> a[k] == s[k]
    ensures a[..|s|] == s
  {
  }

  /** Sorting the outer two parts of `a` and laying the three parts out in
      order gives a sorted rearrangement of `a`. */
  lemma SortedParts(a: seq<int>, pivot: int, s: seq<int>, l: seq<int>)
    requires Sorted(s) && multiset(s) == multiset(Smaller(a, pivot))
    requires Sorted(l) && multiset(l) == multiset(Larger(a, pivot))
    ensures Sorted(s + Equals(a, pivot) + l)
    ensures multiset(s + Equals(a, pivot) + l) == multiset(a)
  {
    PartsMultiset(a, pivot);
    PartsSides(a, pivot);
    PartsEqual(a, pivot);
    Combined(Smaller(a, pivot), s, Equals(a, pivot), Larger(a, pivot), l, pivot);
  }

  /** The three copy-back loops of quickSort: `A[0..n)` becomes the smaller,
      the equal and the larger part, one after the other. */
  method CopyBack(A: array<int>, smaller: array<int>, nSmaller: int, equal: array<int>, nEqual: int,
                  larger: array<int>, nLarger: int, ghost s: seq<int>, ghost e: seq<int>, ghost l: seq<int>)
    requires A != smaller && A != equal && A != larger
    requires 0 <= nSmaller <= smaller.Length && 0 <= nEqual <= equal.Length && 0 <= nLarger <= larger.Length
    requires nSmaller + nEqual + nLarger <= A.Length
    requires smaller[..nSmaller] == s && equal[..nEqual] == e && larger[..nLarger] == l
    modifies A
    ensures A[..nSmaller + nEqual + nLarger] == s + e + l
    ensures A[nSmaller + nEqual + nLarger..] == old(A[nSmaller + nEqual + nLarger..])
  {
    ghost var a0 := A[..];
    var i := 0;
    i := CopyInto(A, i, smaller, nSmaller);
    ghost var a1 := A[..];
    i := CopyInto(A, i, equal, nEqual);
    ghost var a2 := A[..];
    i := CopyInto(A, i, larger, nLarger);
    Reassembled(a0, a1, a2, A[..], s, e, l);
  }

  /** quickSort: partition `A[0..n)` into the parts below, equal to and above
      `A[0]`, sort the outer two recursively, and copy the three back. */
  method QuickSort(A: array<int>, n: int) returns (r: array<int>)
    requires n <= A.Length || n <= 1
    modifies A
    decreases n
    ensures r == A
    ensures n <= 1 ==> A[..] == old(A[..])
    ensures 0 <= n <= A.Length ==>
      Sorted(A[..n]) && multiset(A[..n]) == multiset(old(A[..n])) && A[n..] == old(A[n..])
  {
    if n > 1 {
      ghost var a0 := A[..];
      ghost var a := A[..n];
      ghost var pivot := A[0];
      var smaller, nSmaller, equal, nEqual, larger, nLarger := Partition(A, n);
      ghost var e := equal[..nEqual];
      assert e == Equals(a, pivot);
      var sortedSmaller := QuickSort(smaller, nSmaller);
      var sortedLarger := QuickSort(larger, nLarger);
      assert A[..] == a0;
      assert equal[..nEqual] == e;
      ghost var s, l := smaller[..nSmaller], larger[..nLarger];
      SortedParts(a, pivot, s, l);
      CopyBack(A, smaller, nSmaller, equal, nEqual, larger, nLarger, s, e, l);
      assert A[..n] == s + e + l;
      assert A[n..] == a0[n..];
    }
    return A;
  }
}
