/** Insertion sort of the prefix `A[0..n)` of an integer array: once by
    shifting cells in place, once through two stacks. */
module InsertionSort {
  import opened Sequences

  /** `p` with the cell at `i` moved down to position `j + 1`, the cells
      `j + 1 .. i - 1` each moved up by one. */
  ghost function Placed(p: seq<int>, i: int, j: int): (q: seq<int>)
    requires -1 <= j < i < |p|
    ensures |q| == |p|
  {
    seq(|p|, k requires 0 <= k < |p| =>
      if k <= j then p[k] else if k == j + 1 then p[i] else if k <= i then p[k - 1] else p[k])
  }

  /** An array laid out cell by cell as `Placed(p, i, j)` says. */
  lemma PlacedArray(A: array<int>, p: seq<int>, i: int, j: int)
    requires -1 <= j < i < |p| == A.Length
    requires forall k :: 0 <= k < A.Length && (k <= j || i < k) ==> A[k] == p[k]
    requires A[j + 1] == p[i]
    requires forall k :: j + 1 < k <= i ==> A[k] == p[k - 1]
    ensures A[..] == Placed(p, i, j)
  {
  }

  /** Moving `p[i]` to just above the last cell not greater than it keeps a
      sorted prefix sorted, one longer. */
  lemma PlacedSorted(p: seq<int>, i: int, j: int)
    requires -1 <= j < i < |p|
    requires Sorted(p[..i])
    requires j < 0 || p[j] <= p[i]
    requires forall k :: j < k < i ==> p[i] < p[k]
    ensures Sorted(Placed(p, i, j)[..i + 1])
  {
    var q := Placed(p, i, j);
    forall a, b | 0 <= a < b <= i ensures q[a] <= q[b] {
      if b <= j {
        assert p[..i][a] <= p[..i][b];
      } else if a <= j {
        assert p[..i][a] <= p[..i][j];
        if b > j + 1 {
          assert p[..i][j] <= p[..i][b - 1];
        }
      } else if a > j + 1 {
        assert p[..i][a - 1] <= p[..i][b - 1];
      }
    }
  }

  /** The move keeps every element of `p[..n]` and touches nothing beyond `n`. */
  lemma PlacedElems(p: seq<int>, i: int, j: int, n: int)
    requires -1 <= j < i < n <= |p|
    ensures multiset(Placed(p, i, j)[..n]) == multiset(p[..n])
    ensures Placed(p, i, j)[n..] == p[n..]
  {
    var q := Placed(p, i, j);
    assert q[..n] == p[..j + 1] + [p[i]] + p[j + 1..i] + p[i + 1..n];
    assert p[..n] == p[..j + 1] + p[j + 1..i] + [p[i]] + p[i + 1..n];
  }

  /** After pass `i` of the outer loop: the first `i` cells are sorted and
      the prefix `[0..n)` still holds the elements it started with. */
  ghost predicate Progress(a: seq<int>, a0: seq<int>, i: int, n: int) {
    0 <= i <= n <= |a| == |a0| && Sorted(a[..i])
    && multiset(a[..n]) == multiset(a0[..n]) && a[n..] == a0[n..]
  }

  lemma ProgressStart(a0: seq<int>, n: int)
    requires 1 <= n <= |a0|
    ensures Progress(a0, a0, 1, n)
  {
  }

  /** The array left by a pass of the shift loop sorts one more cell. */
  lemma Inserted(A: array<int>, p: seq<int>, i: int, j: int)
    requires -1 <= j < i < |p| == A.Length
    requires Sorted(p[..i])
    requires j < 0 || p[j] <= p[i]
    requires forall k :: j < k < i ==> p[i] < p[k]
    requires forall k :: 0 <= k < A.Length && (k <= j || i < k) ==> A[k] == p[k]
    requires A[j + 1] == p[i]
    requires forall k :: j + 1 < k <= i ==> A[k] == p[k - 1]
    ensures Sorted(A[..i + 1]) && multiset(A[..i + 1]) == multiset(p[..i + 1])
    ensures A[i + 1..] == p[i + 1..]
  {
    PlacedArray(A, p, i, j);
    PlacedSorted(p, i, j);
    PlacedElems(p, i, j, i + 1);
  }

  /** A pass that sorts one more cell of the prefix and leaves the cells
      after it alone keeps the outer loop's progress. */
  lemma PassProgress(p: seq<int>, q: seq<int>, a0: seq<int>, i: int, n: int)
    requires Progress(p, a0, i, n) && i < n && |q| == |p|
    requires Sorted(q[..i + 1]) && multiset(q[..i + 1]) == multiset(p[..i + 1])
    requires q[i + 1..] == p[i + 1..]
    ensures Progress(q, a0, i + 1, n)
  {
    assert q[..n] == q[..i + 1] + q[i + 1..n] && p[..n] == p[..i + 1] + p[i + 1..n];
    assert q[i + 1..n] == q[i + 1..][..n - i - 1] && p[i + 1..n] == p[i + 1..][..n - i - 1];
    assert q[n..] == q[i + 1..][n - i - 1..] && p[n..] == p[i + 1..][n - i - 1..];
  }

  /** One pass of the outer loop of Sort_InPlace: `A[i]` is saved, the cells
      of the sorted prefix `A[..i]` larger than it move up by one, and the
      saved value goes into the gap. */
  method InsertNext(A: array<int>, i: int)
    requires 0 < i < A.Length && Sorted(A[..i])
    modifies A
    ensures Sorted(A[..i + 1])
    ensures multiset(A[..i + 1]) == multiset(old(A[..i + 1]))
    ensures A[i + 1..] == old(A[i + 1..])
  {
    ghost var p := A[..];
    var temp := A[i];
    var j := i - 1;
    while j >= 0 && A[j] > temp
      invariant -1 <= j < i
      invariant forall k :: 0 <= k < A.Length && (k <= j + 1 || i < k) ==> A[k] == p[k]
      invariant forall k :: j + 1 < k <= i ==> A[k] == p[k - 1]
      invariant forall k :: j < k < i ==> temp < p[k]
    {
      assert A[j] == p[j];
      A[j + 1] := A[j];
      j := j - 1;
    }
    A[j + 1] := temp;
    Inserted(A, p, i, j);
  }

  /** Sort_InPlace: insertion sort of `A[0..n)`, one pass per cell. */
  method SortInPlace(A: array<int>, n: int) returns (r: array<int>)
    requires n <= A.Length || n <= 1
    modifies A
    ensures r == A
    ensures n <= 1 ==> A[..] == old(A[..])
    ensures 0 <= n <= A.Length ==>
      Sorted(A[..n]) && multiset(A[..n]) == multiset(old(A[..n])) && A[n..] == old(A[n..])
  {
    ghost var a0 := A[..];
    var i := 1;
    while i < n
      invariant 1 <= i
      invariant i == 1 ==> A[..] == a0
      invariant 1 < i ==> Progress(A[..], a0, i, n)
    {
      ghost var p := A[..];
      if i == 1 {
        ProgressStart(a0, n);
      }
      InsertNext(A, i);
      PassProgress(p, A[..], a0, i, n);
      i := i + 1;
    }
    return A;
  }

  /** Pushing `x` into a sorted stack `s` below its first `m` elements, all
      smaller than `x`, and above the rest, which start at or above `x`,
      keeps the stack sorted and adds `x` to its elements. */
  lemma Pushed(s: seq<int>, m: int, x: int)
    requires Sorted(s) && 0 <= m <= |s|
    requires forall k :: 0 <= k < m ==> s[k] < x
    requires m == |s| || x <= s[m]
    ensures Sorted(s[..m] + [x] + s[m..])
    ensures multiset(s[..m] + [x] + s[m..]) == multiset(s) + multiset{x}
  {
    SortedSlices(s, m);
    BelowAbove(s, m, x);
    SortedAround(s[..m], x, s[m..]);
    Split(s, m, x);
  }

  lemma Split(s: seq<int>, m: int, x: int)
    requires 0 <= m <= |s|
    ensures multiset(s[..m] + [x] + s[m..]) == multiset(s) + multiset{x}
  {
    assert s == s[..m] + s[m..];
  }

  lemma SortedSlices(s: seq<int>, k: int)
    requires Sorted(s) && 0 <= k <= |s|
    ensures Sorted(s[..k]) && Sorted(s[k..])
  {
  }

  lemma BelowAbove(s: seq<int>, m: int, x: int)
    requires Sorted(s) && 0 <= m <= |s|
    requires forall k :: 0 <= k < m ==> s[k] < x
    requires m == |s| || x <= s[m]
    ensures forall y | y in s[..m] :: y <= x
    ensures forall y | y in s[m..] :: x <= y
  {
    forall y | y in s[..m] ensures y <= x {
      var k :| 0 <= k < m && s[..m][k] == y;
    }
    forall y | y in s[m..] ensures x <= y {
      var k :| 0 <= k < |s| - m && s[m..][k] == y;
      assert s[m] <= s[m + k];
    }
  }

  /** An array whose first `|out|` cells hold `out` and whose other cells are `a0`'s. */
  lemma Written(A: array<int>, out: seq<int>, a0: seq<int>)
    requires |out| <= A.Length == |a0|
    requires forall k :: 0 <= k < |out| ==> A[k] == out[k]
    requires forall k :: |out| <= k < A.Length ==> A[k] == a0[k]
    ensures A[..|out|] == out && A[|out|..] == a0[|out|..]
    ensures out == [] ==> A[..] == a0
  {
  }

  /** One pass of the outer loop of Sort_UsingStacks: the elements of the
      stack `sorted` smaller than `x` are popped onto `temp`, `x` is pushed,
      and `temp` is popped back.  A stack is a sequence whose top is its
      first element. */
  method PushInOrder(sorted: seq<int>, x: int) returns (r: seq<int>)
    requires Sorted(sorted)
    ensures Sorted(r) && multiset(r) == multiset(sorted) + multiset{x}
  {
    var s := sorted;
    var temp: seq<int> := [];
    while s != [] && s[0] < x
      invariant |temp| <= |sorted| && s == sorted[|temp|..]
      invariant forall k :: 0 <= k < |temp| ==> temp[k] == sorted[|temp| - 1 - k]
      invariant forall k :: 0 <= k < |temp| ==> sorted[k] < x
    {
      temp := [s[0]] + temp;
      s := s[1..];
    }
    ghost var m := |temp|;
    ghost var s1 := sorted[..m] + [x] + sorted[m..];
    s := [x] + s;
    while temp != []
      invariant |temp| <= m && s == s1[|temp|..]
      invariant forall k :: 0 <= k < |temp| ==> temp[k] == s1[|temp| - 1 - k]
    {
      s := [temp[0]] + s;
      temp := temp[1..];
    }
    Pushed(sorted, m, x);
    return s;
  }

  /** Sort_UsingStacks: push each `A[i]` into the stack `sorted` at its
      place, parking the smaller elements above it on `temp` meanwhile; then
      pop `sorted` into `A[0..n)`, smallest first.  A stack is a sequence
      whose top is its first element. */
  method SortUsingStacks(A: array<int>, n: int) returns (r: array<int>)
    requires n <= A.Length
    modifies A
    ensures r == A
    ensures n <= 0 ==> A[..] == old(A[..])
    ensures 0 <= n ==>
      Sorted(A[..n]) && multiset(A[..n]) == multiset(old(A[..n])) && A[n..] == old(A[n..])
  {
    ghost var a0 := A[..];
    var sorted: seq<int> := [];
    var i := 0;
    while i < n
      invariant 0 <= i && (i <= n || i == 0)
      invariant A[..] == a0
      invariant Sorted(sorted) && multiset(sorted) == multiset(a0[..i])
    {
      sorted := PushInOrder(sorted, A[i]);
      assert a0[..i + 1] == a0[..i] + [a0[i]];
      i := i + 1;
    }
    ghost var out := sorted;
    assert |out| == |multiset(a0[..i])|;
    i := 0;
    while i < n
      invariant 0 <= i <= |out|
      invariant sorted == out[i..]
      invariant forall k :: 0 <= k < i ==> A[k] == out[k]
      invariant forall k :: i <= k < A.Length ==> A[k] == a0[k]
    {
      A[i] := sorted[0];
      sorted := sorted[1..];
      i := i + 1;
    }
    Written(A, out, a0);
    return A;
  }
}
