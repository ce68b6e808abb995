/** Selection sort: of the prefix `A[0..n)` of an integer array in place,
    and of a list through two queues. */
module SelectionSort {
  import opened Sequences

  /** After pass `i` of the outer loop of Sort_InPlace: the first `i` cells
      are sorted and none is larger than a cell of `[i..n)`, and the prefix
      `[0..n)` still holds the elements it started with. */
  ghost predicate Selected(a: seq<int>, a0: seq<int>, i: int, n: int) {
    0 <= i <= n <= |a| == |a0| && Sorted(a[..i])
    && (forall x, y :: 0 <= x < i <= y < n ==> a[x] <= a[y])
    && multiset(a[..n]) == multiset(a0[..n]) && a[n..] == a0[n..]
  }

  lemma SelectedStart(a0: seq<int>, n: int)
    requires 0 <= n <= |a0|
    ensures Selected(a0, a0, 0, n)
  {
  }

  lemma SelectedDone(a: seq<int>, a0: seq<int>, n: int)
    requires 1 <= n && Selected(a, a0, n - 1, n)
    ensures Sorted(a[..n]) && multiset(a[..n]) == multiset(a0[..n]) && a[n..] == a0[n..]
  {
    forall x, y | 0 <= x < y < n ensures a[..n][x] <= a[..n][y] {
      if y < n - 1 {
        assert a[..n - 1][x] <= a[..n - 1][y];
      }
    }
  }

  /** Exchanging cells `i` and `m` of `p` keeps the elements of `p[..n]`
      and the cells from `n` on. */
  lemma SwapElems(p: seq<int>, q: seq<int>, i: int, m: int, n: int)
    requires 0 <= i <= m < n <= |p| == |q|
    requires q == p[m := p[i]][i := p[m]]
    ensures multiset(q[..n]) == multiset(p[..n]) && q[n..] == p[n..]
  {
    assert q[..n] == p[..n][m := p[i]][i := p[m]];
  }

  /** Exchanging the first unsorted cell with a least one of `[i..n)`
      sorts one more cell. */
  lemma SwapSorted(p: seq<int>, q: seq<int>, i: int, m: int, n: int)
    requires 0 <= i <= m < n <= |p| == |q|
    requires Sorted(p[..i]) && forall x, y :: 0 <= x < i <= y < n ==> p[x] <= p[y]
    requires forall k :: i <= k < n ==> p[m] <= p[k]
    requires q == p[m := p[i]][i := p[m]]
    ensures Sorted(q[..i + 1]) && forall x, y :: 0 <= x < i + 1 <= y < n ==> q[x] <= q[y]
  {
    var t := q[..i + 1];
    forall x, y | 0 <= x < y < i + 1 ensures t[x] <= t[y] {
      if y < i {
        assert p[..i][x] <= p[..i][y];
      }
    }
    forall x, y | 0 <= x < i + 1 <= y < n ensures q[x] <= q[y] {
      if y == m {
        if x < i {
          assert p[x] <= p[i];
        }
      }
    }
  }

  /** The cells of an array after the swap of one pass. */
  lemma Swapped(A: array<int>, p: seq<int>, a0: seq<int>, i: int, m: int, n: int)
    requires i < n && Selected(p, a0, i, n) && i <= m < n
    requires forall k :: i <= k < n ==> p[m] <= p[k]
    requires A.Length == |p| && A[i] == p[m] && A[m] == p[i]
    requires forall k :: 0 <= k < A.Length && k != i && k != m ==> A[k] == p[k]
    ensures Selected(A[..], a0, i + 1, n)
  {
    var q := A[..];
    assert q == p[m := p[i]][i := p[m]];
    SwapElems(p, q, i, m, n);
    SwapSorted(p, q, i, m, n);
  }

  /** Sort_InPlace: for each `i` below `n - 1`, find the index of a least
      cell of `A[i..n)` and swap that cell with `A[i]`. */
  method SortInPlace(A: array<int>, n: int) returns (r: array<int>)
    requires n <= A.Length || n <= 1
    modifies A
    ensures r == A
    ensures n <= 1 ==> A[..] == old(A[..])
    ensures 0 <= n <= A.Length ==>
      Sorted(A[..n]) && multiset(A[..n]) == multiset(old(A[..n])) && A[n..] == old(A[n..])
  {
    ghost var a0 := A[..];
    var i := 0;
    while i < n - 1
      invariant 0 <= i
      invariant i == 0 ==> A[..] == a0
      invariant 0 < i ==> i < n && Selected(A[..], a0, i, n)
    {
      ghost var p := A[..];
      if i == 0 {
        SelectedStart(a0, n);
      }
      var smallest := i;
      var j := i + 1;
      while j < n
        invariant i < j <= n && i <= smallest < j
        invariant A[..] == p
        invariant forall k :: i <= k < j ==> p[smallest] <= p[k]
      {
        if A[j] < A[smallest] {
          smallest := j;
        }
        j := j + 1;
      }
      var temp := A[smallest];
      A[smallest] := A[i];
      A[i] := temp;
      Swapped(A, p, a0, i, smallest, n);
      i := i + 1;
    }
    if 0 < i {
      SelectedDone(A[..], a0, n);
    }
    return A;
  }

  /** Between passes of Sort_UsingQueues: `sorted` is sorted, none of its
      elements is larger than one left in `list`, and the two together hold
      the elements of the input `list0`. */
  ghost predicate Stage(sorted: seq<int>, list: seq<int>, list0: seq<int>) {
    Sorted(sorted)
    && (forall k, y :: 0 <= k < |sorted| && y in list ==> sorted[k] <= y)
    && multiset(sorted) + multiset(list) == multiset(list0)
  }

  /** A pass that takes a least element `x` out of `list`, leaving `rest`,
      and appends it to `sorted` keeps the stage invariant. */
  lemma StageStep(sorted: seq<int>, list: seq<int>, x: int, rest: seq<int>, list0: seq<int>)
    requires Stage(sorted, list, list0)
    requires multiset(rest) + multiset{x} == multiset(list)
    requires forall y | y in rest :: x <= y
    ensures Stage(sorted + [x], rest, list0)
  {
    assert x in multiset(list);
    assert x in list;
    var s := sorted + [x];
    forall a, b | 0 <= a < b < |s| ensures s[a] <= s[b] {
      if b < |sorted| {
        assert sorted[a] <= sorted[b];
      } else {
        assert s[a] == sorted[a] || a == |sorted|;
      }
    }
    forall k, y | 0 <= k < |s| && y in rest ensures s[k] <= y {
      assert y in multiset(rest);
      assert y in multiset(list);
      assert y in list;
      if k < |sorted| {
        assert s[k] == sorted[k];
      }
    }
  }

  lemma StageDone(sorted: seq<int>, list0: seq<int>)
    requires Stage(sorted, [], list0)
    ensures Sorted(sorted) && multiset(sorted) == multiset(list0)
  {
  }

  lemma Front(l: seq<int>)
    requires l != []
    ensures multiset(l) == multiset{l[0]} + multiset(l[1..])
  {
    assert l == [l[0]] + l[1..];
  }

  /** The body of one pass of Sort_UsingQueues: `list` is emptied front
      first, the smallest element seen so far is kept aside and every other
      one is enqueued on `temp`, and `temp` is then emptied back into the
      list.  `rest` is the list after the pass. */
  method TakeSmallest(list: seq<int>) returns (smallest: int, rest: seq<int>)
    requires list != []
    ensures multiset(rest) + multiset{smallest} == multiset(list)
    ensures forall y | y in rest :: smallest <= y
    ensures |rest| == |list| - 1
  {
    var l := list;
    var temp: seq<int> := [];
    Front(l);
    smallest := l[0];
    l := l[1..];
    while l != []
      invariant multiset(temp) + multiset(l) + multiset{smallest} == multiset(list)
      invariant forall y | y in temp :: smallest <= y
      invariant |temp| + |l| + 1 == |list|
    {
      Front(l);
      var item := l[0];
      l := l[1..];
      if item < smallest {
        temp := temp + [smallest];
        smallest := item;
      } else {
        temp := temp + [item];
      }
    }
    ghost var t0 := temp;
    while temp != []
      invariant l + temp == t0
    {
      l := l + [temp[0]];
      temp := temp[1..];
    }
    assert l == t0;
    return smallest, l;
  }

  /** Sort_UsingQueues: while `list` is not empty, move its least element
      into the queue `sorted`; finally move `sorted` back into `list`.  A
      queue or list is a sequence whose front is its first element. */
  method SortUsingQueues(list0: seq<int>) returns (list: seq<int>)
    ensures Sorted(list) && multiset(list) == multiset(list0)
  {
    list := list0;
    var sorted: seq<int> := [];
    while list != []
      invariant Stage(sorted, list, list0)
      decreases |list|
    {
      ghost var l0 := list;
      var smallest;
      smallest, list := TakeSmallest(list);
      StageStep(sorted, l0, smallest, list, list0);
      sorted := sorted + [smallest];
    }
    StageDone(sorted, list0);
    ghost var s0 := sorted;
    while sorted != []
      invariant list + sorted == s0
    {
      list := list + [sorted[0]];
      sorted := sorted[1..];
    }
    assert list == s0;
  }
}
