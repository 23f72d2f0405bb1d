/** Heap sort: a bottom-up loop builds a heap with the last element on top, then the top goes to the end. */
module HeapSort {
  import opened SortOrder

  function Parent(j: nat): (p: nat)
    requires j > 0
    ensures p < j && (j == 2 * p + 1 || j == 2 * p + 2)
  {
    (j - 1) / 2
  }

  /** Every position of [from, n) may stand before its parent. */
  ghost predicate HeapFrom(comp: Compare, s: seq<int>, from: nat, n: nat)
    requires n <= |s|
  {
    forall j {:trigger Parent(j)} :: 0 < j && from <= j < n ==> Le(comp, s[j], s[Parent(j)])
  }

  /** A heap from `from` on, except that s[k] may be too small for its place; its children fit under its parent. */
  ghost predicate HeapExcept(comp: Compare, s: seq<int>, from: nat, n: nat, k: nat)
    requires n <= |s|
  {
    && (forall j {:trigger Parent(j)} :: 0 < j && from <= j < n && Parent(j) != k ==> Le(comp, s[j], s[Parent(j)]))
    && (forall j {:trigger Parent(j)} :: 0 < k && from <= k && 0 < j < n && Parent(j) == k ==> Le(comp, s[j], s[Parent(k)]))
  }

  /** Exchanging s[k] with its larger child c moves the exception to c. */
  lemma SiftStep(comp: Compare, s: seq<int>, from: nat, n: nat, k: nat, c: nat)
    requires StrictWeakOrder(comp) && n <= |s| && from <= 2 * k + 1 && HeapExcept(comp, s, from, n, k)
    requires 0 < c < n && Parent(c) == k && comp(s[c], s[k])
    requires forall j {:trigger Parent(j)} :: 0 < j < n && Parent(j) == k ==> Le(comp, s[j], s[c])
    ensures HeapExcept(comp, Exchanged(s, c, k), from, n, c)
  {
    var t := Exchanged(s, c, k);
    assert Le(comp, s[k], s[c]) || Le(comp, s[c], s[k]);
    forall j | 0 < j && from <= j < n && Parent(j) != c
      ensures Le(comp, t[j], t[Parent(j)])
    {
      assert j == k ==> t[j] == s[c];
    }
    forall j | 0 < j < n && Parent(j) == c
      ensures Le(comp, t[j], t[Parent(c)])
    {
      assert Le(comp, s[j], s[Parent(j)]);
    }
  }

  /** When neither child has to stand after s[k], the exception is gone. */
  lemma SiftEnds(comp: Compare, s: seq<int>, from: nat, n: nat, k: nat)
    requires n <= |s| && HeapExcept(comp, s, from, n, k)
    requires forall j {:trigger Parent(j)} :: 0 < j < n && Parent(j) == k ==> Le(comp, s[j], s[k])
    ensures HeapFrom(comp, s, from, n)
  {
  }

  /** c is a child of k below n and no child of k has to stand after it. */
  ghost predicate LargerChild(comp: Compare, s: seq<int>, n: nat, k: nat, c: nat)
    requires n <= |s|
  {
    0 < c < n && Parent(c) == k && forall j {:trigger Parent(j)} :: 0 < j < n && Parent(j) == k ==> Le(comp, s[j], s[c])
  }

  /** Neither child of k has to stand after s[k], because the larger one does not. */
  lemma LargerChildFits(comp: Compare, s: seq<int>, n: nat, k: nat, c: nat)
    requires StrictWeakOrder(comp) && n <= |s| && LargerChild(comp, s, n, k, c) && Le(comp, s[c], s[k])
    ensures forall j {:trigger Parent(j)} :: 0 < j < n && Parent(j) == k ==> Le(comp, s[j], s[k])
  {
    forall j | 0 < j < n && Parent(j) == k
      ensures Le(comp, s[j], s[k])
    {
      assert Le(comp, s[j], s[c]);
    }
  }

  /** One turn of either sift loop, for the child c it has picked. */
  lemma SiftTurn(comp: Compare, s: seq<int>, from: nat, n: nat, k: nat, c: nat, low: nat)
    requires StrictWeakOrder(comp) && low <= k && n <= |s| && from <= 2 * k + 1
    requires HeapExcept(comp, s, from, n, k) && LargerChild(comp, s, n, k, c)
    ensures comp(s[c], s[k]) ==> HeapExcept(comp, Exchanged(s, c, k), from, n, c) && RangePermuted(s, Exchanged(s, c, k), low, n)
    ensures !comp(s[c], s[k]) ==> HeapFrom(comp, s, from, n)
  {
    ExchangedPermutes(s, c, k, low, n);
    if comp(s[c], s[k]) {
      SiftStep(comp, s, from, n, k, c);
    } else {
      LargerChildFits(comp, s, n, k, c);
      SiftEnds(comp, s, from, n, k);
    }
  }

  lemma NoChild(comp: Compare, s: seq<int>, from: nat, n: nat, k: nat)
    requires n <= |s| && HeapExcept(comp, s, from, n, k) && 2 * k + 1 >= n
    ensures HeapFrom(comp, s, from, n)
  {
  }

  /** The child that the sift-down of buildHeap picks. It does not look whether there is a right one below n. */
  function BuildChild(comp: Compare, s: seq<int>, k: nat, n: nat): (j: nat)
    requires 2 * k + 1 < n < |s|
    ensures k < j <= n && 2 * k + 1 <= j <= 2 * k + 2
  {
    if comp(s[2 * k + 2], s[2 * k + 1]) then 2 * k + 2 else 2 * k + 1
  }

  /** The sift-down of buildHeap reads s[n] on its way from k. */
  predicate SiftReadsOutside(comp: Compare, s: seq<int>, k: nat, n: nat)
    requires n < |s|
    decreases n - k
  {
    2 * k + 1 < n &&
    (2 * k + 2 == n ||
     var j := BuildChild(comp, s, k, n);
     comp(s[j], s[k]) && SiftReadsOutside(comp, Exchanged(s, j, k), j, n))
  }

  /** The sift-down of buildHeap ends by exchanging s[n] with an element of the array. */
  predicate SiftTakesOutside(comp: Compare, s: seq<int>, k: nat, n: nat)
    requires n < |s|
    decreases n - k
  {
    2 * k + 1 < n &&
    var j := BuildChild(comp, s, k, n);
    comp(s[j], s[k]) && (j == n || SiftTakesOutside(comp, Exchanged(s, j, k), j, n))
  }

  /** The memory after the sift-down of buildHeap from k. */
  function SiftedInBuild(comp: Compare, s: seq<int>, k: nat, n: nat): (t: seq<int>)
    requires n < |s|
    ensures |t| == |s|
    decreases n - k
  {
    if 2 * k + 1 >= n then s
    else
      var j := BuildChild(comp, s, k, n);
      if comp(s[j], s[k]) then SiftedInBuild(comp, Exchanged(s, j, k), j, n) else s
  }

  /** buildHeap reads s[n], from position i of its loop on. */
  predicate BuildReadsOutside(comp: Compare, s: seq<int>, i: nat, n: nat)
    requires i < n < |s|
    decreases i
  {
    i > 0 &&
    if comp(s[i], s[Parent(i)]) then
      var t := Exchanged(s, i, Parent(i));
      SiftReadsOutside(comp, t, i, n) || BuildReadsOutside(comp, SiftedInBuild(comp, t, i, n), i - 1, n)
    else BuildReadsOutside(comp, s, i - 1, n)
  }

  /** buildHeap exchanges s[n] with an element of the array, from position i of its loop on. */
  predicate BuildTakesOutside(comp: Compare, s: seq<int>, i: nat, n: nat)
    requires i < n < |s|
    decreases i
  {
    i > 0 &&
    if comp(s[i], s[Parent(i)]) then
      var t := Exchanged(s, i, Parent(i));
      SiftTakesOutside(comp, t, i, n) || BuildTakesOutside(comp, SiftedInBuild(comp, t, i, n), i - 1, n)
    else BuildTakesOutside(comp, s, i - 1, n)
  }

  /** The memory when buildHeap is done, from position i of its loop on. */
  function Built(comp: Compare, s: seq<int>, i: nat, n: nat): (t: seq<int>)
    requires i < n < |s|
    ensures |t| == |s|
    decreases i
  {
    if i == 0 then s
    else if comp(s[i], s[Parent(i)]) then Built(comp, SiftedInBuild(comp, Exchanged(s, i, Parent(i)), i, n), i - 1, n)
    else Built(comp, s, i - 1, n)
  }

  function AdjustChild(comp: Compare, s: seq<int>, k: nat, n: nat): (i: nat)
    requires 2 * k + 1 < n <= |s|
    ensures k < i < n
  {
    if 2 * k + 2 >= n || comp(s[2 * k + 1], s[2 * k + 2]) then 2 * k + 1 else 2 * k + 2
  }

  /** The array after adjustHeap, from k on. */
  function Adjusted(comp: Compare, s: seq<int>, k: nat, n: nat): (t: seq<int>)
    requires n <= |s|
    ensures |t| == |s|
    decreases n - k
  {
    if 2 * k + 1 >= n then s
    else
      var i := AdjustChild(comp, s, k, n);
      if comp(s[i], s[k]) then Adjusted(comp, Exchanged(s, i, k), i, n) else s
  }

  /** The array when all but the first of m elements have been put to the end, one after the other. */
  function Emptied(comp: Compare, s: seq<int>, m: nat): (t: seq<int>)
    requires 0 < m <= |s|
    ensures |t| == |s|
    decreases m
  {
    if m == 1 then s else Emptied(comp, Adjusted(comp, Exchanged(s, 0, m - 1), 0, m - 1), m - 1)
  }

  /** The memory after heapSort of the first n elements. */
  function SortedMemory(comp: Compare, s: seq<int>, n: nat): (t: seq<int>)
    requires n < |s|
    ensures |t| == |s|
  {
    if n < 2 then s else Emptied(comp, Built(comp, s, n - 1, n), n)
  }

  /** The child that adjustHeap picks. */
  method PickInAdjust(a: array<int>, k: nat, n: nat, comp: Compare) returns (i: nat)
    requires StrictWeakOrder(comp) && 2 * k + 1 < n <= a.Length
    ensures LargerChild(comp, a[..], n, k, i) && i == AdjustChild(comp, a[..], k, n)
  {
    if 2 * k + 2 >= n {
      i := 2 * k + 1;
    } else {
      i := 2 * k + 2;
      if comp(a[i - 1], a[i]) {
        i := i - 1;
      }
    }
    Children(comp, a[..], n, k, i);
  }

  lemma Children(comp: Compare, s: seq<int>, n: nat, k: nat, c: nat)
    requires StrictWeakOrder(comp) && 2 * k + 1 < n <= |s| && 2 * k + 1 <= c <= 2 * k + 2 && c < n
    requires 2 * k + 2 < n ==>
      if c == 2 * k + 1 then !comp(s[c + 1], s[c]) || comp(s[c], s[c + 1])
      else !comp(s[c - 1], s[c]) || comp(s[c], s[c - 1])
    ensures LargerChild(comp, s, n, k, c)
  {
    assert Parent(c) == k;
    forall j | 0 < j < n && Parent(j) == k
      ensures Le(comp, s[j], s[c])
    {
      assert Le(comp, s[j], s[c]) || Le(comp, s[c], s[j]);
    }
  }

  /** A sift-down from start has made t of s: a heap again and a permutation, unless it has taken the element behind. */
  ghost predicate SiftDone(comp: Compare, s: seq<int>, t: seq<int>, start: nat, n: nat, outside: bool, taken: bool) {
    && n < |s| && RangePermuted(s, t, 0, n + 1)
    && t == SiftedInBuild(comp, s, start, n)
    && outside == SiftReadsOutside(comp, s, start, n) && taken == SiftTakesOutside(comp, s, start, n)
    && (taken ==> comp(s[n], t[n]))
    && (!taken ==> RangePermuted(s, t, 0, n) && (HeapExcept(comp, s, start, n, start) ==> HeapFrom(comp, t, start, n)))
  }

  /** The same in the middle of the loop, with k reached; k == n says that the element behind has been taken. */
  ghost predicate SiftLoop(comp: Compare, s: seq<int>, t: seq<int>, start: nat, n: nat, k: nat, outside: bool) {
    && n < |s| && start <= k <= n && RangePermuted(s, t, 0, n + 1)
    && SiftedInBuild(comp, s, start, n) == SiftedInBuild(comp, t, k, n)
    && SiftReadsOutside(comp, s, start, n) == (outside || SiftReadsOutside(comp, t, k, n))
    && SiftTakesOutside(comp, s, start, n) == (k == n || SiftTakesOutside(comp, t, k, n))
    && (k == n ==> comp(s[n], t[n]))
    && (k < n ==> RangePermuted(s, t, 0, n) && (HeapExcept(comp, s, start, n, start) ==> HeapExcept(comp, t, start, n, k)))
  }

  lemma SiftLoopStarts(comp: Compare, s: seq<int>, start: nat, n: nat)
    requires start < n < |s|
    ensures SiftLoop(comp, s, s, start, n, start, false)
  {
    hide SiftedInBuild, SiftReadsOutside, SiftTakesOutside, HeapExcept;
  }

  /** When the element behind has to stand after the left child but not after s[k], the heap is whole. */
  lemma BuildTurn(comp: Compare, s: seq<int>, start: nat, n: nat, k: nat)
    requires StrictWeakOrder(comp) && 2 * k + 1 < n < |s| && start <= k && HeapExcept(comp, s, start, n, k)
    ensures var j := BuildChild(comp, s, k, n);
      && (comp(s[j], s[k]) && j < n ==> HeapExcept(comp, Exchanged(s, j, k), start, n, j))
      && (!comp(s[j], s[k]) ==> HeapFrom(comp, s, start, n))
  {
    var j := BuildChild(comp, s, k, n);
    if j < n {
      Children(comp, s, n, k, j);
      hide BuildChild;
      SiftTurn(comp, s, start, n, k, j, 0);
    } else {
      OnlyLeftChild(comp, s, n, k);
      if !comp(s[n], s[k]) {
        assert Le(comp, s[n - 1], s[n]) || Le(comp, s[n], s[n - 1]);
        assert Le(comp, s[n], s[k]);
        SiftEnds(comp, s, start, n, k);
      }
    }
  }

  lemma OnlyLeftChild(comp: Compare, s: seq<int>, n: nat, k: nat)
    requires 2 * k + 2 == n <= |s|
    ensures forall j :: 0 < j < n && Parent(j) == k ==> j == n - 1
  {
  }

  lemma SiftUnfolds(comp: Compare, s: seq<int>, k: nat, n: nat)
    requires k <= n < |s|
    ensures 2 * k + 1 >= n ==>
      SiftedInBuild(comp, s, k, n) == s && !SiftReadsOutside(comp, s, k, n) && !SiftTakesOutside(comp, s, k, n)
    ensures 2 * k + 1 < n ==> var j := BuildChild(comp, s, k, n);
      && SiftedInBuild(comp, s, k, n) == (if comp(s[j], s[k]) then SiftedInBuild(comp, Exchanged(s, j, k), j, n) else s)
      && (SiftReadsOutside(comp, s, k, n) <==>
           2 * k + 2 == n || (comp(s[j], s[k]) && SiftReadsOutside(comp, Exchanged(s, j, k), j, n)))
      && (SiftTakesOutside(comp, s, k, n) <==>
           comp(s[j], s[k]) && (j == n || SiftTakesOutside(comp, Exchanged(s, j, k), j, n)))
  {
  }

  lemma ExchangedBelow(s: seq<int>, t: seq<int>, j: nat, k: nat, n: nat)
    requires k < j <= n < |s| && RangePermuted(s, t, 0, n + 1)
    ensures RangePermuted(s, Exchanged(t, j, k), 0, n + 1)
    ensures j < n && RangePermuted(s, t, 0, n) ==> RangePermuted(s, Exchanged(t, j, k), 0, n)
    ensures RangePermuted(s, t, 0, n) ==> t[n] == s[n]
  {
    ExchangedPermutes(t, j, k, 0, n + 1);
    if j < n {
      ExchangedPermutes(t, j, k, 0, n);
    }
  }

  lemma SiftLoopTurn(comp: Compare, s: seq<int>, t: seq<int>, start: nat, n: nat, k: nat, outside: bool)
    requires StrictWeakOrder(comp) && SiftLoop(comp, s, t, start, n, k, outside) && 2 * k + 1 < n
    ensures var j := BuildChild(comp, t, k, n);
      && (comp(t[j], t[k]) ==> SiftLoop(comp, s, Exchanged(t, j, k), start, n, j, outside || 2 * k + 2 == n))
      && (!comp(t[j], t[k]) ==> SiftDone(comp, s, t, start, n, outside || 2 * k + 2 == n, false))
  {
    hide SiftedInBuild, SiftReadsOutside, SiftTakesOutside, HeapExcept, HeapFrom, StrictWeakOrder, RangePermuted, BuildChild;
    var j := BuildChild(comp, t, k, n);
    SameLength(s, t, n + 1);
    SiftUnfolds(comp, t, k, n);
    SiftUnfolds(comp, Exchanged(t, j, k), j, n);
    ExchangedBelow(s, t, j, k, n);
    if HeapExcept(comp, s, start, n, start) {
      BuildTurn(comp, t, start, n, k);
    }
  }

  lemma SameLength(s: seq<int>, t: seq<int>, n: nat)
    requires n <= |s| && RangePermuted(s, t, 0, n)
    ensures |t| == |s|
  {
  }

  lemma SiftLoopEnds(comp: Compare, s: seq<int>, t: seq<int>, start: nat, n: nat, k: nat, outside: bool)
    requires SiftLoop(comp, s, t, start, n, k, outside) && 2 * k + 1 >= n
    ensures SiftDone(comp, s, t, start, n, outside, k == n)
  {
    hide SiftedInBuild, SiftReadsOutside, SiftTakesOutside, HeapExcept, HeapFrom, RangePermuted;
    SameLength(s, t, n + 1);
    SiftUnfolds(comp, t, k, n);
    if k < n && HeapExcept(comp, s, start, n, start) {
      NoChild(comp, t, start, n, k);
    }
  }

  /** The sift-down loop inside buildHeap. a[n] is whatever the memory behind the n elements holds. */
  method SiftInBuild(a: array<int>, start: nat, n: nat, comp: Compare) returns (ghost outside: bool, ghost taken: bool)
    requires StrictWeakOrder(comp) && start < n < a.Length
    modifies a
    ensures SiftDone(comp, old(a[..]), a[..], start, n, outside, taken)
  {
    hide *;
    ghost var s := a[..];
    SiftLoopStarts(comp, s, start, n);
    outside := false;
    var k := start;
    while 2 * k + 1 < n
      invariant start <= k <= n && SiftLoop(comp, s, a[..], start, n, k, outside)
      decreases n - k
    {
      SiftLoopTurn(comp, s, a[..], start, n, k, outside);
      var j := PickInBuild(a, k, n, comp);
      outside := outside || 2 * k + 2 == n;
      if comp(a[j], a[k]) {
        Swap(a, j, k);
        k := j;
      } else {
        return outside, false;
      }
    }
    SiftLoopEnds(comp, s, a[..], start, n, k, outside);
    taken := k == n;
  }

  method PickInBuild(a: array<int>, k: nat, n: nat, comp: Compare) returns (j: nat)
    requires 2 * k + 1 < n < a.Length
    ensures j == BuildChild(comp, a[..], k, n) && k < j <= n
  {
    j := 2 * k + 1;
    if comp(a[j + 1], a[j]) {
      j := j + 1;
    }
  }

  lemma ChildAbove(comp: Compare, s: seq<int>, n: nat, k: nat, c: nat)
    requires n <= |s| && LargerChild(comp, s, n, k, c)
    ensures k < c < n
  {
  }

  method AdjustHeap(a: array<int>, n: nat, comp: Compare)
    requires StrictWeakOrder(comp) && 0 < n <= a.Length
    modifies a
    ensures RangePermuted(old(a[..]), a[..], 0, n) && a[..] == Adjusted(comp, old(a[..]), 0, n)
    ensures HeapExcept(comp, old(a[..]), 1, n, 0) ==> HeapFrom(comp, a[..], 1, n)
  {
    ghost var was := a[..];
    assert RangePermuted(was, was, 0, n);
    hide *;
    ghost var ok := HeapExcept(comp, was, 1, n, 0);
    var k := 0;
    while 2 * k + 1 < n
      invariant 0 <= k < n && RangePermuted(was, a[..], 0, n) && (ok ==> HeapExcept(comp, a[..], 1, n, k))
      invariant Adjusted(comp, was, 0, n) == Adjusted(comp, a[..], k, n)
    {
      ghost var before := a[..];
      AdjustUnfolds(comp, before, k, n);
      var i := PickInAdjust(a, k, n, comp);
      ChildAbove(comp, before, n, k, i);
      ExchangedPermutes(before, i, k, 0, n);
      if ok {
        SiftTurn(comp, before, 1, n, k, i, 0);
      }
      if comp(a[i], a[k]) {
        Swap(a, i, k);
        RangePermutedTransitive(was, before, a[..], 0, n);
        k := i;
      } else {
        return;
      }
    }
    AdjustUnfolds(comp, a[..], k, n);
    if ok {
      NoChild(comp, a[..], 1, n, k);
    }
  }

  lemma AdjustUnfolds(comp: Compare, s: seq<int>, k: nat, n: nat)
    requires n <= |s|
    ensures 2 * k + 1 >= n ==> Adjusted(comp, s, k, n) == s
    ensures 2 * k + 1 < n ==> var i := AdjustChild(comp, s, k, n);
      Adjusted(comp, s, k, n) == if comp(s[i], s[k]) then Adjusted(comp, Exchanged(s, i, k), i, n) else s
  {
  }

  /** Lifting s[i] over its parent leaves only s[i] itself to be sifted down. */
  lemma LiftOverParent(comp: Compare, s: seq<int>, i: nat, n: nat)
    requires StrictWeakOrder(comp) && 0 < i < n <= |s| && HeapFrom(comp, s, i + 1, n)
    ensures comp(s[i], s[Parent(i)]) ==> HeapExcept(comp, Exchanged(s, i, Parent(i)), i, n, i)
    ensures !comp(s[i], s[Parent(i)]) ==> HeapFrom(comp, s, i, n)
    ensures RangePermuted(s, Exchanged(s, i, Parent(i)), 0, n)
  {
    var p := Parent(i);
    var t := Exchanged(s, i, p);
    ExchangedPermutes(s, i, p, 0, n);
    if comp(s[i], s[p]) {
      assert Le(comp, s[p], s[i]) || Le(comp, s[i], s[p]);
      forall j | 0 < j && i <= j < n && Parent(j) != i
        ensures Le(comp, t[j], t[Parent(j)])
      {
        assert j > i ==> Le(comp, s[j], s[Parent(j)]);
      }
      forall j | 0 < j < n && Parent(j) == i
        ensures Le(comp, t[j], t[Parent(i)])
      {
        assert Le(comp, s[j], s[Parent(j)]);
      }
    }
  }

  /** The first i + 1 turns of the loop are still to come; unless a[n] has been taken, all behind i is a heap. */
  ghost predicate BuildLoop(comp: Compare, s: seq<int>, t: seq<int>, n: nat, i: nat, outside: bool, taken: bool) {
    && i < n < |s| && RangePermuted(s, t, 0, n + 1) && Built(comp, s, n - 1, n) == Built(comp, t, i, n)
    && BuildReadsOutside(comp, s, n - 1, n) == (outside || BuildReadsOutside(comp, t, i, n))
    && BuildTakesOutside(comp, s, n - 1, n) == (taken || BuildTakesOutside(comp, t, i, n))
    && (taken ==> comp(s[n], t[n]))
    && (!taken ==> RangePermuted(s, t, 0, n) && HeapFrom(comp, t, i + 1, n))
  }

  lemma BuildLoopStarts(comp: Compare, s: seq<int>, n: nat)
    requires 0 < n < |s|
    ensures BuildLoop(comp, s, s, n, n - 1, false, false)
  {
  }

  lemma BuildLoopEnds(comp: Compare, s: seq<int>, t: seq<int>, n: nat, outside: bool, taken: bool)
    requires BuildLoop(comp, s, t, n, 0, outside, taken)
    ensures RangePermuted(s, t, 0, n + 1) && (taken ==> comp(s[n], t[n])) && t == Built(comp, s, n - 1, n)
    ensures outside == BuildReadsOutside(comp, s, n - 1, n) && taken == BuildTakesOutside(comp, s, n - 1, n)
    ensures !taken ==> RangePermuted(s, t, 0, n) && HeapFrom(comp, t, 1, n)
  {
    hide SiftedInBuild, SiftReadsOutside, SiftTakesOutside, HeapFrom;
  }

  lemma BuildUnfolds(comp: Compare, t: seq<int>, i: nat, n: nat)
    requires 0 < i < n < |t|
    ensures !comp(t[i], t[Parent(i)]) ==>
      && BuildReadsOutside(comp, t, i, n) == BuildReadsOutside(comp, t, i - 1, n)
      && BuildTakesOutside(comp, t, i, n) == BuildTakesOutside(comp, t, i - 1, n)
      && Built(comp, t, i, n) == Built(comp, t, i - 1, n)
    ensures comp(t[i], t[Parent(i)]) ==> var u := Exchanged(t, i, Parent(i)); var v := SiftedInBuild(comp, u, i, n);
      && BuildReadsOutside(comp, t, i, n) == (SiftReadsOutside(comp, u, i, n) || BuildReadsOutside(comp, v, i - 1, n))
      && BuildTakesOutside(comp, t, i, n) == (SiftTakesOutside(comp, u, i, n) || BuildTakesOutside(comp, v, i - 1, n))
      && Built(comp, t, i, n) == Built(comp, v, i - 1, n)
  {
  }

  lemma NothingLifted(comp: Compare, s: seq<int>, t: seq<int>, n: nat, i: nat, outside: bool, taken: bool)
    requires StrictWeakOrder(comp) && BuildLoop(comp, s, t, n, i, outside, taken) && i > 0 && |t| == |s|
    requires !comp(t[i], t[Parent(i)])
    ensures BuildLoop(comp, s, t, n, i - 1, outside, taken)
  {
    hide BuildReadsOutside, BuildTakesOutside, Built, HeapFrom, StrictWeakOrder, RangePermuted;
    BuildUnfolds(comp, t, i, n);
    if !taken {
      LiftOverParent(comp, t, i, n);
    }
  }

  /** A lifted element has been exchanged with its parent, and that has been sifted down from i. */
  lemma LiftedAndSifted(comp: Compare, s: seq<int>, t: seq<int>, v: seq<int>, n: nat, i: nat, outside: bool, taken: bool, o: bool, tk: bool)
    requires StrictWeakOrder(comp) && BuildLoop(comp, s, t, n, i, outside, taken) && i > 0 && |t| == |s|
    requires comp(t[i], t[Parent(i)]) && SiftDone(comp, Exchanged(t, i, Parent(i)), v, i, n, o, tk)
    ensures BuildLoop(comp, s, v, n, i - 1, outside || o, taken || tk)
  {
    hide BuildReadsOutside, BuildTakesOutside, Built, SiftedInBuild, SiftReadsOutside, SiftTakesOutside, HeapFrom, HeapExcept, RangePermuted;
    var u := Exchanged(t, i, Parent(i));
    BuildUnfolds(comp, t, i, n);
    ExchangedBelow(s, t, i, Parent(i), n);
    RangePermutedTransitive(s, u, v, 0, n + 1);
    BehindFalls(comp, s, u, v, n, taken, tk);
    if !taken && !tk {
      LiftOverParent(comp, t, i, n);
      RangePermutedTransitive(s, u, v, 0, n);
    }
  }

  lemma AfterTransitive(comp: Compare, x: int, y: int, z: int)
    requires StrictWeakOrder(comp) && comp(x, y) && comp(y, z)
    ensures comp(x, z)
  {
    assert Le(comp, z, y) || Le(comp, y, z);
    assert Le(comp, x, z) && Le(comp, z, y) ==> Le(comp, x, y);
  }

  /** What is behind the array is only ever exchanged for something that has to stand before it. */
  lemma BehindFalls(comp: Compare, s: seq<int>, u: seq<int>, v: seq<int>, n: nat, taken: bool, tk: bool)
    requires StrictWeakOrder(comp) && n < |s| && RangePermuted(s, u, 0, n + 1) && RangePermuted(u, v, 0, n + 1)
    requires if taken then comp(s[n], u[n]) else u[n] == s[n]
    requires if tk then comp(u[n], v[n]) else RangePermuted(u, v, 0, n)
    ensures taken || tk ==> comp(s[n], v[n])
  {
    if taken && tk {
      AfterTransitive(comp, s[n], u[n], v[n]);
    } else if !tk {
      assert v[n] == u[n];
    }
  }

  /**
   * buildHeap. a[n] is whatever the memory behind the n elements holds; `outside` says that it is read, and `taken`
   * that it is exchanged with an element of the array. Without that the array ends as a heap and a permutation.
   */
  method BuildHeap(a: array<int>, n: nat, comp: Compare) returns (ghost outside: bool, ghost taken: bool)
    requires StrictWeakOrder(comp) && 0 < n < a.Length
    modifies a
    ensures RangePermuted(old(a[..]), a[..], 0, n + 1) && a[..] == Built(comp, old(a[..]), n - 1, n)
    ensures !taken ==> HeapFrom(comp, a[..], 1, n) && RangePermuted(old(a[..]), a[..], 0, n)
    ensures taken ==> comp(old(a[n]), a[n])
    ensures outside == BuildReadsOutside(comp, old(a[..]), n - 1, n) && taken == BuildTakesOutside(comp, old(a[..]), n - 1, n)
    ensures (taken ==> outside) && (outside ==> n % 2 == 0 && n >= 4)
  {
    hide *;
    ghost var s := a[..];
    outside, taken := false, false;
    OutsideOnlyIfEven(comp, s, n - 1, n);
    TakenOnlyIfRead(comp, s, n - 1, n);
    BuildLoopStarts(comp, s, n);
    var i := n - 1;
    while i > 0
      invariant 0 <= i < n && BuildLoop(comp, s, a[..], n, i, outside, taken)
    {
      ghost var t := a[..];
      var p := Parent(i);
      if comp(a[i], a[p]) {
        Swap(a, i, p);
        ghost var o, tk := SiftInBuild(a, i, n, comp);
        LiftedAndSifted(comp, s, t, a[..], n, i, outside, taken, o, tk);
        outside, taken := outside || o, taken || tk;
      } else {
        NothingLifted(comp, s, t, n, i, outside, taken);
      }
      i := i - 1;
    }
    BuildLoopEnds(comp, s, a[..], n, outside, taken);
  }

  lemma {:induction false} SiftOutsideOnlyIfEven(comp: Compare, s: seq<int>, k: nat, n: nat)
    requires n < |s|
    ensures SiftReadsOutside(comp, s, k, n) ==> n % 2 == 0 && n >= 2 * k + 2
    ensures SiftTakesOutside(comp, s, k, n) ==> SiftReadsOutside(comp, s, k, n)
    decreases n - k
  {
    if 2 * k + 1 < n && 2 * k + 2 != n {
      var j := BuildChild(comp, s, k, n);
      SiftOutsideOnlyIfEven(comp, Exchanged(s, j, k), j, n);
    }
  }

  /** The loop starts its sift-downs at position 1 or behind, so two elements are never enough for the bad read. */
  lemma {:induction false} OutsideOnlyIfEven(comp: Compare, s: seq<int>, i: nat, n: nat)
    requires i < n < |s|
    ensures BuildReadsOutside(comp, s, i, n) ==> n % 2 == 0 && n >= 4
    decreases i
  {
    if i > 0 {
      if comp(s[i], s[Parent(i)]) {
        var t := Exchanged(s, i, Parent(i));
        SiftOutsideOnlyIfEven(comp, t, i, n);
        OutsideOnlyIfEven(comp, SiftedInBuild(comp, t, i, n), i - 1, n);
      } else {
        OutsideOnlyIfEven(comp, s, i - 1, n);
      }
    }
  }

  lemma {:induction false} TakenOnlyIfRead(comp: Compare, s: seq<int>, i: nat, n: nat)
    requires i < n < |s|
    ensures BuildTakesOutside(comp, s, i, n) ==> BuildReadsOutside(comp, s, i, n)
    decreases i
  {
    if i > 0 {
      if comp(s[i], s[Parent(i)]) {
        var t := Exchanged(s, i, Parent(i));
        SiftOutsideOnlyIfEven(comp, t, i, n);
        TakenOnlyIfRead(comp, SiftedInBuild(comp, t, i, n), i - 1, n);
      } else {
        TakenOnlyIfRead(comp, s, i - 1, n);
      }
    }
  }

  /** The element behind the array has to stand after none of it. */
  ghost predicate NothingBefore(comp: Compare, s: seq<int>, n: nat) {
    n < |s| && forall j {:trigger s[j]} :: 0 <= j < n ==> !comp(s[n], s[j])
  }

  lemma {:induction false} SiftHarmless(comp: Compare, s: seq<int>, k: nat, n: nat)
    requires k < n && NothingBefore(comp, s, n)
    ensures !SiftTakesOutside(comp, s, k, n) && NothingBefore(comp, SiftedInBuild(comp, s, k, n), n)
    decreases n - k
  {
    if 2 * k + 1 < n {
      var j := BuildChild(comp, s, k, n);
      if comp(s[j], s[k]) {
        assert j < n;
        SiftHarmless(comp, Exchanged(s, j, k), j, n);
      }
    }
  }

  /** Memory behind the array that has to stand after none of its elements does no harm. */
  lemma {:induction false} Harmless(comp: Compare, s: seq<int>, i: nat, n: nat)
    requires i < n && NothingBefore(comp, s, n)
    ensures !BuildTakesOutside(comp, s, i, n)
    decreases i
  {
    if i > 0 {
      if comp(s[i], s[Parent(i)]) {
        var t := Exchanged(s, i, Parent(i));
        SiftHarmless(comp, t, i, n);
        Harmless(comp, SiftedInBuild(comp, t, i, n), i - 1, n);
      } else {
        Harmless(comp, s, i - 1, n);
      }
    }
  }

  /** All elements equal to y, but one x that has to stand after it, at the last position with a child; z is behind. */
  function LateTop(n: nat, x: int, y: int, z: int): (s: seq<int>)
    ensures |s| == n + 1
  {
    seq(n + 1, i => if i == n then z else if i == n / 2 - 1 then x else y)
  }

  lemma {:induction false} LateTopReaches(comp: Compare, n: nat, x: int, y: int, z: int, i: nat)
    requires StrictWeakOrder(comp) && comp(x, y) && n % 2 == 0 && n >= 4 && n / 2 - 1 <= i < n
    ensures BuildReadsOutside(comp, LateTop(n, x, y, z), i, n)
    ensures comp(z, y) ==> BuildTakesOutside(comp, LateTop(n, x, y, z), i, n)
  {
    var s, p := LateTop(n, x, y, z), Parent(i);
    assert Le(comp, y, x) && Le(comp, y, y) by {
      assert Le(comp, x, y) || Le(comp, y, x);
      assert Le(comp, y, y) || Le(comp, y, y);
    }
    if i == n / 2 - 1 {
      assert s[i] == x && s[p] == y;
      LateTopSifts(comp, Exchanged(s, i, p), i, n);
    } else {
      assert s[i] == y && (s[p] == x || s[p] == y);
      LateTopReaches(comp, n, x, y, z, i - 1);
    }
  }

  lemma LateTopSifts(comp: Compare, s: seq<int>, k: nat, n: nat)
    requires 2 * k + 2 == n < |s| && s[k] == s[n - 1]
    ensures SiftReadsOutside(comp, s, k, n) && (comp(s[n], s[k]) ==> SiftTakesOutside(comp, s, k, n))
  {
  }

  /** Some array of n elements makes buildHeap read the memory behind it exactly for even n from 4 on. */
  lemma OutsideReadIff(comp: Compare, n: nat, x: int, y: int)
    requires StrictWeakOrder(comp) && comp(x, y) && n > 0
    ensures (exists s: seq<int> :: |s| == n + 1 && BuildReadsOutside(comp, s, n - 1, n)) <==> n % 2 == 0 && n >= 4
  {
    if n % 2 == 0 && n >= 4 {
      LateTopReaches(comp, n, x, y, x, n - 1);
      assert |LateTop(n, x, y, x)| == n + 1;
    }
    forall s: seq<int> | |s| == n + 1
      ensures BuildReadsOutside(comp, s, n - 1, n) ==> n % 2 == 0 && n >= 4
    {
      OutsideOnlyIfEven(comp, s, n - 1, n);
    }
  }

  /** The same numbers of elements are those for which an element can be lost to that memory. */
  lemma OutsideTakenIff(comp: Compare, n: nat, x: int, y: int)
    requires StrictWeakOrder(comp) && comp(x, y) && n > 0
    ensures (exists s: seq<int> :: |s| == n + 1 && BuildTakesOutside(comp, s, n - 1, n)) <==> n % 2 == 0 && n >= 4
  {
    if n % 2 == 0 && n >= 4 {
      LateTopReaches(comp, n, x, y, x, n - 1);
      assert |LateTop(n, x, y, x)| == n + 1;
    }
    forall s: seq<int> | |s| == n + 1
      ensures BuildTakesOutside(comp, s, n - 1, n) ==> n % 2 == 0 && n >= 4
    {
      TakenOnlyIfRead(comp, s, n - 1, n);
      OutsideOnlyIfEven(comp, s, n - 1, n);
    }
  }

  /** The top of a heap has to stand before nothing in it. */
  lemma {:induction false} TopIsLast(comp: Compare, s: seq<int>, n: nat, j: nat)
    requires StrictWeakOrder(comp) && j < n <= |s| && HeapFrom(comp, s, 1, n)
    ensures Le(comp, s[j], s[0])
  {
    if j > 0 {
      TopIsLast(comp, s, n, Parent(j));
      assert Le(comp, s[j], s[Parent(j)]);
    } else {
      assert Le(comp, s[0], s[0]);
    }
  }

  /** A heap in front, and behind it, up to n, an ordered part that nothing in the heap has to stand after. */
  ghost predicate HeapThenOrdered(comp: Compare, s: seq<int>, m: nat, n: nat) {
    m <= n <= |s| && HeapFrom(comp, s, 1, m) && OrderedFrom(comp, s, m, n)
  }

  /** Nothing has to stand after an element at m or behind it, if it stands before that element. */
  ghost predicate OrderedFrom(comp: Compare, s: seq<int>, m: nat, n: nat)
    requires n <= |s|
  {
    forall i, j {:trigger Le(comp, s[i], s[j])} :: 0 <= i < j < n && m <= j ==> Le(comp, s[i], s[j])
  }

  lemma TopToEnd(comp: Compare, s: seq<int>, m: nat, n: nat)
    requires StrictWeakOrder(comp) && 0 < m && HeapThenOrdered(comp, s, m, n)
    ensures var t := Exchanged(s, 0, m - 1); HeapExcept(comp, t, 1, m - 1, 0) && OrderedFrom(comp, t, m - 1, n)
  {
    var t := Exchanged(s, 0, m - 1);
    forall j | 0 <= j < m ensures Le(comp, s[j], s[0]) {
      TopIsLast(comp, s, m, j);
    }
    forall j | 0 < j && 1 <= j < m - 1 && Parent(j) != 0
      ensures Le(comp, t[j], t[Parent(j)])
    {
      assert t[j] == s[j] && t[Parent(j)] == s[Parent(j)];
    }
    forall i, j | 0 <= i < j < n && m - 1 <= j
      ensures Le(comp, t[i], t[j])
    {
      if j == m - 1 {
        assert t[j] == s[0];
      } else {
        assert t[j] == s[j];
        assert Le(comp, s[if i == 0 then m - 1 else if i == m - 1 then 0 else i], s[j]);
      }
    }
  }

  lemma AdjustKeepsEnd(comp: Compare, t: seq<int>, u: seq<int>, m: nat, n: nat)
    requires m <= n <= |t| && RangePermuted(t, u, 0, m) && HeapFrom(comp, u, 1, m)
    requires OrderedFrom(comp, t, m, n)
    ensures HeapThenOrdered(comp, u, m, n)
  {
    forall i, j | 0 <= i < j < n && m <= j
      ensures Le(comp, u[i], u[j])
    {
      assert u[j] == t[j];
      if i < m {
        var k := RangeElement(t, u, 0, m, i);
      } else {
        assert u[i] == t[i];
      }
    }
  }

  lemma StartAndEnd(comp: Compare, s: seq<int>, n: nat)
    requires n <= |s|
    ensures HeapFrom(comp, s, 1, n) ==> HeapThenOrdered(comp, s, n, n)
    ensures n > 0 && HeapThenOrdered(comp, s, 1, n) ==> Ordered(comp, s[..n])
  {
  }

  lemma WiderPermuted(s: seq<int>, t: seq<int>, u: seq<int>, m: nat, n: nat)
    requires m <= n <= |s| && RangePermuted(s, t, 0, n) && RangePermuted(t, u, 0, m)
    ensures RangePermuted(s, u, 0, n)
  {
  }

  /** m elements are left in the heap, if there was one at the start. */
  ghost predicate EmptyLoop(comp: Compare, was: seq<int>, s: seq<int>, n: nat, m: nat) {
    && m <= n <= |was| && RangePermuted(was, s, 0, n)
    && (HeapFrom(comp, was, 1, n) ==> HeapThenOrdered(comp, s, m, n))
  }

  lemma EmptyStarts(comp: Compare, s: seq<int>, n: nat)
    requires n <= |s|
    ensures EmptyLoop(comp, s, s, n, n)
  {
    hide HeapFrom, HeapThenOrdered;
    StartAndEnd(comp, s, n);
  }

  lemma EmptyTurn(comp: Compare, was: seq<int>, s: seq<int>, u: seq<int>, n: nat, m: nat)
    requires StrictWeakOrder(comp) && EmptyLoop(comp, was, s, n, m) && 0 < m && |s| == |was|
    requires RangePermuted(Exchanged(s, 0, m - 1), u, 0, m - 1)
    requires HeapExcept(comp, Exchanged(s, 0, m - 1), 1, m - 1, 0) ==> HeapFrom(comp, u, 1, m - 1)
    ensures EmptyLoop(comp, was, u, n, m - 1)
  {
    hide HeapFrom, HeapExcept, HeapThenOrdered, OrderedFrom, RangePermuted, Exchanged;
    var t := Exchanged(s, 0, m - 1);
    ExchangedPermutes(s, 0, m - 1, 0, n);
    RangePermutedTransitive(was, s, t, 0, n);
    WiderPermuted(was, t, u, m - 1, n);
    if HeapFrom(comp, was, 1, n) {
      TopToEnd(comp, s, m, n);
      AdjustKeepsEnd(comp, t, u, m - 1, n);
    }
  }

  lemma EmptyEnds(comp: Compare, was: seq<int>, s: seq<int>, n: nat)
    requires 0 < n && EmptyLoop(comp, was, s, n, 1) && |s| == |was|
    ensures RangePermuted(was, s, 0, n) && (HeapFrom(comp, was, 1, n) ==> Ordered(comp, s[..n]))
  {
    hide HeapFrom, HeapThenOrdered, RangePermuted, Ordered;
    StartAndEnd(comp, s, n);
  }

  lemma EmptyUnfolds(comp: Compare, s: seq<int>, m: nat)
    requires 0 < m <= |s|
    ensures Emptied(comp, s, m) == if m == 1 then s else Emptied(comp, Adjusted(comp, Exchanged(s, 0, m - 1), 0, m - 1), m - 1)
  {
  }

  /** Puts the top of the heap to its end, again and again. */
  method EmptyHeap(a: array<int>, n: nat, comp: Compare)
    requires StrictWeakOrder(comp) && 0 < n <= a.Length
    modifies a
    ensures RangePermuted(old(a[..]), a[..], 0, n) && a[..] == Emptied(comp, old(a[..]), n)
    ensures HeapFrom(comp, old(a[..]), 1, n) ==> Ordered(comp, a[..n])
  {
    hide *;
    ghost var was := a[..];
    EmptyStarts(comp, was, n);
    var i := 0;
    while i < n - 1
      invariant 0 <= i <= n - 1 && EmptyLoop(comp, was, a[..], n, n - i)
      invariant Emptied(comp, was, n) == Emptied(comp, a[..], n - i)
    {
      EmptyUnfolds(comp, a[..], n - i);
      ghost var s := a[..];
      Swap(a, 0, n - i - 1);
      AdjustHeap(a, n - i - 1, comp);
      EmptyTurn(comp, was, s, a[..], n, n - i);
      i := i + 1;
    }
    EmptyUnfolds(comp, a[..], 1);
    EmptyEnds(comp, was, a[..], n);
    assert a[..][..n] == a[..n];
  }

  /** Permuting with the element behind keeps the elements of the array exactly if that element stays the same. */
  lemma KeptIff(s: seq<int>, t: seq<int>, n: nat)
    requires n < |s| && RangePermuted(s, t, 0, n + 1)
    ensures multiset(t[..n]) == multiset(s[..n]) <==> t[n] == s[n]
  {
    RangeMultiset(s, t, 0, n + 1);
    hide RangePermuted;
    assert s[0..n + 1] == s[..n] + [s[n]] && t[0..n + 1] == t[..n] + [t[n]];
    SameRest(multiset(s[..n]), multiset(t[..n]), s[n], t[n]);
  }

  lemma SameRest(p: multiset<int>, q: multiset<int>, x: int, y: int)
    requires p + multiset{x} == q + multiset{y}
    ensures p == q <==> x == y
  {
    assert p == p + multiset{x} - multiset{x} && q == q + multiset{y} - multiset{y};
    assert (p + multiset{x})[x] == p[x] + 1;
    assert x != y ==> (q + multiset{y})[x] == q[x];
  }

  lemma Irreflexive(comp: Compare, x: int)
    requires StrictWeakOrder(comp)
    ensures !comp(x, x)
  {
    assert Le(comp, x, x);
  }

  /**
   * Sorts the first n elements of the memory a, whose element n stands for what follows the array. They are the same
   * elements as before exactly when that element has not been taken into the array, and then they end ordered.
   */
  method Sort(a: array<int>, n: nat, comp: Compare) returns (ghost outside: bool, ghost taken: bool)
    requires StrictWeakOrder(comp) && n < a.Length
    modifies a
    ensures RangePermuted(old(a[..]), a[..], 0, n + 1) && a[..] == SortedMemory(comp, old(a[..]), n)
    ensures outside <==> n >= 2 && BuildReadsOutside(comp, old(a[..]), n - 1, n)
    ensures taken <==> n >= 2 && BuildTakesOutside(comp, old(a[..]), n - 1, n)
    ensures (taken ==> outside) && (outside ==> n % 2 == 0 && n >= 4)
    ensures multiset(a[..n]) == multiset(old(a[..n])) <==> !taken
    ensures !taken ==> Ordered(comp, a[..n])
  {
    ghost var was := a[..];
    outside, taken := false, false;
    SortUnfolds(comp, was, n);
    if n < 2 {
      return;
    }
    hide *;
    outside, taken := BuildHeap(a, n, comp);
    ghost var heap := a[..];
    EmptyHeap(a, n, comp);
    SortedAfter(comp, was, heap, a[..], n, taken);
    assert was[..n] == old(a[..n]) && a[..][..n] == a[..n];
  }

  lemma SortUnfolds(comp: Compare, s: seq<int>, n: nat)
    requires n < |s|
    ensures SortedMemory(comp, s, n) == if n < 2 then s else Emptied(comp, Built(comp, s, n - 1, n), n)
  {
  }

  /** The larger number has to stand after the smaller one. */
  function Larger(): Compare {
    (a, b) => a > b
  }

  /**
   * 1, 2, 1, 2 with a 3 in the memory behind: the 3 is taken into the array, which ends 1, 2, 3, 2; it has lost a 1 and
   * is not in order.
   */
  lemma OrderIsLost()
    ensures StrictWeakOrder(Larger()) && BuildTakesOutside(Larger(), [1, 2, 1, 2, 3], 3, 4)
    ensures SortedMemory(Larger(), [1, 2, 1, 2, 3], 4) == [1, 2, 3, 2, 1] && !Ordered(Larger(), [1, 2, 3, 2])
  {
    BuiltWithThree();
    EmptiedWithThree();
    assert !Le(Larger(), [1, 2, 3, 2][2], [1, 2, 3, 2][3]);
  }

  lemma BuiltWithThree()
    ensures Built(Larger(), [1, 2, 1, 2, 3], 3, 4) == [2, 3, 1, 2, 1] && BuildTakesOutside(Larger(), [1, 2, 1, 2, 3], 3, 4)
  {
    var s := [1, 2, 1, 2, 3];
    assert Exchanged(s, 1, 0) == [2, 1, 1, 2, 3];
    assert Exchanged([2, 1, 1, 2, 3], 4, 1) == [2, 3, 1, 2, 1];
    assert SiftedInBuild(Larger(), [2, 1, 1, 2, 3], 1, 4) == [2, 3, 1, 2, 1];
    assert Built(Larger(), s, 1, 4) == Built(Larger(), [2, 3, 1, 2, 1], 0, 4);
  }

  lemma EmptiedWithThree()
    ensures Emptied(Larger(), [2, 3, 1, 2, 1], 4) == [1, 2, 3, 2, 1]
  {
    assert Exchanged([2, 3, 1, 2, 1], 0, 3) == [2, 3, 1, 2, 1];
    assert Exchanged([2, 3, 1, 2, 1], 1, 0) == [3, 2, 1, 2, 1];
    assert Adjusted(Larger(), [2, 3, 1, 2, 1], 0, 3) == [3, 2, 1, 2, 1];
    assert Exchanged([3, 2, 1, 2, 1], 0, 2) == [1, 2, 3, 2, 1];
    assert Exchanged([1, 2, 3, 2, 1], 1, 0) == [2, 1, 3, 2, 1];
    assert Adjusted(Larger(), [1, 2, 3, 2, 1], 0, 2) == [2, 1, 3, 2, 1];
    assert Exchanged([2, 1, 3, 2, 1], 0, 1) == [1, 2, 3, 2, 1];
  }

  lemma SortedAfter(comp: Compare, s: seq<int>, t: seq<int>, u: seq<int>, n: nat, taken: bool)
    requires StrictWeakOrder(comp) && n < |s| && RangePermuted(s, t, 0, n + 1) && RangePermuted(t, u, 0, n)
    requires if taken then comp(s[n], t[n]) else RangePermuted(s, t, 0, n)
    ensures RangePermuted(s, u, 0, n + 1) && (multiset(u[..n]) == multiset(s[..n]) <==> !taken)
  {
    WiderPermuted(s, t, u, n, n + 1);
    KeptIff(s, u, n);
    Irreflexive(comp, s[n]);
  }
}
