/**
 * The timer heap. Its sift-down stops one element short of the end; everything below follows the
 * code in that, and says exactly when the heap order survives.
 */
module TimerHeaps {
  import opened SortOrder
  import opened HeapSort

  /** A timer with the smaller expiry time has to stand above one with a larger. */
  function Earlier(): Compare {
    (a, b) => a < b
  }

  lemma EarlierIsOrder()
    ensures StrictWeakOrder(Earlier())
    ensures forall a, b {:trigger Le(Earlier(), a, b)} :: Le(Earlier(), a, b) <==> a >= b
  {
  }

  /** The first n expiry times are in heap order. */
  ghost predicate IsHeap(s: seq<int>, n: nat)
    requires n <= |s|
  {
    HeapFrom(Earlier(), s, 1, n)
  }

  lemma {:induction false} RootIsMinimum(s: seq<int>, n: nat, j: nat)
    requires j < n <= |s| && IsHeap(s, n)
    ensures s[0] <= s[j]
  {
    EarlierIsOrder();
    TopIsLast(Earlier(), s, n, j);
  }

  /** The child that adjust_heap_2 compares with, among those below max. */
  function Pick(s: seq<int>, k: nat, max: nat): (i: nat)
    requires 2 * k + 1 < max <= |s|
    ensures i == 2 * k + 1 || (i == 2 * k + 2 && i < max)
  {
    if 2 * k + 2 >= max || s[2 * k + 1] < s[2 * k + 2] then 2 * k + 1 else 2 * k + 2
  }

  /** adjust_heap_2 from position k, over the elements below max. */
  function SiftDown(s: seq<int>, k: nat, max: nat): (t: seq<int>)
    requires max <= |s|
    ensures |t| == |s|
    decreases max - k
  {
    if 2 * k + 1 >= max then s
    else
      var i := Pick(s, k, max);
      if s[i] < s[k] then SiftDown(Exchanged(s, i, k), i, max) else s
  }

  lemma PickIsLarger(s: seq<int>, k: nat, max: nat)
    requires 2 * k + 1 < max <= |s|
    ensures LargerChild(Earlier(), s, max, k, Pick(s, k, max))
  {
    EarlierIsOrder();
    Children(Earlier(), s, max, k, Pick(s, k, max));
  }

  /** Sifting over all n elements restores the heap. */
  lemma {:induction false} SiftRestores(s: seq<int>, k: nat, n: nat)
    requires n <= |s| && HeapExcept(Earlier(), s, 1, n, k)
    ensures IsHeap(SiftDown(s, k, n), n)
    decreases n - k
  {
    EarlierIsOrder();
    if 2 * k + 1 >= n {
      NoChild(Earlier(), s, 1, n, k);
    } else {
      var i := Pick(s, k, n);
      PickIsLarger(s, k, n);
      SiftTurn(Earlier(), s, 1, n, k, i, 0);
      if s[i] < s[k] {
        SiftRestores(Exchanged(s, i, k), i, n);
      }
    }
  }

  lemma {:induction false} SiftDownPermutes(s: seq<int>, k: nat, max: nat)
    requires max <= |s|
    ensures RangePermuted(s, SiftDown(s, k, max), 0, max)
    decreases max - k
  {
    if 2 * k + 1 < max && s[Pick(s, k, max)] < s[k] {
      var i := Pick(s, k, max);
      ExchangedPermutes(s, i, k, 0, max);
      SiftDownPermutes(Exchanged(s, i, k), i, max);
      RangePermutedTransitive(s, Exchanged(s, i, k), SiftDown(s, k, max), 0, max);
    }
  }

  /** On its way down from k the element at k passes the last of the n elements, which is smaller than it and than its sibling. */
  predicate PassesLast(s: seq<int>, k: nat, n: nat)
    requires 0 < n <= |s|
    decreases n - k
  {
    if 2 * k + 1 == n - 1 then s[n - 1] < s[k]
    else if 2 * k + 2 == n - 1 then s[n - 1] < s[k] && s[n - 1] < s[2 * k + 1]
    else if 2 * k + 1 < n - 1 then
      var i := Pick(s, k, n - 1);
      s[i] < s[k] && PassesLast(Exchanged(s, i, k), i, n)
    else false
  }

  lemma OnlyLastChild(s: seq<int>, k: nat, n: nat)
    requires n <= |s| && HeapExcept(Earlier(), s, 1, n, k) && 2 * k + 1 == n - 1
    ensures IsHeap(s, n) <==> s[n - 1] >= s[k]
  {
    EarlierIsOrder();
    assert Parent(n - 1) == k;
  }

  /** The last element is the right child of k: the code compares s[k] only with the left one. */
  lemma LastIsRightChild(s: seq<int>, k: nat, n: nat)
    requires n <= |s| && HeapExcept(Earlier(), s, 1, n, k) && 2 * k + 2 == n - 1
    ensures s[2 * k + 1] < s[k] ==> (IsHeap(Exchanged(s, 2 * k + 1, k), n) <==> s[n - 1] >= s[2 * k + 1])
    ensures s[2 * k + 1] >= s[k] ==> (IsHeap(s, n) <==> s[n - 1] >= s[k])
  {
    EarlierIsOrder();
    var c, t := 2 * k + 1, Exchanged(s, 2 * k + 1, k);
    assert Parent(n - 1) == k && Parent(c) == k;
    if s[c] < s[k] && s[n - 1] >= s[c] {
      forall j | 0 < j < n
        ensures t[j] >= t[Parent(j)]
      {
        assert j != c && j != n - 1 ==> Parent(j) != k && Parent(j) != c;
        assert j == k ==> s[c] >= s[Parent(k)];
        assert Parent(j) != k ==> Le(Earlier(), s[j], s[Parent(j)]);
      }
    }
  }

  /** The removal keeps the heap order exactly when the sifted element does not pass the last one. */
  lemma {:induction false} ShortSiftIff(s: seq<int>, k: nat, n: nat)
    requires 0 < n <= |s| && HeapExcept(Earlier(), s, 1, n, k)
    ensures IsHeap(SiftDown(s, k, n - 1), n) <==> !PassesLast(s, k, n)
    decreases n - k
  {
    EarlierIsOrder();
    if 2 * k + 1 == n - 1 {
      OnlyLastChild(s, k, n);
    } else if 2 * k + 2 == n - 1 {
      LastIsRightChild(s, k, n);
      assert Pick(s, k, n - 1) == 2 * k + 1;
      assert SiftDown(Exchanged(s, 2 * k + 1, k), 2 * k + 1, n - 1) == Exchanged(s, 2 * k + 1, k);
    } else if 2 * k + 1 < n - 1 {
      var i := Pick(s, k, n - 1);
      assert i == Pick(s, k, n);
      PickIsLarger(s, k, n);
      SiftTurn(Earlier(), s, 1, n, k, i, 0);
      if s[i] < s[k] {
        ShortSiftIff(Exchanged(s, i, k), i, n);
      }
    } else {
      NoChild(Earlier(), s, 1, n, k);
    }
  }

  /** Three timers due at 1, 2 and 5: after the first has been taken, the one due at 5 stands above the one due at 2. */
  lemma RemovalBreaksHeap()
    ensures IsHeap([1, 2, 5], 3) && Exchanged([1, 2, 5], 0, 2) == [5, 2, 1]
    ensures PassesLast([5, 2, 1], 0, 2) && SiftDown([5, 2, 1], 0, 1) == [5, 2, 1] && !IsHeap([5, 2, 1], 2)
  {
    EarlierIsOrder();
    var s := [1, 2, 5];
    assert Exchanged(s, 0, 2) == [5, 2, 1];
    assert Parent(1) == 0 && Parent(2) == 0;
    assert !Le(Earlier(), 2, 5);
  }

  lemma HeapOf(s: seq<int>, n: nat)
    requires n <= |s|
    ensures IsHeap(s, n) <==> forall j {:trigger Parent(j)} :: 0 < j < n ==> s[j] >= s[Parent(j)]
  {
    EarlierIsOrder();
  }

  /** Moving the last of n + 1 elements to position at leaves only that position in question. */
  lemma LastMovedTo(s: seq<int>, at: nat, n: nat)
    requires at < n < |s| && IsHeap(s, n + 1)
    ensures var t := Exchanged(s, at, n);
      && (at == 0 || t[at] >= t[Parent(at)] ==> HeapExcept(Earlier(), t, 1, n, at))
      && (at > 0 && t[at] < t[Parent(at)] ==> SiftDown(t, at, n - 1) == t && !IsHeap(t, n))
  {
    EarlierIsOrder();
    HeapOf(s, n + 1);
    var t := Exchanged(s, at, n);
    HeapOf(t, n);
    forall j | 0 < j < n
      ensures Parent(j) != at && j != at ==> t[j] >= t[Parent(j)]
      ensures Parent(j) == at ==> t[j] == s[j] >= s[at] && (at > 0 ==> t[j] >= t[Parent(at)])
    {
      if at > 0 {
        assert s[at] >= s[Parent(at)];
      }
    }
    if at > 0 && t[at] < t[Parent(at)] && 2 * at + 1 < n - 1 {
      var i := Pick(t, at, n - 1);
      assert Parent(i) == at;
    }
  }

  /**
   * Deleting the timer at position `at` keeps the heap order exactly when the element moved there need not rise
   * (nothing lifts it) and does not pass the last one.
   */
  lemma DeletionIff(s: seq<int>, at: nat, n: nat)
    requires at <= n < |s| && 0 < n && IsHeap(s, n + 1)
    ensures var t := Exchanged(s, at, n);
      IsHeap(SiftDown(t, at, n - 1), n) <==> at == n || ((at == 0 || t[at] >= t[Parent(at)]) && !PassesLast(t, at, n))
  {
    var t := Exchanged(s, at, n);
    if at == n {
      HeapOf(s, n + 1);
      HeapOf(s, n);
      assert t == s;
    } else {
      LastMovedTo(s, at, n);
      if at == 0 || t[at] >= t[Parent(at)] {
        ShortSiftIff(t, at, n);
      }
    }
  }

  /** The sift-down gets the number of timers less one, which is -1 when none is left. */
  function Front(n: nat): (m: nat)
    ensures m <= n
  {
    if n > 0 then n - 1 else 0
  }

  /** The due times of the heap after delete_timer_from_heap has deleted the one at position `at`. */
  function AfterDeleting(s: seq<int>, at: nat): (t: seq<int>)
    requires at < |s|
    ensures |t| == |s| - 1
  {
    SiftDown(Exchanged(s, at, |s| - 1), at, Front(|s| - 1))[..|s| - 1]
  }

  lemma {:induction false} SinkBelowRoot(s: seq<int>, k: nat, max: nat)
    requires 0 < k && max <= |s| && s != []
    ensures SiftDown(s, k, max)[0] == s[0]
    decreases max - k
  {
    if 2 * k + 1 < max {
      var i := Pick(s, k, max);
      if s[i] < s[k] {
        SinkBelowRoot(Exchanged(s, i, k), i, max);
      }
    }
  }

  /** Deleting another timer than the first leaves the first time as it is. */
  lemma FirstAfterDeleting(s: seq<int>, at: nat)
    requires 0 < at < |s|
    ensures AfterDeleting(s, at)[0] == s[0]
  {
    SinkBelowRoot(Exchanged(s, at, |s| - 1), at, Front(|s| - 1));
  }

  /** The deleted timer is the last one, or the last one neither has to rise in its place nor passes the new last one. */
  predicate DeletionSafe(s: seq<int>, at: nat)
    requires at < |s|
  {
    at == |s| - 1 ||
    var t := Exchanged(s, at, |s| - 1);
    (at == 0 || t[at] >= t[Parent(at)]) && !PassesLast(t, at, |s| - 1)
  }

  lemma DeletionKeepsHeapIff(s: seq<int>, at: nat)
    requires at < |s| && IsHeap(s, |s|)
    ensures IsHeap(AfterDeleting(s, at), |s| - 1) <==> DeletionSafe(s, at)
  {
    var n, t := |s| - 1, AfterDeleting(s, at);
    HeapOf(t, n);
    HeapOf(SiftDown(Exchanged(s, at, n), at, Front(n)), n);
    if n > 0 {
      DeletionIff(s, at, n);
    }
  }

  /** Deleting the timer due at 11 moves the one due at 3 under the one due at 10, where it had to rise. */
  lemma DeletionNeedsRise()
    ensures var s := [1, 10, 2, 11, 12, 3];
      IsHeap(s, 6) && AfterDeleting(s, 3) == [1, 10, 2, 3, 12] && !IsHeap(AfterDeleting(s, 3), 5)
  {
    var s := [1, 10, 2, 11, 12, 3];
    HeapOf(s, 6);
    assert Exchanged(s, 3, 5) == [1, 10, 2, 3, 12, 11];
    HeapOf([1, 10, 2, 3, 12], 5);
    assert Parent(3) == 1;
  }

  // ----- Sifting up -----

  /** In heap order, except that s[i] may be too small for its place; its children fit under its parent. */
  ghost predicate UpExcept(s: seq<int>, n: nat, i: nat)
    requires n <= |s|
  {
    && (forall j {:trigger Parent(j)} :: 0 < j < n && j != i ==> s[j] >= s[Parent(j)])
    && (forall j {:trigger Parent(j)} :: 0 < i && 0 < j < n && Parent(j) == i ==> s[j] >= s[Parent(i)])
  }

  lemma AppendedAtEnd(s: seq<int>, x: int)
    requires IsHeap(s, |s|)
    ensures UpExcept(s + [x], |s| + 1, |s|)
  {
    HeapOf(s, |s|);
  }

  lemma LiftStep(s: seq<int>, n: nat, i: nat)
    requires 0 < i < n <= |s| && UpExcept(s, n, i)
    ensures s[Parent(i)] > s[i] ==> UpExcept(Exchanged(s, i, Parent(i)), n, Parent(i))
    ensures s[Parent(i)] <= s[i] ==> IsHeap(s, n)
  {
    HeapOf(s, n);
    var p, t := Parent(i), Exchanged(s, i, Parent(i));
    if s[p] > s[i] {
      forall j | 0 < j < n
        ensures j != p ==> t[j] >= t[Parent(j)]
        ensures p > 0 && Parent(j) == p ==> t[j] >= t[Parent(p)]
      {
        assert p > 0 ==> s[p] >= s[Parent(p)];
        assert j != i ==> s[j] >= s[Parent(j)];
      }
    }
  }

  lemma LiftEnds(s: seq<int>, n: nat)
    requires n <= |s| && UpExcept(s, n, 0)
    ensures IsHeap(s, n)
  {
    HeapOf(s, n);
  }

  /** adjust_heap: s[i] is exchanged with its parent until that is not larger. */
  function SiftUp(s: seq<int>, i: nat): (t: seq<int>)
    requires i < |s|
    ensures |t| == |s|
    decreases i
  {
    if i > 0 && s[Parent(i)] > s[i] then SiftUp(Exchanged(s, i, Parent(i)), Parent(i)) else s
  }

  lemma {:induction false} SiftUpRestores(s: seq<int>, n: nat, i: nat)
    requires i < n <= |s| && UpExcept(s, n, i)
    ensures IsHeap(SiftUp(s, i), n)
    decreases i
  {
    if i > 0 {
      LiftStep(s, n, i);
      if s[Parent(i)] > s[i] {
        SiftUpRestores(Exchanged(s, i, Parent(i)), n, Parent(i));
      }
    } else {
      LiftEnds(s, n);
    }
  }

  /** The due times of the heap after add_timer_to_heap has added one. */
  function AfterAdding(s: seq<int>, x: int): (t: seq<int>)
    ensures |t| == |s| + 1
  {
    SiftUp(s + [x], |s|)
  }

  lemma {:induction false} RootOnlyFalls(s: seq<int>, i: nat)
    requires i < |s|
    ensures SiftUp(s, i)[0] <= s[0]
    decreases i
  {
    if i > 0 && s[Parent(i)] > s[i] {
      RootOnlyFalls(Exchanged(s, i, Parent(i)), Parent(i));
    }
  }

  /** Adding never makes the first time later, whatever the order is. */
  lemma FirstAfterAdding(s: seq<int>, x: int)
    ensures s != [] ==> AfterAdding(s, x)[0] <= s[0]
  {
    if s != [] {
      RootOnlyFalls(s + [x], |s|);
    }
  }

  /** What the first time is after adding, when the order holds at the root. */
  lemma {:induction false} RootIsOneOfTwo(s: seq<int>, i: nat)
    requires i < |s|
    ensures SiftUp(s, i)[0] == s[0] || (SiftUp(s, i)[0] == s[i] < s[0])
    decreases i
  {
    if i > 0 && s[Parent(i)] > s[i] {
      RootIsOneOfTwo(Exchanged(s, i, Parent(i)), Parent(i));
    }
  }

  lemma AddingKeepsHeap(s: seq<int>, x: int)
    requires IsHeap(s, |s|)
    ensures IsHeap(AfterAdding(s, x), |s| + 1)
  {
    AppendedAtEnd(s, x);
    SiftUpRestores(s + [x], |s| + 1, |s|);
  }

  lemma {:induction false} SiftUpPermutes(s: seq<int>, i: nat, n: nat)
    requires i < n <= |s|
    ensures RangePermuted(s, SiftUp(s, i), 0, n)
    decreases i
  {
    if i > 0 && s[Parent(i)] > s[i] {
      ExchangedPermutes(s, i, Parent(i), 0, n);
      SiftUpPermutes(Exchanged(s, i, Parent(i)), Parent(i), n);
      RangePermutedTransitive(s, Exchanged(s, i, Parent(i)), SiftUp(s, i), 0, n);
    }
  }

  // ----- The deletion with both sifts -----

  /** The deletion as it had to be: sift down over all that are left, and then up. */
  function AfterRepairedDeleting(s: seq<int>, at: nat): (t: seq<int>)
    requires at < |s|
    ensures |t| == |s| - 1
  {
    var n := |s| - 1;
    if at == n then s[..n] else SiftUp(SiftDown(Exchanged(s, at, n), at, n), at)[..n]
  }

  /** With both sifts over all remaining elements, every deletion keeps the order of every heap. */
  lemma RepairedDeletionKeepsHeap(s: seq<int>, at: nat)
    requires at < |s| && IsHeap(s, |s|)
    ensures IsHeap(AfterRepairedDeleting(s, at), |s| - 1)
  {
    var n := |s| - 1;
    if at == n {
      HeapOf(s, |s|);
      HeapOf(s[..n], n);
    } else {
      var t := Exchanged(s, at, n);
      LastMovedTo(s, at, n);
      if at == 0 || t[at] >= t[Parent(at)] {
        SiftRestores(t, at, n);
        StaysUp(SiftDown(t, at, n), n, at);
      } else {
        RisesOnly(s, at, n);
        SiftUpRestores(t, n, at);
      }
      HeapOf(SiftUp(SiftDown(t, at, n), at), n);
      HeapOf(AfterRepairedDeleting(s, at), n);
    }
  }

  /** It deletes the time at `at` and no other. */
  lemma RepairedDeletionDeletes(s: seq<int>, at: nat)
    requires at < |s|
    ensures multiset(s) == multiset(AfterRepairedDeleting(s, at)) + multiset{s[at]}
  {
    hide SiftDown, SiftUp;
    var n := |s| - 1;
    if at == n {
      WithoutLast(s, s, n);
    } else {
      var t := Exchanged(s, at, n);
      assert t[n] == s[at];
      ExchangedPermutes(s, at, n, 0, |s|);
      hide Exchanged;
      SiftDownPermutes(t, at, n);
      SiftUpPermutes(SiftDown(t, at, n), at, n);
      WithoutLast(s, SiftUp(SiftDown(t, at, n), at), n);
    }
  }

  lemma WithoutLast(s: seq<int>, t: seq<int>, n: nat)
    requires |t| == n + 1 && multiset(t) == multiset(s)
    ensures multiset(s) == multiset(t[..n]) + multiset{t[n]}
  {
    assert t == t[..n] + [t[n]];
  }

  /** So does the deletion as it is. */
  lemma DeletionDeletes(s: seq<int>, at: nat)
    requires at < |s|
    ensures multiset(s) == multiset(AfterDeleting(s, at)) + multiset{s[at]}
  {
    hide SiftDown;
    var n := |s| - 1;
    var t := Exchanged(s, at, n);
    assert t[n] == s[at];
    ExchangedPermutes(s, at, n, 0, |s|);
    hide Exchanged;
    SiftDownPermutes(t, at, Front(n));
    WithoutLast(s, SiftDown(t, at, Front(n)), n);
  }

  lemma AddingAdds(s: seq<int>, x: int)
    ensures multiset(AfterAdding(s, x)) == multiset(s) + multiset{x}
  {
    hide SiftUp;
    SiftUpPermutes(s + [x], |s|, |s| + 1);
  }

  lemma StaysUp(s: seq<int>, n: nat, i: nat)
    requires i < n <= |s| && IsHeap(s, n)
    ensures SiftUp(s, i) == s
  {
    HeapOf(s, n);
  }

  /** An element that has to rise in its new place does not sink. */
  lemma RisesOnly(s: seq<int>, at: nat, n: nat)
    requires 0 < at < n < |s| && IsHeap(s, n + 1) && s[n] < s[Parent(at)]
    ensures UpExcept(Exchanged(s, at, n), n, at) && SiftDown(Exchanged(s, at, n), at, n) == Exchanged(s, at, n)
  {
    HeapOf(s, n + 1);
    var t := Exchanged(s, at, n);
    forall j | 0 < j < n
      ensures j != at ==> t[j] >= t[Parent(j)]
      ensures Parent(j) == at ==> t[j] >= t[Parent(at)]
    {
      assert s[j] >= s[Parent(j)] && s[at] >= s[Parent(at)];
    }
    if 2 * at + 1 < n {
      assert Parent(Pick(t, at, n)) == at;
    }
  }
}
