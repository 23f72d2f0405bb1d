/**
 * The loop that takes the due timers off the heap. Because its sift-down leaves out the last element, one due timer
 * can be left behind; what follows says which one and for which heaps. Where the heap order is lost already, more
 * can be left; the runs at the end say when it is never lost.
 */
module DueTimers {
  import opened SortOrder
  import opened HeapSort
  import opened TimerHeaps

  /** One turn of the loop in get_and_remove_expire_timers, with n timers left in the heap before it. */
  function AfterTaking(s: seq<int>, n: nat): (t: seq<int>)
    requires 0 < n <= |s|
    ensures |t| == |s|
  {
    SiftDown(Exchanged(s, 0, n - 1), 0, Front(n - 1))
  }

  /** The loop with n timers left: the array when it stops, and how many are left then; the others have been taken. */
  function TakeAll(s: seq<int>, n: nat, tm: int): (r: (seq<int>, nat))
    requires n <= |s|
    ensures |r.0| == |s| && r.1 <= n
    ensures r.1 > 0 ==> r.0[0] >= tm
    decreases n
  {
    if n > 0 && s[0] < tm then TakeAll(AfterTaking(s, n), n - 1, tm) else (s, n)
  }

  /** The due times left by the loop. */
  function LeftTimes(s: seq<int>, tm: int): seq<int> {
    TakeAll(s, |s|, tm).0[..TakeAll(s, |s|, tm).1]
  }

  /** A turn needs the heap order only of all but the last of the n timers, and keeps it for all but the last of n - 1. */
  lemma TakingKeepsFront(s: seq<int>, n: nat)
    requires 0 < n <= |s| && IsHeap(s, Front(n))
    ensures IsHeap(AfterTaking(s, n), Front(n - 1))
  {
    if n <= 2 {
      HeapOf(AfterTaking(s, n), 0);
    } else {
      var t := Exchanged(s, 0, n - 1);
      MovedToRoot(s, n - 1);
      SiftRestores(t, 0, n - 2);
    }
  }

  lemma MovedToRoot(s: seq<int>, n: nat)
    requires 0 < n < |s| && IsHeap(s, n)
    ensures HeapExcept(Earlier(), Exchanged(s, 0, n), 1, n, 0)
    ensures HeapExcept(Earlier(), Exchanged(s, 0, n), 1, n - 1, 0)
  {
    EarlierIsOrder();
    HeapOf(s, n);
    var t := Exchanged(s, 0, n);
    forall j | 0 < j < n && Parent(j) != 0
      ensures Le(Earlier(), t[j], t[Parent(j)])
    {
      assert s[j] >= s[Parent(j)];
    }
  }

  /** Every timer due at tm has a parent that is due, too. This is all of the heap order that the loop needs. */
  ghost predicate DueParents(s: seq<int>, n: nat, tm: int)
    requires n <= |s|
  {
    forall j {:trigger Parent(j)} :: 0 < j < n && s[j] < tm ==> s[Parent(j)] < tm
  }

  lemma HeapHasDueParents(s: seq<int>, n: nat, tm: int)
    requires n <= |s| && IsHeap(s, n)
    ensures DueParents(s, n, tm)
  {
    HeapOf(s, n);
  }

  /** The same, but s[k] may not be due although its children are; their grandparent is due then. */
  ghost predicate DueExcept(s: seq<int>, n: nat, k: nat, tm: int)
    requires n <= |s|
  {
    && (forall j {:trigger Parent(j)} :: 0 < j < n && Parent(j) != k && s[j] < tm ==> s[Parent(j)] < tm)
    && (forall j {:trigger Parent(j)} :: 0 < k && 0 < j < n && Parent(j) == k && s[j] < tm ==> s[Parent(k)] < tm)
  }

  lemma DueStep(s: seq<int>, k: nat, n: nat, tm: int)
    requires n <= |s| && 2 * k + 1 < n && DueExcept(s, n, k, tm)
    ensures var i := Pick(s, k, n);
      && (s[i] < s[k] ==> DueExcept(Exchanged(s, i, k), n, i, tm))
      && (s[i] >= s[k] ==> DueParents(s, n, tm))
  {
    var i := Pick(s, k, n);
    var t := Exchanged(s, i, k);
    assert Parent(i) == k;
    PickIsEarliest(s, k, n);
    if s[i] < s[k] {
      forall j | 0 < j < n
        ensures Parent(j) != i && t[j] < tm ==> t[Parent(j)] < tm
        ensures Parent(j) == i && t[j] < tm ==> t[Parent(i)] < tm
      {
        assert Parent(j) == k ==> s[i] <= s[j];
      }
    }
  }

  lemma PickIsEarliest(s: seq<int>, k: nat, n: nat)
    requires n <= |s| && 2 * k + 1 < n
    ensures forall j {:trigger Parent(j)} :: 0 < j < n && Parent(j) == k ==> s[Pick(s, k, n)] <= s[j]
  {
  }

  lemma {:induction false} SiftKeepsDue(s: seq<int>, k: nat, n: nat, tm: int)
    requires n <= |s| && DueExcept(s, n, k, tm)
    ensures DueParents(SiftDown(s, k, n), n, tm)
    decreases n - k
  {
    if 2 * k + 1 < n {
      DueStep(s, k, n, tm);
      if s[Pick(s, k, n)] < s[k] {
        SiftKeepsDue(Exchanged(s, Pick(s, k, n), k), Pick(s, k, n), n, tm);
      }
    }
  }

  /** A turn keeps that for all timers before the last one. */
  lemma TakingKeepsDue(s: seq<int>, n: nat, tm: int)
    requires 0 < n <= |s| && DueParents(s, Front(n), tm)
    ensures DueParents(AfterTaking(s, n), Front(n - 1), tm)
  {
    if n > 2 {
      var t := Exchanged(s, 0, n - 1);
      assert DueExcept(t, n - 2, 0, tm);
      SiftKeepsDue(t, 0, n - 2, tm);
    }
  }

  lemma {:induction false} NoneDueBelow(s: seq<int>, n: nat, tm: int, j: nat)
    requires j < n <= |s| && DueParents(s, n, tm) && s[0] >= tm
    ensures s[j] >= tm
  {
    if j > 0 {
      NoneDueBelow(s, n, tm, Parent(j));
    }
  }

  /** When the loop stops, none of the timers left is due, except perhaps the last one. */
  lemma {:induction false} OnlyLastIsLeft(s: seq<int>, n: nat, tm: int)
    requires n <= |s| && DueParents(s, Front(n), tm)
    ensures var r := TakeAll(s, n, tm); DueParents(r.0, Front(r.1), tm) && forall j :: 0 <= j < r.1 - 1 ==> r.0[j] >= tm
    decreases n
  {
    if n > 0 && s[0] < tm {
      TakingKeepsDue(s, n, tm);
      OnlyLastIsLeft(AfterTaking(s, n), n - 1, tm);
    } else {
      forall j | 0 <= j < n - 1
        ensures s[j] >= tm
      {
        NoneDueBelow(s, n - 1, tm, j);
      }
    }
  }

  /** The order of the timers left is that of a heap exactly when the last one need not rise. */
  lemma LastDecidesOrder(s: seq<int>, n: nat)
    requires n <= |s| && IsHeap(s, Front(n))
    ensures IsHeap(s, n) <==> n <= 1 || s[n - 1] >= s[Parent(n - 1)]
  {
    HeapOf(s, n);
    HeapOf(s, Front(n));
  }

  /** In the last turn of the loop the sifted element does not pass the last one; what earlier turns did is of no account. */
  predicate LastTurnClean(s: seq<int>, n: nat, tm: int)
    requires n <= |s|
    decreases n
  {
    n > 1 && s[0] < tm ==>
      if AfterTaking(s, n)[0] < tm then LastTurnClean(AfterTaking(s, n), n - 1, tm)
      else !PassesLast(Exchanged(s, 0, n - 1), 0, n - 1)
  }

  lemma TurnKeepsHeapIff(s: seq<int>, n: nat)
    requires 1 < n <= |s| && IsHeap(s, n - 1)
    ensures IsHeap(AfterTaking(s, n), n - 1) <==> !PassesLast(Exchanged(s, 0, n - 1), 0, n - 1)
  {
    MovedToRoot(s, n - 1);
    ShortSiftIff(Exchanged(s, 0, n - 1), 0, n - 1);
  }

  /** From a heap, the timers left form a heap exactly when the last turn was clean. */
  lemma {:induction false} OrderSurvivesIff(s: seq<int>, n: nat, tm: int)
    requires n <= |s| && IsHeap(s, Front(n)) && (n > 0 && s[0] >= tm ==> IsHeap(s, n))
    ensures var r := TakeAll(s, n, tm); IsHeap(r.0, r.1) <==> LastTurnClean(s, n, tm)
    decreases n
  {
    if n > 0 && s[0] < tm {
      var t := AfterTaking(s, n);
      TakingKeepsFront(s, n);
      if n == 1 {
        HeapOf(t, 0);
      } else if t[0] < tm {
        OrderSurvivesIff(t, n - 1, tm);
      } else {
        TurnKeepsHeapIff(s, n);
        assert TakeAll(s, n, tm) == (t, n - 1);
      }
    } else if n == 0 {
      HeapOf(s, 0);
    }
  }

  // ----- What is taken -----

  /** A turn puts the root behind the timers left and permutes these. */
  lemma TakingPermutes(s: seq<int>, n: nat)
    requires 0 < n <= |s|
    ensures RangePermuted(Exchanged(s, 0, n - 1), AfterTaking(s, n), 0, Front(n - 1))
    ensures RangePermuted(s, AfterTaking(s, n), 0, n) && AfterTaking(s, n)[n - 1] == s[0]
  {
    SiftDownPermutes(Exchanged(s, 0, n - 1), 0, Front(n - 1));
    ExchangedPermutes(s, 0, n - 1, 0, n);
  }

  /** The loop permutes the array; what it has taken was due. */
  lemma {:induction false} TakenIsDue(s: seq<int>, n: nat, tm: int)
    requires n <= |s|
    ensures var r := TakeAll(s, n, tm); RangePermuted(s, r.0, 0, n) && forall j :: r.1 <= j < n ==> r.0[j] < tm
    decreases n
  {
    hide AfterTaking;
    if n > 0 && s[0] < tm {
      var t := AfterTaking(s, n);
      TakingPermutes(s, n);
      TakenIsDue(t, n - 1, tm);
      var r := TakeAll(s, n, tm);
      assert r == TakeAll(t, n - 1, tm);
      hide TakeAll;
      assert r.0[n - 1] == t[n - 1];
    }
  }

  // ----- For which heaps a due timer is left behind -----

  /** The loop over the whole heap stops with a due timer left. */
  ghost predicate Misses(s: seq<int>, tm: int) {
    var r := TakeAll(s, |s|, tm);
    exists j :: 0 <= j < r.1 && r.0[j] < tm
  }

  /** A due timer is left exactly when the last timer left is due. */
  lemma MissesIffLastIsDue(s: seq<int>, tm: int)
    requires DueParents(s, Front(|s|), tm)
    ensures var r := TakeAll(s, |s|, tm); Misses(s, tm) <==> r.1 > 1 && r.0[r.1 - 1] < tm
  {
    OnlyLastIsLeft(s, |s|, tm);
  }

  /** How many of the timers are not due. */
  function Waiting(s: seq<int>, tm: int): nat {
    if s == [] then 0 else Waiting(s[..|s| - 1], tm) + (if s[|s| - 1] >= tm then 1 else 0)
  }

  lemma {:induction false} WaitingUpdated(s: seq<int>, i: nat, x: int, tm: int)
    requires i < |s|
    ensures Waiting(s[i := x], tm) - (if x >= tm then 1 else 0) == Waiting(s, tm) - (if s[i] >= tm then 1 else 0)
  {
    var m := |s| - 1;
    if i < m {
      assert s[i := x][..m] == s[..m][i := x];
      WaitingUpdated(s[..m], i, x, tm);
    } else {
      assert s[i := x][..m] == s[..m];
    }
  }

  lemma WaitingExchanged(s: seq<int>, i: nat, j: nat, tm: int)
    requires i < |s| && j < |s|
    ensures Waiting(Exchanged(s, i, j), tm) == Waiting(s, tm)
  {
    WaitingUpdated(s, i, s[j], tm);
    WaitingUpdated(s[i := s[j]], j, s[i], tm);
    assert Exchanged(s, i, j) == s[i := s[j]][j := s[i]];
  }

  lemma {:induction false} WaitingSifted(s: seq<int>, k: nat, max: nat, tm: int)
    requires max <= |s|
    ensures Waiting(SiftDown(s, k, max), tm) == Waiting(s, tm)
    decreases max - k
  {
    if 2 * k + 1 < max && s[Pick(s, k, max)] < s[k] {
      var i := Pick(s, k, max);
      WaitingExchanged(s, i, k, tm);
      WaitingSifted(Exchanged(s, i, k), i, max, tm);
    }
  }

  lemma {:induction false} WaitingTaken(s: seq<int>, n: nat, tm: int, at: int)
    requires n <= |s|
    ensures Waiting(TakeAll(s, n, tm).0, at) == Waiting(s, at)
    decreases n
  {
    if n > 0 && s[0] < tm {
      WaitingExchanged(s, 0, n - 1, at);
      WaitingSifted(Exchanged(s, 0, n - 1), 0, Front(n - 1), at);
      WaitingTaken(AfterTaking(s, n), n - 1, tm, at);
    }
  }

  lemma {:induction false} WaitingInFront(s: seq<int>, m: nat, tm: int)
    requires m <= |s| && forall j :: 0 <= j < |s| ==> (s[j] >= tm <==> j < m)
    ensures Waiting(s, tm) == m
  {
    if s != [] {
      var n := |s| - 1;
      forall j | 0 <= j < n
        ensures s[..n][j] >= tm <==> j < if m <= n then m else n
      {
        assert s[..n][j] == s[j];
      }
      WaitingInFront(s[..n], if m <= n then m else n, tm);
      assert s[n] >= tm <==> n < m;
    }
  }

  /** When the last timer left is due, all the others left are the ones that were not due before. */
  lemma WaitingAreLeft(s: seq<int>, tm: int)
    requires DueParents(s, Front(|s|), tm) && Misses(s, tm)
    ensures TakeAll(s, |s|, tm).1 == Waiting(s, tm) + 1
  {
    var r := TakeAll(s, |s|, tm);
    MissesIffLastIsDue(s, tm);
    OnlyLastIsLeft(s, |s|, tm);
    TakenIsDue(s, |s|, tm);
    WaitingTaken(s, |s|, tm, tm);
    WaitingInFront(r.0, r.1 - 1, tm);
  }

  /** The turn after which the due timer at the end is missed has found it as a child of the root. */
  lemma LeftUnderRoot(s: seq<int>, n: nat, tm: int)
    requires 2 < n <= |s| && DueParents(s, n - 1, tm) && s[n - 2] < tm
    requires forall j :: 0 <= j < n - 2 ==> AfterTaking(s, n)[j] >= tm
    ensures Parent(n - 2) == 0
  {
    var p, t, u := Parent(n - 2), Exchanged(s, 0, n - 1), AfterTaking(s, n);
    assert s[p] < tm;
    if p != 0 {
      TakingPermutes(s, n);
      assert t[p] == s[p] && u[p] >= tm;
      var q := PlaceAfter(t, u, n - 2, p);
      assert false;
    }
  }

  lemma PlaceAfter(s: seq<int>, t: seq<int>, m: nat, i: nat) returns (j: nat)
    requires i < m <= |s| && RangePermuted(s, t, 0, m)
    ensures j < m && t[j] == s[i]
  {
    assert RangePermuted(t, s, 0, m);
    j := RangeElement(t, s, 0, m, i);
  }

  lemma {:induction false} TwoOrThreeLeft(s: seq<int>, n: nat, tm: int)
    requires n <= |s| && DueParents(s, Front(n), tm) && n > 0 && s[0] < tm
    requires var r := TakeAll(s, n, tm); r.1 > 1 && r.0[r.1 - 1] < tm
    ensures 2 <= TakeAll(s, n, tm).1 <= 3 && TakeAll(s, n, tm).1 < n
    decreases n
  {
    var t := AfterTaking(s, n);
    TakingKeepsDue(s, n, tm);
    if n > 1 {
      if t[0] < tm {
        TwoOrThreeLeft(t, n - 1, tm);
      } else {
        assert TakeAll(s, n, tm) == (t, n - 1);
        OnlyLastIsLeft(t, n - 1, tm);
        TakingPermutes(s, n);
        assert t[n - 2] == s[n - 2];
        LeftUnderRoot(s, n, tm);
      }
    }
  }

  /** A due timer is lost only if at least two of the timers are due and exactly one or two are not. */
  lemma MissesOnlyIf(s: seq<int>, tm: int)
    requires DueParents(s, |s|, tm) && Misses(s, tm)
    ensures 1 <= Waiting(s, tm) <= 2 && Waiting(s, tm) + 2 <= |s|
  {
    MissesIffLastIsDue(s, tm);
    WaitingAreLeft(s, tm);
    if s[0] < tm {
      TwoOrThreeLeft(s, |s|, tm);
    } else {
      NoneDueBelow(s, |s|, tm, |s| - 1);
      assert false;
    }
  }

  /** What the loop leaves. */
  lemma LoopLeaves(s: seq<int>, tm: int)
    requires DueParents(s, Front(|s|), tm)
    ensures var r := TakeAll(s, |s|, tm);
      && (forall j :: 0 <= j < r.1 - 1 ==> r.0[j] >= tm)
      && (DueParents(s, |s|, tm) ==> r.1 == 0 || r.0[r.1 - 1] >= tm || 1 <= Waiting(s, tm) <= 2)
  {
    hide TakeAll, DueParents, Waiting;
    OnlyLastIsLeft(s, |s|, tm);
    var r := TakeAll(s, |s|, tm);
    if r.1 > 0 && r.0[r.1 - 1] < tm && DueParents(s, |s|, tm) {
      MissesOnlyIf(s, tm);
    }
  }

  /** From a whole heap, the timers left form a heap exactly when the last turn was clean, and then none of them is due. */
  lemma HeapSurvivesIff(s: seq<int>, tm: int)
    requires IsHeap(s, |s|)
    ensures var r := TakeAll(s, |s|, tm); IsHeap(r.0, r.1) <==> LastTurnClean(s, |s|, tm)
    ensures LastTurnClean(s, |s|, tm) ==> !Misses(s, tm)
  {
    HeapOf(s, |s|);
    HeapOf(s, Front(|s|));
    OrderSurvivesIff(s, |s|, tm);
    var r := TakeAll(s, |s|, tm);
    hide TakeAll, LastTurnClean, IsHeap;
    if IsHeap(r.0, r.1) {
      forall j | 0 <= j < r.1
        ensures r.0[j] >= tm
      {
        RootIsMinimum(r.0, r.1, j);
      }
    }
  }

  // ----- Such heaps exist for all these numbers -----

  /** The smaller of parent and child is the parent, strictly. */
  ghost predicate StrictHeap(s: seq<int>, n: nat)
    requires n <= |s|
  {
    forall j {:trigger Parent(j)} :: 0 < j < n ==> s[j] > s[Parent(j)]
  }

  /** A strict heap below max, except that s[k] may be too large for its place; its children fit under its parent. */
  ghost predicate StrictExcept(s: seq<int>, max: nat, k: nat)
    requires max <= |s|
  {
    && (forall j {:trigger Parent(j)} :: 0 < j < max && j != k && Parent(j) != k ==> s[j] > s[Parent(j)])
    && (forall j {:trigger Parent(j)} :: 0 < k && 0 < j < max && Parent(j) == k ==> s[j] > s[Parent(k)])
  }

  /** s[k] is carried to the root, past all its ancestors. */
  function Raised(s: seq<int>, k: nat): (t: seq<int>)
    requires k < |s|
    ensures |t| == |s| && t[0] == s[k]
    decreases k
  {
    if k == 0 then s else Raised(Exchanged(s, k, Parent(k)), Parent(k))
  }

  lemma RaiseStep(s: seq<int>, max: nat, k: nat)
    requires 0 < k < max <= |s| && StrictExcept(s, max, k)
    ensures StrictExcept(Exchanged(s, k, Parent(k)), max, Parent(k))
  {
    var p, t := Parent(k), Exchanged(s, k, Parent(k));
    forall j | 0 < j < max
      ensures j != p && Parent(j) != p ==> t[j] > t[Parent(j)]
      ensures 0 < p && Parent(j) == p ==> t[j] > t[Parent(p)]
    {
      assert p > 0 ==> s[p] > s[Parent(p)];
      assert j != k && Parent(j) != k ==> s[j] > s[Parent(j)];
    }
  }

  /** Only the root can be too large in the end, and what is not carried stays between any bounds it has kept to. */
  lemma {:induction false} RaisedFacts(s: seq<int>, max: nat, k: nat, last: nat, low: int, high: int)
    requires k <= last < max <= |s| && StrictExcept(s, max, k)
    requires forall i :: 0 <= i <= last && i != k ==> low < s[i] < high
    ensures var t := Raised(s, k);
      && StrictExcept(t, max, 0)
      && (forall i :: 1 <= i <= last ==> low < t[i] < high)
      && (forall i :: last < i < |s| ==> t[i] == s[i])
    decreases k
  {
    if k > 0 {
      RaiseStep(s, max, k);
      RaisedFacts(Exchanged(s, k, Parent(k)), max, Parent(k), last, low, high);
    }
  }

  /** The sift-down takes an element that was carried to the root back to where it was. */
  lemma {:induction false} SinksBack(s: seq<int>, k: nat, max: nat)
    requires k < max <= |s| && StrictExcept(s, max, k)
    requires forall i :: 0 <= i < max && i != k ==> s[i] < s[k]
    ensures SiftDown(Raised(s, k), 0, max) == SiftDown(s, k, max)
    decreases k
  {
    if k > 0 {
      var p := Parent(k);
      RaiseStep(s, max, k);
      SinkStep(s, k, max);
      hide SiftDown, StrictExcept;
      SinksBack(Exchanged(s, k, p), p, max);
    }
  }

  lemma SinkStep(s: seq<int>, k: nat, max: nat)
    requires 0 < k < max <= |s| && StrictExcept(s, max, k) && s[Parent(k)] < s[k]
    ensures SiftDown(Exchanged(s, k, Parent(k)), Parent(k), max) == SiftDown(s, k, max)
  {
    var p := Parent(k);
    var t := Exchanged(s, k, p);
    var other := if k == 2 * p + 1 then k + 1 else k - 1;
    assert Parent(other) == p;
    assert other < max ==> s[other] > s[p];
    assert Pick(t, p, max) == k;
    assert Exchanged(t, k, p) == s;
  }

  /** n timers are left, the two largest of them last, and what has been taken is earlier than all in front of it. */
  ghost predicate Tall(s: seq<int>, n: nat) {
    && 5 <= n <= |s| && StrictHeap(s, n)
    && (forall j :: 0 <= j < n - 2 ==> s[j] < s[n - 2] && s[j] < s[n - 1])
    && (forall i, j :: 0 <= i < j < |s| && n <= j ==> s[j] < s[i])
  }

  /** The array before the turn that has left n timers. */
  function Untaken(s: seq<int>, n: nat): (t: seq<int>)
    requires 2 <= n < |s|
    ensures |t| == |s|
  {
    Exchanged(Raised(s, n - 2), 0, n)
  }

  lemma UntakenIsTaken(s: seq<int>, n: nat)
    requires Tall(s, n) && n < |s|
    ensures AfterTaking(Untaken(s, n), n + 1) == s && Untaken(s, n)[0] == s[n]
  {
    var k, u := n - 2, Raised(s, n - 2);
    LastButOneIsLeaf(s, n);
    SinksBack(s, k, n - 1);
    RaisedFacts(s, n - 1, k, k, s[n], s[k]);
    assert Exchanged(Untaken(s, n), 0, n) == u;
    assert SiftDown(s, k, n - 1) == s;
  }

  lemma LastButOneIsLeaf(s: seq<int>, n: nat)
    requires Tall(s, n)
    ensures StrictExcept(s, n - 1, n - 2)
  {
  }

  /** What the array before the turn holds. */
  lemma UntakenAt(s: seq<int>, n: nat)
    requires Tall(s, n) && n < |s|
    ensures var t := Untaken(s, n);
      && t[0] == s[n] && t[n - 1] == s[n - 1] && t[n] == s[n - 2]
      && (forall i :: 1 <= i <= n - 2 ==> s[n] < t[i] && t[i] < s[n - 2] && t[i] < s[n - 1])
      && (forall i :: n < i < |s| ==> t[i] == s[i])
  {
    LastButOneIsLeaf(s, n);
    RaisedFacts(s, n - 1, n - 2, n - 2, s[n], s[n - 2]);
    RaisedFacts(s, n - 1, n - 2, n - 2, s[n], s[n - 1]);
  }

  lemma UntakenIsStrict(s: seq<int>, n: nat)
    requires Tall(s, n) && n < |s|
    ensures StrictHeap(Untaken(s, n), n + 1)
  {
    var u, t := Raised(s, n - 2), Untaken(s, n);
    LastButOneIsLeaf(s, n);
    RaisedFacts(s, n - 1, n - 2, n - 2, s[n], s[n - 2]);
    UntakenAt(s, n);
    hide Tall, Raised;
    forall j | 0 < j < n + 1
      ensures t[j] > t[Parent(j)]
    {
      if j <= n - 2 && Parent(j) != 0 {
        assert t[j] == u[j] && t[Parent(j)] == u[Parent(j)];
      }
    }
  }

  lemma UntakenIsTall(s: seq<int>, n: nat)
    requires Tall(s, n) && n < |s|
    ensures Tall(Untaken(s, n), n + 1)
  {
    UntakenAt(s, n);
    UntakenIsStrict(s, n);
    hide Untaken, StrictHeap;
  }

  /** From a tall array, earlier and earlier timers can be put back until the whole array is a heap. */
  lemma {:induction false} PutAllBack(s: seq<int>, n: nat, tm: int) returns (t: seq<int>)
    requires Tall(s, n) && (n < |s| ==> s[n] < tm)
    ensures |t| == |s| && IsHeap(t, |t|) && TakeAll(t, |t|, tm) == TakeAll(s, n, tm)
    decreases |s| - n
  {
    if n == |s| {
      t := s;
      HeapOf(s, n);
    } else {
      UntakenIsTaken(s, n);
      UntakenIsTall(s, n);
      t := PutAllBack(Untaken(s, n), n + 1, tm);
    }
  }

  /** A heap of n timers of which w are not due, and the loop leaves a due one. */
  ghost predicate MissesOf(s: seq<int>, tm: int, n: nat, w: nat) {
    |s| == n && IsHeap(s, n) && Waiting(s, tm) == w && Misses(s, tm)
  }

  /** front, and behind it n - |front| ever earlier timers. */
  function Fronted(front: seq<int>, n: nat): (s: seq<int>)
    requires |front| <= n
    ensures |s| == n && s[..|front|] == front && forall j :: |front| <= j < n ==> s[j] == -j
  {
    front + seq(n - |front|, i => -(i + |front|))
  }

  /** Five timers of which only the one due at 4 is not due at time 4: the one due at 3 is missed. */
  lemma OneWaiting(s: seq<int>)
    requires |s| >= 5 && s[..5] == [0, 2, 1, 3, 4]
    ensures var r := TakeAll(s, 5, 4); r.1 == 2 && r.0[1] == 3
  {
    assert s[0] == s[..5][0] && s[1] == s[..5][1] && s[2] == s[..5][2] && s[3] == s[..5][3] && s[4] == s[..5][4];
    var a := AfterTaking(s, 5);
    assert a[..4] == [1, 2, 4, 3];
    OneWaitingOfFour(a);
  }

  lemma OneWaitingOfFour(s: seq<int>)
    requires |s| >= 4 && s[..4] == [1, 2, 4, 3]
    ensures var r := TakeAll(s, 4, 4); r.1 == 2 && r.0[1] == 3
  {
    assert s[0] == s[..4][0] && s[1] == s[..4][1] && s[2] == s[..4][2] && s[3] == s[..4][3];
    var a := AfterTaking(s, 4);
    assert a[..3] == [2, 3, 4];
    OneWaitingOfThree(a);
  }

  lemma OneWaitingOfThree(s: seq<int>)
    requires |s| >= 3 && s[..3] == [2, 3, 4]
    ensures var r := TakeAll(s, 3, 4); r.1 == 2 && r.0[1] == 3
  {
    assert s[0] == s[..3][0] && s[1] == s[..3][1] && s[2] == s[..3][2];
    var a := AfterTaking(s, 3);
    assert a[0] == 4 && a[1] == 3;
    assert TakeAll(a, 2, 4) == (a, 2);
  }

  /** Two are not due at time 3, and the one due at 2 is missed. */
  lemma TwoWaiting(s: seq<int>)
    requires |s| >= 5 && s[..5] == [0, 1, 2, 4, 3]
    ensures var r := TakeAll(s, 5, 3); r.1 == 3 && r.0[2] == 2
  {
    assert s[0] == s[..5][0] && s[1] == s[..5][1] && s[2] == s[..5][2] && s[3] == s[..5][3] && s[4] == s[..5][4];
    var a := AfterTaking(s, 5);
    assert a[..4] == [1, 3, 2, 4];
    TwoWaitingOfFour(a);
  }

  lemma TwoWaitingOfFour(s: seq<int>)
    requires |s| >= 4 && s[..4] == [1, 3, 2, 4]
    ensures var r := TakeAll(s, 4, 3); r.1 == 3 && r.0[2] == 2
  {
    assert s[0] == s[..4][0] && s[1] == s[..4][1] && s[2] == s[..4][2] && s[3] == s[..4][3];
    var a := AfterTaking(s, 4);
    assert a[0] == 3 && a[2] == 2;
    assert TakeAll(a, 3, 3) == (a, 3);
  }

  lemma FrontedIsTall(front: seq<int>, n: nat)
    requires n >= 5 && (front == [0, 2, 1, 3, 4] || front == [0, 1, 2, 4, 3])
    ensures Tall(Fronted(front, n), 5)
  {
    var s := Fronted(front, n);
    forall i | 0 <= i < 5
      ensures s[i] == front[i] >= 0
    {
      assert s[..5][i] == front[i];
    }
  }

  lemma MissingHeap(n: nat, w: nat) returns (s: seq<int>, tm: int)
    requires 1 <= w <= 2 && w + 2 <= n
    ensures MissesOf(s, tm, n, w)
  {
    tm := 5 - w;
    if n >= 5 {
      var front := if w == 1 then [0, 2, 1, 3, 4] else [0, 1, 2, 4, 3];
      var t := Fronted(front, n);
      FrontedIsTall(front, n);
      s := PutAllBack(t, 5, tm);
      if w == 1 {
        OneWaiting(t);
      } else {
        TwoWaiting(t);
      }
    } else if n == 4 {
      s := if w == 1 then [1, 2, 4, 3] else [1, 3, 2, 4];
      HeapOf(s, n);
      assert s[..4] == s;
      if w == 1 {
        OneWaitingOfFour(s);
      } else {
        TwoWaitingOfFour(s);
      }
    } else {
      s := [2, 3, 4];
      HeapOf(s, n);
      assert s[..3] == s;
      OneWaitingOfThree(s);
    }
    HeapHasDueParents(s, n, tm);
    WaitingAreLeft(s, tm);
  }

  /**
   * Some heap of n timers, w of them not due, loses a due timer exactly when w is 1 or 2 and at least two are due.
   * For all other numbers the loop takes exactly the due timers, whatever the heap.
   */
  lemma MissesIff(n: nat, w: nat)
    ensures (exists s, tm :: MissesOf(s, tm, n, w)) <==> 1 <= w <= 2 && w + 2 <= n
  {
    if 1 <= w <= 2 && w + 2 <= n {
      var s, tm := MissingHeap(n, w);
    }
    forall s, tm | MissesOf(s, tm, n, w)
      ensures 1 <= w <= 2 && w + 2 <= n
    {
      HeapHasDueParents(s, n, tm);
      MissesOnlyIf(s, tm);
    }
  }

  /** Due times 1, 2 and 5: at time 3 the loop takes the first timer and stops at the one due at 5, with one due at 2 left. */
  lemma DueTimerIsMissed()
    ensures IsHeap([1, 2, 5], 3) && TakeAll([1, 2, 5], 3, 3) == ([5, 2, 1], 2) && Misses([1, 2, 5], 3)
  {
    RemovalBreaksHeap();
    assert AfterTaking([1, 2, 5], 3) == [5, 2, 1];
    assert TakeAll([5, 2, 1], 2, 3) == ([5, 2, 1], 2);
    assert ([5, 2, 1], 2).0[1] == 2;
  }

  // ----- The loop as it had to be -----

  /** A turn whose sift-down goes over all the timers left. */
  function AfterTakingWell(s: seq<int>, n: nat): (t: seq<int>)
    requires 0 < n <= |s|
    ensures |t| == |s|
  {
    SiftDown(Exchanged(s, 0, n - 1), 0, n - 1)
  }

  function TakeAllWell(s: seq<int>, n: nat, tm: int): (r: (seq<int>, nat))
    requires n <= |s|
    ensures |r.0| == |s| && r.1 <= n
    decreases n
  {
    if n > 0 && s[0] < tm then TakeAllWell(AfterTakingWell(s, n), n - 1, tm) else (s, n)
  }

  lemma TurnKeepsHeap(s: seq<int>, n: nat)
    requires 0 < n <= |s| && IsHeap(s, n)
    ensures IsHeap(AfterTakingWell(s, n), n - 1)
  {
    HeapOf(s, n);
    HeapOf(s, n - 1);
    if n == 1 {
      HeapOf(AfterTakingWell(s, n), 0);
    } else {
      MovedToRoot(s, n - 1);
      SiftRestores(Exchanged(s, 0, n - 1), 0, n - 1);
    }
  }

  lemma TurnPermutes(s: seq<int>, n: nat)
    requires 0 < n <= |s|
    ensures RangePermuted(s, AfterTakingWell(s, n), 0, n) && AfterTakingWell(s, n)[n - 1] == s[0]
  {
    hide SiftDown;
    SiftDownPermutes(Exchanged(s, 0, n - 1), 0, n - 1);
    ExchangedPermutes(s, 0, n - 1, 0, n);
  }

  lemma TurnRepaired(s: seq<int>, n: nat)
    requires 0 < n <= |s| && IsHeap(s, n)
    ensures var t := AfterTakingWell(s, n);
      && IsHeap(t, n - 1) && RangePermuted(s, t, 0, n) && t[n - 1] == s[0]
      && forall j :: 0 <= j < n - 1 ==> s[0] <= t[j]
  {
    hide *;
    var t := AfterTakingWell(s, n);
    TurnKeepsHeap(s, n);
    TurnPermutes(s, n);
    forall j | 0 <= j < n - 1
      ensures s[0] <= t[j]
    {
      var k := RangeElement(s, t, 0, n, j);
      RootIsMinimum(s, n, k);
    }
  }

  /**
   * With the sift-down over all timers left, the loop takes exactly the due timers of every heap, in the order in
   * which they are due, and leaves a heap.
   */
  lemma {:induction false} RepairedLoopTakesAll(s: seq<int>, n: nat, tm: int)
    requires n <= |s| && IsHeap(s, n)
    ensures var r := TakeAllWell(s, n, tm);
      && RangePermuted(s, r.0, 0, n) && IsHeap(r.0, r.1)
      && (forall j :: 0 <= j < r.1 ==> r.0[j] >= tm && r.0[j] >= r.0[0])
      && (forall j :: r.1 <= j < n ==> r.0[j] < tm)
      && (forall i, j :: r.1 <= i < j < n ==> r.0[i] >= r.0[j])
    decreases n
  {
    if n > 0 && s[0] < tm {
      var t := AfterTakingWell(s, n);
      TurnRepaired(s, n);
      RepairedLoopTakesAll(t, n - 1, tm);
      var r := TakeAllWell(s, n, tm);
      assert r.0[n - 1] == t[n - 1];
      forall i | r.1 <= i < n - 1
        ensures r.0[i] >= r.0[n - 1]
      {
        var k := RangeElement(t, r.0, 0, n - 1, i);
      }
    } else {
      forall j | 0 <= j < n
        ensures s[j] >= s[0]
      {
        RootIsMinimum(s, n, j);
      }
    }
  }
}
