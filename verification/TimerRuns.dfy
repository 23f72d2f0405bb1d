/**
 * Runs of additions, deletions and expirations on the due times of the timer heap: when the heap order is never lost,
 * what is missed where it has been lost, and that the repaired sifts never lose it.
 */
module TimerRuns {
  import opened SortOrder
  import opened HeapSort
  import opened TimerHeaps
  import opened DueTimers

  /** A deletion names the position; arming a timer again is an addition. */
  datatype Op = ADD(time: int) | DELETE(at: nat) | EXPIRE(tm: int)

  function Step(s: seq<int>, op: Op): seq<int> {
    match op
    case ADD(time) => AfterAdding(s, time)
    case DELETE(at) => if at < |s| then AfterDeleting(s, at) else s
    case EXPIRE(tm) => LeftTimes(s, tm)
  }

  function Run(s: seq<int>, ops: seq<Op>): seq<int>
    decreases |ops|
  {
    if ops == [] then s else Run(Step(s, ops[0]), ops[1..])
  }

  /** The deletion is safe, or the last turn of the expiration is clean. */
  predicate Clean(s: seq<int>, op: Op) {
    match op
    case ADD(time) => true
    case DELETE(at) => at < |s| ==> DeletionSafe(s, at)
    case EXPIRE(tm) => LastTurnClean(s, |s|, tm)
  }

  predicate CleanAlong(s: seq<int>, ops: seq<Op>)
    decreases |ops|
  {
    ops == [] || (Clean(s, ops[0]) && CleanAlong(Step(s, ops[0]), ops[1..]))
  }

  /** Every state of the run is a heap. */
  ghost predicate HeapsAlong(s: seq<int>, ops: seq<Op>)
    decreases |ops|
  {
    IsHeap(s, |s|) && (ops == [] || HeapsAlong(Step(s, ops[0]), ops[1..]))
  }

  /** No expiration of the run leaves a due timer. */
  ghost predicate NothingMissedAlong(s: seq<int>, ops: seq<Op>)
    decreases |ops|
  {
    ops == [] || ((ops[0].EXPIRE? ==> !Misses(s, ops[0].tm)) && NothingMissedAlong(Step(s, ops[0]), ops[1..]))
  }

  /** One operation on a heap leaves a heap exactly when it is clean. */
  lemma StepKeepsHeapIff(s: seq<int>, op: Op)
    requires IsHeap(s, |s|)
    ensures IsHeap(Step(s, op), |Step(s, op)|) <==> Clean(s, op)
  {
    match op
    case ADD(time) => AddingKeepsHeap(s, time);
    case DELETE(at) =>
      if at < |s| {
        DeletionKeepsHeapIff(s, at);
      }
    case EXPIRE(tm) =>
      HeapSurvivesIff(s, tm);
      LeftIsHeapIff(s, tm);
  }

  lemma LeftIsHeapIff(s: seq<int>, tm: int)
    ensures var r := TakeAll(s, |s|, tm); IsHeap(LeftTimes(s, tm), r.1) <==> IsHeap(r.0, r.1)
  {
    hide TakeAll;
    var r := TakeAll(s, |s|, tm);
    HeapOf(r.0, r.1);
    HeapOf(r.0[..r.1], r.1);
  }

  /** From a heap, every state of a run is a heap exactly when every operation of the run is clean. */
  lemma {:induction false} RunsIff(s: seq<int>, ops: seq<Op>)
    requires IsHeap(s, |s|)
    ensures HeapsAlong(s, ops) <==> CleanAlong(s, ops)
    decreases |ops|
  {
    if ops != [] {
      hide Step, Clean, IsHeap;
      StepKeepsHeapIff(s, ops[0]);
      var t := Step(s, ops[0]);
      if IsHeap(t, |t|) {
        RunsIff(t, ops[1..]);
      } else {
        NoHeapsAlong(t, ops[1..]);
      }
    }
  }

  lemma NoHeapsAlong(s: seq<int>, ops: seq<Op>)
    ensures HeapsAlong(s, ops) ==> IsHeap(s, |s|)
  {
  }

  lemma RunsFromEmptyIff(ops: seq<Op>)
    ensures HeapsAlong([], ops) <==> CleanAlong([], ops)
  {
    HeapOf([], 0);
    RunsIff([], ops);
  }

  /** In such a run every expiration takes all the due timers. */
  lemma {:induction false} CleanRunsMissNothing(s: seq<int>, ops: seq<Op>)
    requires IsHeap(s, |s|) && CleanAlong(s, ops)
    ensures NothingMissedAlong(s, ops)
    decreases |ops|
  {
    if ops != [] {
      hide Step, IsHeap;
      StepKeepsHeapIff(s, ops[0]);
      if ops[0].EXPIRE? {
        HeapSurvivesIff(s, ops[0].tm);
      }
      CleanRunsMissNothing(Step(s, ops[0]), ops[1..]);
    }
  }

  // ----- Repaired runs -----

  function StepWell(s: seq<int>, op: Op): seq<int> {
    match op
    case ADD(time) => AfterAdding(s, time)
    case DELETE(at) => if at < |s| then AfterRepairedDeleting(s, at) else s
    case EXPIRE(tm) => TakeAllWell(s, |s|, tm).0[..TakeAllWell(s, |s|, tm).1]
  }

  /** The repaired loop leaves no due timer and takes no other. */
  ghost predicate TakesExactlyDue(s: seq<int>, tm: int) {
    var r := TakeAllWell(s, |s|, tm);
    && multiset(r.0) == multiset(s)
    && (forall j :: 0 <= j < r.1 ==> r.0[j] >= tm)
    && (forall j :: r.1 <= j < |s| ==> r.0[j] < tm)
  }

  /** Every state of the run is a heap, and every expiration takes exactly the due timers. */
  ghost predicate WellAlong(s: seq<int>, ops: seq<Op>)
    decreases |ops|
  {
    && IsHeap(s, |s|)
    && (ops == [] || ((ops[0].EXPIRE? ==> TakesExactlyDue(s, ops[0].tm)) && WellAlong(StepWell(s, ops[0]), ops[1..])))
  }

  lemma StepWellKeepsHeap(s: seq<int>, op: Op)
    requires IsHeap(s, |s|)
    ensures IsHeap(StepWell(s, op), |StepWell(s, op)|) && (op.EXPIRE? ==> TakesExactlyDue(s, op.tm))
  {
    match op
    case ADD(time) => AddingKeepsHeap(s, time);
    case DELETE(at) =>
      if at < |s| {
        RepairedDeletionKeepsHeap(s, at);
      }
    case EXPIRE(tm) =>
      hide TakeAllWell;
      var r := TakeAllWell(s, |s|, tm);
      RepairedLoopTakesAll(s, |s|, tm);
      HeapOf(r.0, r.1);
      HeapOf(r.0[..r.1], r.1);
  }

  /** With the repaired sifts every run of every heap keeps the order and takes exactly the due timers. */
  lemma {:induction false} RepairedRuns(s: seq<int>, ops: seq<Op>)
    requires IsHeap(s, |s|)
    ensures WellAlong(s, ops)
    decreases |ops|
  {
    if ops != [] {
      hide StepWell, IsHeap, TakesExactlyDue;
      StepWellKeepsHeap(s, ops[0]);
      RepairedRuns(StepWell(s, ops[0]), ops[1..]);
    }
  }

  lemma RepairedRunsFromEmpty(ops: seq<Op>)
    ensures WellAlong([], ops)
  {
    HeapOf([], 0);
    RepairedRuns([], ops);
  }

  // ----- Runs put together -----

  lemma {:induction false} RunSplit(s: seq<int>, a: seq<Op>, b: seq<Op>)
    ensures Run(s, a + b) == Run(Run(s, a), b)
    decreases |a|
  {
    if a == [] {
      assert a + b == b;
    } else {
      assert (a + b)[0] == a[0] && (a + b)[1..] == a[1..] + b;
      RunSplit(Step(s, a[0]), a[1..], b);
    }
  }

  lemma RunOne(s: seq<int>, op: Op)
    ensures Run(s, [op]) == Step(s, op)
  {
    assert [op][1..] == [];
  }

  lemma RunSnoc(s: seq<int>, ops: seq<Op>, op: Op)
    ensures Run(s, ops + [op]) == Step(Run(s, ops), op)
  {
    RunSplit(s, ops, [op]);
    RunOne(Run(s, ops), op);
  }

  function Adds(times: seq<int>): (ops: seq<Op>)
    ensures |ops| == |times|
  {
    seq(|times|, i requires 0 <= i < |times| => ADD(times[i]))
  }

  /** A heap whose times are added in the order of its array comes out as it is. */
  lemma {:induction false} HeapIsReached(h: seq<int>)
    requires IsHeap(h, |h|)
    ensures Run([], Adds(h)) == h
  {
    if h != [] {
      var n := |h| - 1;
      HeapOf(h, |h|);
      HeapOf(h[..n], n);
      HeapIsReached(h[..n]);
      assert Adds(h) == Adds(h[..n]) + [ADD(h[n])];
      RunSnoc([], Adds(h[..n]), ADD(h[n]));
      assert h[..n] + [h[n]] == h;
      StaysUp(h, |h|, n);
    }
  }

  // ----- A run that misses two -----

  /** Two deletions break the order; then the loop stops at the timer due at 10, with two due at 9 left. */
  lemma TwoAreMissed()
    ensures var ops := Adds([1, 19, 9, 9, 5, 10]) + [DELETE(1), ADD(12), ADD(2), DELETE(3), ADD(13)];
      var s := [1, 10, 2, 9, 9, 12, 13];
      Run([], ops) == s && TakeAll(s, 7, 10) == ([10, 9, 13, 12, 9, 2, 1], 5) && Waiting(s, 10) == 3
  {
    var first := Adds([1, 19, 9, 9, 5, 10]);
    var rest := [DELETE(1), ADD(12), ADD(2), DELETE(3), ADD(13)];
    SixAdded();
    RunSplit([], first, rest);
    FiveMore();
    TwoTaken();
    ThreeWaiting();
  }

  lemma SixAdded()
    ensures Run([], Adds([1, 19, 9, 9, 5, 10])) == [1, 5, 9, 19, 9, 10]
  {
    var ops := Adds([1, 19, 9, 9, 5, 10]);
    var a, b, c, d, e, f := ADD(1), ADD(19), ADD(9), ADD(9), ADD(5), ADD(10);
    assert ops == [] + [a] + [b] + [c] + [d] + [e] + [f];
    RunSnoc([], [], a);
    RunSnoc([], [] + [a], b);
    RunSnoc([], [] + [a] + [b], c);
    RunSnoc([], [] + [a] + [b] + [c], d);
    RunSnoc([], [] + [a] + [b] + [c] + [d], e);
    RunSnoc([], [] + [a] + [b] + [c] + [d] + [e], f);
    AddedSoFar();
  }

  lemma AddedSoFar()
    ensures AfterAdding([], 1) == [1] && AfterAdding([1], 19) == [1, 19] && AfterAdding([1, 19], 9) == [1, 19, 9]
    ensures AfterAdding([1, 19, 9], 9) == [1, 9, 9, 19] && AfterAdding([1, 9, 9, 19], 5) == [1, 5, 9, 19, 9]
    ensures AfterAdding([1, 5, 9, 19, 9], 10) == [1, 5, 9, 19, 9, 10]
  {
    assert [1, 19, 9] + [9] == [1, 19, 9, 9] && Exchanged([1, 19, 9, 9], 3, 1) == [1, 9, 9, 19];
    assert [1, 9, 9, 19] + [5] == [1, 9, 9, 19, 5] && Exchanged([1, 9, 9, 19, 5], 4, 1) == [1, 5, 9, 19, 9];
  }

  lemma RunCons(s: seq<int>, op: Op, ops: seq<Op>)
    ensures Run(s, [op] + ops) == Run(Step(s, op), ops)
  {
    assert ([op] + ops)[0] == op && ([op] + ops)[1..] == ops;
  }

  lemma FiveMore()
    ensures Run([1, 5, 9, 19, 9, 10], [DELETE(1), ADD(12), ADD(2), DELETE(3), ADD(13)]) == [1, 10, 2, 9, 9, 12, 13]
  {
    var s := [1, 5, 9, 19, 9, 10];
    assert [DELETE(1), ADD(12), ADD(2), DELETE(3), ADD(13)]
        == [DELETE(1)] + ([ADD(12)] + ([ADD(2)] + ([DELETE(3)] + ([ADD(13)] + []))));
    hide Run, Step;
    RunCons(s, DELETE(1), [ADD(12)] + ([ADD(2)] + ([DELETE(3)] + ([ADD(13)] + []))));
    FirstDeletion();
    RunCons([1, 10, 9, 19, 9], ADD(12), [ADD(2)] + ([DELETE(3)] + ([ADD(13)] + [])));
    RunCons([1, 10, 9, 19, 9, 12], ADD(2), [DELETE(3)] + ([ADD(13)] + []));
    TwoMoreAdded();
    RunCons([1, 10, 2, 19, 9, 12, 9], DELETE(3), [ADD(13)] + []);
    SecondDeletion();
    RunCons([1, 10, 2, 9, 9, 12], ADD(13), []);
    RunNone([1, 10, 2, 9, 9, 12, 13]);
  }

  lemma RunNone(s: seq<int>)
    ensures Run(s, []) == s
  {
  }

  lemma FirstDeletion()
    ensures Step([1, 5, 9, 19, 9, 10], DELETE(1)) == [1, 10, 9, 19, 9]
  {
    assert Exchanged([1, 5, 9, 19, 9, 10], 1, 5) == [1, 10, 9, 19, 9, 5];
    assert SiftDown([1, 10, 9, 19, 9, 5], 1, 4) == [1, 10, 9, 19, 9, 5];
  }

  lemma TwoMoreAdded()
    ensures Step([1, 10, 9, 19, 9], ADD(12)) == [1, 10, 9, 19, 9, 12]
    ensures Step([1, 10, 9, 19, 9, 12], ADD(2)) == [1, 10, 2, 19, 9, 12, 9]
  {
    assert [1, 10, 9, 19, 9, 12] + [2] == [1, 10, 9, 19, 9, 12, 2];
    assert Exchanged([1, 10, 9, 19, 9, 12, 2], 6, 2) == [1, 10, 2, 19, 9, 12, 9];
    assert SiftUp([1, 10, 2, 19, 9, 12, 9], 2) == [1, 10, 2, 19, 9, 12, 9];
  }

  lemma SecondDeletion()
    ensures Step([1, 10, 2, 19, 9, 12, 9], DELETE(3)) == [1, 10, 2, 9, 9, 12]
    ensures Step([1, 10, 2, 9, 9, 12], ADD(13)) == [1, 10, 2, 9, 9, 12, 13]
  {
    assert Exchanged([1, 10, 2, 19, 9, 12, 9], 3, 6) == [1, 10, 2, 9, 9, 12, 19];
    assert SiftDown([1, 10, 2, 9, 9, 12, 19], 3, 5) == [1, 10, 2, 9, 9, 12, 19];
  }

  lemma TwoTaken()
    ensures TakeAll([1, 10, 2, 9, 9, 12, 13], 7, 10) == ([10, 9, 13, 12, 9, 2, 1], 5)
  {
    FirstTurn();
    SecondTurn();
    assert TakeAll([10, 9, 13, 12, 9, 2, 1], 5, 10) == ([10, 9, 13, 12, 9, 2, 1], 5);
  }

  lemma FirstTurn()
    ensures AfterTaking([1, 10, 2, 9, 9, 12, 13], 7) == [2, 10, 13, 9, 9, 12, 1]
  {
    assert Exchanged([1, 10, 2, 9, 9, 12, 13], 0, 6) == [13, 10, 2, 9, 9, 12, 1];
    assert Exchanged([13, 10, 2, 9, 9, 12, 1], 2, 0) == [2, 10, 13, 9, 9, 12, 1];
    assert SiftDown([2, 10, 13, 9, 9, 12, 1], 2, 5) == [2, 10, 13, 9, 9, 12, 1];
  }

  lemma SecondTurn()
    ensures AfterTaking([2, 10, 13, 9, 9, 12, 1], 6) == [10, 9, 13, 12, 9, 2, 1]
  {
    assert Exchanged([2, 10, 13, 9, 9, 12, 1], 0, 5) == [12, 10, 13, 9, 9, 2, 1];
    assert Exchanged([12, 10, 13, 9, 9, 2, 1], 1, 0) == [10, 12, 13, 9, 9, 2, 1];
    assert Exchanged([10, 12, 13, 9, 9, 2, 1], 3, 1) == [10, 9, 13, 12, 9, 2, 1];
    assert SiftDown([10, 9, 13, 12, 9, 2, 1], 3, 4) == [10, 9, 13, 12, 9, 2, 1];
  }

  lemma ThreeWaiting()
    ensures Waiting([1, 10, 2, 9, 9, 12, 13], 10) == 3
  {
    assert [1, 10, 2, 9, 9, 12, 13][..6] == [1, 10, 2, 9, 9, 12] && [1, 10, 2, 9, 9, 12][..5] == [1, 10, 2, 9, 9];
    assert [1, 10, 2, 9, 9][..4] == [1, 10, 2, 9] && [1, 10, 2, 9][..3] == [1, 10, 2] && [1, 10, 2][..2] == [1, 10];
    assert [1, 10][..1] == [1] && [1][..0] == [];
  }
}
