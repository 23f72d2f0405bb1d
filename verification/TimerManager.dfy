/** Timers, the heap that orders them, and the manager that gives them indices and lets them fire. */
module TimerManagers {
  import opened Options
  import opened SortOrder
  import opened HeapSort
  import opened TimerHeaps
  import opened DueTimers
  import opened TimerRuns

  datatype Kind = ONE_SHOT | UNLIMIT | LIMITED

  class Timer {
    var expireTime: int
    var intervalTime: int
    var kind: Kind
    var lastTimes: int
    var index: int
    /** How often the callback has been run by expire_all, and how often in all it is to be run. */
    ghost var fired: int
    ghost var granted: int

    /** A limited timer has been created for as many rounds as it has fired and is still to fire. */
    ghost predicate Counted()
      reads this
    {
      kind != UNLIMIT ==> lastTimes >= 1 && fired + lastTimes == granted
    }

    /** A count n > 0 stands for just n more rounds, 0 for an unlimited number, and a negative one for a single round. */
    ghost predicate RoundsAhead(count: int)
      reads this
    {
      && (kind == UNLIMIT <==> count == 0) && (kind == LIMITED <==> count > 1)
      && (count > 0 ==> granted - fired == count)
      && (count < 0 ==> granted - fired == 1)
    }

    constructor (expire: int, interval: int, count: int)
      ensures expireTime == expire && intervalTime == interval && Counted() && fired == 0
      ensures RoundsAhead(count)
    {
      expireTime, intervalTime, lastTimes, index := expire, interval, count, 0;
      fired := 0;
      if count == 0 {
        kind, granted := UNLIMIT, 0;
      } else if count > 1 {
        kind, granted := LIMITED, count;
      } else {
        lastTimes := 1;
        kind, granted := ONE_SHOT, 1;
      }
    }

    /** The callback. */
    method Action()
      modifies this`fired
      ensures fired == old(fired) + 1
    {
      fired := fired + 1;
    }

    /** What is left of the timer's life is set anew; the constant -1, meant as unlimited, gives one round. */
    method SetLastTimes(count: int)
      requires Counted()
      modifies this`kind, this`lastTimes, this`granted
      ensures Counted()
      ensures RoundsAhead(count)
    {
      if count == 0 {
        kind := UNLIMIT;
      } else if count > 1 {
        lastTimes, kind, granted := count, LIMITED, fired + count;
      } else {
        lastTimes, kind, granted := 1, ONE_SHOT, fired + 1;
      }
    }

    method Rearm(absolute: bool, tv: int, count: int, now: int)
      requires Counted()
      modifies this`expireTime, this`intervalTime, this`kind, this`lastTimes, this`granted
      ensures Counted() && expireTime == tv + (if absolute then 0 else now)
      ensures !absolute ==> intervalTime == tv && RoundsAhead(count)
      ensures absolute ==> intervalTime == old(intervalTime) && kind == old(kind) && lastTimes == old(lastTimes) && granted == old(granted)
    {
      if absolute {
        expireTime := tv;
      } else {
        expireTime := now + tv;
        intervalTime := tv;
        SetLastTimes(count);
      }
    }

    /** A further round follows the coming one. */
    ghost predicate Goes()
      reads this
    {
      kind == UNLIMIT || lastTimes > 1
    }

    /** Whether the timer is to be armed again, after the callback has run. */
    method ContinueTimer(now: int) returns (ret: bool)
      modifies this
      ensures kind == old(kind) && index == old(index) && fired == old(fired) && granted == old(granted)
      ensures intervalTime == old(intervalTime)
      ensures ret <==> kind == UNLIMIT || old(lastTimes) > 1
      ensures lastTimes == if kind == UNLIMIT then old(lastTimes) else old(lastTimes) - 1
      ensures expireTime == if ret then now + intervalTime else old(expireTime)
    {
      ret := false;
      if kind == UNLIMIT {
        ret := true;
      } else {
        lastTimes := lastTimes - 1;
        ret := lastTimes > 0;
      }
      if ret {
        expireTime := now + intervalTime;
      }
    }

    /** The callback runs, and then it is decided whether the timer goes on. */
    method Fire(now: int) returns (again: bool)
      requires Counted()
      modifies this
      ensures FiredAs(this, old(PlanOf(this)), now) && again == old(PlanOf(this)).goes && index == old(PlanOf(this)).index
      ensures again ==> Counted() && expireTime == now + old(PlanOf(this)).interval
    {
      Action();
      again := ContinueTimer(now);
    }
  }

  datatype Expiry = ASSERTION_FAILED | DONE(code: int)

  /** The expiry times along the heap's array. */
  ghost function Times(root: seq<Timer>): (s: seq<int>)
    reads root
    ensures |s| == |root|
  {
    seq(|root|, i requires 0 <= i < |root| reads root => root[i].expireTime)
  }

  function Swapped(root: seq<Timer>, i: nat, j: nat): (r: seq<Timer>)
    requires i < |root| && j < |root|
    ensures |r| == |root|
  {
    root[i := root[j]][j := root[i]]
  }

  lemma SwappedFacts(root: seq<Timer>, i: nat, j: nat)
    requires i < |root| && j < |root|
    ensures Times(Swapped(root, i, j)) == Exchanged(Times(root), i, j)
    ensures multiset(Swapped(root, i, j)) == multiset(root)
  {
  }

  lemma SwappedTail(root: seq<Timer>, i: nat, j: nat, n: nat)
    requires i < n <= |root| && j < n
    ensures Swapped(root, i, j)[n..] == root[n..]
  {
  }

  lemma LiftUnfolds(root: seq<Timer>, i: nat)
    requires 0 < i < |root|
    ensures var p, more := Parent(i), Swapped(root, i, Parent(i));
      && p < i && |more| == |root| && multiset(more) == multiset(root)
      && SiftUp(Times(root), i) == if root[p].expireTime > root[i].expireTime then SiftUp(Times(more), p) else Times(root)
  {
    SwappedFacts(root, i, Parent(i));
    hide Exchanged, Swapped;
  }

  lemma LiftStops(root: seq<Timer>)
    requires root != []
    ensures SiftUp(Times(root), 0) == Times(root)
  {
  }

  lemma SameTimes(root: seq<Timer>, s: seq<int>)
    requires |s| == |root| && forall i :: 0 <= i < |s| ==> root[i].expireTime == s[i]
    ensures Times(root) == s
  {
  }

  lemma TimesAt(root: seq<Timer>, i: nat)
    requires i < |root|
    ensures Times(root)[i] == root[i].expireTime
  {
  }

  lemma SinkUnfolds(root: seq<Timer>, k: nat, i: nat, max: nat, n: nat)
    requires 2 * k + 1 < max <= n <= |root| && i < max && i == Pick(Times(root), k, max)
    ensures var more := Swapped(root, i, k);
      && |more| == |root| && multiset(more) == multiset(root) && more[n..] == root[n..]
      && SiftDown(Times(root), k, max) ==
        if root[i].expireTime < root[k].expireTime then SiftDown(Times(more), i, max) else Times(root)
  {
    SwappedFacts(root, i, k);
    SwappedTail(root, i, k, n);
    hide Exchanged, Swapped, Pick;
    TimesAt(root, i);
    TimesAt(root, k);
  }

  lemma SinkStops(s: seq<int>, k: nat, max: nat)
    requires max <= |s| && 2 * k + 1 >= max
    ensures SiftDown(s, k, max) == s
  {
  }

  lemma FrontIs(n: nat)
    ensures Front(n) == if n > 0 then n - 1 else 0
  {
  }

  ghost predicate AllDue(list: seq<Timer>, tm: int)
    reads list
  {
    forall t :: t in list ==> t.expireTime < tm
  }

  lemma OneMoreDue(t: Timer, list: seq<Timer>, tm: int)
    requires t.expireTime < tm && AllDue(list, tm)
    ensures AllDue([t] + list, tm)
  {
  }

  lemma NoneDue(list: seq<Timer>, tm: int)
    requires list == []
    ensures AllDue(list, tm)
  {
  }

  lemma TakeAllUnfolds(s: seq<int>, n: nat, tm: int)
    requires n <= |s|
    ensures TakeAll(s, n, tm) == if n > 0 && s[0] < tm then TakeAll(AfterTaking(s, n), n - 1, tm) else (s, n)
  {
  }

  lemma Deleted(s: seq<int>, at: nat, root: seq<Timer>)
    requires at < |s| == |root|
    requires Times(root) == SiftDown(Exchanged(s, at, |s| - 1), at, Front(|s| - 1))
    ensures Times(root[..|s| - 1]) == AfterDeleting(s, at)
  {
    hide SiftDown, Exchanged;
  }

  lemma AllDueIfHeap(root: seq<Timer>, tm: int)
    requires root != [] ==> root[0].expireTime >= tm
    ensures IsHeap(Times(root), |root|) ==> NoneIsDue(root, tm)
  {
    if IsHeap(Times(root), |root|) {
      forall t | t in root
        ensures t.expireTime >= tm
      {
        var j :| 0 <= j < |root| && root[j] == t;
        RootIsMinimum(Times(root), |root|, j);
      }
    }
  }

  /** None of the timers is due at tm. */
  ghost predicate NoneIsDue(root: seq<Timer>, tm: int)
    reads root
  {
    forall t :: t in root ==> t.expireTime >= tm
  }

  /** The loop has run on the due times s, has left root and has taken list. */
  ghost predicate TakenFrom(s: seq<int>, root: seq<Timer>, list: seq<Timer>, tm: int)
    reads root, list
  {
    var r := TakeAll(s, |s|, tm);
    Times(root) == r.0[..r.1] && Times(list) == r.0[r.1..]
  }

  lemma TakenSplit(all: seq<Timer>, n: nat, s: seq<int>, tm: int)
    requires n <= |all| && TakeAll(s, |s|, tm) == (Times(all), n)
    ensures TakenFrom(s, all[..n], all[n..], tm)
  {
    hide TakeAll;
    assert Times(all[..n]) == Times(all)[..n] && Times(all[n..]) == Times(all)[n..];
  }

  lemma LeftTimesAt(s: seq<int>, root: seq<Timer>, list: seq<Timer>, tm: int)
    requires TakenFrom(s, root, list, tm)
    ensures var r := TakeAll(s, |s|, tm);
      |root| == r.1 && forall i :: 0 <= i < |root| ==> root[i].expireTime == r.0[i]
  {
    hide TakeAll;
    var r := TakeAll(s, |s|, tm);
    forall i | 0 <= i < |root|
      ensures root[i].expireTime == r.0[i]
    {
      TimesAt(root, i);
    }
  }

  lemma LeftHeap(s: seq<int>, root: seq<Timer>, list: seq<Timer>, tm: int)
    requires TakenFrom(s, root, list, tm)
    ensures var r := TakeAll(s, |s|, tm); IsHeap(Times(root), |root|) <==> IsHeap(r.0, r.1)
  {
    hide TakeAll, Times;
    var r := TakeAll(s, |s|, tm);
    HeapOf(r.0, r.1);
    HeapOf(Times(root), |root|);
  }

  lemma TakenLeaves(s: seq<int>, root: seq<Timer>, list: seq<Timer>, tm: int)
    requires TakenFrom(s, root, list, tm)
    ensures Times(root) == LeftTimes(s, tm)
  {
  }

  /** What the loop leaves of due times s whose due ones have due parents; allTaken says that nothing due is left. */
  ghost predicate FewLeft(s: seq<int>, allTaken: bool, tm: int) {
    var left := LeftTimes(s, tm);
    && (DueParents(s, Front(|s|), tm) ==>
          && (forall i :: 0 <= i < |left| - 1 ==> left[i] >= tm)
          && (allTaken <==> left == [] || left[|left| - 1] >= tm))
    && (DueParents(s, |s|, tm) ==> allTaken || 1 <= Waiting(s, tm) <= 2)
  }

  /**
   * When the due timers have due parents, at most the last timer left is due, and none if the number of those that
   * are not due is neither 1 nor 2. A heap stays one exactly when the last turn was clean.
   */
  lemma LeftByLoop(s: seq<int>, root: seq<Timer>, list: seq<Timer>, tm: int)
    requires TakenFrom(s, root, list, tm)
    ensures FewLeft(s, NoneIsDue(root, tm), tm)
    ensures IsHeap(s, |s|) ==> (IsHeap(Times(root), |root|) <==> LastTurnClean(s, |s|, tm))
  {
    AllInFront(s, tm);
    hide TakeAll, IsHeap, LastTurnClean, Waiting, Times, TakenFrom, DueParents;
    if DueParents(s, Front(|s|), tm) {
      LoopLeaves(s, tm);
    }
    if IsHeap(s, |s|) {
      HeapSurvivesIff(s, tm);
    }
    LeftHeap(s, root, list, tm);
    LeftTimesAt(s, root, list, tm);
  }

  lemma AllInFront(s: seq<int>, tm: int)
    ensures DueParents(s, |s|, tm) ==> DueParents(s, Front(|s|), tm)
  {
  }

  /** What add_timer_to_heap reports: the root is earlier than before, or there was none, or it was due at time 0. */
  predicate GotEarlier(times: seq<int>, now: int) {
    times == [] || times[0] == 0 || now < times[0]
  }

  class TimerHeap {
    var root: seq<Timer>
    var heapSize: int

    constructor ()
      ensures root == [] && heapSize == 0
    {
      root, heapSize := [], 0;
    }

    /** The sift-up: lifts the last element. */
    method AdjustHeap()
      requires 0 < heapSize == |root|
      modifies this`root
      ensures multiset(root) == multiset(old(root)) && |root| == heapSize
      ensures Times(root) == SiftUp(old(Times(root)), heapSize - 1)
    {
      hide *;
      ghost var s, was := Times(root), root;
      var i := heapSize - 1;
      while i != 0
        invariant 0 <= i < heapSize == |root| && multiset(root) == multiset(was)
        invariant SiftUp(Times(root), i) == SiftUp(s, heapSize - 1)
        decreases i
      {
        var par := HeapSort.Parent(i);
        LiftUnfolds(root, i);
        if root[par].expireTime > root[i].expireTime {
          root := Swapped(root, i, par);
          i := par;
        } else {
          return;
        }
      }
      LiftStops(root);
    }

    /** adjust_heap_2: it leaves out the last element. */
    method AdjustHeap2(start: nat)
      requires 0 <= heapSize <= |root|
      modifies this`root
      ensures multiset(root) == multiset(old(root)) && |root| == |old(root)| && root[heapSize..] == old(root)[heapSize..]
      ensures Times(root) == SiftDown(old(Times(root)), start, Front(heapSize))
    {
      hide *;
      ghost var max := Front(heapSize);
      FrontIs(heapSize);
      ghost var was, s := root, Times(root);
      var maxIndex := heapSize - 1;
      var k := start;
      while 2 * k + 1 < maxIndex
        invariant |root| == |was| && multiset(root) == multiset(was) && root[heapSize..] == was[heapSize..]
        invariant SiftDown(Times(root), k, max) == SiftDown(s, start, max)
        decreases maxIndex - k
      {
        var i := PickChild(k, maxIndex);
        SinkUnfolds(root, k, i, max, heapSize);
        if root[i].expireTime < root[k].expireTime {
          root := Swapped(root, i, k);
          k := i;
        } else {
          return;
        }
      }
      SinkStops(Times(root), k, max);
    }

    /** The earlier of the two children, of which the right one may be out of range. */
    method PickChild(k: nat, maxIndex: nat) returns (i: nat)
      requires 2 * k + 1 < maxIndex <= |root|
      ensures i == Pick(Times(root), k, maxIndex) && k < i < maxIndex
    {
      if 2 * k + 2 >= maxIndex {
        i := 2 * k + 1;
      } else {
        i := 2 * k + 2;
        if root[i - 1].expireTime < root[i].expireTime {
          i := i - 1;
        }
      }
    }

    /** The result says whether the time of the root has become earlier. */
    method AddTimer(tmr: Timer) returns (earlier: bool)
      requires heapSize == |root|
      modifies this
      ensures heapSize == |root| && multiset(root) == multiset(old(root)) + multiset{tmr}
      ensures Times(root) == AfterAdding(old(Times(root)), tmr.expireTime)
      ensures old(IsHeap(Times(root), |root|)) ==> IsHeap(Times(root), |root|)
      ensures earlier <==> GotEarlier(old(Times(root)), root[0].expireTime)
    {
      hide IsHeap, SiftUp;
      var expire := 0;
      if root != [] {
        expire := root[0].expireTime;
      }
      ghost var s := Times(root);
      root := root + [tmr];
      heapSize := heapSize + 1;
      assert Times(root) == s + [tmr.expireTime];
      if IsHeap(s, |s|) {
        AddingKeepsHeap(s, tmr.expireTime);
      }
      AdjustHeap();
      if expire == 0 {
        return true;
      }
      return expire > root[0].expireTime;
    }

    /** The loop: takes timers off the top as long as the top one is due before tm, and keeps them behind heapSize. */
    method TakeWhileDue(tm: int)
      requires heapSize == |root|
      modifies this
      ensures 0 <= heapSize <= |root| && multiset(root) == multiset(old(root))
      ensures AllDue(root[heapSize..], tm)
      ensures if heapSize == |root| then root == old(root) else old(root)[0].expireTime < tm
      ensures TakeAll(old(Times(root)), |old(root)|, tm) == (Times(root), heapSize)
      ensures heapSize > 0 ==> root[0].expireTime >= tm
    {
      hide *;
      ghost var was, s := root, Times(root);
      var backup := heapSize;
      NoneDue(root[heapSize..], tm);
      while heapSize > 0
        invariant 0 <= heapSize <= backup == |root| && multiset(root) == multiset(was)
        invariant AllDue(root[heapSize..], tm)
        invariant if heapSize == backup then root == was else was[0].expireTime < tm
        invariant TakeAll(Times(root), heapSize, tm) == TakeAll(s, |s|, tm)
        decreases heapSize
      {
        TimesAt(root, 0);
        TakeAllUnfolds(Times(root), heapSize, tm);
        if root[0].expireTime < tm {
          OneMoreDue(root[0], root[heapSize..], tm);
          TakeTop();
        } else {
          return;
        }
      }
      TakeAllUnfolds(Times(root), heapSize, tm);
    }

    /** Gives out the timers taken. */
    method GetAndRemoveExpireTimers(tm: int) returns (list: seq<Timer>)
      requires heapSize == |root|
      modifies this
      ensures heapSize == |root| && multiset(root) + multiset(list) == multiset(old(root))
      ensures AllDue(list, tm)
      ensures list == [] <==> old(root) == [] || old(root)[0].expireTime >= tm
      ensures list == [] ==> root == old(root)
      ensures root != [] ==> root[0].expireTime >= tm
      ensures TakenFrom(old(Times(root)), root, list, tm)
      ensures FewLeft(old(Times(root)), NoneIsDue(root, tm), tm)
      ensures old(IsHeap(Times(root), |root|)) ==>
        (IsHeap(Times(root), |root|) <==> LastTurnClean(old(Times(root)), |old(root)|, tm))
      ensures IsHeap(Times(root), |root|) ==> NoneIsDue(root, tm)
    {
      hide *;
      ghost var s := Times(root);
      TakeWhileDue(tm);
      TakenSplit(root, heapSize, s, tm);
      list := root[heapSize..];
      assert root == root[..heapSize] + list;
      root := root[..heapSize];
      LeftByLoop(s, root, list, tm);
      AllDueIfHeap(root, tm);
    }

    /** One removal: the top goes to the front of the part taken off, and the last one is sifted down in its place. */
    method TakeTop()
      requires 0 < heapSize <= |root|
      modifies this
      ensures heapSize == old(heapSize) - 1 && |root| == |old(root)| && multiset(root) == multiset(old(root))
      ensures root[heapSize..] == [old(root)[0]] + old(root)[heapSize + 1..]
      ensures Times(root) == AfterTaking(old(Times(root)), old(heapSize))
    {
      hide SiftDown, Exchanged, Swapped, Times, PassesLast;
      SwappedFacts(root, 0, heapSize - 1);
      TopToBack(root, heapSize);
      root := Swapped(root, 0, heapSize - 1);
      heapSize := heapSize - 1;
      AdjustHeap2(0);
    }

    /** Deletes the timer, if it is there; the result says whether the time of the root has changed, and `at` where it was. */
    method DeleteTimer(tmr: Timer) returns (changed: bool, ghost at: int)
      requires heapSize == |root|
      modifies this
      ensures heapSize == |root| && multiset(root) == multiset(old(root)) - multiset{tmr}
      ensures changed ==> root != [] && root[0].expireTime != old(root)[0].expireTime
      ensures !changed && tmr in old(root) && root != [] ==> root[0].expireTime == old(root)[0].expireTime
      ensures at == -1 <==> tmr !in old(root)
      ensures at != -1 ==> 0 <= at < |old(root)| && old(root)[at] == tmr && Times(root) == AfterDeleting(old(Times(root)), at)
      ensures at != -1 && old(IsHeap(Times(root), |root|)) ==>
        (IsHeap(Times(root), |root|) <==> DeletionSafe(old(Times(root)), at))
    {
      hide *;
      ghost var s := Times(root);
      changed, at := false, -1;
      if root == [] {
        return;
      }
      var expire := root[0].expireTime;
      var pos := Find(tmr);
      at := pos;
      if pos != -1 {
        RemoveAt(pos);
        if IsHeap(s, |s|) {
          DeletionKeepsHeapIff(s, pos);
        }
        if root != [] {
          changed := root[0].expireTime != expire;
        }
      }
    }

    /** Puts the last timer in the place of the one at pos and sifts it down. */
    method RemoveAt(pos: nat)
      requires heapSize == |root| && pos < heapSize
      modifies this
      ensures heapSize == |root| && multiset(root) == multiset(old(root)) - multiset{old(root)[pos]}
      ensures Times(root) == AfterDeleting(old(Times(root)), pos)
    {
      hide *;
      ghost var s, was := Times(root), root;
      SwappedFacts(root, pos, heapSize - 1);
      LastOfSwapped(root, pos, heapSize - 1);
      root := Swapped(root, pos, heapSize - 1);
      heapSize := heapSize - 1;
      AdjustHeap2(pos);
      Deleted(s, pos, root);
      assert root == root[..heapSize] + [was[pos]];
      root := root[..heapSize];
    }

    method Find(tmr: Timer) returns (at: int)
      ensures at == -1 ==> tmr !in root
      ensures at != -1 ==> 0 <= at < |root| && root[at] == tmr
    {
      at := 0;
      while at < |root|
        invariant 0 <= at <= |root| && tmr !in root[..at]
      {
        if root[at] == tmr {
          return;
        }
        at := at + 1;
      }
      at := -1;
    }
  }

  lemma TopToBack(root: seq<Timer>, n: nat)
    requires 0 < n <= |root|
    ensures Swapped(root, 0, n - 1)[n - 1..] == [root[0]] + root[n..]
  {
  }

  lemma LastOfSwapped(root: seq<Timer>, i: nat, j: nat)
    requires i < |root| && j == |root| - 1
    ensures Swapped(root, i, j)[j..] == [root[i]]
  {
  }

  // ----- The kernel's timer -----

  /** What setting the kernel's timer to an absolute time means: 0 disarms it. */
  function Setting(t: int): (o: Option<int>) {
    if t == 0 then None else Some(t)
  }

  /** The timer behind the file descriptor: when it goes off, all times it was to be set to, and whether the last setting failed. */
  class KernelTimer {
    var armed: Option<int>
    var asked: seq<int>
    var failed: bool

    constructor ()
      ensures armed == None && asked == [] && !failed
    {
      armed, asked, failed := None, [], false;
    }

    method SetTime(t: int) returns (ok: bool)
      modifies this
      ensures asked == old(asked) + [t] && failed == !ok
      ensures armed == if ok then Setting(t) else old(armed)
    {
      ok := *;
      asked, failed := asked + [t], !ok;
      if ok {
        armed := Setting(t);
      }
    }

    /** It goes off once, at its time or later. */
    method GoOff(now: int)
      requires armed.Some? && armed.value <= now
      modifies this`armed
      ensures armed == None
    {
      armed := None;
    }
  }

  // ----- The manager -----

  /** The timers of the bag are those of the map, each of them once, and each is in the map under its own index. */
  ghost predicate Agree(bag: multiset<Timer>, active: map<int, Timer>)
    reads bag`index, (set k | k in active :: active[k])`index
  {
    && (forall t :: t in bag ==> bag[t] == 1 && t.index in active && active[t.index] == t)
    && (forall k :: k in active ==> active[k].index == k && active[k] in bag)
  }

  /** Every timer still has a round to go. */
  ghost predicate AllCounted(active: map<int, Timer>)
    reads set k | k in active :: active[k]
  {
    forall k :: k in active ==> active[k].Counted()
  }

  lemma Inserted(bag: multiset<Timer>, active: map<int, Timer>, t: Timer)
    requires Agree(bag, active) && AllCounted(active) && t !in bag && t.index !in active && t.Counted()
    ensures Agree(bag + multiset{t}, active[t.index := t]) && AllCounted(active[t.index := t])
  {
  }

  lemma NotInMap(bag: multiset<Timer>, active: map<int, Timer>, t: Timer)
    requires Agree(bag, active) && t !in bag
    ensures forall k :: k in active ==> active[k] != t
  {
  }

  /** A timer that is in the heap only breaks the agreement. */
  lemma Strayed(bag: multiset<Timer>, active: map<int, Timer>, t: Timer)
    requires Agree(bag, active) && t !in bag
    ensures !Agree(bag + multiset{t}, active)
  {
    var more := bag + multiset{t};
    assert t in more;
    if Agree(more, active) {
      assert more[t] == 1 && t.index in active && active[t.index] == t;
      assert forall k :: k in active ==> active[k] in bag;
      assert false;
    }
  }

  lemma Erased(bag: multiset<Timer>, active: map<int, Timer>, t: Timer)
    requires Agree(bag, active) && AllCounted(active) && t in bag
    ensures t.index in active && active[t.index] == t && t.Counted()
    ensures Agree(bag - multiset{t}, active - {t.index}) && AllCounted(active - {t.index})
    ensures forall k :: k in active - {t.index} ==> (active - {t.index})[k] != t
  {
    var k := t.index;
    assert k in active && active[k] == t;
    assert forall i :: i in active ==> active[i].Counted();
    assert active[k].Counted();
  }

  lemma InBag(bag: multiset<Timer>, active: map<int, Timer>, k: int)
    requires Agree(bag, active) && k in active
    ensures active[k] in bag && bag[active[k]] == 1 && active[k].index == k
  {
  }

  lemma Restored(active: map<int, Timer>, t: Timer)
    requires t.index in active && active[t.index] == t && t.Counted() && AllCounted(active - {t.index})
    ensures AllCounted(active)
  {
    forall k | k in active
      ensures active[k].Counted()
    {
      if k != t.index {
        assert (active - {t.index})[k] == active[k];
      }
    }
  }

  /** Each timer of the first list is in one of the other two, and the last of these has none twice. */
  ghost predicate Parted(all: seq<Timer>, root: seq<Timer>, list: seq<Timer>) {
    && (forall i, j :: 0 <= i < j < |list| ==> list[i] != list[j])
    && (forall t :: t in list ==> t !in root && t in all)
    && (forall t :: t in all ==> t in list || t in root)
    && (forall t :: t in root ==> t in all)
  }

  lemma NoneTwice(all: seq<Timer>, root: seq<Timer>, list: seq<Timer>, active: map<int, Timer>)
    requires Agree(multiset(all), active) && multiset(root) + multiset(list) == multiset(all)
    ensures Parted(all, root, list)
  {
    forall t
      ensures t in list ==> t in multiset(all) && multiset(root)[t] + multiset(list)[t] == 1
      ensures t in all <==> t in multiset(all)
      ensures t in root <==> t in multiset(root)
      ensures t in list <==> t in multiset(list)
    {
    }
    forall i, j | 0 <= i < j < |list|
      ensures list[i] != list[j]
    {
      assert list == list[..j] + [list[j]] + list[j + 1..];
      assert list[i] in list[..j];
      assert multiset(list) == multiset(list[..j]) + multiset{list[j]} + multiset(list[j + 1..]);
      assert list[i] == list[j] ==> multiset(list)[list[j]] >= 2;
    }
  }

  /** Every due timer is in the list. */
  ghost predicate AllTaken(all: seq<Timer>, due: seq<Timer>, tm: int)
    reads all
  {
    forall t :: t in all && t.expireTime < tm ==> t in due
  }

  lemma NoneLeftMeansAllTaken(all: seq<Timer>, left: seq<Timer>, due: seq<Timer>, tm: int)
    requires Parted(all, left, due)
    ensures AllTaken(all, due, tm) <==> NoneIsDue(left, tm)
  {
  }

  /** The timer that was at `at` has been taken out and put in again with its new time. */
  ghost predicate Moved(before: seq<Timer>, s: seq<int>, at: nat, tmr: Timer, root: seq<Timer>)
    reads root, tmr
  {
    at < |before| == |s| && before[at] == tmr && Times(root) == AfterAdding(AfterDeleting(s, at), tmr.expireTime)
  }

  /** The first due time, if there is one now and it is another than before. */
  function FirstIfChanged(before: seq<int>, after: seq<int>): seq<int> {
    if after != [] && before != [] && after[0] != before[0] then [after[0]] else []
  }

  /**
   * The timer at `at` is taken out of due times s and put in again, and the first time is `first` then: a kernel's timer
   * in time for s stays so if adding has set it, or if the first time without the timer is that of s.
   */
  predicate StaysInTime(s: seq<int>, at: nat, first: int) {
    at < |s| &&
    var rest := AfterDeleting(s, at);
    GotEarlier(rest, first) || Setting(first) == Setting(s[0])
  }

  /**
   * So a timer put back with the time x leaves the kernel's timer too early exactly when it was the first one, others
   * wait, all of them later, and x is not before them. When it goes off then, expire_all finds nothing due and stops
   * the program.
   */
  lemma StaysInTimeIff(s: seq<int>, at: nat, x: int)
    requires at < |s| && x > 0 && (forall i :: 0 <= i < |s| ==> s[i] > 0)
    requires IsHeap(s, |s|) && DeletionSafe(s, at)
    ensures var rest := AfterDeleting(s, at);
      StaysInTime(s, at, AfterAdding(rest, x)[0]) <==> at > 0 || rest == [] || rest[0] == s[0] || x < rest[0]
  {
    var rest := AfterDeleting(s, at);
    DeletionKeepsHeapIff(s, at);
    AddingKeepsHeap(rest, x);
    DeletionDeletes(s, at);
    hide SiftUp, SiftDown, AfterDeleting, AfterAdding, IsHeap;
    if rest != [] {
      assert rest[0] in multiset(s);
      assert rest[0] in s;
    }
    if at > 0 {
      FirstAfterDeleting(s, at);
    }
    FirstIsEarliest(rest, x);
  }

  /** Two timers at 10 and 20; the first is put off to 30: the kernel's timer stays at 10, where nothing is due any more. */
  lemma FirstPutOff()
    ensures var s := [10, 20]; AfterDeleting(s, 0) == [20] && AfterAdding([20], 30) == [20, 30] && !StaysInTime(s, 0, 20)
  {
    assert Exchanged([10, 20], 0, 1) == [20, 10];
    assert SiftDown([20, 10], 0, Front(1)) == [20, 10];
    assert [20, 10][..1] == [20] && [20] + [30] == [20, 30];
    assert SiftUp([20, 30], 1) == [20, 30];
  }

  lemma FirstIsEarliest(s: seq<int>, x: int)
    requires IsHeap(s, |s|) && IsHeap(AfterAdding(s, x), |s| + 1)
    ensures AfterAdding(s, x)[0] == if s == [] || x < s[0] then x else s[0]
  {
    hide IsHeap;
    RootIsOneOfTwo(s + [x], |s|);
    AddingAdds(s, x);
    hide AfterAdding;
    var t := AfterAdding(s, x);
    assert x in multiset(t) && x in t;
    var j :| 0 <= j < |t| && t[j] == x;
    RootIsMinimum(t, |t|, j);
  }

  lemma NoMore(bag: multiset<Timer>, root: seq<Timer>, t: Timer)
    requires multiset(root) == bag - multiset{t} && bag[t] <= 1
    ensures t !in root
  {
  }

  /**
   * Whether a timer is to be armed again and after which time, how often it has fired, and how often it is to; its
   * kind and its index.
   */
  datatype Plan = Plan(goes: bool, interval: int, fired: int, granted: int, kind: Kind, index: int)

  ghost function PlanOf(t: Timer): Plan
    reads t
  {
    Plan(t.Goes(), t.intervalTime, t.fired, t.granted, t.kind, t.index)
  }

  ghost function Plans(list: seq<Timer>): (plans: seq<Plan>)
    reads list
    ensures |plans| == |list| && forall i :: 0 <= i < |list| ==> plans[i] == PlanOf(list[i])
  {
    seq(|list|, i requires 0 <= i < |list| reads list => PlanOf(list[i]))
  }

  /** The due times of the heap when the timer that has fired has been armed again as planned. */
  function Rearmed(s: seq<int>, plan: Plan, now: int): seq<int> {
    if plan.goes then AfterAdding(s, now + plan.interval) else s
  }

  lemma IndexOfPlan(t: Timer)
    ensures PlanOf(t).index == t.index
  {
  }

  lemma RearmedIs(s: seq<int>, plan: Plan, now: int)
    ensures Rearmed(s, plan, now) == if plan.goes then AfterAdding(s, now + plan.interval) else s
  {
  }

  /** The timer has fired as planned and has a new time, or has fired as often as it was to; nothing else has changed. */
  ghost predicate FiredAs(t: Timer, plan: Plan, now: int)
    reads t
  {
    && t.fired == plan.fired + 1 && t.granted == plan.granted
    && t.intervalTime == plan.interval && t.kind == plan.kind && t.index == plan.index
    && (plan.goes ==> t.expireTime == now + plan.interval)
    && (!plan.goes ==> t.fired == t.granted)
  }

  /** All timers of the list have fired, the j-th one at clock(j), and those that go on are in the heap again. */
  ghost predicate AllFired(list: seq<Timer>, root: seq<Timer>, clock: nat -> int, plans: seq<Plan>)
    reads list
  {
    |plans| == |list| &&
    forall j :: 0 <= j < |list| ==> FiredAs(list[j], plans[j], clock(j)) && (list[j] in root <==> plans[j].goes)
  }

  /** The additions that carrying out the first n plans amounts to. */
  function Rearmings(plans: seq<Plan>, clock: nat -> int, n: nat): seq<Op>
    requires n <= |plans|
  {
    if n == 0 then []
    else Rearmings(plans, clock, n - 1) + (if plans[n - 1].goes then [ADD(clock(n - 1) + plans[n - 1].interval)] else [])
  }

  /** root holds the timers it had before and, of the first i of the list, those that go on. */
  ghost predicate Refilled(before: seq<Timer>, list: seq<Timer>, plans: seq<Plan>, i: nat, root: seq<Timer>) {
    && i <= |list| == |plans|
    && (forall t :: t in before ==> t in root)
    && (forall t :: t in root ==> t in before || t in list)
    && (forall j :: 0 <= j < |list| ==> (list[j] in root <==> j < i && plans[j].goes))
  }

  lemma OneMoreRefilled(before: seq<Timer>, list: seq<Timer>, plans: seq<Plan>, i: nat, root: seq<Timer>, more: seq<Timer>)
    requires Refilled(before, list, plans, i, root) && i < |list|
    requires forall a, b :: 0 <= a < b < |list| ==> list[a] != list[b]
    requires (list[i] in more <==> plans[i].goes) && forall t :: t != list[i] ==> (t in more <==> t in root)
    ensures Refilled(before, list, plans, i + 1, more)
  {
    forall j | 0 <= j < |list|
      ensures list[j] in more <==> j < i + 1 && plans[j].goes
    {
      assert j != i ==> list[j] != list[i];
    }
    forall t | t in before
      ensures t in more
    {
      assert t in root && list[i] !in root;
    }
  }

  lemma NextIsOut(before: seq<Timer>, list: seq<Timer>, plans: seq<Plan>, i: nat, root: seq<Timer>)
    requires Refilled(before, list, plans, i, root) && i < |list|
    ensures list[i] !in root
  {
  }

  lemma NoneLeftToFire(root: seq<Timer>, list: seq<Timer>)
    ensures multiset(root) + multiset(list[|list|..]) == multiset(root)
  {
    assert list[|list|..] == [];
  }

  lemma NothingRearmed(s: seq<int>, plans: seq<Plan>, clock: nat -> int)
    ensures Run(s, Rearmings(plans, clock, 0)) == s
  {
  }

  lemma OneMoreRearmed(s: seq<int>, plans: seq<Plan>, clock: nat -> int, n: nat)
    requires n < |plans|
    ensures var before := Run(s, Rearmings(plans, clock, n));
      Run(s, Rearmings(plans, clock, n + 1)) == Rearmed(before, plans[n], clock(n))
  {
    var ops := Rearmings(plans, clock, n);
    if plans[n].goes {
      RunSnoc(s, ops, ADD(clock(n) + plans[n].interval));
    } else {
      assert ops + [] == ops;
    }
  }

  lemma {:induction false} RearmingsKeepHeap(s: seq<int>, plans: seq<Plan>, clock: nat -> int, n: nat)
    requires n <= |plans|
    ensures var t := Run(s, Rearmings(plans, clock, n)); IsHeap(s, |s|) ==> IsHeap(t, |t|)
  {
    hide IsHeap, AfterAdding, Run, Rearmings;
    if n == 0 {
      NothingRearmed(s, plans, clock);
    } else {
      RearmingsKeepHeap(s, plans, clock, n - 1);
      OneMoreRearmed(s, plans, clock, n - 1);
      var t := Run(s, Rearmings(plans, clock, n - 1));
      if IsHeap(s, |s|) {
        AddingKeepsHeap(t, clock(n - 1) + plans[n - 1].interval);
      }
    }
  }

  lemma ExpiredRun(s: seq<int>, now: int, ops: seq<Op>)
    ensures Run(s, [EXPIRE(now)] + ops) == Run(LeftTimes(s, now), ops)
  {
    RunCons(s, EXPIRE(now), ops);
  }

  lemma BagKept(bag: multiset<Timer>, t: Timer, rest: multiset<Timer>)
    ensures bag + multiset{t} + rest - multiset{t} == bag + rest
  {
  }

  lemma OneMore(root: seq<Timer>, t: Timer, more: seq<Timer>)
    requires multiset(more) == multiset(root) + multiset{t}
    ensures forall u :: u in more <==> u in root || u == t
  {
    forall u
      ensures u in more <==> u in multiset(more)
      ensures u in root <==> u in multiset(root)
    {
    }
  }

  lemma NextPending(list: seq<Timer>, i: nat)
    requires i < |list| && forall a, b :: 0 <= a < b < |list| ==> list[a] != list[b]
    ensures list[i] !in multiset(list[i + 1..])
    ensures multiset(list[i..]) == multiset{list[i]} + multiset(list[i + 1..])
  {
    assert list[i..] == [list[i]] + list[i + 1..];
  }

  class TimerManager {
    const heap: TimerHeap
    const kernel: KernelTimer
    var active: map<int, Timer>
    var nextIndex: int

    /** The heap and the map hold the same timers, each once, and every timer still has rounds to go. */
    ghost predicate Valid()
      reads this, heap, heap.root, set k | k in active :: active[k]
    {
      heap.heapSize == |heap.root| && Agree(multiset(heap.root), active) && AllCounted(active) && nextIndex >= 0
    }

    ghost predicate Ordered()
      reads heap, heap.root
    {
      IsHeap(Times(heap.root), |heap.root|)
    }

    /** The kernel's timer goes off when the first timer of the heap is due. */
    ghost predicate InTime()
      reads kernel, heap, heap.root
    {
      heap.root != [] ==> kernel.armed == Setting(heap.root[0].expireTime)
    }

    constructor ()
      ensures Valid() && Ordered() && InTime() && fresh(heap) && fresh(kernel) && kernel.armed == None && active == map[] && nextIndex == 0
    {
      heap := new TimerHeap();
      kernel := new KernelTimer();
      active, nextIndex := map[], 0;
      new;
      HeapOf(Times(heap.root), 0);
    }

    /** The first half of add_and_get_index: the kernel's timer is set when the first time has got earlier. */
    method AddToHeap(tmr: Timer) returns (ok: bool)
      requires heap.heapSize == |heap.root|
      modifies heap, kernel
      ensures heap.heapSize == |heap.root| && multiset(heap.root) == multiset(old(heap.root)) + multiset{tmr} && heap.root != []
      ensures Times(heap.root) == AfterAdding(old(Times(heap.root)), tmr.expireTime)
      ensures old(Ordered()) ==> Ordered()
      ensures kernel.asked == old(kernel.asked) +
        if GotEarlier(old(Times(heap.root)), heap.root[0].expireTime) then [heap.root[0].expireTime] else []
      ensures ok <==> !(GotEarlier(old(Times(heap.root)), heap.root[0].expireTime) && kernel.failed)
      ensures kernel.armed ==
        if ok && GotEarlier(old(Times(heap.root)), heap.root[0].expireTime) then Setting(heap.root[0].expireTime) else old(kernel.armed)
      ensures old(InTime()) && ok ==> InTime()
    {
      hide IsHeap, AfterAdding;
      ghost var s := Times(heap.root);
      ok := true;
      var earlier := heap.AddTimer(tmr);
      assert heap.root != [] by {
        assert tmr in multiset(heap.root);
      }
      FirstAfterAdding(s, tmr.expireTime);
      if earlier {
        ok := kernel.SetTime(heap.root[0].expireTime);
      }
    }

    /** The kernel's timer is set for the first timer of the heap, if there is one. */
    method ArmForFirst() returns (code: int)
      modifies kernel
      ensures code == if heap.root != [] && kernel.failed then -1 else 0
      ensures kernel.asked == old(kernel.asked) + if heap.root != [] then [heap.root[0].expireTime] else []
      ensures heap.root == [] || code != 0 ==> kernel.armed == old(kernel.armed)
      ensures code == 0 ==> InTime()
    {
      if heap.root == [] {
        return 0;
      }
      var ok := kernel.SetTime(heap.root[0].expireTime);
      code := if ok then 0 else -1;
    }

    /**
     * Puts a new timer into the heap and gives it the first free index. When the kernel's timer cannot be set, the
     * timer has been put into the heap already and gets no index.
     */
    method AddAndGetIndex(tmr: Timer) returns (index: int)
      requires Valid() && tmr !in heap.root && tmr.Counted()
      modifies this, heap, kernel, tmr`index
      ensures multiset(heap.root) == multiset(old(heap.root)) + multiset{tmr} && heap.heapSize == |heap.root|
      ensures Times(heap.root) == AfterAdding(old(Times(heap.root)), tmr.expireTime)
      ensures old(Ordered()) ==> Ordered()
      ensures heap.root != []
      ensures kernel.asked == old(kernel.asked) +
        if GotEarlier(old(Times(heap.root)), heap.root[0].expireTime) then [heap.root[0].expireTime] else []
      ensures index == -1 <==> GotEarlier(old(Times(heap.root)), heap.root[0].expireTime) && kernel.failed
      ensures old(InTime()) && index != -1 ==> InTime()
      ensures index == -1 ==> active == old(active) && nextIndex == old(nextIndex) && !Valid()
      ensures index != -1 ==> Valid() && active == old(active)[index := tmr]
      ensures index != -1 ==> index == nextIndex > old(nextIndex) && index !in old(active)
      ensures index != -1 ==> forall k :: old(nextIndex) < k < index ==> k in old(active)
    {
      hide Agree, AllCounted, IsHeap, Timer.Counted, GotEarlier, AfterAdding;
      ghost var bag := multiset(heap.root);
      var ok := AddToHeap(tmr);
      if !ok {
        Strayed(bag, active, tmr);
        return -1;
      }
      ghost var s := Times(heap.root);
      index := GiveIndex(tmr, bag);
      SameTimes(heap.root, s);
    }

    /** The relative form of add_timer: the timer is due its interval from now. */
    method AddTimer(sec: int, usec: int, count: int, now: int) returns (index: int)
      requires Valid()
      modifies this, heap, kernel
      ensures sec < 0 || usec < 0 ==> index == -1 && active == old(active) && heap.root == old(heap.root) && Valid()
      ensures sec >= 0 && usec >= 0 && index == -1 ==> kernel.failed
      ensures old(InTime()) && index != -1 ==> InTime()
      ensures index != -1 ==> Valid() && index !in old(active) && index in active && active == old(active)[index := active[index]]
      ensures index != -1 ==> fresh(active[index]) && multiset(heap.root) == multiset(old(heap.root)) + multiset{active[index]}
      ensures index != -1 ==> var tmr := active[index];
        && tmr.expireTime == now + sec * 1000000 + usec && tmr.intervalTime == sec * 1000000 + usec
        && tmr.fired == 0 && tmr.RoundsAhead(count)
      ensures old(Ordered()) ==> Ordered()
    {
      hide Agree, AllCounted, IsHeap, Timer.Counted, Times, AfterAdding, GotEarlier;
      if sec < 0 || usec < 0 {
        return -1;
      }
      ghost var s := Times(heap.root);
      var tmr := new Timer(now + sec * 1000000 + usec, sec * 1000000 + usec, count);
      index := AddAndGetIndex(tmr);
    }

    method GiveIndex(tmr: Timer, ghost bag: multiset<Timer>) returns (index: int)
      requires Agree(bag, active) && AllCounted(active) && tmr !in bag && tmr.Counted()
      modifies this, tmr`index
      ensures Agree(bag + multiset{tmr}, active) && AllCounted(active) && active == old(active)[index := tmr]
      ensures index == nextIndex > old(nextIndex) && index !in old(active)
      ensures forall k :: old(nextIndex) < k < index ==> k in old(active)
    {
      hide Agree, AllCounted;
      NotInMap(bag, active, tmr);
      index := FreeIndex();
      tmr.index := index;
      Inserted(bag, active, tmr);
      active := active[index := tmr];
    }

    method FreeIndex() returns (index: int)
      modifies this`nextIndex
      ensures index == nextIndex > old(nextIndex) && index !in active
      ensures forall k :: old(nextIndex) < k < index ==> k in active
    {
      nextIndex := nextIndex + 1;
      while nextIndex in active
        invariant nextIndex > old(nextIndex)
        invariant forall k :: old(nextIndex) < k < nextIndex ==> k in active
        decreases set k | k in active && k >= nextIndex
      {
        ghost var before := set k | k in active && k >= nextIndex;
        assert nextIndex in before;
        nextIndex := nextIndex + 1;
      }
      index := nextIndex;
    }

    /** The second half of delete_timer: the kernel's timer is set again when the first time has changed. */
    method DeleteFromHeap(tmr: Timer) returns (ghost at: int)
      requires heap.heapSize == |heap.root| && tmr in heap.root
      modifies heap, kernel
      ensures heap.heapSize == |heap.root| && multiset(heap.root) == multiset(old(heap.root)) - multiset{tmr}
      ensures 0 <= at < |old(heap.root)| && old(heap.root)[at] == tmr && Times(heap.root) == AfterDeleting(old(Times(heap.root)), at)
      ensures old(Ordered()) ==> (Ordered() <==> DeletionSafe(old(Times(heap.root)), at))
      ensures kernel.asked == old(kernel.asked) + FirstIfChanged(old(Times(heap.root)), Times(heap.root))
      ensures heap.root == [] ==> kernel.armed == old(kernel.armed)
      ensures old(InTime()) && (kernel.asked == old(kernel.asked) || !kernel.failed) ==> InTime()
    {
      hide IsHeap, AfterDeleting, DeletionSafe;
      var changed;
      changed, at := heap.DeleteTimer(tmr);
      if changed {
        var ok := kernel.SetTime(heap.root[0].expireTime);
      }
    }

    method DeleteTimer(index: int) returns (ret: int, ghost at: int)
      requires Valid()
      modifies this, heap, kernel
      ensures Valid() && active == old(active) - {index} && nextIndex == old(nextIndex)
      ensures kernel.asked == old(kernel.asked) + FirstIfChanged(old(Times(heap.root)), Times(heap.root))
      ensures heap.root == [] ==> kernel.armed == old(kernel.armed)
      ensures old(InTime()) && (kernel.asked == old(kernel.asked) || !kernel.failed) ==> InTime()
      ensures ret == if index in old(active) then 0 else -1
      ensures ret == -1 ==> heap.root == old(heap.root)
      ensures ret == 0 ==> 0 <= at < |old(heap.root)| && old(heap.root)[at] == old(active)[index]
      ensures ret == 0 ==> Times(heap.root) == AfterDeleting(old(Times(heap.root)), at)
      ensures old(Ordered()) ==> (Ordered() <==> ret == -1 || DeletionSafe(old(Times(heap.root)), at))
    {
      hide Agree, AllCounted, IsHeap, AfterDeleting, DeletionSafe, Times, Timer.Counted, Timer.RoundsAhead, GotEarlier, Timer.Goes, Front, Exchanged, SiftDown;
      at := -1;
      if index !in active {
        return -1, at;
      }
      hide InTime, FirstIfChanged, Ordered;
      var tmr := active[index];
      InBag(multiset(heap.root), active, index);
      Erased(multiset(heap.root), active, tmr);
      active := active - {index};
      at := DeleteFromHeap(tmr);
      ret := 0;
    }

    /**
     * Takes the timer off the heap, changes it, and puts it back. Both the heap's timers and the map stay the
     * same, also when the kernel's timer cannot be set. `at` is where the timer was in the heap. The kernel's timer
     * is set only when the first timer is earlier than after the deletion, so that it can stay too early.
     */
    method ChangeExpireTime(index: int, absolute: bool, sec: int, usec: int, count: int, now: int)
      returns (ret: int, ghost at: nat)
      requires Valid()
      modifies this, heap, kernel, if index in active then {active[index]} else {}
      ensures Valid() && active == old(active) && multiset(heap.root) == multiset(old(heap.root))
      ensures sec < 0 || usec < 0 || index !in active ==>
        ret == -1 && heap.root == old(heap.root) && (index in active ==> unchanged(active[index]))
      ensures sec >= 0 && usec >= 0 && index in active ==>
        && Moved(old(heap.root), old(Times(heap.root)), at, active[index], heap.root)
        && heap.root != [] && SetWhenEarlier(AfterDeleting(old(Times(heap.root)), at), ret)
        && (old(InTime()) && ret == 0 ==> (InTime() <==> StaysInTime(old(Times(heap.root)), at, heap.root[0].expireTime)))
        && (old(Ordered()) && DeletionSafe(old(Times(heap.root)), at) ==> Ordered())
        && active[index].expireTime == sec * 1000000 + usec + (if absolute then 0 else now)
        && active[index].fired == old(active[index].fired)
      ensures sec >= 0 && usec >= 0 && index in active && !absolute ==>
        active[index].intervalTime == sec * 1000000 + usec && active[index].RoundsAhead(count)
      ensures index in active && absolute ==> Kept(active[index])
    {
      if sec < 0 || usec < 0 || index !in active {
        return -1, 0;
      }
      hide Agree, AllCounted, IsHeap, AfterDeleting, DeletionSafe, Times, Timer.Counted, Timer.RoundsAhead, GotEarlier, Moved, Kept;
      hide SetWhenEarlier, StaysInTime, InTime;
      var tmr := active[index];
      ghost var bag := multiset(heap.root);
      InBag(bag, active, index);
      Erased(bag, active, tmr);
      ret, at := Reposition(tmr, absolute, sec * 1000000 + usec, count, now);
      assert Agree(bag, active);
      Restored(active, tmr);
    }

    /** The interval, the kind and the rounds to go are as before. */
    twostate predicate Kept(t: Timer)
      reads t
    {
      && t.intervalTime == old(t.intervalTime) && t.kind == old(t.kind) && t.lastTimes == old(t.lastTimes)
      && t.granted == old(t.granted) && t.fired == old(t.fired) && t.index == old(t.index)
    }

    /** After a change from due times `rest`: the kernel's timer has been set, or was to be set, if the first time got earlier. */
    twostate predicate SetWhenEarlier(rest: seq<int>, ret: int)
      reads kernel, heap, heap.root
    {
      heap.root != [] && var first := heap.root[0].expireTime;
        && kernel.asked == old(kernel.asked) + (if GotEarlier(rest, first) then [first] else [])
        && ret == if GotEarlier(rest, first) && kernel.failed then -1 else 0
    }

    method Reposition(tmr: Timer, absolute: bool, tv: int, count: int, now: int) returns (ret: int, ghost at: nat)
      requires heap.heapSize == |heap.root| && multiset(heap.root)[tmr] == 1 && tmr.Counted()
      modifies heap, kernel, tmr`expireTime, tmr`intervalTime, tmr`kind, tmr`lastTimes, tmr`granted
      ensures heap.heapSize == |heap.root| && multiset(heap.root) == multiset(old(heap.root)) && tmr.Counted()
      ensures Moved(old(heap.root), old(Times(heap.root)), at, tmr, heap.root)
      ensures SetWhenEarlier(AfterDeleting(old(Times(heap.root)), at), ret)
      ensures old(InTime()) && ret == 0 ==> (InTime() <==> StaysInTime(old(Times(heap.root)), at, heap.root[0].expireTime))
      ensures old(Ordered()) && DeletionSafe(old(Times(heap.root)), at) ==> Ordered()
      ensures tmr.expireTime == tv + (if absolute then 0 else now)
      ensures !absolute ==> tmr.intervalTime == tv && tmr.RoundsAhead(count)
      ensures absolute ==> Kept(tmr)
    {
      hide IsHeap, AfterDeleting, AfterAdding, DeletionSafe, Timer.Counted, Timer.RoundsAhead, GotEarlier;
      ghost var bag := multiset(heap.root);
      assert tmr in heap.root;
      var changed, pos := heap.DeleteTimer(tmr);
      at := pos;
      ghost var s := Times(heap.root);
      NoMore(bag, heap.root, tmr);
      tmr.Rearm(absolute, tv, count, now);
      SameTimes(heap.root, s);
      var ok := AddToHeap(tmr);
      assert multiset(heap.root) == bag;
      ret := if ok then 0 else -1;
    }

    lemma StillOrdered(root: seq<Timer>, s: seq<int>)
      requires root == heap.root && |s| == |root| && forall i :: 0 <= i < |s| ==> root[i].expireTime == s[i]
      ensures Times(root) == s && (Ordered() <==> IsHeap(s, |s|))
    {
      SameTimes(root, s);
    }

    /** The timer fires, out of the heap; the others do not notice. */
    method FireOutside(tmr: Timer, now: int, ghost rest: multiset<Timer>, ghost plan: Plan) returns (again: bool)
      requires tmr !in heap.root && plan == PlanOf(tmr)
      requires Agree(multiset(heap.root) + multiset{tmr} + rest, active) && AllCounted(active)
      modifies tmr
      ensures Agree(multiset(heap.root) + multiset{tmr} + rest, active) && AllCounted(if again then active else active - {tmr.index})
      ensures Agree(multiset(heap.root) + rest, active - {tmr.index}) && FiredAs(tmr, plan, now)
      ensures again == plan.goes && tmr.index == plan.index && (again ==> tmr.expireTime == now + plan.interval)
      ensures Times(heap.root) == old(Times(heap.root)) && (old(Ordered()) ==> Ordered())
    {
      ghost var bag, s := multiset(heap.root) + multiset{tmr} + rest, Times(heap.root);
      assert forall i :: 0 <= i < |s| ==> s[i] == heap.root[i].expireTime;
      hide *;
      StillOrdered(heap.root, s);
      Erased(bag, active, tmr);
      IndexOfPlan(tmr);
      BagKept(multiset(heap.root), tmr, rest);
      again := tmr.Fire(now);
      StillOrdered(heap.root, s);
      if again {
        Restored(active, tmr);
      }
    }

    /** One timer taken off the heap: its callback runs, and it goes back or is dropped. */
    method FireOne(tmr: Timer, now: int, ghost rest: multiset<Timer>, ghost plan: Plan)
      requires heap.heapSize == |heap.root| && tmr !in heap.root && plan == PlanOf(tmr)
      requires Agree(multiset(heap.root) + multiset{tmr} + rest, active) && AllCounted(active)
      modifies this`active, heap, tmr
      ensures heap.heapSize == |heap.root| && Agree(multiset(heap.root) + rest, active) && AllCounted(active)
      ensures old(Ordered()) ==> Ordered()
      ensures FiredAs(tmr, plan, now) && active == if plan.goes then old(active) else old(active) - {plan.index}
      ensures Times(heap.root) == Rearmed(old(Times(heap.root)), plan, now)
      ensures forall t :: t in heap.root <==> t in old(heap.root) || (t == tmr && plan.goes)
    {
      hide *;
      RearmedIs(Times(heap.root), plan, now);
      var again := FireOutside(tmr, now, rest, plan);
      if again {
        PutAgain(tmr, rest);
      } else {
        active := active - {tmr.index};
      }
    }

    method PutAgain(tmr: Timer, ghost rest: multiset<Timer>)
      requires heap.heapSize == |heap.root| && Agree(multiset(heap.root) + multiset{tmr} + rest, active)
      modifies heap
      ensures heap.heapSize == |heap.root| && Agree(multiset(heap.root) + rest, active)
      ensures old(Ordered()) ==> Ordered()
      ensures Times(heap.root) == AfterAdding(old(Times(heap.root)), tmr.expireTime)
      ensures forall t :: t in heap.root <==> t in old(heap.root) || t == tmr
    {
      hide Agree, IsHeap, GotEarlier, AfterAdding, Times;
      ghost var before := heap.root;
      var earlier := heap.AddTimer(tmr);
      OneMore(before, tmr, heap.root);
      BagKept(multiset(before), tmr, rest);
    }

    /** The list's timers were due, and the plans are what they said before. */
    twostate predicate Planned(all: seq<Timer>, new due: seq<Timer>, plans: seq<Plan>, now: int) {
      |plans| == |due| &&
      forall j :: 0 <= j < |due| && due[j] in all ==> old(due[j].expireTime) < now && plans[j] == old(PlanOf(due[j]))
    }

    /** Every timer that was due is in the list. */
    twostate predicate AllTakenOf(all: seq<Timer>, new due: seq<Timer>, tm: int) {
      forall t :: t in all && old(t.expireTime) < tm ==> t in due
    }

    /** The body of the loop in expire_all. */
    method FireNext(list: seq<Timer>, i: nat, now: int, ghost plan: Plan)
      requires i < |list| && plan == PlanOf(list[i]) && heap.heapSize == |heap.root| && list[i] !in heap.root
      requires Agree(multiset(heap.root) + multiset(list[i..]), active) && AllCounted(active)
      requires forall a, b :: 0 <= a < b < |list| ==> list[a] != list[b]
      modifies this`active, heap, list[i]
      ensures heap.heapSize == |heap.root|
      ensures Agree(multiset(heap.root) + multiset(list[i + 1..]), active) && AllCounted(active)
      ensures FiredAs(list[i], plan, now) && (list[i] in heap.root <==> plan.goes)
      ensures Times(heap.root) == Rearmed(old(Times(heap.root)), plan, now)
      ensures forall t :: t != list[i] ==> (t in heap.root <==> t in old(heap.root))
    {
      hide Agree, AllCounted, Ordered, Timer.Counted, Timer.Goes, Times, AfterAdding;
      NextPending(list, i);
      assert multiset(heap.root) + multiset(list[i..]) == multiset(heap.root) + multiset{list[i]} + multiset(list[i + 1..]);
      FireOne(list[i], now, multiset(list[i + 1..]), plan);
    }

    method FireAll(list: seq<Timer>, clock: nat -> int, ghost plans: seq<Plan>)
      requires heap.heapSize == |heap.root| && nextIndex >= 0 && plans == Plans(list)
      requires Agree(multiset(heap.root) + multiset(list), active) && AllCounted(active)
      requires forall i, j :: 0 <= i < j < |list| ==> list[i] != list[j]
      requires forall t :: t in list ==> t !in heap.root
      modifies this`active, heap, set t | t in list
      ensures Valid() && (old(Ordered()) ==> Ordered())
      ensures Times(heap.root) == Run(old(Times(heap.root)), Rearmings(plans, clock, |list|))
      ensures AllFired(list, heap.root, clock, plans)
      ensures forall t :: t in old(heap.root) ==> t in heap.root
      ensures forall t :: t in heap.root ==> t in old(heap.root) || t in list
    {
      hide Agree, AllCounted, IsHeap, Timer.Counted, Timer.Goes, Times, Run, Rearmings, AfterAdding;
      assert list[0..] == list;
      NothingRearmed(Times(heap.root), plans, clock);
      ghost var s := Times(heap.root);
      RearmingsKeepHeap(s, plans, clock, |list|);
      FireLoop(list, clock, plans);
      NoneLeftToFire(heap.root, list);
    }

    method FireLoop(list: seq<Timer>, clock: nat -> int, ghost plans: seq<Plan>)
      requires heap.heapSize == |heap.root| && plans == Plans(list) && Refilled(heap.root, list, plans, 0, heap.root)
      requires Agree(multiset(heap.root) + multiset(list[0..]), active) && AllCounted(active)
      requires forall i, j :: 0 <= i < j < |list| ==> list[i] != list[j]
      requires Times(heap.root) == Run(Times(heap.root), Rearmings(plans, clock, 0))
      modifies this`active, heap, set t | t in list
      ensures heap.heapSize == |heap.root|
      ensures Agree(multiset(heap.root) + multiset(list[|list|..]), active) && AllCounted(active)
      ensures Refilled(old(heap.root), list, plans, |list|, heap.root)
      ensures Times(heap.root) == Run(old(Times(heap.root)), Rearmings(plans, clock, |list|))
      ensures forall j :: 0 <= j < |list| ==> FiredAs(list[j], plans[j], clock(j))
    {
      hide Agree, AllCounted, Ordered, Timer.Counted, Timer.Goes, Times, Run, Rearmings, AfterAdding, Refilled, Rearmed;
      var i := 0;
      while i < |list|
        invariant 0 <= i <= |list| && heap.heapSize == |heap.root|
        invariant Times(heap.root) == Run(old(Times(heap.root)), Rearmings(plans, clock, i))
        invariant Agree(multiset(heap.root) + multiset(list[i..]), active) && AllCounted(active)
        invariant Refilled(old(heap.root), list, plans, i, heap.root)
        invariant forall j :: i <= j < |list| ==> PlanOf(list[j]) == plans[j]
        invariant forall j :: 0 <= j < i ==> FiredAs(list[j], plans[j], clock(j))
      {
        ghost var before := heap.root;
        NextIsOut(old(heap.root), list, plans, i, heap.root);
        FireNext(list, i, clock(i), plans[i]);
        OneMoreRefilled(old(heap.root), list, plans, i, before, heap.root);
        OneMoreRearmed(old(Times(heap.root)), plans, clock, i);
        i := i + 1;
      }
    }

    /** The first half of expire_all: what is due leaves the heap, and nothing else has changed. */
    method TakeDue(now: int) returns (list: seq<Timer>)
      requires Valid()
      modifies heap
      ensures heap.heapSize == |heap.root| && nextIndex >= 0
      ensures Agree(multiset(heap.root) + multiset(list), active) && AllCounted(active)
      ensures Parted(old(heap.root), heap.root, list)
      ensures AllDue(list, now) && TakenFrom(old(Times(heap.root)), heap.root, list, now)
      ensures list == [] <==> old(heap.root) == [] || old(heap.root)[0].expireTime >= now
      ensures list == [] ==> heap.root == old(heap.root)
      ensures FewLeft(old(Times(heap.root)), AllTaken(old(heap.root), list, now), now)
      ensures old(Ordered()) ==> (Ordered() <==> LastTurnClean(old(Times(heap.root)), |old(heap.root)|, now))
    {
      hide Agree, AllCounted, IsHeap, Times, Timer.Counted, LastTurnClean, TakenFrom, NoneIsDue, AllTaken, Waiting, Parted, AllDue;
      ghost var all := heap.root;
      list := heap.GetAndRemoveExpireTimers(now);
      NoneTwice(all, heap.root, list, active);
      NoneLeftMeansAllTaken(all, heap.root, list, now);
    }

    /** expire_all up to the setting of the kernel's timer; nothing happens when the heap gives out no timer. */
    method ExpireDue(now: int, clock: nat -> int)
      returns (some: bool, ghost due: seq<Timer>, ghost left: seq<Timer>, ghost plans: seq<Plan>)
      requires Valid()
      modifies this`active, heap, set t | t in heap.root
      ensures Valid()
      ensures !some <==> old(heap.root) == [] || old(heap.root[0].expireTime) >= now
      ensures Parted(old(heap.root), left, due)
      ensures forall t :: t in left ==> t in heap.root && unchanged(t)
      ensures forall t :: t in heap.root ==> t in old(heap.root)
      ensures Planned(old(heap.root), due, plans, now) && AllFired(due, heap.root, clock, plans)
      ensures Times(left) == LeftTimes(old(Times(heap.root)), now)
      ensures Times(heap.root) == Run(old(Times(heap.root)), [EXPIRE(now)] + Rearmings(plans, clock, |plans|))
      ensures FewLeft(old(Times(heap.root)), AllTakenOf(old(heap.root), due, now), now)
      ensures old(Ordered()) && LastTurnClean(old(Times(heap.root)), |old(heap.root)|, now) ==> Ordered()
    {
      hide Agree, AllCounted, IsHeap, Timer.Counted, Timer.Goes, LastTurnClean, Times, TakenFrom, NoneIsDue, Waiting, Run, LeftTimes, FewLeft, Rearmings;
      ghost var s := Times(heap.root);
      var list := TakeDue(now);
      due, left, plans := list, heap.root, Plans(list);
      TakenLeaves(s, left, due, now);
      ExpiredRun(s, now, Rearmings(plans, clock, |plans|));
      if list == [] {
        NothingRearmed(Times(left), plans, clock);
        return false, due, left, plans;
      }
      FireAll(list, clock, plans);
      some := true;
    }

    /**
     * Runs the callbacks of the timers that the heap gives out as due, once each: those with rounds to go are armed
     * again, and the others are dropped, having fired as often as they were to. clock gives the times that the
     * timers read when they are armed again; `left` is what the heap holds before any of them comes back. The kernel's
     * timer is set for the first timer then.
     */
    method ExpireAll(now: int, clock: nat -> int)
      returns (outcome: Expiry, ghost due: seq<Timer>, ghost left: seq<Timer>, ghost plans: seq<Plan>)
      requires Valid()
      modifies this`active, heap, kernel, set t | t in heap.root
      ensures Valid()
      ensures outcome == ASSERTION_FAILED <==> old(heap.root) == [] || old(heap.root[0].expireTime) >= now
      ensures outcome != ASSERTION_FAILED ==> outcome == DONE(if heap.root != [] && kernel.failed then -1 else 0)
      ensures kernel.asked == old(kernel.asked) + if outcome.DONE? && heap.root != [] then [heap.root[0].expireTime] else []
      ensures outcome == DONE(0) ==> InTime()
      ensures outcome != DONE(0) || heap.root == [] ==> kernel.armed == old(kernel.armed)
      ensures Parted(old(heap.root), left, due)
      ensures forall t :: t in left ==> t in heap.root && unchanged(t)
      ensures forall t :: t in heap.root ==> t in old(heap.root)
      ensures Planned(old(heap.root), due, plans, now) && AllFired(due, heap.root, clock, plans)
      ensures Times(left) == LeftTimes(old(Times(heap.root)), now)
      ensures Times(heap.root) == Run(old(Times(heap.root)), [EXPIRE(now)] + Rearmings(plans, clock, |plans|))
      ensures FewLeft(old(Times(heap.root)), AllTakenOf(old(heap.root), due, now), now)
      ensures old(Ordered()) && LastTurnClean(old(Times(heap.root)), |old(heap.root)|, now) ==> Ordered()
    {
      hide *;
      var some;
      some, due, left, plans := ExpireDue(now, clock);
      if !some {
        return ASSERTION_FAILED, due, left, plans;
      }
      var code := ArmForFirst();
      outcome := DONE(code);
    }
  }
}
