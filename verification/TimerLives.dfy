/** The life of a single timer while the event loop calls expire_all again and again. */
module TimerLives {
  import opened Options
  import opened SortOrder
  import opened HeapSort
  import opened TimerHeaps
  import opened DueTimers
  import opened TimerRuns
  import opened TimerManagers

  /** A timer before the first expiration; `left` is how many rounds it has to go. */
  datatype Start = Start(expire: int, interval: int, kind: Kind, index: int, left: int)

  ghost function StartOf(t: Timer): Start
    reads t
  {
    Start(t.expireTime, t.intervalTime, t.kind, t.index, t.granted - t.fired)
  }

  ghost function Starts(list: seq<Timer>): (starts: seq<Start>)
    reads list
    ensures |starts| == |list| && forall i :: 0 <= i < |list| ==> starts[i] == StartOf(list[i])
  {
    seq(|list|, i requires 0 <= i < |list| reads list => StartOf(list[i]))
  }

  /** One firing: in which expiration, at which time that was called, and what the clock said after the callback. */
  datatype Firing = Firing(round: nat, now: int, reading: int)

  /** When the timer is due after the first i firings: a firing arms it again for the clock's reading and its interval. */
  function DueAt(s: Start, h: seq<Firing>, i: nat): int
    requires i <= |h|
  {
    if i == 0 then s.expire else h[i - 1].reading + s.interval
  }

  function DueAfter(s: Start, h: seq<Firing>): int {
    DueAt(s, h, |h|)
  }

  /** It never fires before it is due, and at most once in each expiration. */
  ghost predicate Punctual(s: Start, h: seq<Firing>) {
    NeverEarly(s, h) && Ascending(h)
  }

  ghost predicate NeverEarly(s: Start, h: seq<Firing>) {
    forall i {:trigger DueAt(s, h, i)} :: 0 <= i < |h| ==> DueAt(s, h, i) < h[i].now
  }

  ghost predicate Ascending(h: seq<Firing>) {
    forall i, j {:trigger h[i], h[j]} :: 0 <= i < j < |h| ==> h[i].round < h[j].round
  }

  /** The firings took place in the first n expirations. */
  ghost predicate Within(h: seq<Firing>, nows: seq<int>, n: nat) {
    forall i {:trigger h[i]} :: 0 <= i < |h| ==> h[i].round < n && h[i].round < |nows| && h[i].now == nows[h[i].round]
  }

  /** After the firings h, rounds are left. */
  predicate GoesOn(s: Start, h: seq<Firing>) {
    s.kind == UNLIMIT || |h| < s.left
  }

  /** The timer is as at its start but for its firings and, as long as rounds are left, for its next time. */
  ghost predicate Lived(t: Timer, s: Start, h: seq<Firing>)
    reads t
  {
    && t.intervalTime == s.interval && t.kind == s.kind && t.index == s.index && t.granted - t.fired == s.left - |h|
    && Punctual(s, h)
    && (GoesOn(s, h) ==> t.expireTime == DueAfter(s, h))
    && (s.kind == UNLIMIT || |h| <= s.left)
  }

  /** What Lived says of a timer with rounds left, in terms of its plan and its time. */
  ghost predicate Ready(plan: Plan, expire: int, s: Start, h: seq<Firing>) {
    && plan.interval == s.interval && plan.kind == s.kind && plan.index == s.index && plan.granted - plan.fired == s.left - |h|
    && Punctual(s, h) && expire == DueAfter(s, h) && GoesOn(s, h)
    && (plan.goes <==> s.kind == UNLIMIT || |h| + 1 < s.left)
  }

  lemma WaitingIsReady(t: Timer, s: Start, h: seq<Firing>)
    requires Lived(t, s, h) && GoesOn(s, h) && t.Counted()
    ensures Ready(PlanOf(t), t.expireTime, s, h)
  {
  }

  lemma PunctualOn(s: Start, h: seq<Firing>, f: Firing)
    requires Punctual(s, h) && DueAfter(s, h) < f.now && forall i :: 0 <= i < |h| ==> h[i].round < f.round
    ensures Punctual(s, h + [f]) && DueAfter(s, h + [f]) == f.reading + s.interval
  {
    var more := h + [f];
    forall i | 0 <= i < |more|
      ensures DueAt(s, more, i) < more[i].now
    {
      SameDue(s, h, f, i);
    }
    AscendingOn(h, f);
  }

  lemma SameDue(s: Start, h: seq<Firing>, f: Firing, i: nat)
    requires i <= |h|
    ensures DueAt(s, h + [f], i) == DueAt(s, h, i) && (h + [f])[i] == if i < |h| then h[i] else f
  {
  }

  lemma AscendingOn(h: seq<Firing>, f: Firing)
    requires Ascending(h) && forall i :: 0 <= i < |h| ==> h[i].round < f.round
    ensures Ascending(h + [f])
  {
  }

  lemma LivesOn(t: Timer, plan: Plan, expire: int, s: Start, h: seq<Firing>, f: Firing)
    requires Ready(plan, expire, s, h) && expire < f.now && FiredAs(t, plan, f.reading)
    requires forall i :: 0 <= i < |h| ==> h[i].round < f.round
    ensures Lived(t, s, h + [f]) && (GoesOn(s, h + [f]) <==> plan.goes)
  {
    hide Punctual, DueAfter;
    PunctualOn(s, h, f);
  }

  lemma WithinMore(h: seq<Firing>, nows: seq<int>, n: nat, f: Firing)
    requires Within(h, nows, n) && n < |nows| && f.round == n && f.now == nows[n]
    ensures Within(h + [f], nows, n + 1) && Within(h, nows, n + 1)
    ensures forall i :: 0 <= i < |h| ==> h[i].round < f.round
  {
  }

  lemma StillWithin(h: seq<Firing>, nows: seq<int>, n: nat)
    requires Within(h, nows, n)
    ensures Within(h, nows, n + 1)
  {
  }

  /** Every timer of the list has lived up to now, and those in the heap are among them. */
  ghost predicate AllLived(all: seq<Timer>, root: seq<Timer>, starts: seq<Start>, lives: seq<seq<Firing>>, nows: seq<int>, n: nat)
    reads all
  {
    && |starts| == |lives| == |all|
    && (forall t :: t in root ==> t in all)
    && (forall i :: 0 <= i < |all| ==> Within(lives[i], nows, n))
    && (forall i :: 0 <= i < |all| ==> Lived(all[i], starts[i], lives[i]))
    && (forall i :: 0 <= i < |all| ==> (all[i] in root <==> GoesOn(starts[i], lives[i])))
  }

  ghost predicate AllReady(all: seq<Timer>, root: seq<Timer>, starts: seq<Start>, lives: seq<seq<Firing>>)
    reads all
  {
    && |starts| == |lives| == |all|
    && forall i :: 0 <= i < |all| ==> all[i] in root ==> Ready(PlanOf(all[i]), all[i].expireTime, starts[i], lives[i])
  }

  lemma InHeapCounted(mgr: TimerManager, t: Timer)
    requires mgr.Valid() && t in mgr.heap.root
    ensures t.Counted()
  {
    hide Timer.Counted;
    assert t in multiset(mgr.heap.root);
    var k := t.index;
    assert k in mgr.active && mgr.active[k] == t;
    assert forall i :: i in mgr.active ==> mgr.active[i].Counted();
    assert mgr.active[k].Counted();
  }

  lemma AllAreReady(mgr: TimerManager, all: seq<Timer>, starts: seq<Start>, lives: seq<seq<Firing>>, nows: seq<int>, n: nat)
    requires mgr.Valid() && AllLived(all, mgr.heap.root, starts, lives, nows, n)
    ensures AllReady(all, mgr.heap.root, starts, lives)
  {
    hide Ready, Lived, Timer.Counted, Within;
    forall i | 0 <= i < |all| && all[i] in mgr.heap.root
      ensures Ready(PlanOf(all[i]), all[i].expireTime, starts[i], lives[i])
    {
      InHeapCounted(mgr, all[i]);
      WaitingIsReady(all[i], starts[i], lives[i]);
    }
  }

  /** A timer waiting before the expiration has fired, with that reading of the clock, or nothing has happened to it. */
  twostate predicate FiredOrNot(t: Timer, new readings: map<Timer, int>, now: int, new root: seq<Timer>)
    reads t
  {
    if t in readings
    then old(t.expireTime) < now && FiredAs(t, old(PlanOf(t)), readings[t]) && (t in root <==> old(PlanOf(t).goes))
    else unchanged(t) && t in root
  }

  /** The clock's readings for the timers given out. */
  ghost function Readings(due: seq<Timer>, clock: nat -> int): (r: map<Timer, int>)
    requires forall i, j :: 0 <= i < j < |due| ==> due[i] != due[j]
    ensures r.Keys == set t | t in due
    ensures forall j {:trigger due[j]} :: 0 <= j < |due| ==> r[due[j]] == clock(j)
  {
    if due == [] then map[]
    else
      var k := |due| - 1;
      Readings(due[..k], clock)[due[k] := clock(k)]
  }

  method ExpireEach(mgr: TimerManager, now: int, clock: nat -> int) returns (outcome: Expiry, ghost readings: map<Timer, int>)
    requires mgr.Valid()
    modifies mgr`active, mgr.heap, mgr.kernel, set t | t in mgr.heap.root
    ensures mgr.Valid() && forall t :: t in mgr.heap.root ==> t in old(mgr.heap.root)
    ensures forall t :: t in old(mgr.heap.root) ==> FiredOrNot(t, readings, now, mgr.heap.root)
    ensures forall t :: t in readings ==> t in old(mgr.heap.root) && exists j {:trigger clock(j)} :: readings[t] == clock(j)
    ensures outcome == ASSERTION_FAILED <==> old(mgr.heap.root) == [] || old(mgr.heap.root[0].expireTime) >= now
    ensures outcome != ASSERTION_FAILED ==> outcome == DONE(if mgr.heap.root != [] && mgr.kernel.failed then -1 else 0)
    ensures outcome == DONE(0) ==> mgr.InTime()
    ensures outcome != DONE(0) || mgr.heap.root == [] ==> mgr.kernel.armed == old(mgr.kernel.armed)
  {
    hide Agree, AllCounted, Times, FewLeft, Timer.Counted, Timer.Goes, FiredAs, LeftTimes, Run, Rearmings;
    hide IsHeap, LastTurnClean;
    ghost var due, left, plans;
    outcome, due, left, plans := mgr.ExpireAll(now, clock);
    readings := Readings(due, clock);
    forall t | t in old(mgr.heap.root)
      ensures FiredOrNot(t, readings, now, mgr.heap.root)
    {
      if t in due {
        var j :| 0 <= j < |due| && due[j] == t;
        assert FiredAs(due[j], plans[j], clock(j));
      } else {
        assert t in left;
      }
    }
  }

  /** The firings of t with the one that has been added to them. */
  ghost function Longer(h: seq<Firing>, t: Timer, readings: map<Timer, int>, n: nat, now: int): seq<Firing> {
    if t in readings then h + [Firing(n, now, readings[t])] else h
  }

  /** What has become of the timer: it has fired, or it is as it was. */
  ghost predicate Went(t: Timer, plan: Plan, expire: int, s: Start, h: seq<Firing>, readings: map<Timer, int>, root: seq<Timer>, now: int)
    reads t
  {
    if t in readings
    then Ready(plan, expire, s, h) && expire < now && FiredAs(t, plan, readings[t]) && (t in root <==> plan.goes)
    else Lived(t, s, h) && (t in root <==> GoesOn(s, h))
  }

  lemma LifeGoesOn(t: Timer, plan: Plan, expire: int, s: Start, h: seq<Firing>, readings: map<Timer, int>, root: seq<Timer>, nows: seq<int>, n: nat, now: int)
    requires Went(t, plan, expire, s, h, readings, root, now) && Within(h, nows, n) && n < |nows| && nows[n] == now
    ensures var more := Longer(h, t, readings, n, now);
      Within(more, nows, n + 1) && Lived(t, s, more) && (t in root <==> GoesOn(s, more))
  {
    hide Lived, FiredAs, PlanOf, Within;
    if t in readings {
      var f := Firing(n, now, readings[t]);
      WithinMore(h, nows, n, f);
      LivesOn(t, plan, expire, s, h, f);
    } else {
      StillWithin(h, nows, n);
    }
  }

  ghost function AllLonger(all: seq<Timer>, lives: seq<seq<Firing>>, readings: map<Timer, int>, n: nat, now: int): (more: seq<seq<Firing>>)
    requires |lives| == |all|
    ensures |more| == |all| && forall i :: 0 <= i < |all| ==> more[i] == Longer(lives[i], all[i], readings, n, now)
  {
    seq(|all|, i requires 0 <= i < |all| => Longer(lives[i], all[i], readings, n, now))
  }

  ghost predicate AllWent(all: seq<Timer>, plans: seq<Plan>, expires: seq<int>, starts: seq<Start>, lives: seq<seq<Firing>>,
                          readings: map<Timer, int>, root: seq<Timer>, now: int)
    reads all
  {
    && |plans| == |expires| == |starts| == |lives| == |all|
    && forall i :: 0 <= i < |all| ==> Went(all[i], plans[i], expires[i], starts[i], lives[i], readings, root, now)
  }

  lemma AllGoOn(all: seq<Timer>, plans: seq<Plan>, expires: seq<int>, starts: seq<Start>, lives: seq<seq<Firing>>,
                readings: map<Timer, int>, root: seq<Timer>, nows: seq<int>, n: nat, now: int)
    requires AllWent(all, plans, expires, starts, lives, readings, root, now) && n < |nows| && nows[n] == now
    requires (forall t :: t in root ==> t in all) && forall i :: 0 <= i < |all| ==> Within(lives[i], nows, n)
    ensures AllLived(all, root, starts, AllLonger(all, lives, readings, n, now), nows, n + 1)
  {
    hide Lived, Within, GoesOn, Longer, AllLonger, Went;
    forall i | 0 <= i < |all|
      ensures var more := Longer(lives[i], all[i], readings, n, now);
        Within(more, nows, n + 1) && Lived(all[i], starts[i], more) && (all[i] in root <==> GoesOn(starts[i], more))
    {
      LifeGoesOn(all[i], plans[i], expires[i], starts[i], lives[i], readings, root, nows, n, now);
    }
  }

  /** One expiration, as an addition to the firings of those timers that have been given out. */
  method Expire(mgr: TimerManager, now: int, clock: nat -> int, ghost all: seq<Timer>, ghost starts: seq<Start>,
                ghost lives: seq<seq<Firing>>, ghost nows: seq<int>, ghost n: nat)
    returns (outcome: Expiry, ghost more: seq<seq<Firing>>)
    requires mgr.Valid() && AllLived(all, mgr.heap.root, starts, lives, nows, n) && n < |nows| && nows[n] == now
    modifies mgr`active, mgr.heap, mgr.kernel, set t | t in all
    ensures mgr.Valid() && AllLived(all, mgr.heap.root, starts, more, nows, n + 1)
    ensures outcome == ASSERTION_FAILED <==> old(mgr.heap.root) == [] || old(mgr.heap.root[0].expireTime) >= now
    ensures outcome != ASSERTION_FAILED ==> outcome == DONE(if mgr.heap.root != [] && mgr.kernel.failed then -1 else 0)
    ensures outcome == DONE(0) ==> mgr.InTime()
    ensures outcome != DONE(0) || mgr.heap.root == [] ==> mgr.kernel.armed == old(mgr.kernel.armed)
  {
    AllAreReady(mgr, all, starts, lives, nows, n);
    hide Lived, Ready, Within, TimerManager.Valid, GoesOn, Longer, AllLonger, FiredAs, PlanOf;
    ghost var readings, plans, expires := map[], Plans(all), Times(all);
    outcome, readings := ExpireEach(mgr, now, clock);
    more := AllLonger(all, lives, readings, n, now);
    forall i | 0 <= i < |all|
      ensures Went(all[i], plans[i], expires[i], starts[i], lives[i], readings, mgr.heap.root, now)
    {
      assert all[i] in old(mgr.heap.root) ==> FiredOrNot(all[i], readings, now, mgr.heap.root);
    }
    AllGoOn(all, plans, expires, starts, lives, readings, mgr.heap.root, nows, n, now);
  }

  lemma NothingFired(mgr: TimerManager, nows: seq<int>) returns (lives: seq<seq<Firing>>)
    requires mgr.Valid()
    ensures AllLived(mgr.heap.root, mgr.heap.root, Starts(mgr.heap.root), lives, nows, 0)
  {
    hide Timer.Counted;
    var all := mgr.heap.root;
    lives := seq(|all|, i => []);
    forall i | 0 <= i < |all|
      ensures Lived(all[i], StartOf(all[i]), lives[i]) && GoesOn(StartOf(all[i]), lives[i])
    {
      InHeapCounted(mgr, all[i]);
      CountedGoesOn(all[i]);
    }
  }

  lemma CountedGoesOn(t: Timer)
    requires t.Counted()
    ensures Lived(t, StartOf(t), []) && GoesOn(StartOf(t), [])
  {
  }

  lemma OneMoreNow(all: seq<Timer>, root: seq<Timer>, starts: seq<Start>, lives: seq<seq<Firing>>, nows: seq<int>, now: int)
    requires AllLived(all, root, starts, lives, nows, |nows|)
    ensures AllLived(all, root, starts, lives, nows + [now], |nows|)
  {
    hide Lived, GoesOn;
    forall i | 0 <= i < |lives|
      ensures Within(lives[i], nows + [now], |nows|)
    {
      assert Within(lives[i], nows, |nows|);
    }
  }

  /** The kernel's timer is set for the first timer waiting, unless setting it has failed; it is not set for nothing. */
  ghost predicate Watching(mgr: TimerManager)
    reads mgr, mgr.heap, mgr.kernel, mgr.heap.root, set k | k in mgr.active :: mgr.active[k]
  {
    && mgr.Valid() && (mgr.kernel.armed.Some? ==> mgr.heap.root != [])
    && (mgr.InTime() || (mgr.kernel.failed && mgr.kernel.armed == None))
  }

  /** The kernel's timer goes off, and an expiration follows. */
  method WakeUp(mgr: TimerManager, late: nat, clock: nat -> int, ghost all: seq<Timer>, ghost starts: seq<Start>,
                ghost lives: seq<seq<Firing>>, ghost nows: seq<int>)
    returns (aborted: bool, ghost now: int, ghost more: seq<seq<Firing>>)
    requires Watching(mgr) && mgr.kernel.armed.Some? && AllLived(all, mgr.heap.root, starts, lives, nows, |nows|)
    modifies mgr`active, mgr.heap, mgr.kernel, set t | t in all
    ensures mgr.Valid() && AllLived(all, mgr.heap.root, starts, more, nows + [now], |nows| + 1)
    ensures aborted <==> late == 0
    ensures !aborted ==> Watching(mgr)
  {
    hide AllLived, TimerManager.Valid;
    var time := mgr.kernel.armed.value + late;
    now := time;
    mgr.kernel.GoOff(time);
    OneMoreNow(all, mgr.heap.root, starts, lives, nows, time);
    var outcome;
    outcome, more := Expire(mgr, time, clock, all, starts, lives, nows + [time], |nows|);
    aborted := outcome == ASSERTION_FAILED;
  }

  /** The last of the n wake-ups has come in the very microsecond that was set. */
  predicate OnTheDot(late: seq<nat>, n: nat) {
    0 < n <= |late| && late[n - 1] == 0
  }

  lemma LastOnTheDot(late: seq<nat>, n: nat)
    requires n < |late|
    ensures OnTheDot(late, n + 1) <==> late[n] == 0
  {
  }

  /**
   * The event loop: whenever the kernel's timer goes off, late[n] after its time, one expiration follows. As long as
   * nobody changes a timer meanwhile, its assertion fails only for a wake-up in the very microsecond that was set, and
   * the loop ends only when the kernel's timer is not armed any more. lives[i] are the firings of the timer that was
   * at i in the heap: it has fired only when due, the next time its interval after the clock's reading at the last one,
   * and as often as its rounds allow; then it is dropped.
   */
  method EventLoop(mgr: TimerManager, late: seq<nat>, clocks: seq<nat -> int>)
    returns (aborted: bool, n: nat, ghost nows: seq<int>, ghost lives: seq<seq<Firing>>)
    requires Watching(mgr) && |clocks| == |late|
    modifies mgr`active, mgr.heap, mgr.kernel, set t | t in mgr.heap.root
    ensures mgr.Valid() && n == |nows| <= |late|
    ensures aborted <==> OnTheDot(late, n)
    ensures !aborted ==> Watching(mgr) && (n < |late| ==> mgr.kernel.armed == None)
    ensures AllLived(old(mgr.heap.root), mgr.heap.root, old(Starts(mgr.heap.root)), lives, nows, |nows|)
  {
    ghost var all, starts := mgr.heap.root, Starts(mgr.heap.root);
    lives := NothingFired(mgr, []);
    assert Watching(mgr) && mgr.Valid() && !OnTheDot(late, 0);
    hide *;
    n, nows, aborted := 0, [], false;
    while n < |late| && mgr.kernel.armed.Some?
      invariant n == |nows| <= |late| && mgr.Valid() && Watching(mgr) && !OnTheDot(late, n)
      invariant AllLived(all, mgr.heap.root, starts, lives, nows, |nows|)
    {
      ghost var now;
      aborted, now, lives := WakeUp(mgr, late[n], clocks[n], all, starts, lives, nows);
      LastOnTheDot(late, n);
      nows, n := nows + [now], n + 1;
      if aborted {
        return;
      }
    }
  }

  /** It has fired at most n times and waits just as long as it has fired less often; a count of 0 has no end. */
  ghost predicate FiresByCount(h: seq<Firing>, count: int, waiting: bool) {
    && (count > 0 ==> |h| <= count && (waiting <==> |h| < count))
    && (count == 0 ==> waiting)
    && (count < 0 ==> |h| <= 1 && (waiting <==> h == []))
  }

  /** From first to last: due at `first`, it fires after that, and each time again after its interval from the last reading. */
  ghost predicate KeepsPace(h: seq<Firing>, first: int, interval: int) {
    forall i {:trigger h[i].now} :: 0 <= i < |h| ==> (if i == 0 then first else h[i - 1].reading + interval) < h[i].now
  }

  lemma LifeByCount(t: Timer, s: Start, h: seq<Firing>, count: int, waiting: bool)
    requires Lived(t, s, h) && (waiting <==> GoesOn(s, h))
    requires (s.kind == UNLIMIT <==> count == 0) && (count > 0 ==> s.left == count) && (count < 0 ==> s.left == 1)
    ensures FiresByCount(h, count, waiting) && KeepsPace(h, s.expire, s.interval)
  {
    forall i | 0 <= i < |h|
      ensures (if i == 0 then s.expire else h[i - 1].reading + s.interval) < h[i].now
    {
      assert DueAt(s, h, i) < h[i].now;
    }
  }

  /** A timer is added to any manager with a count and an interval, and the event loop goes on from there. */
  method AddAndExpire(mgr: TimerManager, sec: int, usec: int, count: int, now: int, late: seq<nat>, clocks: seq<nat -> int>)
    returns (tmr: Timer?, n: nat, ghost nows: seq<int>, ghost fired: seq<Firing>)
    requires mgr.Valid() && mgr.InTime() && |clocks| == |late| && sec >= 0 && usec >= 0
    modifies mgr, mgr.heap, mgr.kernel, set t | t in mgr.heap.root
    ensures tmr == null ==> mgr.kernel.failed
    ensures tmr != null ==> mgr.Valid() && fresh(tmr) && n == |nows| <= |late|
    ensures tmr != null ==> FiresByCount(fired, count, tmr in mgr.heap.root) && Within(fired, nows, |nows|)
    ensures tmr != null ==> KeepsPace(fired, now + sec * 1000000 + usec, sec * 1000000 + usec)
  {
    hide Lived, TimerManager.Valid, TimerManager.Ordered, GoesOn, Within, FiresByCount, KeepsPace, Agree, AllCounted, Times;
    ghost var before := mgr.heap.root;
    tmr, n, nows, fired := null, 0, [], [];
    var index := mgr.AddTimer(sec, usec, count, now);
    if index == -1 {
      return;
    }
    tmr := mgr.active[index];
    OneMore(before, tmr, mgr.heap.root);
    ghost var at := PlaceOf(mgr, index);
    ghost var start, lives := StartOf(tmr), [];
    var aborted;
    aborted, n, nows, lives := EventLoop(mgr, late, clocks);
    fired := lives[at];
    LifeByCount(tmr, start, fired, count, tmr in mgr.heap.root);
  }

  lemma PlaceOf(mgr: TimerManager, index: int) returns (at: nat)
    requires mgr.Valid() && index in mgr.active
    ensures at < |mgr.heap.root| && mgr.heap.root[at] == mgr.active[index]
  {
    InBag(multiset(mgr.heap.root), mgr.active, index);
    var t := mgr.active[index];
    assert t in mgr.heap.root;
    at :| 0 <= at < |mgr.heap.root| && mgr.heap.root[at] == t;
  }
}
