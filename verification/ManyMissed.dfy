/**
 * How many due timers an expiration can leave behind once the heap order is lost: as many as one likes. The runs
 * build a complete tree whose right edge alone is due, and move due timers to leaves on the left by deleting these.
 */
module ManyMissed {
  import opened SortOrder
  import opened HeapSort
  import opened TimerHeaps
  import opened DueTimers
  import opened TimerRuns

  function Pow(d: nat): (p: nat)
    ensures p > 0
  {
    if d == 0 then 1 else 2 * Pow(d - 1)
  }

  lemma {:induction false} PowIsLarge(d: nat)
    ensures Pow(d + 2) >= d + 4
  {
    if d > 0 {
      PowIsLarge(d - 1);
    }
  }

  /** The child of the root that the position is under. */
  function Side(p: nat): nat {
    if p <= 2 then p else Side(Parent(p))
  }

  lemma {:induction false} LevelSide(d: nat, p: nat)
    requires d > 0 && Pow(d) - 1 <= p < 2 * Pow(d) - 1
    ensures Side(p) == if p < Pow(d) - 1 + Pow(d - 1) then 1 else 2
  {
    if d > 1 {
      LevelSide(d - 1, Parent(p));
    }
  }

  function Nines(n: nat): (s: seq<int>)
    ensures |s| == n && forall i :: 0 <= i < n ==> s[i] == 9
  {
    seq(n, _ => 9)
  }

  /** A complete tree with 0 at the root and along the right edge and 9 everywhere else. */
  function Edge(d: nat): (s: seq<int>)
    ensures |s| == 2 * Pow(d) - 1
    ensures forall i :: 0 <= i < |s| ==> s[i] == 0 || s[i] == 9
    ensures s[0] == 0 && s[|s| - 1] == 0
  {
    if d == 0 then [0] else Edge(d - 1) + Nines(Pow(d) - 1) + [0]
  }

  lemma EdgeAt(d: nat, i: nat)
    requires d > 0 && i < 2 * Pow(d) - 1
    ensures Edge(d)[i] == if i < Pow(d) - 1 then Edge(d - 1)[i] else if i < 2 * Pow(d) - 2 then 9 else 0
  {
  }

  predicate ChildLater(s: seq<int>, j: nat) {
    0 < j < |s| ==> s[j] >= s[Parent(j)]
  }

  lemma {:induction false} EdgeOrdered(d: nat, j: nat)
    ensures ChildLater(Edge(d), j)
  {
    hide Edge;
    if d > 0 && 0 < j < 2 * Pow(d) - 1 {
      EdgeAt(d, j);
      EdgeAt(d, Parent(j));
      if j < Pow(d) - 1 {
        EdgeOrdered(d - 1, j);
      } else if j == 2 * Pow(d) - 2 {
        assert Parent(j) == 2 * Pow(d - 1) - 2;
      }
    }
  }

  lemma EdgeIsHeap(d: nat)
    ensures IsHeap(Edge(d), |Edge(d)|)
  {
    hide Edge, Pow;
    var s := Edge(d);
    HeapOf(s, |s|);
    hide IsHeap;
    forall j | 0 < j < |s|
      ensures s[j] >= s[Parent(j)]
    {
      EdgeOrdered(d, j);
    }
  }

  // ----- How many are due -----

  lemma {:induction false} WaitingJoin(a: seq<int>, b: seq<int>, tm: int)
    ensures Waiting(a + b, tm) == Waiting(a, tm) + Waiting(b, tm)
  {
    if b == [] {
      assert a + b == a;
    } else {
      var n := |b| - 1;
      assert (a + b)[..|a + b| - 1] == a + b[..n];
      WaitingJoin(a, b[..n], tm);
    }
  }

  lemma {:induction false} WaitingBounds(s: seq<int>, tm: int)
    ensures Waiting(s, tm) <= |s|
    ensures (forall i :: 0 <= i < |s| ==> s[i] < tm) ==> Waiting(s, tm) == 0
    ensures (forall i :: 0 <= i < |s| ==> s[i] >= tm) ==> Waiting(s, tm) == |s|
  {
    if s != [] {
      var n := |s| - 1;
      WaitingBounds(s[..n], tm);
      assert forall i :: 0 <= i < n ==> s[..n][i] == s[i];
    }
  }

  lemma {:induction false} WaitingEdge(d: nat)
    ensures Waiting(Edge(d), 1) == |Edge(d)| - (d + 1)
  {
    WaitingBounds([0], 1);
    EdgeIs(d);
    hide Waiting, Edge, Nines;
    if d > 0 {
      WaitingEdge(d - 1);
      WaitingJoin(Edge(d - 1) + Nines(Pow(d) - 1), [0], 1);
      WaitingJoin(Edge(d - 1), Nines(Pow(d) - 1), 1);
      WaitingBounds(Nines(Pow(d) - 1), 1);
    }
  }

  lemma EdgeIs(d: nat)
    ensures Edge(d) == if d == 0 then [0] else Edge(d - 1) + Nines(Pow(d) - 1) + [0]
  {
  }

  /** The root, the m timers from first on and all behind n are due. */
  lemma DueMakesRoom(s: seq<int>, n: nat, first: nat, m: nat, tm: int)
    requires 0 < first && first + m <= n <= |s| && s[0] < tm
    requires forall j :: first <= j < first + m ==> s[j] < tm
    requires forall j :: n <= j < |s| ==> s[j] < tm
    ensures Waiting(s, tm) + m + 1 <= n
  {
    hide Waiting;
    var a, b, c, d, e := s[..1], s[1..first], s[first..first + m], s[first + m..n], s[n..];
    assert s == a + b + c + d + e;
    WaitingJoin(a + b + c + d, e, tm);
    WaitingJoin(a + b + c, d, tm);
    WaitingJoin(a + b, c, tm);
    WaitingJoin(a, b, tm);
    WaitingBounds(a, tm);
    WaitingBounds(b, tm);
    WaitingBounds(c, tm);
    WaitingBounds(d, tm);
    WaitingBounds(e, tm);
  }

  // ----- Moving due timers to leaves on the left -----

  /** The first m leaves are due as well. */
  function Broken(d: nat, m: nat): (s: seq<int>)
    requires d > 0 && m <= Pow(d - 1)
    ensures |s| == 2 * Pow(d) - 1
    ensures forall i :: 0 <= i < |s| ==> s[i] == if Pow(d) - 1 <= i < Pow(d) - 1 + m then 0 else Edge(d)[i]
    ensures Waiting(s, 1) == 2 * Pow(d) - 1 - (d + 1) - m
  {
    if m == 0 then WaitingEdge(d); Edge(d)
    else
      var at, t := Pow(d) - 2 + m, Broken(d, m - 1);
      EdgeAt(d, at);
      WaitingUpdated(t, at, 0, 1);
      t[at := 0]
  }

  function Breaks(d: nat, m: nat): seq<Op> {
    if m == 0 then [] else Breaks(d, m - 1) + [DELETE(Pow(d) - 2 + m)] + [ADD(0)]
  }

  lemma BreakOne(d: nat, m: nat)
    requires d > 0 && 0 < m <= Pow(d - 1)
    ensures Step(Step(Broken(d, m - 1), DELETE(Pow(d) - 2 + m)), ADD(0)) == Broken(d, m)
  {
    hide *;
    BrokenIs(d, m);
    BrokenEnds(d, m - 1);
    LeafExchanged(Broken(d, m - 1), Pow(d) - 2 + m);
  }

  lemma BrokenEnds(d: nat, m: nat)
    requires d > 0 && m < Pow(d - 1)
    ensures var s, at := Broken(d, m), Pow(d) - 1 + m;
      at < |s| - 1 && 2 * at + 1 >= |s| && s[|s| - 1] == 0 && s[Parent(|s| - 1)] == 0
  {
    hide Broken, Edge;
    EdgeAt(d, 2 * Pow(d) - 2);
    EdgeAt(d, Pow(d) - 2);
  }

  /** Deleting a leaf puts the last timer in its place, and a timer due at 0 comes to stand where that was. */
  lemma LeafExchanged(s: seq<int>, at: nat)
    requires at < |s| - 1 && 2 * at + 1 >= |s| && s[|s| - 1] == 0 && s[Parent(|s| - 1)] == 0
    ensures Step(Step(s, DELETE(at)), ADD(0)) == s[at := 0]
  {
    assert Parent(|s| - 1) != at;
    LeafDeleted(s, at);
    ZeroAdded(s[at := 0]);
  }

  lemma BrokenIs(d: nat, m: nat)
    requires d > 0 && 0 < m <= Pow(d - 1)
    ensures Broken(d, m) == Broken(d, m - 1)[Pow(d) - 2 + m := 0]
  {
  }

  /** Deleting a leaf puts the last timer in its place. */
  lemma LeafDeleted(s: seq<int>, at: nat)
    requires at < |s| - 1 && 2 * at + 1 >= |s| && s[|s| - 1] == 0
    ensures Step(s, DELETE(at)) == s[at := 0][..|s| - 1]
  {
    var n := |s| - 1;
    assert SiftDown(Exchanged(s, at, n), at, Front(n)) == Exchanged(s, at, n);
    assert Exchanged(s, at, n)[..n] == s[at := 0][..n];
  }

  /** A timer due at 0 stays at the end when its parent is due at 0. */
  lemma ZeroAdded(s: seq<int>)
    requires |s| > 1 && s[|s| - 1] == 0 && s[Parent(|s| - 1)] == 0
    ensures Step(s[..|s| - 1], ADD(0)) == s
  {
    var n := |s| - 1;
    assert s[..n] + [0] == s;
    assert SiftUp(s, n) == s;
  }

  lemma BreaksAre(d: nat, m: nat)
    requires d > 0 && m <= Pow(d - 1)
    ensures m == 0 ==> Breaks(d, m) == [] && Broken(d, m) == Edge(d)
    ensures m > 0 ==> Breaks(d, m) == Breaks(d, m - 1) + [DELETE(Pow(d) - 2 + m)] + [ADD(0)]
  {
  }

  lemma {:induction false} BrokenIsReached(d: nat, m: nat)
    requires d > 0 && m <= Pow(d - 1)
    ensures Run([], Adds(Edge(d)) + Breaks(d, m)) == Broken(d, m)
  {
    hide *;
    BreaksAre(d, m);
    var adds := Adds(Edge(d));
    if m == 0 {
      EdgeIsHeap(d);
      assert adds + [] == adds;
      HeapIsReached(Edge(d));
    } else {
      var before, x := adds + Breaks(d, m - 1), DELETE(Pow(d) - 2 + m);
      BrokenIsReached(d, m - 1);
      assert adds + Breaks(d, m) == before + [x] + [ADD(0)];
      RunSnoc([], before, x);
      RunSnoc([], before + [x], ADD(0));
      BreakOne(d, m);
    }
  }

  // ----- What the expiration does -----

  /** A sift-down on the right leaves everything else alone. */
  lemma {:induction false} SiftOnRight(s: seq<int>, k: nat, max: nat, p: nat)
    requires max <= |s| && Side(k) == 2 && p < |s| && Side(p) != 2
    ensures SiftDown(s, k, max)[p] == s[p]
    decreases max - k
  {
    if 2 * k + 1 < max {
      var i := Pick(s, k, max);
      assert Parent(i) == k && Side(i) == 2;
      if s[i] < s[k] {
        SiftOnRight(Exchanged(s, i, k), i, max, p);
      }
    }
  }

  /** Under a root that is not later than its left child the left side stays as it is. */
  lemma SiftFromRoot(s: seq<int>, max: nat, p: nat)
    requires max <= |s| && |s| > 1 && s[0] <= s[1] && p < |s| && Side(p) == 1
    ensures SiftDown(s, 0, max)[p] == s[p]
  {
    if 1 < max {
      var i := Pick(s, 0, max);
      if s[i] < s[0] {
        SiftOnRight(Exchanged(s, i, 0), 2, max, p);
      }
    }
  }

  /** n are left; the m leaves from first on are due, and what is behind w + m, among them the last, is on the right. */
  ghost predicate Draining(s: seq<int>, n: nat, first: nat, m: nat, w: nat) {
    && 1 < first && first + m <= w + m <= n <= |s| && Waiting(s, 1) == w
    && s[1] == 9 && (forall j :: 0 <= j < |s| ==> s[j] <= 9)
    && (forall j :: first <= j < first + m ==> s[j] < 1 && Side(j) == 1)
    && (forall j :: w + m <= j < |s| ==> Side(j) == 2)
    && (forall j :: n <= j < |s| ==> s[j] < 1)
  }

  lemma DrainTurn(s: seq<int>, n: nat, first: nat, m: nat, w: nat)
    requires Draining(s, n, first, m, w) && n > 0 && s[0] < 1 && first + m <= w + m
    ensures Draining(AfterTaking(s, n), n - 1, first, m, w)
  {
    DueMakesRoom(s, n, first, m, 1);
    var t, u := Exchanged(s, 0, n - 1), AfterTaking(s, n);
    TakingPermutes(s, n);
    WaitingExchanged(s, 0, n - 1, 1);
    WaitingSifted(t, 0, Front(n - 1), 1);
    assert Side(n - 1) == 2;
    forall p | 0 <= p < |s| && Side(p) == 1
      ensures u[p] == s[p]
    {
      SiftFromRoot(t, Front(n - 1), p);
    }
    NoneLarger(s, u, n);
  }

  lemma NoneLarger(s: seq<int>, t: seq<int>, n: nat)
    requires n <= |s| && RangePermuted(s, t, 0, n) && forall j :: 0 <= j < |s| ==> s[j] <= 9
    ensures forall j :: 0 <= j < |t| ==> t[j] <= 9
  {
    forall j | 0 <= j < n
      ensures t[j] <= 9
    {
      var k := RangeElement(s, t, 0, n, j);
    }
  }

  /** The leaves on the left are still there, and due, when the loop stops. */
  lemma {:induction false} Drained(s: seq<int>, n: nat, first: nat, m: nat, w: nat)
    requires Draining(s, n, first, m, w)
    ensures var r := TakeAll(s, n, 1); first + m <= r.1 && forall j :: first <= j < first + m ==> r.0[j] < 1
    decreases n
  {
    if n > 0 && s[0] < 1 {
      DrainTurn(s, n, first, m, w);
      Drained(AfterTaking(s, n), n - 1, first, m, w);
    }
  }

  lemma BrokenDrains(d: nat, m: nat)
    requires d > 1 && m <= Pow(d - 1) && d + 1 <= Pow(d - 1)
    ensures Draining(Broken(d, m), 2 * Pow(d) - 1, Pow(d) - 1, m, 2 * Pow(d) - 1 - (d + 1) - m)
  {
    forall j | Pow(d) - 1 <= j < 2 * Pow(d) - 1
      ensures Side(j) == if j < Pow(d) - 1 + Pow(d - 1) then 1 else 2
    {
      LevelSide(d, j);
    }
    LeftIsLate(d);
  }

  lemma {:induction false} LeftIsLate(d: nat)
    requires d > 0
    ensures Edge(d)[1] == 9
  {
    EdgeAt(d, 1);
    if d > 1 {
      LeftIsLate(d - 1);
    }
  }

  /** For every number there is a run of additions and deletions after which an expiration leaves that many due timers. */
  lemma ManyAreMissed(m: nat) returns (ops: seq<Op>, first: nat)
    ensures var s := Run([], ops); var r := TakeAll(s, |s|, 1);
      first + m <= r.1 && forall j :: first <= j < first + m ==> r.0[j] < 1
  {
    hide *;
    var d := m + 3;
    PowIsLarge(m);
    ops, first := Adds(Edge(d)) + Breaks(d, m), Pow(d) - 1;
    BrokenIsReached(d, m);
    BrokenDrains(d, m);
    Drained(Broken(d, m), 2 * Pow(d) - 1, first, m, 2 * Pow(d) - 1 - (d + 1) - m);
  }
}
