/**
 * Shell sort. A column of s for a gap h is the elements at positions p, p - h, p - 2h, ...;
 * one pass sorts every column by insertion, and the gaps halve down to 1.
 */
module ShellSort {
  import opened NumberTheory
  import opened SortOrder

  ghost predicate GapSorted(comp: Compare, s: seq<int>, h: nat) {
    forall i, j {:trigger Le(comp, s[i], s[j])} :: 0 <= i && j == i + h && j < |s| ==> Le(comp, s[i], s[j])
  }

  /** x has to stand before v. */
  ghost function Below(comp: Compare, v: int): int -> bool {
    x => comp(v, x)
  }

  // ----- Counting in columns -----

  /** How many elements at p, p - h, p - 2h, ... satisfy f. */
  ghost function CountColumn(s: seq<int>, p: int, h: nat, f: int -> bool): nat
    requires h > 0 && p < |s|
    decreases p
  {
    if p < 0 then 0 else (if f(s[p]) then 1 else 0) + CountColumn(s, p - h, h, f)
  }

  /** How many positions p, p - h, p - 2h, ... there are. */
  ghost function ColumnLength(p: int, h: nat): nat
    requires h > 0
    decreases p
  {
    if p < 0 then 0 else 1 + ColumnLength(p - h, h)
  }

  /** Every column of t holds the same elements as that column of s, each as often. */
  ghost predicate ColumnsPermuted(s: seq<int>, t: seq<int>, h: nat)
    requires h > 0
  {
    |t| == |s| &&
    forall top: nat, f: int -> bool {:trigger CountColumn(t, top, h, f)} ::
      top < |s| <= top + h ==> CountColumn(t, top, h, f) == CountColumn(s, top, h, f)
  }

  lemma {:induction false} CountUnchanged(s: seq<int>, t: seq<int>, p: int, h: nat, f: int -> bool)
    requires h > 0 && p < |s| == |t| && forall i :: 0 <= i <= p ==> s[i] == t[i]
    ensures CountColumn(s, p, h, f) == CountColumn(t, p, h, f)
    decreases p
  {
    if p >= 0 {
      CountUnchanged(s, t, p - h, h, f);
    }
  }

  /** Exchanging two neighbours of a column changes no column's counts. */
  lemma {:induction false} ExchangeKeepsColumn(s: seq<int>, j: nat, h: nat, top: int, f: int -> bool)
    requires 0 < h <= j < |s| && top < |s| && top != j - h
    ensures CountColumn(Exchanged(s, j - h, j), top, h, f) == CountColumn(s, top, h, f)
    decreases top
  {
    var t := Exchanged(s, j - h, j);
    if top == j {
      CountUnchanged(s, t, j - h - h, h, f);
      assert CountColumn(s, j - h, h, f) == (if f(s[j - h]) then 1 else 0) + CountColumn(s, j - h - h, h, f);
      assert CountColumn(t, j - h, h, f) == (if f(t[j - h]) then 1 else 0) + CountColumn(t, j - h - h, h, f);
    } else if top >= 0 {
      ExchangeKeepsColumn(s, j, h, top - h, f);
    }
  }

  lemma ExchangeKeepsColumns(s: seq<int>, t: seq<int>, h: nat, j: nat)
    requires 0 < h <= j < |t| && ColumnsPermuted(s, t, h)
    ensures ColumnsPermuted(s, Exchanged(t, j - h, j), h) && multiset(Exchanged(t, j - h, j)) == multiset(t)
  {
    forall top: nat, f: int -> bool | top < |s| <= top + h
      ensures CountColumn(Exchanged(t, j - h, j), top, h, f) == CountColumn(s, top, h, f)
    {
      ExchangeKeepsColumn(t, j, h, top, f);
    }
  }

  // ----- One pass does not undo an earlier one -----

  /** In a g-sorted sequence the column below p holds at most as many small elements as the one below p - g. */
  lemma {:induction false} ShiftColumn(comp: Compare, s: seq<int>, p: int, g: nat, h: nat, v: int)
    requires StrictWeakOrder(comp) && h > 0 && p < |s| && GapSorted(comp, s, g)
    ensures CountColumn(s, p, h, Below(comp, v)) + ColumnLength(p - g, h)
            <= CountColumn(s, p - g, h, Below(comp, v)) + ColumnLength(p, h)
    decreases p
  {
    var f := Below(comp, v);
    if p < 0 {
    } else if p < g {
      CountAtMostLength(s, p, h, f);
    } else {
      ShiftColumn(comp, s, p - h, g, h, v);
      assert Le(comp, v, s[p - g]) && Le(comp, s[p - g], s[p]) ==> Le(comp, v, s[p]);
    }
  }

  lemma {:induction false} CountAtMostLength(s: seq<int>, p: int, h: nat, f: int -> bool)
    requires h > 0 && p < |s|
    ensures CountColumn(s, p, h, f) <= ColumnLength(p, h)
    decreases p
  {
    if p >= 0 {
      CountAtMostLength(s, p - h, h, f);
    }
  }

  /** Along an h-sorted column, going up k steps. */
  lemma {:induction false} ColumnAscends(comp: Compare, s: seq<int>, p: nat, h: nat, q: nat, k: nat)
    requires StrictWeakOrder(comp) && h > 0 && GapSorted(comp, s, h) && q == p + k * h < |s|
    ensures Le(comp, s[p], s[q])
    decreases k
  {
    if k == 0 {
      assert Le(comp, s[p], s[p]);
    } else {
      assert (k - 1) * h == k * h - h;
      ColumnAscends(comp, s, p, h, q - h, k - 1);
      assert Le(comp, s[q - h], s[q]);
    }
  }

  /** All of the column below p is small if s[p] is. */
  lemma {:induction false} AllSmall(comp: Compare, s: seq<int>, p: int, h: nat, v: int)
    requires StrictWeakOrder(comp) && h > 0 && p < |s| && GapSorted(comp, s, h) && (p >= 0 ==> comp(v, s[p]))
    ensures CountColumn(s, p, h, Below(comp, v)) == ColumnLength(p, h)
    decreases p
  {
    if p >= 0 {
      if p >= h {
        assert Le(comp, v, s[p - h]) && Le(comp, s[p - h], s[p]) ==> Le(comp, v, s[p]);
      }
      AllSmall(comp, s, p - h, h, v);
    }
  }

  /** Above i, nothing in the column of i is smaller than s[i]; so the counts up to i and up to `top` agree. */
  lemma {:induction false} NoneSmallAbove(comp: Compare, s: seq<int>, i: nat, h: nat, top: nat, k: nat)
    requires StrictWeakOrder(comp) && h > 0 && GapSorted(comp, s, h) && top == i + k * h < |s|
    ensures CountColumn(s, top, h, Below(comp, s[i])) == CountColumn(s, i - h, h, Below(comp, s[i]))
    decreases k
  {
    ColumnAscends(comp, s, i, h, top, k);
    if k > 0 {
      assert (k - 1) * h == k * h - h;
      NoneSmallAbove(comp, s, i, h, top - h, k - 1);
    }
  }

  lemma {:induction false} CountGrows(s: seq<int>, p: int, h: nat, top: int, k: nat, f: int -> bool)
    requires h > 0 && top == p + k * h < |s|
    ensures CountColumn(s, p, h, f) <= CountColumn(s, top, h, f)
    decreases k
  {
    if k > 0 && top >= 0 {
      assert (k - 1) * h == k * h - h;
      CountGrows(s, p, h, top - h, k - 1, f);
    } else if k > 0 {
      assert k * h >= 0;
    }
  }

  /** Going up a column keeps the difference of two lengths that are g apart. */
  lemma {:induction false} LengthDifference(p: nat, g: nat, h: nat, k: nat)
    requires h > 0 && p >= g
    ensures ColumnLength(p + k * h, h) - ColumnLength(p + k * h - g, h) == ColumnLength(p, h) - ColumnLength(p - g, h)
    decreases k
  {
    if k > 0 {
      assert (k - 1) * h == k * h - h;
      LengthDifference(p, g, h, k - 1);
    }
  }

  /** The top position of the column of p. */
  lemma {:induction false} TopOf(p: nat, h: nat, n: nat) returns (top: nat, k: nat)
    requires h > 0 && p < n
    ensures top == p + k * h && top < n <= top + h
    decreases n - p
  {
    if p + h >= n {
      top, k := p, 0;
    } else {
      top, k := TopOf(p + h, h, n);
      k := k + 1;
      assert k * h == (k - 1) * h + h;
    }
  }

  /** Sorting the columns for h keeps a sequence g-sorted. */
  lemma PassKeepsGapSorted(comp: Compare, s: seq<int>, t: seq<int>, g: nat, h: nat)
    requires StrictWeakOrder(comp) && h > 0 && GapSorted(comp, s, g)
    requires ColumnsPermuted(s, t, h) && GapSorted(comp, t, h)
    ensures GapSorted(comp, t, g)
  {
    forall i: nat, j | j == i + g && j < |t|
      ensures Le(comp, t[i], t[j])
    {
      SmallAboveLarge(comp, s, t, g, h, i);
    }
  }

  /** The counting argument: t[i + g] cannot have to stand before t[i]. */
  lemma SmallAboveLarge(comp: Compare, s: seq<int>, t: seq<int>, g: nat, h: nat, i: nat)
    requires StrictWeakOrder(comp) && h > 0 && GapSorted(comp, s, g)
    requires ColumnsPermuted(s, t, h) && GapSorted(comp, t, h) && i + g < |t|
    ensures Le(comp, t[i], t[i + g])
  {
    if comp(t[i], t[i + g]) {
      var f := Below(comp, t[i]);
      var topX, kX := TopOf(i, h, |t|);
      var topY, kY := TopOf(i + g, h, |t|);
      NoneSmallAbove(comp, t, i, h, topX, kX);
      CountAtMostLength(t, i - h, h, f);
      AllSmall(comp, t, i + g, h, t[i]);
      CountGrows(t, i + g, h, topY, kY, f);
      SameCounts(s, t, h, topX, f);
      SameCounts(s, t, h, topY, f);
      ShiftColumn(comp, s, topY, g, h, t[i]);
      LengthDifference(i + g, g, h, kY);
      SameColumn(i, h, topX, kX, topY - g, kY);
      CountGrows(s, topY - g, h, topX, kX - kY, f);
    }
  }

  lemma SameCounts(s: seq<int>, t: seq<int>, h: nat, top: nat, f: int -> bool)
    requires h > 0 && ColumnsPermuted(s, t, h) && top < |s| <= top + h
    ensures |t| == |s| && CountColumn(t, top, h, f) == CountColumn(s, top, h, f)
  {
  }

  lemma SameColumn(i: nat, h: nat, topX: nat, kX: nat, p: nat, kY: nat)
    requires h > 0 && topX == i + kX * h && p == i + kY * h && p < topX + h
    ensures kY <= kX && topX == p + (kX - kY) * h
  {
    if kY > kX {
      MulMono(kX + 1, kY, h);
    }
  }

  // ----- The sort -----

  /** Neighbours are in order in every column before k, and in column k below position i. */
  ghost predicate PairsSorted(comp: Compare, s: seq<int>, h: nat, k: nat, i: nat)
    requires h > 0
  {
    forall p, q {:trigger Le(comp, s[p], s[q])} ::
      0 <= p && q == p + h && q < |s| && (Wrap(p, h) < k || (Wrap(p, h) == k && q < i)) ==> Le(comp, s[p], s[q])
  }

  /** During an insertion: v is the array with the moving element at j, the only place that may be out of order. */
  ghost predicate Inserting(comp: Compare, v: seq<int>, h: nat, k: nat, i: nat, j: nat)
    requires h > 0
  {
    && k <= j <= i < |v| && k < h && Wrap(j, h) == Wrap(i, h) == k
    && (forall p, q {:trigger Le(comp, v[p], v[q])} ::
          0 <= p && q == p + h && q < |v| && q != j && (Wrap(p, h) < k || (Wrap(p, h) == k && q <= i)) ==> Le(comp, v[p], v[q]))
    && (h <= j && j + h <= i ==> Le(comp, v[j - h], v[j + h]))
  }

  lemma InsertStarts(comp: Compare, v: seq<int>, h: nat, k: nat, i: nat)
    requires 0 < h && k <= i < |v| && k < h && Wrap(i, h) == k && PairsSorted(comp, v, h, k, i)
    ensures Inserting(comp, v, h, k, i, i)
  {
  }

  lemma InsertShifts(comp: Compare, v: seq<int>, h: nat, k: nat, i: nat, j: nat)
    requires 0 < h <= j && Inserting(comp, v, h, k, i, j) && k < j && Le(comp, v[j], v[j - h])
    ensures Inserting(comp, Exchanged(v, j - h, j), h, k, i, j - h)
  {
    var t := Exchanged(v, j - h, j);
    BelowNext(k, j - h, h);
    forall p, q | 0 <= p && q == p + h && q < |v| && q != j - h && (Wrap(p, h) < k || (Wrap(p, h) == k && q <= i))
      ensures Le(comp, t[p], t[q])
    {
      if p != j && q != j {
        assert t[p] == v[p] && t[q] == v[q];
      }
    }
  }

  lemma InsertEnds(comp: Compare, v: seq<int>, h: nat, k: nat, i: nat, j: nat)
    requires 0 < h && Inserting(comp, v, h, k, i, j)
    requires j == k || (h <= j && Le(comp, v[j - h], v[j]))
    ensures PairsSorted(comp, v, h, k, i + h)
  {
    forall p, q | 0 <= p && q == p + h && q < |v| && (Wrap(p, h) < k || (Wrap(p, h) == k && q < i + h))
      ensures Le(comp, v[p], v[q])
    {
      if Wrap(p, h) == k {
        BelowNext(q, i, h);
      }
    }
  }

  /** Positions of one column are h apart. */
  lemma {:induction false} BelowNext(q: nat, i: nat, h: nat)
    requires h > 0 && Wrap(q, h) == Wrap(i, h) && q < i + h
    ensures q <= i
  {
    if q >= h && i >= h {
      BelowNext(q - h, i - h, h);
    }
  }

  lemma ColumnDone(comp: Compare, s: seq<int>, h: nat, k: nat, i: nat)
    requires h > 0 && PairsSorted(comp, s, h, k, i) && i >= |s|
    ensures PairsSorted(comp, s, h, k + 1, 0) && (k + 1 == h ==> GapSorted(comp, s, h))
  {
  }

  /** What the inner loop keeps about v, the array with the moving element put back at j. */
  ghost predicate InsertLoop(comp: Compare, was: seq<int>, before: seq<int>, v: seq<int>, h: nat, k: nat, i: nat, j: nat)
    requires h > 0
  {
    Inserting(comp, v, h, k, i, j) && ColumnsPermuted(was, v, h) && multiset(v) == multiset(before)
  }

  /** The loop stops above the column's first position, so there is always a neighbour to compare with. */
  lemma AboveFirst(comp: Compare, was: seq<int>, before: seq<int>, v: seq<int>, h: nat, k: nat, i: nat, j: nat)
    requires h > 0 && InsertLoop(comp, was, before, v, h, k, i, j)
    ensures k <= j <= i < |v| && (j > k ==> h <= j && k <= j - h)
  {
    if j > k {
      BelowNext(k, j - h, h);
    }
  }

  lemma LoopStep(comp: Compare, was: seq<int>, before: seq<int>, s: seq<int>, temp: int, h: nat, k: nat, i: nat, j: nat)
    requires 0 < h <= j < |s| && k < j && InsertLoop(comp, was, before, s[j := temp], h, k, i, j) && !comp(temp, s[j - h])
    ensures InsertLoop(comp, was, before, s[j := s[j - h]][j - h := temp], h, k, i, j - h)
  {
    var v := s[j := temp];
    InsertShifts(comp, v, h, k, i, j);
    ExchangeKeepsColumns(was, v, h, j);
    assert Exchanged(v, j - h, j) == s[j := s[j - h]][j - h := temp];
  }

  /** The inner loop: places a[i] into the sorted part of its column. */
  method InsertInColumn(a: array<int>, h: nat, k: nat, i: nat, comp: Compare, ghost was: seq<int>)
    requires StrictWeakOrder(comp) && 0 < h && k < h && k <= i < a.Length && Wrap(i, h) == k
    requires PairsSorted(comp, a[..], h, k, i) && ColumnsPermuted(was, a[..], h)
    modifies a
    ensures PairsSorted(comp, a[..], h, k, i + h)
    ensures ColumnsPermuted(was, a[..], h) && multiset(a[..]) == multiset(old(a[..]))
  {
    hide *;
    ghost var before := a[..];
    var temp := a[i];
    LoopStarts(comp, was, before, temp, h, k, i);
    var j := ShiftUp(a, h, k, i, temp, comp, was, before);
    LoopEnds(comp, was, before, a[..], temp, h, k, i, j);
    ghost var s := a[..];
    a[j] := temp;
    assert a[..] == s[j := temp];
  }

  /** The loop: elements that have to stand after temp move up by one place in their column. */
  method ShiftUp(a: array<int>, h: nat, k: nat, i: nat, temp: int, comp: Compare, ghost was: seq<int>, ghost before: seq<int>)
    returns (j: nat)
    requires 0 < h && k <= i < a.Length && InsertLoop(comp, was, before, a[..][i := temp], h, k, i, i)
    modifies a
    ensures k <= j <= i && InsertLoop(comp, was, before, a[..][j := temp], h, k, i, j)
    ensures j == k || (h <= j && comp(temp, a[j - h]))
  {
    hide *;
    j := i;
    ghost var s := a[..];
    while j > k
      invariant k <= j <= i && s == a[..] && InsertLoop(comp, was, before, s[j := temp], h, k, i, j)
    {
      AboveFirst(comp, was, before, s[j := temp], h, k, i, j);
      if comp(temp, a[j - h]) {
        return;
      }
      LoopStep(comp, was, before, s, temp, h, k, i, j);
      s := s[j := s[j - h]];
      a[j] := a[j - h];
      j := j - h;
    }
  }

  lemma LoopStarts(comp: Compare, was: seq<int>, before: seq<int>, temp: int, h: nat, k: nat, i: nat)
    requires 0 < h && k <= i < |before| && k < h && Wrap(i, h) == k && PairsSorted(comp, before, h, k, i)
    requires ColumnsPermuted(was, before, h) && temp == before[i]
    ensures InsertLoop(comp, was, before, before[i := temp], h, k, i, i)
  {
    assert before == before[i := temp];
    InsertStarts(comp, before, h, k, i);
  }

  lemma LoopEnds(comp: Compare, was: seq<int>, before: seq<int>, s: seq<int>, temp: int, h: nat, k: nat, i: nat, j: nat)
    requires StrictWeakOrder(comp) && h > 0 && j < |s| && InsertLoop(comp, was, before, s[j := temp], h, k, i, j)
    requires j == k || (h <= j && comp(temp, s[j - h]))
    ensures PairsSorted(comp, s[j := temp], h, k, i + h) && ColumnsPermuted(was, s[j := temp], h)
    ensures multiset(s[j := temp]) == multiset(before)
  {
    AfterImpliesBefore(comp);
    InsertEnds(comp, s[j := temp], h, k, i, j);
  }

  lemma AfterImpliesBefore(comp: Compare)
    requires StrictWeakOrder(comp)
    ensures forall x, y :: comp(x, y) ==> Le(comp, y, x)
  {
    forall x, y | comp(x, y)
      ensures Le(comp, y, x)
    {
      assert Le(comp, x, y) || Le(comp, y, x);
    }
  }

  /** One pass: every column is sorted and none of the gaps sorted before is lost. */
  method Pass(a: array<int>, begin: nat, comp: Compare, ghost sorted: set<nat>)
    requires StrictWeakOrder(comp) && 0 < begin <= a.Length
    requires forall g :: g in sorted ==> GapSorted(comp, a[..], g)
    modifies a
    ensures ColumnsPermuted(old(a[..]), a[..], begin) && multiset(a[..]) == multiset(old(a[..]))
    ensures GapSorted(comp, a[..], begin) && forall g :: g in sorted ==> GapSorted(comp, a[..], g)
  {
    hide PairsSorted, ColumnsPermuted, StrictWeakOrder, GapSorted;
    ghost var was := a[..];
    PassStarts(comp, was, begin);
    var k := 0;
    while k < begin
      invariant 0 <= k <= begin && PairsSorted(comp, a[..], begin, k, 0)
      invariant ColumnsPermuted(was, a[..], begin) && multiset(a[..]) == multiset(was)
      invariant k == begin ==> GapSorted(comp, a[..], begin)
    {
      var i := k + begin;
      ColumnStarts(comp, a[..], begin, k);
      while i < a.Length
        invariant k + begin <= i && Wrap(i, begin) == k && PairsSorted(comp, a[..], begin, k, i)
        invariant ColumnsPermuted(was, a[..], begin) && multiset(a[..]) == multiset(was)
      {
        InsertInColumn(a, begin, k, i, comp, was);
        i := i + begin;
      }
      ColumnDone(comp, a[..], begin, k, i);
      k := k + 1;
    }
    forall g | g in sorted
      ensures GapSorted(comp, a[..], g)
    {
      PassKeepsGapSorted(comp, was, a[..], g, begin);
    }
  }

  lemma PassStarts(comp: Compare, s: seq<int>, h: nat)
    requires h > 0
    ensures PairsSorted(comp, s, h, 0, 0) && ColumnsPermuted(s, s, h)
  {
  }

  lemma ColumnStarts(comp: Compare, s: seq<int>, h: nat, k: nat)
    requires 0 < h && k < h && PairsSorted(comp, s, h, k, 0)
    ensures PairsSorted(comp, s, h, k, k + h) && Wrap(k + h, h) == k
  {
    assert Wrap(k + h, h) == Wrap(k, h);
  }

  /** n / 2, n / 4, ..., 1. */
  function Gaps(n: nat): (gs: set<nat>) {
    if n < 2 then {} else {n / 2} + Gaps(n / 2)
  }

  /** For every gap that has been used the array is still sorted at the end, and one of them is 1. */
  method Sort(a: array<int>, comp: Compare) returns (ghost sorted: set<nat>)
    requires StrictWeakOrder(comp)
    modifies a
    ensures Ordered(comp, a[..]) && multiset(a[..]) == multiset(old(a[..]))
    ensures sorted == Gaps(a.Length) && forall g :: g in sorted ==> GapSorted(comp, a[..], g)
  {
    sorted := {};
    if a.Length < 2 {
      return;
    }
    hide StrictWeakOrder, GapSorted, Ordered, ColumnsPermuted;
    var begin := a.Length / 2;
    while begin > 0
      invariant 0 <= begin <= a.Length && multiset(a[..]) == multiset(old(a[..]))
      invariant forall g :: g in sorted ==> GapSorted(comp, a[..], g)
      invariant begin == 0 ==> 1 in sorted
      invariant Gaps(a.Length) == sorted + (if begin > 0 then {begin} + Gaps(begin) else {})
    {
      Pass(a, begin, comp, sorted);
      sorted := sorted + {begin};
      begin := begin / 2;
    }
    GapOneIsOrdered(comp, a[..]);
  }

  lemma GapOneIsOrdered(comp: Compare, s: seq<int>)
    requires StrictWeakOrder(comp) && GapSorted(comp, s, 1)
    ensures Ordered(comp, s)
  {
    forall i, j | 0 <= i < j < |s|
      ensures Le(comp, s[i], s[j])
    {
      ColumnAscends(comp, s, i, 1, j, j - i);
    }
  }
}
