/** The steps on the memory pool's state, seen through the counters of the chunks. */
module PoolRefinement {
  import opened Options
  import opened DistinctLists
  import opened FreeChains
  import opened PoolStores
  import opened PoolSteps
  import opened PoolGrowth
  import opened PoolCounts

  function CountOf(chunks: map<int, Chunk>, d: int): Count {
    if d in chunks then Count(chunks[d].freeNumber, chunks[d].inuseNumber) else Count(0, 0)
  }

  function CountsOf(chunks: map<int, Chunk>, list: seq<int>): (l: seq<Count>)
    ensures |l| == |list|
  {
    seq(|list|, i requires 0 <= i < |list| => CountOf(chunks, list[i]))
  }

  /** The counters of the pool's chunks, in the order of its list. */
  function Counts(s: Store, id: int): seq<Count> {
    if id in s.pools then CountsOf(s.chunks, s.pools[id].list) else []
  }

  lemma {:induction false} CountsTotal(chunks: map<int, Chunk>, list: seq<int>)
    ensures TotalFree(CountsOf(chunks, list)) == Sum(chunks, list, false)
  {
    if list == [] {
      assert CountsOf(chunks, list) == [];
    } else {
      CountsTotal(chunks, list[1..]);
      assert CountsOf(chunks, list)[1..] == CountsOf(chunks, list[1..]);
    }
  }

  lemma CountsAreNatural(s: Store, id: int)
    requires Listed(s) && Chained(s)
    ensures Natural(Counts(s, id))
  {
    if id in s.pools {
      var list := s.pools[id].list;
      forall i | 0 <= i < |list|
        ensures CountOf(s.chunks, list[i]).free >= 0 && CountOf(s.chunks, list[i]).inuse >= 0
      {
        var d := list[i];
        assert d in s.chunks && InOrder(s, d);
      }
    }
  }

  /** The assertion that the first chunk has a free block fails exactly when it does for the counters. */
  lemma StuckMeansAllocFails(s: Store, id: int)
    requires Listed(s) && Chained(s) && Counted(s) && id in s.pools
    ensures s.pools[id].allFree == TotalFree(Counts(s, id))
    ensures Alloc(Counts(s, id)) == None <==> s.pools[id].allFree != 0 && !CanTake(s, id)
  {
    var l := Counts(s, id);
    assert Totalled(s.chunks, s.pools[id]);
    CountsTotal(s.chunks, s.pools[id].list);
    CountsAreNatural(s, id);
    AllocFailsIff(l);
    TotalIsZero(l);
    if l != [] {
      var d := s.pools[id].list[0];
      assert d in s.pools[id].list && l[0] == CountOf(s.chunks, d);
    }
  }

  lemma LastOfChain(mem: Memory, d: int, c: Chunk, bs: seq<int>, ch: seq<int>)
    requires Sound(mem, d, c, bs, ch) && c.freeNumber > 0
    ensures NextOf(mem, c.free) == 0 <==> c.freeNumber == 1
  {
    assert NextOf(mem, ch[0]) == After(ch, 0);
    if |ch| > 1 {
      assert ch[1] in ch;
    }
  }

  lemma CountsUpdate(chunks: map<int, Chunk>, list: seq<int>, c: Chunk, i: nat)
    requires Distinct(list) && i < |list|
    ensures CountsOf(chunks[list[i] := c], list) == CountsOf(chunks, list)[i := Count(c.freeNumber, c.inuseNumber)]
  {
    forall k | 0 <= k < |list| && k != i
      ensures list[k] != list[i]
    {
    }
  }

  lemma CountsSame(chunks: map<int, Chunk>, more: map<int, Chunk>, list: seq<int>)
    requires forall d :: d in list ==> CountOf(chunks, d) == CountOf(more, d)
    ensures CountsOf(chunks, list) == CountsOf(more, list)
  {
    forall k | 0 <= k < |list|
      ensures CountOf(chunks, list[k]) == CountOf(more, list[k])
    {
      var d := list[k];
      assert d in list;
    }
  }

  lemma CountsRotated(chunks: map<int, Chunk>, list: seq<int>, b: bool)
    requires list != []
    ensures var l := CountsOf(chunks, list);
      CountsOf(chunks, Rotated(list, b)) == if b then l[1..] + [l[0]] else l
  {
  }

  lemma HeadCount(s: Store, id: int)
    requires CanTake(s, id) && Listed(s) && Chained(s)
    ensures id in s.pools && s.pools[id].list != [] && s.pools[id].list[0] == Head(s, id)
    ensures var c := s.chunks[Head(s, id)];
      && Counts(s, id) == CountsOf(s.chunks, s.pools[id].list) != [] && Counts(s, id)[0] == Count(c.freeNumber, c.inuseNumber)
      && (NextOf(s.mem, FirstFree(s, id)) == 0 <==> c.freeNumber == 1) && Distinct(s.pools[id].list)
  {
    var d := Head(s, id);
    assert InOrder(s, d) && d in s.pools[id].list;
    LastOfChain(s.mem, d, s.chunks[d], BlocksOf(s, d), ChainOf(s, d));
  }

  lemma RotatedIsDrained(l: seq<Count>, b: bool)
    requires l != [] && (b <==> l[0].free == 1)
    ensures var m := l[0 := Count(l[0].free - 1, l[0].inuse + 1)];
      (if b then m[1..] + [m[0]] else m) == Drained(l)
  {
  }

  lemma TakeOwnCounts(s: Store, id: int)
    requires CanTake(s, id) && Listed(s) && Chained(s)
    ensures Counts(s, id) != [] && Counts(Take(s, id), id) == Drained(Counts(s, id))
  {
    hide Listed, Chained, CanTake, Take, Rotated, NextOf, FirstFree, Head, CountsOf, Drained;
    HeadCount(s, id);
    TakenList(s, id);
    var t, d, list := Take(s, id), Head(s, id), s.pools[id].list;
    var b := NextOf(s.mem, FirstFree(s, id)) == 0;
    CountsUpdate(s.chunks, list, t.chunks[d], 0);
    CountsRotated(t.chunks, list, b);
    RotatedIsDrained(CountsOf(s.chunks, list), b);
  }

  lemma TakeCounts(s: Store, id: int, j: int)
    requires CanTake(s, id) && Listed(s) && Chained(s)
    ensures Counts(s, id) != [] && Counts(Take(s, id), j) == if j == id then Drained(Counts(s, id)) else Counts(s, j)
  {
    TakeOwnCounts(s, id);
    if j != id && j in s.pools {
      assert forall e :: e in s.pools[j].list ==> e != Head(s, id);
      hide Drained, Rotated, CountsOf;
      CountsSame(s.chunks, Take(s, id).chunks, s.pools[j].list);
    }
  }

  lemma TakenList(s: Store, id: int)
    requires CanTake(s, id)
    ensures var t, c := Take(s, id), s.chunks[Head(s, id)];
      && id in t.pools && t.pools[id].list == Rotated(s.pools[id].list, NextOf(s.mem, FirstFree(s, id)) == 0)
      && t.chunks == s.chunks[Head(s, id) := t.chunks[Head(s, id)]]
      && t.chunks[Head(s, id)].freeNumber == c.freeNumber - 1 && t.chunks[Head(s, id)].inuseNumber == c.inuseNumber + 1
  {
  }

  lemma CountsMore(chunks: map<int, Chunk>, list: seq<int>, d: int, c: Chunk)
    requires d !in list
    ensures CountsOf(chunks[d := c], list) == CountsOf(chunks, list)
    ensures CountsOf(chunks[d := c], [d] + list) == [Count(c.freeNumber, c.inuseNumber)] + CountsOf(chunks, list)
  {
    forall k | 0 <= k < |list|
      ensures list[k] != d
    {
    }
  }

  lemma GrowCounts(s: Store, id: int, d: int, base: int, n: nat, mem: Memory, j: int)
    requires CanGrow(s, id, d, base, n, mem) && Listed(s)
    ensures Counts(Grow(s, id, d, base, n, mem), j) == if j == id then [Count(n, 0)] + Counts(s, id) else Counts(s, j)
  {
    hide CountsOf;
    if j in s.pools {
      assert d !in s.pools[j].list;
      CountsMore(s.chunks, s.pools[j].list, d, NewChunk(base, n, id));
    }
  }

  lemma GrabCounts(s: Store, p: int, len: int, j: int)
    ensures Counts(Grab(s, p, len), j) == Counts(s, j)
  {
  }

  lemma AddPoolCounts(s: Store, id: int, size: int, j: int)
    requires id !in s.pools
    ensures Counts(AddPool(s, id, size), j) == Counts(s, j)
  {
    if j == id {
      assert Counts(AddPool(s, id, size), id) == [];
    }
  }

  /** The position of a chunk in its pool's list. */
  ghost predicate IsAt(s: Store, d: int, i: nat) {
    d in s.chunks && s.chunks[d].manage in s.pools && i < |s.pools[s.chunks[d].manage].list| && s.pools[s.chunks[d].manage].list[i] == d
  }

  lemma PutCounts(s: Store, id: int, a: int, i: nat, j: int)
    requires LiveIn(s, id, a) && Listed(s) && IsAt(s, At(s.mem, a).manage, i)
    ensures i < |Counts(s, id)|
    ensures Counts(Put(s, a), j) ==
      if j == id then Counts(s, id)[i := Count(Counts(s, id)[i].free + 1, Counts(s, id)[i].inuse - 1)] else Counts(s, j)
  {
    var d := At(s.mem, a).manage;
    hide IsBlock;
    if j in s.pools && j != id {
      assert forall e :: e in s.pools[j].list ==> e != d;
    }
  }

  lemma DropCounts(s: Store, d: int, i: nat, j: int)
    requires CanDrop(s, d) && Listed(s) && IsAt(s, d, i)
    ensures i < |Counts(s, s.chunks[d].manage)|
    ensures Counts(Drop(s, d), j) ==
      if j == s.chunks[d].manage then Counts(s, j)[..i] + Counts(s, j)[i + 1..] else Counts(s, j)
  {
    var id, t := s.chunks[d].manage, Drop(s, d);
    if j == id {
      var list := s.pools[id].list;
      assert forall k :: 0 <= k < i ==> list[k] != d;
      WithoutAt(list, d, i);
      var rest := list[..i] + list[i + 1..];
      assert t.pools[id].list == rest && t.chunks == s.chunks - {d} && Distinct(list);
      hide Drop, Listed, Without;
      CountsWithout(s.chunks, list, d, i);
    } else if j in s.pools {
      assert forall e :: e in s.pools[j].list ==> e != d;
      CountsSame(s.chunks, t.chunks, s.pools[j].list);
    }
  }

  lemma CountsWithout(chunks: map<int, Chunk>, list: seq<int>, d: int, i: nat)
    requires Distinct(list) && i < |list| && list[i] == d
    ensures CountsOf(chunks - {d}, list[..i] + list[i + 1..]) == CountsOf(chunks, list)[..i] + CountsOf(chunks, list)[i + 1..]
  {
    var rest := list[..i] + list[i + 1..];
    forall k | 0 <= k < |rest|
      ensures rest[k] == (if k < i then list[k] else list[k + 1]) && rest[k] != d
    {
    }
  }
}
