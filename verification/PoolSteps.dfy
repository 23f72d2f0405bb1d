/** The four steps on the memory pool's state, and what each of them keeps. */
module PoolSteps {
  import opened DistinctLists
  import opened FreeChains
  import opened PoolStores

  // ----- Taking the first free block of a pool's first chunk -----

  predicate CanTake(s: Store, id: int) {
    && id in s.pools && s.pools[id].list != []
    && s.pools[id].list[0] in s.chunks && s.chunks[s.pools[id].list[0]].freeNumber > 0
  }

  function Head(s: Store, id: int): int
    requires CanTake(s, id)
  {
    s.pools[id].list[0]
  }

  function FirstFree(s: Store, id: int): int
    requires CanTake(s, id)
  {
    s.chunks[Head(s, id)].free
  }

  /** A chunk whose last free block has gone moves to the end of the list. */
  function Rotated(list: seq<int>, exhausted: bool): (r: seq<int>)
    requires list != []
  {
    if exhausted then list[1..] + [list[0]] else list
  }

  function Take(s: Store, id: int): Store
    requires CanTake(s, id)
  {
    var d := Head(s, id);
    var a, p := s.chunks[d].free, s.pools[id];
    var next := NextOf(s.mem, a);
    s.(mem := s.mem[a := Header(d, MAGIC)],
       chunks := s.chunks[d := Taken(s.chunks[d], next)],
       pools := s.pools[id := p.(list := Rotated(p.list, next == 0), allFree := p.allFree - 1, allInuse := p.allInuse + 1)])
  }

  // ----- Putting a block back -----

  function Put(s: Store, a: int): Store
    requires At(s.mem, a).manage in s.chunks && s.chunks[At(s.mem, a).manage].manage in s.pools
  {
    var d := At(s.mem, a).manage;
    var c := s.chunks[d];
    var p := s.pools[c.manage];
    s.(mem := s.mem[a := Header(0, NEXT(c.free))],
       chunks := s.chunks[d := PutBack(c, a)],
       pools := s.pools[c.manage := p.(allFree := p.allFree + 1, allInuse := p.allInuse - 1)])
  }

  // ----- A new chunk, and the end of one -----

  function NewChunk(base: int, n: nat, id: int): Chunk {
    Chunk(base, base, 0, n, id)
  }

  function Grow(s: Store, id: int, d: int, base: int, n: nat, mem: Memory): Store
    requires id in s.pools
  {
    var p := s.pools[id];
    s.(mem := mem, chunks := s.chunks[d := NewChunk(base, n, id)],
       pools := s.pools[id := p.(list := [d] + p.list, allFree := p.allFree + n, number := p.number + 1)])
  }

  /** The chunk's memory goes back, and with it the descriptor if that has come from malloc. */
  function Drop(s: Store, d: int): Store
    requires d in s.chunks && s.chunks[d].manage in s.pools
  {
    var c := s.chunks[d];
    var p := s.pools[c.manage];
    s.(held := s.held - {c.allocPtr} - (if c.manage == s.desc then {d} else {}), chunks := s.chunks - {d},
       pools := s.pools[c.manage := p.(list := Without(p.list, d), allFree := p.allFree - c.freeNumber, number := p.number - 1)])
  }

  function Grab(s: Store, p: int, len: int): Store {
    s.(held := s.held[p := len])
  }

  function AddPool(s: Store, id: int, blockSize: int): Store {
    s.(pools := s.pools[id := Pool(blockSize, [], 0, 0, 0)])
  }

  // ----- What stays the same for a chunk -----

  /** The chunk has the same memory, the same number of blocks and the same pool, which has the same block size. */
  predicate SameShape(s: Store, t: Store, d: int) {
    && d in s.chunks && d in t.chunks
    && s.chunks[d].allocPtr == t.chunks[d].allocPtr && Cap(s.chunks[d]) == Cap(t.chunks[d])
    && s.chunks[d].manage == t.chunks[d].manage && StrideOf(s, s.chunks[d]) == StrideOf(t, t.chunks[d])
  }

  lemma SameBlocks(s: Store, t: Store, d: int)
    requires SameShape(s, t, d)
    ensures BlocksOf(s, d) == BlocksOf(t, d)
  {
  }

  lemma ChainIs(s: Store, d: int, ch: seq<int>)
    requires d in s.chunks && Sound(s.mem, d, s.chunks[d], BlocksOf(s, d), ch)
    ensures InOrder(s, d) && ChainOf(s, d) == ch
  {
    WalkIsLinked(s.mem, s.chunks[d].free, ch);
  }

  // ----- Rotation and removal in a list -----

  lemma RotatedFacts(list: seq<int>, b: bool)
    requires list != [] && Distinct(list)
    ensures Distinct(Rotated(list, b)) && |Rotated(list, b)| == |list|
    ensures forall x :: x in Rotated(list, b) <==> x in list
  {
    var first, rest := list[0], list[1..];
    assert list == [first] + rest;
    assert forall i :: 0 <= i < |rest| ==> rest[i] == list[i + 1];
  }

  lemma RotatedSum(chunks: map<int, Chunk>, list: seq<int>, b: bool, live: bool)
    requires list != []
    ensures Sum(chunks, Rotated(list, b), live) == Sum(chunks, list, live)
  {
    assert list == [list[0]] + list[1..];
    SumSplit(chunks, [list[0]], list[1..], live);
    SumSplit(chunks, list[1..], [list[0]], live);
  }

  lemma {:induction false} WithoutSum(chunks: map<int, Chunk>, list: seq<int>, d: int, live: bool)
    requires Distinct(list) && d in list && d in chunks
    ensures Sum(chunks, Without(list, d), live) == Sum(chunks, list, live) - Part(chunks[d], live)
  {
    var first, rest := list[0], list[1..];
    assert list == [first] + rest;
    if first != d {
      WithoutSum(chunks, rest, d, live);
      assert Without(list, d)[1..] == Without(rest, d);
    }
  }

  // ----- Take keeps the invariants -----

  lemma TakeShape(s: Store, id: int, e: int)
    requires CanTake(s, id) && e in s.chunks
    ensures SameShape(s, Take(s, id), e) && BlocksOf(s, e) == BlocksOf(Take(s, id), e)
  {
    SameBlocks(s, Take(s, id), e);
  }

  lemma FirstFreeIsBlock(s: Store, id: int)
    requires CanTake(s, id) && Chained(s)
    ensures var d := Head(s, id);
      IsBlock(s, d, FirstFree(s, id)) && At(s.mem, FirstFree(s, id)).manage == 0 && d != 0 && 0 !in s.chunks
  {
    var d := Head(s, id);
    assert InOrder(s, d);
    TakeKeepsSound(s.mem, d, s.chunks[d], BlocksOf(s, d), ChainOf(s, d));
    assert 0 in s.chunks ==> InOrder(s, 0);
  }

  lemma TakeInOrder(s: Store, id: int, e: int)
    requires CanTake(s, id) && Listed(s) && Chained(s) && Placed(s) && e in s.chunks
    ensures InOrder(Take(s, id), e)
  {
    var d, a, t := Head(s, id), FirstFree(s, id), Take(s, id);
    assert InOrder(s, d) && InOrder(s, e);
    TakeShape(s, id, e);
    FirstFreeIsBlock(s, id);
    if e == d {
      TakeKeepsSound(s.mem, d, s.chunks[d], BlocksOf(s, d), ChainOf(s, d));
      ChainIs(t, d, ChainOf(s, d)[1..]);
    } else {
      BlocksDiffer(s, d, e, a);
      OtherKeepsSound(s.mem, e, s.chunks[e], BlocksOf(s, e), ChainOf(s, e), a, Header(d, MAGIC));
      ChainIs(t, e, ChainOf(s, e));
    }
  }

  lemma TakeChained(s: Store, id: int)
    requires CanTake(s, id) && Listed(s) && Chained(s) && Placed(s)
    ensures Chained(Take(s, id))
  {
    forall e | e in s.chunks
      ensures InOrder(Take(s, id), e) && Cap(Take(s, id).chunks[e]) > 0
    {
      TakeInOrder(s, id, e);
      TakeShape(s, id, e);
    }
  }

  lemma TakeListed(s: Store, id: int)
    requires CanTake(s, id) && Listed(s)
    ensures Listed(Take(s, id))
  {
    var p, next := s.pools[id], NextOf(s.mem, FirstFree(s, id));
    RotatedFacts(p.list, next == 0);
    hide Rotated, NextOf, Distinct;
  }

  lemma TakeCounted(s: Store, id: int)
    requires CanTake(s, id) && Listed(s) && Counted(s)
    ensures Counted(Take(s, id))
  {
    var t, d, p := Take(s, id), Head(s, id), s.pools[id];
    var c := Taken(s.chunks[d], NextOf(s.mem, FirstFree(s, id)));
    forall j | j in s.pools
      ensures Totalled(t.chunks, t.pools[j])
    {
      if j == id {
        assert d in p.list;
        forall live: bool
          ensures Sum(t.chunks, t.pools[id].list, live) == Sum(s.chunks, p.list, live) - Part(s.chunks[d], live) + Part(c, live)
        {
          RotatedSum(t.chunks, p.list, NextOf(s.mem, FirstFree(s, id)) == 0, live);
          SumUpdate(s.chunks, p.list, d, c, live);
        }
        assert Totalled(s.chunks, p);
        assert Sum(t.chunks, t.pools[id].list, true) == Sum(s.chunks, p.list, true) + 1;
        assert Sum(t.chunks, t.pools[id].list, false) == Sum(s.chunks, p.list, false) - 1;
      } else {
        assert Totalled(s.chunks, s.pools[j]);
        SumSame(s.chunks, t.chunks, s.pools[j].list, true);
        SumSame(s.chunks, t.chunks, s.pools[j].list, false);
      }
    }
  }

  lemma TakePlaced(s: Store, id: int)
    requires CanTake(s, id) && Listed(s) && Placed(s) && Rooted(s)
    ensures Placed(Take(s, id)) && Rooted(Take(s, id))
  {
    var t := Take(s, id);
    forall e | e in t.chunks
      ensures SameShape(s, t, e)
    {
      TakeShape(s, id, e);
    }
  }

  /** Taking makes exactly one block live, in the pool it was taken from. */
  lemma TakeLive(s: Store, id: int, j: int, x: int)
    requires CanTake(s, id) && Listed(s) && Chained(s) && Placed(s)
    ensures LiveIn(Take(s, id), j, x) <==> LiveIn(s, j, x) || (j == id && x == FirstFree(s, id))
    ensures !LiveIn(s, j, FirstFree(s, id))
  {
    var t, d, a := Take(s, id), Head(s, id), FirstFree(s, id);
    FirstFreeIsBlock(s, id);
    TakeShape(s, id, d);
    var e := At(s.mem, x).manage;
    if x != a && e in s.chunks {
      TakeShape(s, id, e);
    }
    assert s.chunks[d].manage == id;
  }

  lemma RootApart(s: Store, d: int, e: int)
    requires Placed(s) && Rooted(s) && d in s.chunks
    ensures s.chunks[d].allocPtr in s.held
    ensures e in s.chunks && s.chunks[e].manage == s.desc ==>
      e in s.held && s.held[e] > 0 && Apart(s.chunks[d].allocPtr, s.held[s.chunks[d].allocPtr], e, s.held[e])
  {
  }

  /** A descriptor that comes from malloc is not inside a block. */
  lemma RootsOutsideBlocks(s: Store, d: int, a: int)
    requires Listed(s) && Placed(s) && Rooted(s) && d in s.chunks && IsBlock(s, d, a)
    ensures a + BLOCK_INFO_SIZE in s.chunks ==> a + BLOCK_INFO_SIZE in DataChunks(s)
  {
    BlockInRegion(s, d, a);
    assert s.chunks[d].manage in s.pools;
    RootApart(s, d, a + BLOCK_INFO_SIZE);
    hide Placed, Rooted, Listed, IsBlock;
  }

  /** The blocks `more` have become live in the descriptor pool, and its counter says so. */
  lemma MoreSpare(s: Store, t: Store, spare: set<int>, more: set<int>)
    requires Described(s, spare) && t.desc == s.desc && t.chunks.Keys == s.chunks.Keys && DataChunks(t) == DataChunks(s)
    requires forall x :: LiveIn(t, s.desc, x) <==> LiveIn(s, s.desc, x) || x in more
    requires forall x :: x in more ==> x + BLOCK_INFO_SIZE !in s.chunks
    requires more !! spare
    requires t.desc in t.pools && t.pools[s.desc].allInuse == s.pools[s.desc].allInuse + |more|
    ensures Described(t, spare + more)
  {
    hide LiveIn, DataChunks;
    assert Roles(t, spare + more) by {
      hide Tally;
    }
    hide Roles;
    SetMore(spare, more);
  }

  lemma FirstFreeIsSpare(s: Store, id: int, spare: set<int>)
    requires CanTake(s, id) && Inv(s, spare)
    ensures FirstFree(s, id) !in spare || id != s.desc
    ensures id == s.desc ==> FirstFree(s, id) + BLOCK_INFO_SIZE !in s.chunks
  {
    hide Listed, Chained, Counted, Placed, Rooted, LiveIn, DataChunks, Take, FirstFree, Head, CanTake, Tally;
    var a := FirstFree(s, id);
    TakeLive(s, id, s.desc, a);
    FirstFreeIsBlock(s, id);
    HeadIsChunk(s, id);
    RootsOutsideBlocks(s, Head(s, id), a);
  }

  lemma HeadIsChunk(s: Store, id: int)
    requires CanTake(s, id)
    ensures Head(s, id) in s.chunks && s.chunks[Head(s, id)].free == FirstFree(s, id)
  {
  }

  lemma TakeDescribed(s: Store, id: int, spare: set<int>)
    requires CanTake(s, id) && Inv(s, spare)
    ensures Described(Take(s, id), if id == s.desc then spare + {FirstFree(s, id)} else spare)
  {
    hide LiveIn, Listed, Chained, Counted, Placed, Rooted, Described, DataChunks, Take, FirstFree, CanTake;
    var t, a := Take(s, id), FirstFree(s, id);
    DescIsPool(s, spare);
    TakeFrame(s, id);
    forall x
      ensures LiveIn(t, s.desc, x) <==> LiveIn(s, s.desc, x) || (id == s.desc && x == a)
    {
      TakeLive(s, id, s.desc, x);
    }
    FirstFreeIsSpare(s, id, spare);
    if id == s.desc {
      MoreSpare(s, t, spare, {a});
    } else {
      MoreSpare(s, t, spare, {});
      assert spare + {} == spare;
    }
  }

  lemma TakeFrame(s: Store, id: int)
    requires CanTake(s, id) && s.desc in s.pools
    ensures var t := Take(s, id);
      && t.desc == s.desc && t.chunks.Keys == s.chunks.Keys && DataChunks(t) == DataChunks(s) && t.desc in t.pools
      && t.pools[s.desc].allInuse == s.pools[s.desc].allInuse + (if id == s.desc then 1 else 0)
  {
    var d := Head(s, id);
    assert Take(s, id).chunks[d].manage == s.chunks[d].manage;
  }

  lemma DescIsPool(s: Store, spare: set<int>)
    requires Inv(s, spare)
    ensures s.desc in s.pools
  {
  }

  // ----- Put keeps the invariants -----

  lemma PutShape(s: Store, id: int, a: int, e: int)
    requires LiveIn(s, id, a) && Listed(s) && e in s.chunks
    ensures SameShape(s, Put(s, a), e) && BlocksOf(s, e) == BlocksOf(Put(s, a), e)
  {
    SameBlocks(s, Put(s, a), e);
  }

  lemma PutInOrder(s: Store, id: int, a: int, e: int)
    requires LiveIn(s, id, a) && Listed(s) && Chained(s) && Placed(s) && e in s.chunks
    ensures InOrder(Put(s, a), e)
  {
    var d, t := At(s.mem, a).manage, Put(s, a);
    assert InOrder(s, d) && InOrder(s, e);
    PutShape(s, id, a, e);
    if e == d {
      PutKeepsSound(s.mem, d, s.chunks[d], BlocksOf(s, d), ChainOf(s, d), a);
      ChainIs(t, d, [a] + ChainOf(s, d));
    } else {
      BlocksDiffer(s, d, e, a);
      OtherKeepsSound(s.mem, e, s.chunks[e], BlocksOf(s, e), ChainOf(s, e), a, Header(0, NEXT(s.chunks[d].free)));
      ChainIs(t, e, ChainOf(s, e));
    }
  }

  lemma PutChained(s: Store, id: int, a: int)
    requires LiveIn(s, id, a) && Listed(s) && Chained(s) && Placed(s)
    ensures Chained(Put(s, a))
  {
    forall e | e in s.chunks
      ensures InOrder(Put(s, a), e) && Cap(Put(s, a).chunks[e]) > 0
    {
      PutInOrder(s, id, a, e);
      PutShape(s, id, a, e);
    }
  }

  lemma PutListed(s: Store, id: int, a: int)
    requires LiveIn(s, id, a) && Listed(s)
    ensures Listed(Put(s, a))
  {
    hide Distinct, IsBlock;
  }

  lemma PutCounted(s: Store, id: int, a: int)
    requires LiveIn(s, id, a) && Listed(s) && Counted(s)
    ensures Counted(Put(s, a))
  {
    var t, d, p := Put(s, a), At(s.mem, a).manage, s.pools[id];
    var c := PutBack(s.chunks[d], a);
    forall j | j in s.pools
      ensures Totalled(t.chunks, t.pools[j])
    {
      assert Totalled(s.chunks, s.pools[j]);
      if j == id {
        assert d in p.list;
        SumUpdate(s.chunks, p.list, d, c, true);
        SumUpdate(s.chunks, p.list, d, c, false);
      } else {
        SumSame(s.chunks, t.chunks, s.pools[j].list, true);
        SumSame(s.chunks, t.chunks, s.pools[j].list, false);
      }
    }
  }

  lemma PutPlaced(s: Store, id: int, a: int)
    requires LiveIn(s, id, a) && Listed(s) && Placed(s) && Rooted(s)
    ensures Placed(Put(s, a)) && Rooted(Put(s, a))
  {
    var t := Put(s, a);
    forall e | e in t.chunks
      ensures SameShape(s, t, e)
    {
      PutShape(s, id, a, e);
    }
    hide IsBlock;
  }

  lemma NullIsNoChunk(s: Store)
    requires Chained(s)
    ensures 0 !in s.chunks
  {
    assert 0 in s.chunks ==> InOrder(s, 0);
  }

  /** Putting a block back ends the life of that block and of no other. */
  lemma PutLive(s: Store, id: int, a: int, j: int, x: int)
    requires LiveIn(s, id, a) && Listed(s) && Chained(s)
    ensures LiveIn(Put(s, a), j, x) <==> LiveIn(s, j, x) && x != a
  {
    NullIsNoChunk(s);
    var e := At(s.mem, x).manage;
    if e in s.chunks {
      PutShape(s, id, a, e);
    }
  }

  lemma SetMore(s: set<int>, more: set<int>)
    requires s !! more
    ensures |s + more| == |s| + |more|
  {
    assert forall x :: x !in s * more;
    assert |s * more| == 0;
  }

  lemma SetLess(s: set<int>, less: set<int>)
    requires less <= s
    ensures |s - less| == |s| - |less|
  {
    assert s == s - less + less;
  }

  lemma LessSpare(s: Store, t: Store, spare: set<int>, less: set<int>)
    requires Described(s, spare) && t.desc == s.desc && t.chunks.Keys == s.chunks.Keys && DataChunks(t) == DataChunks(s)
    requires less <= spare && forall x :: LiveIn(t, s.desc, x) <==> LiveIn(s, s.desc, x) && x !in less
    requires t.desc in t.pools && t.pools[s.desc].allInuse == s.pools[s.desc].allInuse - |less|
    ensures Described(t, spare - less)
  {
    assert forall x :: x in less ==> x + BLOCK_INFO_SIZE !in DataChunks(t);
    hide LiveIn, DataChunks;
    assert Roles(t, spare - less) by {
      hide Tally;
    }
    hide Roles;
    SetLess(spare, less);
  }

  lemma PutFacts(s: Store, id: int, a: int)
    requires LiveIn(s, id, a) && Listed(s)
    ensures var t := Put(s, a);
      && t.desc == s.desc && t.chunks.Keys == s.chunks.Keys && DataChunks(t) == DataChunks(s) && s.desc in s.pools && s.desc in t.pools
      && t.pools[s.desc].allInuse == s.pools[s.desc].allInuse - (if id == s.desc then 1 else 0)
      && (id != s.desc ==> !LiveIn(s, s.desc, a))
  {
  }

  lemma PutDescribed(s: Store, id: int, a: int, spare: set<int>)
    requires LiveIn(s, id, a) && Inv(s, spare) && (id == s.desc ==> a in spare)
    ensures At(s.mem, a).manage in s.chunks && s.chunks[At(s.mem, a).manage].manage in s.pools
    ensures Described(Put(s, a), if id == s.desc then spare - {a} else spare)
  {
    assert At(s.mem, a).manage in s.chunks && s.chunks[At(s.mem, a).manage].manage in s.pools;
    hide Listed, Chained, Counted, Placed, Rooted, LiveIn, DataChunks, Described, Put;
    var t := Put(s, a);
    PutFacts(s, id, a);
    forall x
      ensures LiveIn(t, s.desc, x) <==> LiveIn(s, s.desc, x) && x != a
    {
      PutLive(s, id, a, s.desc, x);
    }
    if id == s.desc {
      LessSpare(s, t, spare, {a});
    } else {
      LessSpare(s, t, spare, {});
      assert spare - {} == spare;
    }
  }

  // ----- Drop keeps the invariants -----

  predicate CanDrop(s: Store, d: int) {
    d in s.chunks && s.chunks[d].manage in s.pools && s.chunks[d].inuseNumber == 0
  }

  lemma DropShape(s: Store, d: int, e: int)
    requires CanDrop(s, d) && e in s.chunks && e != d
    ensures SameShape(s, Drop(s, d), e) && BlocksOf(s, e) == BlocksOf(Drop(s, d), e) && ChainOf(s, e) == ChainOf(Drop(s, d), e)
  {
    SameBlocks(s, Drop(s, d), e);
  }

  lemma DropChained(s: Store, d: int)
    requires CanDrop(s, d) && Chained(s)
    ensures Chained(Drop(s, d))
  {
    forall e | e in s.chunks && e != d
      ensures InOrder(Drop(s, d), e)
    {
      assert InOrder(s, e);
      DropShape(s, d, e);
    }
  }

  lemma DropListed(s: Store, d: int)
    requires CanDrop(s, d) && Listed(s)
    ensures Listed(Drop(s, d))
  {
    var list := s.pools[s.chunks[d].manage].list;
    WithoutMembers(list, d);
    WithoutDistinct(list, d);
    hide Without, Distinct;
  }

  lemma DropCounted(s: Store, d: int)
    requires CanDrop(s, d) && Listed(s) && Counted(s)
    ensures Counted(Drop(s, d))
  {
    var t := Drop(s, d);
    forall j | j in t.pools
      ensures Totalled(t.chunks, t.pools[j])
    {
      if j == s.chunks[d].manage {
        DropTotalled(s, d);
      } else {
        DropTotalledElsewhere(s, d, j);
      }
    }
  }

  lemma DropTotalled(s: Store, d: int)
    requires CanDrop(s, d) && Listed(s) && Counted(s)
    ensures var t, id := Drop(s, d), s.chunks[d].manage; id in t.pools && Totalled(t.chunks, t.pools[id])
  {
    var t, id := Drop(s, d), s.chunks[d].manage;
    var list := s.pools[id].list;
    assert Totalled(s.chunks, s.pools[id]);
    WithoutMembers(list, d);
    hide Counted, Without, Distinct;
    forall live: bool
      ensures Sum(t.chunks, Without(list, d), live) == Sum(s.chunks, list, live) - Part(s.chunks[d], live)
    {
      WithoutSum(s.chunks, list, d, live);
      SumSame(s.chunks, t.chunks, Without(list, d), live);
    }
    hide Sum;
    assert Sum(t.chunks, Without(list, d), true) == Sum(s.chunks, list, true);
    assert Sum(t.chunks, Without(list, d), false) == Sum(s.chunks, list, false) - s.chunks[d].freeNumber;
  }

  lemma DropTotalledElsewhere(s: Store, d: int, j: int)
    requires CanDrop(s, d) && Listed(s) && Counted(s) && j in s.pools && j != s.chunks[d].manage
    ensures Totalled(Drop(s, d).chunks, Drop(s, d).pools[j])
  {
    var t := Drop(s, d);
    assert Totalled(s.chunks, s.pools[j]);
    SumSame(s.chunks, t.chunks, s.pools[j].list, true);
    SumSame(s.chunks, t.chunks, s.pools[j].list, false);
  }

  lemma DropPlaced(s: Store, d: int)
    requires CanDrop(s, d) && Listed(s) && Placed(s) && Rooted(s)
    ensures Placed(Drop(s, d)) && Rooted(Drop(s, d))
  {
    DropRooted(s, d);
    hide Rooted;
    var t := Drop(s, d);
    forall e | e in t.chunks
      ensures SameShape(s, t, e)
    {
      DropShape(s, d, e);
    }
    DropHeld(s, d);
    hide Drop, CanDrop, Listed;
  }

  lemma DropHeld(s: Store, d: int)
    requires CanDrop(s, d) && Listed(s) && Placed(s) && Rooted(s)
    ensures var t := Drop(s, d);
      && (forall a :: a in t.held ==> a in s.held && t.held[a] == s.held[a])
      && (forall e :: e in t.chunks ==> e in s.chunks && e != d && s.chunks[e].allocPtr in t.held)
  {
    hide Placed, Rooted, Listed;
    forall e | e in s.chunks && e != d
      ensures s.chunks[e].allocPtr in Drop(s, d).held
    {
      DropKeepsRoom(s, d, e);
    }
  }

  lemma DropKeepsRoom(s: Store, d: int, e: int)
    requires CanDrop(s, d) && Placed(s) && Rooted(s) && e in s.chunks && e != d
    ensures s.chunks[e].allocPtr in Drop(s, d).held
  {
    assert s.chunks[e].allocPtr != s.chunks[d].allocPtr && s.chunks[e].allocPtr in s.held;
    if s.chunks[d].manage == s.desc {
      assert s.chunks[e].allocPtr != d;
    }
    hide Placed, Rooted;
  }

  lemma DropRooted(s: Store, d: int)
    requires CanDrop(s, d) && Listed(s) && Placed(s) && Rooted(s)
    ensures Rooted(Drop(s, d))
  {
    hide Placed, Listed;
    var t := Drop(s, d);
    assert forall e :: e in t.chunks ==> e in s.chunks && e != d && t.chunks[e] == s.chunks[e];
    assert forall a :: a in s.held && a != d && a != s.chunks[d].allocPtr ==> a in t.held;
  }

  /** A chunk without blocks in use takes no live block with it. */
  lemma DropLive(s: Store, d: int, j: int, x: int)
    requires CanDrop(s, d) && Listed(s) && Chained(s)
    ensures LiveIn(Drop(s, d), j, x) <==> LiveIn(s, j, x)
    ensures LiveIn(s, j, x) ==> At(s.mem, x).manage != d
  {
    NullIsNoChunk(s);
    assert InOrder(s, d);
    NoneInUse(s.mem, d, s.chunks[d], BlocksOf(s, d), ChainOf(s, d));
    var e := At(s.mem, x).manage;
    if e in s.chunks && e != d {
      DropShape(s, d, e);
    }
  }

  lemma DropDescribed(s: Store, d: int, spare: set<int>)
    requires CanDrop(s, d) && Inv(s, spare)
    ensures Described(Drop(s, d), if s.chunks[d].manage == s.desc then spare else spare + {d - BLOCK_INFO_SIZE})
  {
    var t := Drop(s, d);
    forall x
      ensures LiveIn(t, s.desc, x) <==> LiveIn(s, s.desc, x)
    {
      DropLive(s, d, s.desc, x);
    }
    assert DataChunks(t) == DataChunks(s) - {d};
    assert d in DataChunks(s) <==> s.chunks[d].manage != s.desc;
    hide LiveIn, Listed, Chained, Counted, Placed, Rooted, DataChunks;
    if s.chunks[d].manage != s.desc {
      BecomesSpare(s, t, spare, d);
    } else {
      assert DataChunks(t) == DataChunks(s);
    }
  }

  lemma BecomesSpare(s: Store, t: Store, spare: set<int>, d: int)
    requires Described(s, spare) && t.desc == s.desc && t.chunks == s.chunks - {d}
    requires d in s.chunks && d in DataChunks(s) && DataChunks(t) == DataChunks(s) - {d}
    requires forall x :: LiveIn(t, s.desc, x) <==> LiveIn(s, s.desc, x)
    requires t.desc in t.pools && t.pools[s.desc].allInuse == s.pools[s.desc].allInuse
    ensures Described(t, spare + {d - BLOCK_INFO_SIZE})
  {
    hide LiveIn, DataChunks;
    var b := d - BLOCK_INFO_SIZE;
    assert b !in spare;
  }
}
