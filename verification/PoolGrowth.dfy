/** Memory that malloc gives out, new chunks and new pools keep the invariants of the memory pool. */
module PoolGrowth {
  import opened DistinctLists
  import opened FreeChains
  import opened PoolStores
  import opened PoolSteps

  // ----- The steps together keep the invariants -----

  lemma TakeKeepsInv(s: Store, id: int, spare: set<int>)
    requires CanTake(s, id) && Inv(s, spare)
    ensures Inv(Take(s, id), if id == s.desc then spare + {FirstFree(s, id)} else spare)
  {
    TakeListed(s, id);
    TakeChained(s, id);
    TakeCounted(s, id);
    TakePlaced(s, id);
    TakeDescribed(s, id, spare);
    hide Listed, Chained, Counted, Placed, Rooted, Described;
  }

  lemma PutKeepsInv(s: Store, id: int, a: int, spare: set<int>)
    requires LiveIn(s, id, a) && Inv(s, spare) && (id == s.desc ==> a in spare)
    ensures At(s.mem, a).manage in s.chunks && id in s.pools && s.chunks[At(s.mem, a).manage].manage == id
    ensures Inv(Put(s, a), if id == s.desc then spare - {a} else spare)
  {
    PutListed(s, id, a);
    PutChained(s, id, a);
    PutCounted(s, id, a);
    PutPlaced(s, id, a);
    PutDescribed(s, id, a, spare);
    hide Chained, Counted, Placed, Rooted, Described;
  }

  lemma DropKeepsInv(s: Store, d: int, spare: set<int>)
    requires CanDrop(s, d) && Inv(s, spare)
    ensures Inv(Drop(s, d), if s.chunks[d].manage == s.desc then spare else spare + {d - BLOCK_INFO_SIZE})
  {
    DropListed(s, d);
    DropChained(s, d);
    DropCounted(s, d);
    DropPlaced(s, d);
    DropDescribed(s, d, spare);
    hide Listed, Chained, Counted, Placed, Rooted, Described;
  }

  // ----- malloc -----

  /** The len bytes at p meet no region given out before. */
  predicate Fits(held: map<int, int>, p: int, len: int) {
    p > 0 && len > 0 && p !in held && forall a :: a in held ==> Apart(a, held[a], p, len)
  }

  /** Given out by malloc, but not used for anything yet. */
  ghost predicate Unowned(s: Store, p: int) {
    && p in s.held && p !in s.chunks && p !in s.pools
    && forall e :: e in s.chunks ==> s.chunks[e].allocPtr != p
  }

  lemma GrabUnowned(s: Store, p: int, len: int, spare: set<int>)
    requires Inv(s, spare) && Fits(s.held, p, len)
    ensures Unowned(Grab(s, p, len), p)
  {
    assert s.desc in s.pools;
    if p in s.chunks && s.chunks[p].manage != s.desc {
      var a := p - BLOCK_INFO_SIZE;
      var d := At(s.mem, a).manage;
      assert p in DataChunks(s);
      assert LiveIn(s, s.desc, a);
      BlockInRegion(s, d, a);
    }
  }

  lemma GrabShape(s: Store, p: int, len: int, e: int)
    requires e in s.chunks
    ensures var t := Grab(s, p, len);
      SameShape(s, t, e) && BlocksOf(s, e) == BlocksOf(t, e) && ChainOf(s, e) == ChainOf(t, e)
  {
  }

  lemma GrabLive(s: Store, p: int, len: int, j: int, x: int)
    ensures LiveIn(Grab(s, p, len), j, x) <==> LiveIn(s, j, x)
  {
  }

  lemma GrabPlaced(s: Store, p: int, len: int)
    requires Placed(s) && Rooted(s) && Fits(s.held, p, len)
    ensures Placed(Grab(s, p, len)) && Rooted(Grab(s, p, len))
  {
    var t := Grab(s, p, len);
    forall d | d in s.chunks
      ensures SameShape(s, t, d)
    {
      GrabShape(s, p, len, d);
    }
    hide SameShape;
  }

  lemma GrabKeepsInv(s: Store, p: int, len: int, spare: set<int>)
    requires Inv(s, spare) && Fits(s.held, p, len)
    ensures Inv(Grab(s, p, len), spare) && Unowned(Grab(s, p, len), p)
  {
    var t := Grab(s, p, len);
    GrabUnowned(s, p, len, spare);
    GrabPlaced(s, p, len);
    forall d | d in s.chunks
      ensures InOrder(t, d)
    {
      assert InOrder(s, d);
      GrabShape(s, p, len, d);
    }
    forall x
      ensures LiveIn(t, s.desc, x) <==> LiveIn(s, s.desc, x)
    {
      GrabLive(s, p, len, s.desc, x);
    }
    assert DataChunks(t) == DataChunks(s);
    hide LiveIn, DataChunks, InOrder, Placed, Rooted;
  }

  // ----- A new pool -----

  lemma AddPoolShape(s: Store, id: int, size: int, e: int)
    requires Listed(s) && id !in s.pools && e in s.chunks
    ensures var t := AddPool(s, id, size);
      SameShape(s, t, e) && BlocksOf(s, e) == BlocksOf(t, e) && ChainOf(s, e) == ChainOf(t, e)
  {
    SameBlocks(s, AddPool(s, id, size), e);
  }

  lemma AddPoolPlaced(s: Store, id: int, size: int)
    requires Listed(s) && Placed(s) && Rooted(s) && Unowned(s, id)
    ensures Placed(AddPool(s, id, size)) && Rooted(AddPool(s, id, size))
  {
    forall e | e in s.chunks
      ensures SameShape(s, AddPool(s, id, size), e)
    {
      AddPoolShape(s, id, size, e);
    }
  }

  lemma AddPoolLive(s: Store, id: int, size: int, j: int, x: int)
    requires Listed(s) && id !in s.pools
    ensures LiveIn(AddPool(s, id, size), j, x) <==> LiveIn(s, j, x)
  {
    var e := At(s.mem, x).manage;
    if e in s.chunks {
      AddPoolShape(s, id, size, e);
    }
  }

  lemma AddPoolKeepsInv(s: Store, id: int, size: int, spare: set<int>)
    requires Inv(s, spare) && Unowned(s, id) && size > 0
    ensures Inv(AddPool(s, id, size), spare)
  {
    UnownedIsNoPool(s, id);
    AddPoolPlaced(s, id, size);
    AddPoolCounted(s, id, size);
    AddPoolChained(s, id, size);
    AddPoolDescribed(s, id, size, spare);
    hide *;
  }

  lemma UnownedIsNoPool(s: Store, id: int)
    requires Rooted(s) && Unowned(s, id)
    ensures id !in s.pools
  {
  }

  lemma AddPoolCounted(s: Store, id: int, size: int)
    requires Listed(s) && Counted(s) && id !in s.pools && size > 0
    ensures Listed(AddPool(s, id, size)) && Counted(AddPool(s, id, size))
  {
    assert Totalled(s.chunks, Pool(size, [], 0, 0, 0));
    hide Totalled;
  }

  lemma AddPoolChained(s: Store, id: int, size: int)
    requires Listed(s) && Chained(s) && id !in s.pools
    ensures Chained(AddPool(s, id, size))
  {
    forall e | e in s.chunks
      ensures InOrder(AddPool(s, id, size), e)
    {
      assert InOrder(s, e);
      AddPoolShape(s, id, size, e);
    }
    hide InOrder;
  }

  lemma AddPoolDescribed(s: Store, id: int, size: int, spare: set<int>)
    requires Listed(s) && Described(s, spare) && id !in s.pools
    ensures Described(AddPool(s, id, size), spare)
  {
    var t := AddPool(s, id, size);
    assert DataChunks(t) == DataChunks(s);
    hide LiveIn, DataChunks;
    forall x
      ensures LiveIn(t, s.desc, x) <==> LiveIn(s, s.desc, x)
    {
      AddPoolLive(s, id, size, s.desc, x);
    }
  }

  // ----- A new chunk -----

  ghost predicate CanGrow(s: Store, id: int, d: int, base: int, n: nat, mem: Memory) {
    && id in s.pools && n > 0 && d > 0 && d != base && d !in s.chunks && d !in s.pools && Unowned(s, base)
    && (forall e :: e in s.chunks ==> s.chunks[e].allocPtr != d)
    && (id == s.desc ==> d in s.held)
    && s.held[base] == Room(n, s.pools[id].blockSize + BLOCK_INFO_SIZE)
    && var bs := Blocks(base, n, s.pools[id].blockSize + BLOCK_INFO_SIZE);
      Fresh(mem, bs) && SameElsewhere(mem, s.mem, bs)
  }

  lemma GrowShape(s: Store, id: int, d: int, base: int, n: nat, mem: Memory, e: int)
    requires CanGrow(s, id, d, base, n, mem) && e in s.chunks
    ensures var t := Grow(s, id, d, base, n, mem);
      SameShape(s, t, e) && BlocksOf(s, e) == BlocksOf(t, e)
  {
    SameBlocks(s, Grow(s, id, d, base, n, mem), e);
  }

  lemma GrowListed(s: Store, id: int, d: int, base: int, n: nat, mem: Memory)
    requires CanGrow(s, id, d, base, n, mem) && Listed(s)
    ensures Listed(Grow(s, id, d, base, n, mem))
  {
  }

  lemma GrowCounted(s: Store, id: int, d: int, base: int, n: nat, mem: Memory)
    requires CanGrow(s, id, d, base, n, mem) && Listed(s) && Counted(s)
    ensures Counted(Grow(s, id, d, base, n, mem))
  {
    var t := Grow(s, id, d, base, n, mem);
    forall j | j in s.pools
      ensures Totalled(t.chunks, t.pools[j])
    {
      var list := s.pools[j].list;
      assert Totalled(s.chunks, s.pools[j]);
      SumSame(s.chunks, t.chunks, list, true);
      SumSame(s.chunks, t.chunks, list, false);
      if j == id {
        assert ([d] + list)[1..] == list;
      }
    }
  }

  lemma GrowPlaced(s: Store, id: int, d: int, base: int, n: nat, mem: Memory)
    requires CanGrow(s, id, d, base, n, mem) && Listed(s) && Placed(s) && Rooted(s)
    ensures Placed(Grow(s, id, d, base, n, mem)) && Rooted(Grow(s, id, d, base, n, mem))
  {
    var t := Grow(s, id, d, base, n, mem);
    forall e | e in s.chunks
      ensures SameShape(s, t, e)
    {
      GrowShape(s, id, d, base, n, mem, e);
    }
    hide Blocks, Fresh, SameElsewhere, Room;
  }

  lemma NewBlocksAreNew(s: Store, id: int, d: int, base: int, n: nat, mem: Memory, e: int, x: int)
    requires CanGrow(s, id, d, base, n, mem) && Listed(s) && Placed(s) && Rooted(s) && e in s.chunks && IsBlock(s, e, x)
    ensures !IsBlock(Grow(s, id, d, base, n, mem), d, x) && At(mem, x) == At(s.mem, x)
  {
    var t := Grow(s, id, d, base, n, mem);
    GrowPlaced(s, id, d, base, n, mem);
    GrowListed(s, id, d, base, n, mem);
    GrowShape(s, id, d, base, n, mem, e);
    GrownChunk(s, id, d, base, n, mem, e);
    hide Grow, CanGrow, Listed, Placed, Rooted, BlocksOf, Blocks;
    BlocksDiffer(t, e, d, x);
    NewElsewhere(s, id, d, base, n, mem, x);
  }

  lemma GrownChunk(s: Store, id: int, d: int, base: int, n: nat, mem: Memory, e: int)
    requires CanGrow(s, id, d, base, n, mem) && e in s.chunks
    ensures var t := Grow(s, id, d, base, n, mem); d in t.chunks && e in t.chunks && d != e
  {
  }

  lemma NewElsewhere(s: Store, id: int, d: int, base: int, n: nat, mem: Memory, x: int)
    requires CanGrow(s, id, d, base, n, mem) && !IsBlock(Grow(s, id, d, base, n, mem), d, x)
    ensures At(mem, x) == At(s.mem, x)
  {
    var t := Grow(s, id, d, base, n, mem);
    assert BlocksOf(t, d) == Blocks(base, n, s.pools[id].blockSize + BLOCK_INFO_SIZE);
  }

  lemma AgreeKeepsSound(mem: Memory, m: Memory, d: int, c: Chunk, bs: seq<int>, ch: seq<int>)
    requires Sound(mem, d, c, bs, ch) && forall a :: a in bs ==> At(m, a) == At(mem, a)
    ensures Sound(m, d, c, bs, ch)
  {
  }

  lemma GrowChained(s: Store, id: int, d: int, base: int, n: nat, mem: Memory)
    requires CanGrow(s, id, d, base, n, mem) && Listed(s) && Chained(s) && Placed(s) && Rooted(s)
    ensures Chained(Grow(s, id, d, base, n, mem))
  {
    var t := Grow(s, id, d, base, n, mem);
    forall e | e in t.chunks
      ensures InOrder(t, e) && Cap(t.chunks[e]) > 0
    {
      if e == d {
        NewInOrder(s, id, d, base, n, mem);
      } else {
        assert InOrder(s, e);
        GrowShape(s, id, d, base, n, mem, e);
        forall x | x in BlocksOf(s, e)
          ensures At(mem, x) == At(s.mem, x)
        {
          NewBlocksAreNew(s, id, d, base, n, mem, e, x);
        }
        AgreeKeepsSound(s.mem, mem, e, s.chunks[e], BlocksOf(s, e), ChainOf(s, e));
        ChainIs(t, e, ChainOf(s, e));
      }
    }
  }

  lemma NewInOrder(s: Store, id: int, d: int, base: int, n: nat, mem: Memory)
    requires CanGrow(s, id, d, base, n, mem) && Listed(s) && Placed(s)
    ensures InOrder(Grow(s, id, d, base, n, mem), d)
  {
    var t, stride := Grow(s, id, d, base, n, mem), s.pools[id].blockSize + BLOCK_INFO_SIZE;
    var bs := Blocks(base, n, stride);
    BlocksApart(base, n, stride);
    assert base > 0;
    assert 0 !in bs by {
      assert forall i :: 0 <= i < n ==> bs[i] >= base;
    }
    BlockAt(base, n, stride, 0);
    NoRoom(stride);
    FreshIsSound(mem, d, t.chunks[d], bs);
    ChainIs(t, d, bs);
  }

  /** A new chunk brings no live block and ends the life of none. */
  lemma GrowLive(s: Store, id: int, d: int, base: int, n: nat, mem: Memory, j: int, x: int)
    requires CanGrow(s, id, d, base, n, mem) && Listed(s) && Chained(s) && Placed(s) && Rooted(s)
    ensures LiveIn(Grow(s, id, d, base, n, mem), j, x) <==> LiveIn(s, j, x)
  {
    var t, bs := Grow(s, id, d, base, n, mem), Blocks(base, n, s.pools[id].blockSize + BLOCK_INFO_SIZE);
    NullIsNoChunk(s);
    assert BlocksOf(t, d) == bs;
    var e, f := At(s.mem, x).manage, At(mem, x).manage;
    if e in s.chunks && IsBlock(s, e, x) {
      NewBlocksAreNew(s, id, d, base, n, mem, e, x);
      GrowShape(s, id, d, base, n, mem, e);
    }
    if x in bs {
      assert f == 0;
    } else {
      assert e == f;
      if f in s.chunks {
        GrowShape(s, id, d, base, n, mem, f);
      }
    }
  }

  /** A spare block lies inside a region that malloc has given out, so that its address is not the start of any. */
  lemma InsideNotHeld(s: Store, d: int, a: int)
    requires Listed(s) && Placed(s) && d in s.chunks && IsBlock(s, d, a)
    ensures a + BLOCK_INFO_SIZE !in s.held && a > 0
  {
    BlockInRegion(s, d, a);
    assert s.chunks[d].manage in s.pools;
    var p := s.chunks[d].allocPtr;
    assert p in s.held && s.held[p] > 0;
    assert a + BLOCK_INFO_SIZE in s.held ==> Apart(p, s.held[p], a + BLOCK_INFO_SIZE, s.held[a + BLOCK_INFO_SIZE]);
  }

  lemma SpareDescribes(s: Store, d: int, spare: set<int>)
    requires Inv(s, spare) && d - BLOCK_INFO_SIZE in spare
    ensures d > 0 && d !in s.held && d !in s.chunks && d !in s.pools
    ensures forall e :: e in s.chunks ==> s.chunks[e].allocPtr != d
  {
    var a := d - BLOCK_INFO_SIZE;
    assert LiveIn(s, s.desc, a);
    InsideNotHeld(s, At(s.mem, a).manage, a);
  }

  lemma ServesRoles(s: Store, t: Store, spare: set<int>, d: int)
    requires Roles(s, spare) && t.desc == s.desc && t.chunks.Keys == s.chunks.Keys + {d}
    requires d - BLOCK_INFO_SIZE in spare && DataChunks(t) == DataChunks(s) + {d}
    requires forall x :: LiveIn(t, s.desc, x) <==> LiveIn(s, s.desc, x)
    ensures Roles(t, spare - {d - BLOCK_INFO_SIZE})
  {
    hide LiveIn, DataChunks;
    var b, less := d - BLOCK_INFO_SIZE, spare - {d - BLOCK_INFO_SIZE};
    forall a
      ensures LiveIn(t, t.desc, a) <==> a + BLOCK_INFO_SIZE in DataChunks(t) || a in less
    {
      assert LiveIn(s, s.desc, a) <==> a + BLOCK_INFO_SIZE in DataChunks(s) || a in spare;
      assert a + BLOCK_INFO_SIZE == d <==> a == b;
    }
    forall a | a in less
      ensures a + BLOCK_INFO_SIZE !in t.chunks
    {
      assert a + BLOCK_INFO_SIZE !in s.chunks && a != b;
    }
  }

  lemma ServesAgain(s: Store, t: Store, spare: set<int>, d: int)
    requires Described(s, spare) && t.desc == s.desc && t.chunks.Keys == s.chunks.Keys + {d}
    requires d - BLOCK_INFO_SIZE in spare && DataChunks(t) == DataChunks(s) + {d}
    requires forall x :: LiveIn(t, s.desc, x) <==> LiveIn(s, s.desc, x)
    requires t.desc in t.pools && t.pools[s.desc].allInuse == s.pools[s.desc].allInuse
    ensures Described(t, spare - {d - BLOCK_INFO_SIZE})
  {
    assert d !in DataChunks(s);
    hide LiveIn, DataChunks;
    ServesRoles(s, t, spare, d);
    hide Roles;
    SetLess(spare, {d - BLOCK_INFO_SIZE});
  }

  lemma StaysDescribed(s: Store, t: Store, spare: set<int>, d: int)
    requires Described(s, spare) && t.desc == s.desc && t.chunks.Keys == s.chunks.Keys + {d}
    requires d - BLOCK_INFO_SIZE !in spare && DataChunks(t) == DataChunks(s)
    requires forall x :: LiveIn(t, s.desc, x) <==> LiveIn(s, s.desc, x)
    requires t.desc in t.pools && t.pools[s.desc].allInuse == s.pools[s.desc].allInuse
    ensures Described(t, spare)
  {
    hide LiveIn, DataChunks;
  }

  lemma GrowFacts(s: Store, id: int, d: int, base: int, n: nat, mem: Memory)
    requires CanGrow(s, id, d, base, n, mem) && Listed(s)
    ensures var t := Grow(s, id, d, base, n, mem);
      && t.desc == s.desc && t.chunks.Keys == s.chunks.Keys + {d} && s.desc in s.pools && s.desc in t.pools
      && t.pools[s.desc].allInuse == s.pools[s.desc].allInuse
      && DataChunks(t) == (if id == s.desc then DataChunks(s) else DataChunks(s) + {d}) && (id == s.desc ==> d in s.held)
  {
  }

  lemma GrowDescribed(s: Store, id: int, d: int, base: int, n: nat, mem: Memory, spare: set<int>)
    requires CanGrow(s, id, d, base, n, mem) && Inv(s, spare) && (id != s.desc ==> d - BLOCK_INFO_SIZE in spare)
    ensures id in s.pools && Described(Grow(s, id, d, base, n, mem), if id == s.desc then spare else spare - {d - BLOCK_INFO_SIZE})
  {
    assert id in s.pools;
    hide Listed, Chained, Counted, Placed, Rooted, LiveIn, DataChunks, Described, Grow, CanGrow;
    var t := Grow(s, id, d, base, n, mem);
    GrowFacts(s, id, d, base, n, mem);
    forall x
      ensures LiveIn(t, s.desc, x) <==> LiveIn(s, s.desc, x)
    {
      GrowLive(s, id, d, base, n, mem, s.desc, x);
    }
    if id == s.desc {
      SpareOutside(s, spare, d);
      StaysDescribed(s, t, spare, d);
    } else {
      ServesAgain(s, t, spare, d);
    }
  }

  lemma SpareOutside(s: Store, spare: set<int>, d: int)
    requires Inv(s, spare) && d in s.held
    ensures d - BLOCK_INFO_SIZE !in spare
  {
    if d - BLOCK_INFO_SIZE in spare {
      SpareDescribes(s, d, spare);
    }
  }

  lemma GrowKeepsInv(s: Store, id: int, d: int, base: int, n: nat, mem: Memory, spare: set<int>)
    requires CanGrow(s, id, d, base, n, mem) && Inv(s, spare) && (id != s.desc ==> d - BLOCK_INFO_SIZE in spare)
    ensures Inv(Grow(s, id, d, base, n, mem), if id == s.desc then spare else spare - {d - BLOCK_INFO_SIZE})
  {
    GrowListed(s, id, d, base, n, mem);
    GrowChained(s, id, d, base, n, mem);
    GrowCounted(s, id, d, base, n, mem);
    GrowPlaced(s, id, d, base, n, mem);
    GrowDescribed(s, id, d, base, n, mem, spare);
    hide Listed, Chained, Counted, Placed, Rooted, Described;
  }
}
