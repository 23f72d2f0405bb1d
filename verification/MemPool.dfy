/** The memory pool: allocation and release, over the state and the steps of PoolStores and PoolSteps. */
module MemPools {
  import opened Options
  import opened DistinctLists
  import opened FreeChains
  import opened PoolStores
  import opened PoolSteps
  import opened PoolGrowth
  import opened PoolLeaks
  import opened PoolDirectory
  import opened PoolCounts
  import opened PoolRefinement

  const DEFAULT_ALLOC := 512
  const EXPAND_EVERY_TIME := 128
  const LOW_LIMIT := 128
  const ALLOC_BLOCK_MANAGE_EVERY_TIME := 128
  const MANAGE_INFO_SIZE := 80

  /** What getBlockFromPool ends with: the header of the block, or the failed assertion that the first chunk has a free block. */
  datatype Got = GOT(a: int) | ASSERTION_FAILED

  datatype FreeResult = FREED | FREED_TWICE | NOT_OURS

  datatype Allocated = BLOCK(ptr: int) | NULL | ABORTED

  /** The pool has free blocks, but none in its first chunk. */
  predicate Stuck(s: Store, id: int) {
    id in s.pools && s.pools[id].allFree != 0 && !CanTake(s, id)
  }

  /** No block can be got from the pool: it is stuck itself, or it has to expand and the descriptor pool is stuck. */
  predicate Blocked(s: Store, id: int) {
    Stuck(s, id) || (id in s.pools && s.pools[id].allFree == 0 && Stuck(s, s.desc))
  }

  /** The pools are the same, with the same block sizes. */
  ghost predicate SamePools(s: Store, t: Store) {
    t.desc == s.desc && t.pools.Keys == s.pools.Keys && forall id :: id in s.pools ==> t.pools[id].blockSize == s.pools[id].blockSize
  }

  ghost predicate SameLive(s: Store, t: Store, id: int) {
    forall x :: LiveIn(t, id, x) <==> LiveIn(s, id, x)
  }

  ghost predicate OneMoreLive(s: Store, t: Store, id: int, a: int) {
    !LiveIn(s, id, a) && forall x :: LiveIn(t, id, x) <==> LiveIn(s, id, x) || x == a
  }

  ghost predicate OneLessLive(s: Store, t: Store, id: int, a: int) {
    LiveIn(s, id, a) && forall x :: LiveIn(t, id, x) <==> LiveIn(s, id, x) && x != a
  }

  /** The header at a is that of a block in use. */
  predicate Carries(s: Store, a: int) {
    At(s.mem, a).manage != 0 && At(s.mem, a).ptr == MAGIC
  }

  function PoolOf(s: Store, a: int): int {
    var d := At(s.mem, a).manage;
    if d in s.chunks then s.chunks[d].manage else 0
  }

  /** The block at a is the only one of its chunk in use, and the pool has LOW_LIMIT free blocks in other chunks. */
  predicate Releases(s: Store, a: int) {
    var d := At(s.mem, a).manage;
    && d in s.chunks && s.chunks[d].manage in s.pools && s.chunks[d].inuseNumber == 1
    && s.pools[s.chunks[d].manage].allFree - s.chunks[d].freeNumber >= LOW_LIMIT
  }

  /** The directory lists every pool but the descriptor pool, with its block size. */
  ghost predicate Registered(s: Store, first: seq<Manage>) {
    && (forall m :: m in first ==> m.addr in s.pools && m.addr != s.desc && s.pools[m.addr].blockSize == m.size)
    && (forall m :: m in first ==> MIN_SIZE <= m.size <= MAX_SIZE)
    && (forall id :: id in s.pools && id != s.desc ==> Manage(s.pools[id].blockSize, id) in first)
  }

  /** The block at a is in use by a client. */
  ghost predicate ClientLive(s: Store, a: int) {
    PoolOf(s, a) != s.desc && LiveIn(s, PoolOf(s, a), a)
  }

  ghost predicate OneMoreClient(s: Store, t: Store, a: int) {
    !ClientLive(s, a) && forall x :: ClientLive(t, x) <==> ClientLive(s, x) || x == a
  }

  ghost predicate OneLessClient(s: Store, t: Store, a: int) {
    ClientLive(s, a) && forall x :: ClientLive(t, x) <==> ClientLive(s, x) && x != a
  }

  /** Nothing has happened to the pool, as far as its blocks in use and its counters tell. */
  ghost predicate Untouched(s: Store, t: Store, j: int) {
    SameLive(s, t, j) && Counts(t, j) == Counts(s, j)
  }

  /** Everything but pool id, and the descriptor pool, is untouched. */
  ghost predicate OthersUntouched(s: Store, t: Store, id: int) {
    forall j :: j != id && j != s.desc ==> Untouched(s, t, j)
  }

  lemma UntouchedTrans(s: Store, t: Store, u: Store, id: int)
    requires t.desc == s.desc && OthersUntouched(s, t, id) && OthersUntouched(t, u, id)
    ensures OthersUntouched(s, u, id)
  {
    hide LiveIn, Counts;
    forall j | j != id && j != s.desc
      ensures Untouched(s, u, j)
    {
      assert Untouched(s, t, j) && Untouched(t, u, j);
    }
  }

  lemma SameTrans(s: Store, t: Store, u: Store, j: int)
    requires SameLive(s, t, j) && SameLive(t, u, j)
    ensures SameLive(s, u, j)
  {
    hide LiveIn;
  }

  lemma OneMoreTrans(s: Store, t: Store, u: Store, j: int, a: int)
    requires SameLive(s, t, j) && OneMoreLive(t, u, j, a)
    ensures OneMoreLive(s, u, j, a)
  {
    hide LiveIn;
  }

  lemma {:induction false} EndOf(held: map<int, int>, ks: set<int>) returns (p: int)
    ensures p > 0 && forall a :: a in ks && a in held ==> a + held[a] <= p
    decreases |ks|
  {
    if a :| a in ks {
      p := EndOf(held, ks - {a});
      if a in held && a + held[a] > p {
        p := a + held[a];
      }
    } else {
      p := 1;
    }
  }

  class MemPool {
    var mem: Memory
    var held: map<int, int>
    var chunks: map<int, Chunk>
    var pools: map<int, Pool>
    const desc: int
    const dir: Directory

    function S(): Store
      reads this
    {
      Store(mem, held, chunks, pools, desc)
    }

    /** malloc: any address will do whose bytes have not been given out. */
    method Malloc(len: int) returns (p: int)
      requires len > 0 && Disjoint(held)
      modifies this`held
      ensures Fits(old(held), p, len) && held == old(held)[p := len]
    {
      ghost var q := EndOf(held, held.Keys);
      assert Fits(held, q, len);
      p :| Fits(held, p, len);
      held := held[p := len];
    }

    ghost predicate Steady(spare: set<int>)
      reads this
    {
      Inv(S(), spare) && desc in pools && pools[desc].blockSize == BLOCK_MANAGE_SIZE
    }

    /** The invariants hold, and no memory has been lost. */
    ghost predicate Ready(spare: set<int>)
      reads this
    {
      Steady(spare) && Tight(S(), {})
    }

    /** A new chunk of n blocks for pool id, described at d, becomes the first of the pool's list. */
    method AddChunk(id: int, d: int, n: nat, ghost spare: set<int>)
      requires Steady(spare) && Tight(S(), if id == desc then {d} else {}) && id in pools && n > 0
      requires if id == desc then Unowned(S(), d) else d - BLOCK_INFO_SIZE in spare
      modifies this`mem, this`held, this`chunks, this`pools
      ensures Ready(if id == desc then spare else spare - {d - BLOCK_INFO_SIZE}) && HeldStay(old(held), held)
      ensures SamePools(old(S()), S()) && CanTake(S(), id) && SameLive(old(S()), S(), id)
      ensures forall j :: j != id ==> Untouched(old(S()), S(), j)
      ensures Counts(S(), id) == [Count(n, 0)] + Counts(old(S()), id)
    {
      hide Inv, LiveIn, Fresh, SameElsewhere, Blocks, Room, Fits, CanGrow, SameLive, Counts, Tight, HeldStay;
      ghost var s0, loose := S(), if id == desc then {d} else {};
      InvFacts(s0, spare, id);
      var blockSize := pools[id].blockSize + BLOCK_INFO_SIZE;
      RoomIs(n, blockSize);
      var base := Malloc(n * blockSize);
      GrabKeepsInv(s0, base, n * blockSize, spare);
      FitsIsNew(s0.held, base, n * blockSize);
      GrabTight(s0, base, n * blockSize, loose);
      ghost var s1 := S();
      assert s1 == Grab(s0, base, n * blockSize);
      mem := InitBlocks(mem, base, n, blockSize);
      ghost var m := mem;
      CanGrowHere(s0, s1, id, d, base, n, m, spare);
      GrowKeepsInv(s1, id, d, base, n, m, spare);
      DescriptorIsNew(s1, id, d, base, n, m);
      GrowTight(s1, id, d, base, n, m, loose + {base});
      NothingLoose(loose, base);
      chunks := chunks[d := Chunk(base, base, 0, n, id)];
      var p := pools[id];
      pools := pools[id := p.(list := [d] + p.list, allFree := p.allFree + n, number := p.number + 1)];
      assert S() == Grow(s1, id, d, base, n, m);
      ChunkAdded(s0, id, d, base, n, m, spare, n * blockSize);
    }

    /** expandBlockManageCache: the descriptor of the new chunk comes from malloc. */
    method ExpandBlockManageCache(ghost spare: set<int>)
      requires Ready(spare)
      modifies this`mem, this`held, this`chunks, this`pools
      ensures Ready(spare) && SamePools(old(S()), S()) && CanTake(S(), desc) && SameLive(old(S()), S(), desc)
      ensures OthersUntouched(old(S()), S(), desc) && Counts(S(), desc) == [Count(128, 0)] + Counts(old(S()), desc)
      ensures HeldStay(old(held), held)
    {
      hide Inv, LiveIn, Fits, CanTake, SameLive, Counts, Untouched, Tight, HeldStay;
      ghost var s0 := S();
      InvFacts(s0, spare, desc);
      var d := Malloc(BLOCK_MANAGE_SIZE);
      GrabKeepsInv(s0, d, BLOCK_MANAGE_SIZE, spare);
      FitsIsNew(s0.held, d, BLOCK_MANAGE_SIZE);
      GrabTight(s0, d, BLOCK_MANAGE_SIZE, {});
      assert {} + {d} == {d};
      ghost var s1 := S();
      assert s1 == Grab(s0, d, BLOCK_MANAGE_SIZE);
      AddChunk(desc, d, ALLOC_BLOCK_MANAGE_EVERY_TIME, spare);
      GrabUntouched(s0, d, BLOCK_MANAGE_SIZE);
      UntouchedTrans(s0, s1, S(), desc);
      GrabCounts(s0, d, BLOCK_MANAGE_SIZE, desc);
      SameTrans(s0, s1, S(), desc);
      HeldStayTrans(s0.held, s1.held, held);
    }

    method ExpandMemPool(id: int, ghost spare: set<int>) returns (ok: bool)
      requires Ready(spare) && id in pools && pools[id].allFree == 0
      modifies this`mem, this`held, this`chunks, this`pools
      decreases id != desc, 0
      ensures ok <==> id == desc || !Stuck(old(S()), desc)
      ensures ok ==> Ready(spare) && SamePools(old(S()), S()) && CanTake(S(), id)
      ensures ok ==> SameLive(old(S()), S(), id) && Counts(S(), id) == [Count(128, 0)] + Counts(old(S()), id)
      ensures ok ==> OthersUntouched(old(S()), S(), id) && HeldStay(old(held), held)
    {
      hide Inv, LiveIn, SameLive, OneMoreLive, Counts, OthersUntouched, Untouched, Tight, HeldStay;
      ghost var s0 := S();
      ok := true;
      if id == desc {
        ExpandBlockManageCache(spare);
        return;
      }
      var got := GetBlockFromPool(desc, spare);
      if got == ASSERTION_FAILED {
        return false;
      }
      ghost var s1 := S();
      AddChunk(id, got.a + BLOCK_INFO_SIZE, EXPAND_EVERY_TIME, spare + {got.a});
      assert spare + {got.a} - {got.a} == spare;
      ExpandedFor(s0, s1, S(), id, 128);
      HeldStayTrans(s0.held, s1.held, held);
    }

    /** The second half of getBlockFromPool, once the first chunk is known to have a free block. */
    method TakeFirst(id: int) returns (a: int)
      requires CanTake(S(), id)
      modifies this`mem, this`chunks, this`pools
      ensures a == FirstFree(old(S()), id) && S() == Take(old(S()), id)
    {
      var p := pools[id];
      var d := p.list[0];
      var c := chunks[d];
      a := c.free;
      var next := NextOf(mem, a);
      chunks := chunks[d := c.(free := next, freeNumber := c.freeNumber - 1, inuseNumber := c.inuseNumber + 1)];
      var list := p.list;
      if next == 0 {
        list := p.list[1..] + [d];
      }
      pools := pools[id := p.(list := list, allFree := p.allFree - 1, allInuse := p.allInuse + 1)];
      mem := mem[a := Header(d, MAGIC)];
    }

    /**
     * getBlockFromPool. A pool without free blocks expands first, for which it may need a block of the descriptor
     * pool; there the nesting ends.
     */
    method GetBlockFromPool(id: int, ghost spare: set<int>) returns (got: Got)
      requires Ready(spare) && id in pools
      modifies this`mem, this`held, this`chunks, this`pools
      decreases id != desc, 1
      ensures got == ASSERTION_FAILED <==> Blocked(old(S()), id)
      ensures got.GOT? ==> Ready(if id == desc then spare + {got.a} else spare) && SamePools(old(S()), S())
      ensures got.GOT? ==> OneMoreLive(old(S()), S(), id, got.a) && (id == desc ==> got.a !in spare)
      ensures got.GOT? ==> OthersUntouched(old(S()), S(), id) && Alloc(Counts(old(S()), id)) == Some(Counts(S(), id))
      ensures got.GOT? ==> if old(pools[id].allFree) != 0 then held == old(held) else HeldStay(old(held), held)
    {
      hide Inv, LiveIn, SameLive, OneMoreLive, Counts, OthersUntouched, Tight, HeldStay;
      ghost var s0 := S();
      if pools[id].allFree == 0 {
        var ok := ExpandMemPool(id, spare);
        if !ok {
          return ASSERTION_FAILED;
        }
      }
      ghost var s := S();
      HeadFree(s, id, spare);
      var p := pools[id];
      var d := p.list[0];
      var c := chunks[d];
      if c.freeNumber <= 0 {
        return ASSERTION_FAILED;
      }
      TakeKeepsInv(s, id, spare);
      TakeTight(s, id, {});
      var a := TakeFirst(id);
      TakeLives(s, id, spare);
      TakenAfter(s0, s, id, spare);
      got := GOT(a);
    }

    method Free(p: int)
      requires p in held
      modifies this`held
      ensures held == old(held) - {p}
    {
      held := held - {p};
    }

    /** The search for a chunk's predecessor in the list, and taking the chunk out. */
    method Unlink(list: seq<int>, d: int) returns (rest: seq<int>, found: bool)
      ensures rest == Without(list, d) && (found <==> d in list)
    {
      var i := 0;
      while i < |list| && list[i] != d
        invariant 0 <= i <= |list| && forall j :: 0 <= j < i ==> list[j] != d
      {
        i := i + 1;
      }
      WithoutAt(list, d, i);
      if i == |list| {
        return list, false;
      }
      rest, found := list[..i] + list[i + 1..], true;
    }

    /** freeBlockManage and freeBlockManageCache: the chunk d has no block in use. */
    method FreeBlockManage(id: int, d: int, ghost i: nat, ghost spare: set<int>)
      requires Ready(spare) && CanDrop(S(), d) && chunks[d].manage == id && IsAt(S(), d, i)
      modifies this`mem, this`held, this`chunks, this`pools
      decreases id != desc, 0
      ensures Ready(spare) && SamePools(old(S()), S()) && d !in chunks && chunks.Keys <= old(chunks.Keys)
      ensures pools[id].allFree == old(pools[id].allFree) - old(chunks[d].freeNumber)
      ensures forall j :: j in pools && j != id && j != desc ==> pools[j] == old(pools[j])
      ensures i < |Counts(old(S()), id)| && Counts(S(), id) == Counts(old(S()), id)[..i] + Counts(old(S()), id)[i + 1..]
      ensures SameLive(old(S()), S(), id) && OthersUntouched(old(S()), S(), id)
      ensures ChunkReturned(old(S()), S(), d)
    {
      hide Inv, LiveIn, SameLive, OneLessLive, Counts, OthersUntouched, Untouched, Tight, ChunkReturned, Returned;
      ghost var s := S();
      var c, p := chunks[d], pools[id];
      ToDrop(s, d, spare);
      var rest, found := Unlink(p.list, d);
      assert found;
      DropKeepsInv(s, d, spare);
      DropTight(s, d, {});
      pools := pools[id := p.(list := rest, allFree := p.allFree - c.freeNumber, number := p.number - 1)];
      Free(c.allocPtr);
      chunks := chunks - {d};
      if id == desc {
        Free(d);
        assert held == s.held - {c.allocPtr} - {d};
      } else {
        assert held == s.held - {c.allocPtr} - {};
      }
      assert S() == Drop(s, d);
      Dropped(s, d, i, spare);
      if id != desc {
        ghost var t := S();
        SpareIsLive(t, spare + {d - BLOCK_INFO_SIZE}, d - BLOCK_INFO_SIZE);
        var r := FreeBlock(d, spare + {d - BLOCK_INFO_SIZE});
        assert spare + {d - BLOCK_INFO_SIZE} - {d - BLOCK_INFO_SIZE} == spare;
        DroppedAndFreed(s, t, S(), id);
        DescriptorReturned(s, t, S(), d, spare);
      } else {
        NoMoreReturned(s, S(), d);
      }
    }

    /**
     * freeBlock. What carries a chunk's address and the magic number must be a block in use; everything else is
     * turned down.
     */
    method FreeBlock(ptr: int, ghost spare: set<int>) returns (r: FreeResult)
      requires Ready(spare)
      requires Carries(S(), ptr - BLOCK_INFO_SIZE) ==> LiveIn(S(), PoolOf(S(), ptr - BLOCK_INFO_SIZE), ptr - BLOCK_INFO_SIZE)
      requires Carries(S(), ptr - BLOCK_INFO_SIZE) && PoolOf(S(), ptr - BLOCK_INFO_SIZE) == desc ==> ptr - BLOCK_INFO_SIZE in spare
      modifies this`mem, this`held, this`chunks, this`pools
      decreases PoolOf(S(), ptr - BLOCK_INFO_SIZE) != desc, 1
      ensures r == FREED <==> Carries(old(S()), ptr - BLOCK_INFO_SIZE)
      ensures r == FREED_TWICE <==> At(old(mem), ptr - BLOCK_INFO_SIZE).manage == 0
      ensures r != FREED ==> S() == old(S())
      ensures r == FREED ==> SamePools(old(S()), S())
      ensures r == FREED ==> Ready(if PoolOf(old(S()), ptr - BLOCK_INFO_SIZE) == desc then spare - {ptr - BLOCK_INFO_SIZE} else spare)
      ensures r == FREED ==> OneLessLive(old(S()), S(), PoolOf(old(S()), ptr - BLOCK_INFO_SIZE), ptr - BLOCK_INFO_SIZE)
      ensures r == FREED ==> OthersUntouched(old(S()), S(), PoolOf(old(S()), ptr - BLOCK_INFO_SIZE))
      ensures r == FREED ==> CountsFreed(old(S()), S(), ptr - BLOCK_INFO_SIZE)
      ensures forall j :: j in pools && j != PoolOf(old(S()), ptr - BLOCK_INFO_SIZE) && j != desc ==> pools[j] == old(pools[j])
      ensures chunks.Keys <= old(chunks.Keys)
      ensures r == FREED && PoolOf(old(S()), ptr - BLOCK_INFO_SIZE) != desc ==> OneLessClient(old(S()), S(), ptr - BLOCK_INFO_SIZE)
      ensures r == FREED && PoolOf(old(S()), ptr - BLOCK_INFO_SIZE) != desc && spare == {} && old(Valid()) ==> Valid()
      ensures r == FREED ==> (At(old(mem), ptr - BLOCK_INFO_SIZE).manage !in chunks <==> Releases(old(S()), ptr - BLOCK_INFO_SIZE))
      ensures r == FREED && Releases(old(S()), ptr - BLOCK_INFO_SIZE) ==>
        pools[PoolOf(old(S()), ptr - BLOCK_INFO_SIZE)].allFree >= LOW_LIMIT
      ensures r == FREED ==> Returned(old(S()), S(), ptr - BLOCK_INFO_SIZE)
    {
      hide Inv, LiveIn, SameLive, OneLessLive, Counts, OthersUntouched, Untouched, CountsFreed, Tight, ChunkReturned, Returned;
      var a := ptr - BLOCK_INFO_SIZE;
      var h := At(mem, a);
      if h.manage == 0 {
        return FREED_TWICE;
      }
      if h.ptr != MAGIC {
        return NOT_OURS;
      }
      ghost var s := S();
      var d := h.manage;
      ghost var pool := PoolOf(s, a);
      PutKeepsInv(s, pool, a, spare);
      PutTight(s, a, {});
      var c := chunks[d];
      var id := c.manage;
      var p := pools[id];
      mem := mem[a := Header(0, NEXT(c.free))];
      pools := pools[id := p.(allFree := p.allFree + 1, allInuse := p.allInuse - 1)];
      chunks := chunks[d := c.(free := a, freeNumber := c.freeNumber + 1, inuseNumber := c.inuseNumber - 1)];
      assert S() == Put(s, a);
      ghost var i := FindAt(s, d, spare);
      PutBackAt(s, id, a, i, spare);
      ghost var t := S();
      if 0 == chunks[d].inuseNumber && pools[id].allFree - chunks[d].freeNumber >= LOW_LIMIT {
        FreeBlockManage(id, d, i, if id == desc then spare - {a} else spare);
        LivesLess(s, t, S(), id, a);
        GivenBack(s, t, S(), a, i, spare);
        ReturnedAfterPut(s, S(), a, spare);
      } else {
        NotGivenBack(s, t, a, i, spare);
        NothingReturned(s, t, a);
      }
      if id != desc {
        ClientLoses(s, S(), id, a);
      }
      r := FREED;
    }

    /** Between two calls: no descriptor is spare, and the directory knows the pools. */
    ghost predicate Valid()
      reads this, dir
    {
      Ready({}) && dir.Valid() && Registered(S(), dir.first)
    }

    /** The size asked for has a pool that is blocked, or it has none and the descriptor pool is stuck. */
    ghost predicate Refused(size: int)
      reads this, dir
    {
      && 16 <= size < MAX_SIZE
      && ((exists m :: m in dir.first && m.size == AlignSize(size) && Blocked(S(), m.addr))
          || (!Has(dir.first, AlignSize(size)) && Stuck(S(), desc)))
    }

    lemma RefusedMeans(size: int, m: Manage)
      requires Valid() && 16 <= size < MAX_SIZE && m in dir.first && m.size == AlignSize(size)
      ensures Refused(size) <==> Blocked(S(), m.addr)
    {
      hide Ready, Registered, Blocked, Indexes;
      forall n | n in dir.first && n.size == m.size
        ensures n == m
      {
        OneOfASize(dir.first, m, n);
      }
    }

    /** createMemPool: no pool but the descriptor pool, and that one without a chunk. */
    constructor ()
      ensures Valid() && fresh(dir) && dir.first == [] && forall x :: !ClientLive(S(), x)
    {
      desc := MANAGE_INFO_SIZE;
      mem, chunks := map[], map[];
      held := map[MANAGE_INFO_SIZE := MANAGE_INFO_SIZE];
      pools := map[MANAGE_INFO_SIZE := Pool(BLOCK_MANAGE_SIZE, [], 0, 0, 0)];
      dir := new Directory();
    }

    /** createManageStruct up to the call of initManageMem. */
    method EnterPool(size: int) returns (id: int)
      requires Valid() && !Has(dir.first, size) && MIN_SIZE <= size <= MAX_SIZE
      modifies this`held, this`pools, dir
      ensures Valid() && Manage(size, id) in dir.first && id !in old(pools) && (Stuck(S(), desc) <==> Stuck(old(S()), desc))
      ensures OthersUntouched(old(S()), S(), id) && SameLive(old(S()), S(), id) && Counts(S(), id) == []
      ensures forall m :: m in dir.first <==> m in old(dir.first) || m == Manage(size, id)
      ensures HeldStay(old(held), held)
    {
      hide Inv, LiveIn, SameLive, Fits, Counts, Untouched, Tight, HeldStay;
      ghost var s := S();
      InvFacts(s, {}, desc);
      id := Malloc(MANAGE_INFO_SIZE);
      GrabKeepsInv(s, id, MANAGE_INFO_SIZE, {});
      FitsIsNew(s.held, id, MANAGE_INFO_SIZE);
      GrabTight(s, id, MANAGE_INFO_SIZE, {});
      ghost var t := S();
      assert t == Grab(s, id, MANAGE_INFO_SIZE);
      AddPoolKeepsInv(t, id, size, {});
      AddPoolTight(t, id, size, {} + {id});
      assert {} + {id} - {id} == {};
      pools := pools[id := Pool(size, [], 0, 0, 0)];
      assert S() == AddPool(t, id, size);
      var made := dir.CreateManageStruct(size, id);
      Entered(s, id, size);
    }

    /** createManageStruct and initManageMem for a size that has no pool: a pool with one chunk. */
    method NewPool(size: int) returns (ok: bool, id: int)
      requires Valid() && !Has(dir.first, size) && MIN_SIZE <= size <= MAX_SIZE
      modifies this`mem, this`held, this`chunks, this`pools, dir
      ensures ok <==> !Stuck(old(S()), desc)
      ensures ok ==> Valid() && CanTake(S(), id) && Manage(size, id) in dir.first && id !in old(pools)
      ensures ok ==> OthersUntouched(old(S()), S(), id) && SameLive(old(S()), S(), id) && Counts(S(), id) == [Count(512, 0)]
      ensures ok ==> HeldStay(old(held), held) && forall m :: m in dir.first <==> m in old(dir.first) || m == Manage(size, id)
    {
      hide Inv, LiveIn, SameLive, OneMoreLive, Counts, OthersUntouched, Untouched, Tight, HeldStay;
      ghost var s := S();
      id := EnterPool(size);
      ghost var t := S();
      hide CanTake, Stuck;
      StuckIsBlocked(t);
      var got := GetBlockFromPool(desc, {});
      if got == ASSERTION_FAILED {
        return false, id;
      }
      ghost var u := S();
      assert {} + {got.a} == {got.a} && {got.a} - {got.a} == {};
      AddChunk(id, got.a + BLOCK_INFO_SIZE, DEFAULT_ALLOC, {got.a});
      ok := true;
      ExpandedFor(t, u, S(), id, 512);
      SameTrans(s, t, S(), id);
      UntouchedTrans(s, t, S(), id);
      AllHeldStay(s.held, t.held, u.held, held);
      assert [Count(512, 0)] + [] == [Count(512, 0)];
    }

    /**
     * allocBlock. Sizes from 16 up to, but not including, 1 MB give a block that no client has, and the other
     * blocks in use stay in use; the assertions stop the program for smaller sizes, for 1 MB itself, and when the
     * first chunk of a pool with free blocks has none.
     */
    method AllocBlock(size: int) returns (r: Allocated)
      requires Valid()
      modifies this`mem, this`held, this`chunks, this`pools, dir
      ensures r == NULL <==> size > MAX_SIZE
      ensures r == ABORTED <==> size < 16 || size == MAX_SIZE || old(Refused(size))
      ensures r.NULL? ==> Valid() && S() == old(S())
      ensures r.BLOCK? ==> Valid() && OneMoreClient(old(S()), S(), r.ptr - BLOCK_INFO_SIZE)
      ensures r.BLOCK? ==> PoolOf(S(), r.ptr - BLOCK_INFO_SIZE) in pools
      ensures r.BLOCK? ==> pools[PoolOf(S(), r.ptr - BLOCK_INFO_SIZE)].blockSize == AlignSize(size) > size
      ensures r.BLOCK? ==> OthersUntouched(old(S()), S(), PoolOf(S(), r.ptr - BLOCK_INFO_SIZE))
      ensures r.BLOCK? ==> var id := PoolOf(S(), r.ptr - BLOCK_INFO_SIZE);
        Alloc(if id in old(pools) then Counts(old(S()), id) else [Count(512, 0)]) == Some(Counts(S(), id))
      ensures r.BLOCK? ==> HeldStay(old(held), held)
    {
      hide Inv, LiveIn, SameLive, OneMoreLive, OneMoreClient, CanTake, Counts, OthersUntouched, Alloc, Tight, HeldStay;
      if size <= 0 {
        return ABORTED;
      }
      if size > MAX_SIZE {
        return NULL;
      }
      var alignSize := AlignSize(size);
      AlignedIsLarger(size);
      ghost var s := S();
      var found := dir.FindPool(alignSize);
      var id;
      if found == None {
        if alignSize < MIN_SIZE || alignSize > MAX_SIZE {
          return ABORTED;
        }
        var ok;
        ok, id := NewPool(alignSize);
        if !ok {
          return ABORTED;
        }
        NotBlocked(S(), id);
      } else {
        id := found.value.addr;
        RefusedMeans(size, found.value);
      }
      ghost var t := S();
      var got := GetBlockFromPool(id, {});
      if got == ASSERTION_FAILED {
        return ABORTED;
      }
      r := BLOCK(got.a + BLOCK_INFO_SIZE);
      AllHeldStay(s.held, t.held, t.held, held);
      ClientGains(s, t, S(), id, got.a);
    }
  }

  // ----- What goes back to malloc -----

  /**
   * Chunk d is gone, and with it its memory: of the regions given out, exactly these are given out no more, and those
   * that went with its descriptor. The descriptor of a chunk of the descriptor pool is such a region itself; any other
   * is a block, whose own chunk e may have been released then.
   */
  ghost predicate ChunkReturned(s: Store, t: Store, d: int) {
    && d in s.chunks && s.chunks[d].allocPtr !in t.held
    && t.held == s.held - {s.chunks[d].allocPtr} - WithDescriptor(s, t, d)
  }

  ghost function WithDescriptor(s: Store, t: Store, d: int): set<int>
    requires d in s.chunks
  {
    var e := At(s.mem, d - BLOCK_INFO_SIZE).manage;
    if s.chunks[d].manage == s.desc then {d}
    else if e in t.chunks || e !in s.chunks then {}
    else {e, s.chunks[e].allocPtr}
  }

  /** A release that leaves the block's chunk in place gives nothing back. */
  ghost predicate Returned(s: Store, t: Store, a: int) {
    if At(s.mem, a).manage in t.chunks then t.held == s.held else ChunkReturned(s, t, At(s.mem, a).manage)
  }

  lemma NoMoreReturned(s: Store, t: Store, d: int)
    requires CanDrop(s, d) && s.chunks[d].manage == s.desc && t == Drop(s, d)
    ensures ChunkReturned(s, t, d)
  {
  }

  lemma DescriptorReturned(s: Store, t: Store, u: Store, d: int, spare: set<int>)
    requires CanDrop(s, d) && s.chunks[d].manage != s.desc && t == Drop(s, d) && Inv(t, spare + {d - BLOCK_INFO_SIZE})
    requires Returned(t, u, d - BLOCK_INFO_SIZE)
    ensures ChunkReturned(s, u, d)
  {
    SpareIsLive(t, spare + {d - BLOCK_INFO_SIZE}, d - BLOCK_INFO_SIZE);
    hide Inv;
    var e := At(s.mem, d - BLOCK_INFO_SIZE).manage;
    assert e in t.chunks && t.chunks[e].manage == t.desc;
    if e in u.chunks {
      assert u.held == s.held - {s.chunks[d].allocPtr} - {};
    } else {
      assert u.held == s.held - {s.chunks[d].allocPtr} - {e, s.chunks[e].allocPtr};
    }
  }

  lemma NothingReturned(s: Store, t: Store, a: int)
    requires t.held == s.held && At(s.mem, a).manage in t.chunks
    ensures Returned(s, t, a)
  {
  }

  lemma ReturnedAfterPut(s: Store, u: Store, a: int, spare: set<int>)
    requires Inv(s, spare) && LiveIn(s, PoolOf(s, a), a) && At(s.mem, a).manage in s.chunks && s.chunks[At(s.mem, a).manage].manage in s.pools
    requires ChunkReturned(Put(s, a), u, At(s.mem, a).manage) && At(s.mem, a).manage !in u.chunks
    ensures Returned(s, u, a)
  {
    var d := At(s.mem, a).manage;
    DescriptorApart(s, a, spare);
    hide Inv, LiveIn;
    assert WithDescriptor(s, u, d) == WithDescriptor(Put(s, a), u, d);
  }

  /** The header written is not that of the block that holds the chunk's descriptor. */
  lemma DescriptorApart(s: Store, a: int, spare: set<int>)
    requires Inv(s, spare) && LiveIn(s, PoolOf(s, a), a)
    ensures var d := At(s.mem, a).manage; d in s.chunks && (s.chunks[d].manage != s.desc ==> d - BLOCK_INFO_SIZE != a)
  {
    var d := At(s.mem, a).manage;
    hide Listed, Chained, Counted, Placed, Rooted, IsBlock;
    if d in s.chunks && s.chunks[d].manage != s.desc {
      assert d in DataChunks(s);
      assert LiveIn(s, s.desc, d - BLOCK_INFO_SIZE);
    }
  }

  lemma FitsIsNew(held: map<int, int>, p: int, len: int)
    requires Fits(held, p, len)
    ensures p !in held
  {
  }

  lemma DescriptorIsNew(s: Store, id: int, d: int, base: int, n: nat, mem: Memory)
    requires CanGrow(s, id, d, base, n, mem)
    ensures d !in s.chunks && id in s.pools
  {
  }

  lemma NothingLoose(loose: set<int>, base: int)
    ensures loose + {base} - {base} - loose == {}
  {
  }

  lemma AllHeldStay(a: map<int, int>, b: map<int, int>, c: map<int, int>, d: map<int, int>)
    requires (a == b || HeldStay(a, b)) && (b == c || HeldStay(b, c)) && (c == d || HeldStay(c, d))
    ensures HeldStay(a, d)
  {
  }

  lemma {:induction false} SumAtLeast(chunks: map<int, Chunk>, list: seq<int>, d: int)
    requires d in list && forall e :: e in list ==> e in chunks && chunks[e].freeNumber >= 0
    ensures Sum(chunks, list, false) >= chunks[d].freeNumber
  {
    var first, rest := list[0], list[1..];
    assert list == [first] + rest && first in list;
    if first != d {
      SumAtLeast(chunks, rest, d);
    } else {
      SumNotNegative(chunks, rest);
    }
  }

  lemma {:induction false} SumNotNegative(chunks: map<int, Chunk>, list: seq<int>)
    requires forall e :: e in list ==> e in chunks && chunks[e].freeNumber >= 0
    ensures Sum(chunks, list, false) >= 0
  {
    if list == [] {
    } else {
      var first, rest := list[0], list[1..];
      assert list == [first] + rest && first in list;
      SumNotNegative(chunks, rest);
    }
  }

  /** A block can be got from a pool whose first chunk has a free one. */
  lemma NotBlocked(s: Store, id: int)
    requires Inv(s, {}) && CanTake(s, id)
    ensures !Blocked(s, id)
  {
    var list := s.pools[id].list;
    var d := list[0];
    assert d in list && Totalled(s.chunks, s.pools[id]);
    FreeCounts(s, id);
    hide Inv, Blocks, Walk;
    SumAtLeast(s.chunks, list, d);
  }

  lemma FreeCounts(s: Store, id: int)
    requires Inv(s, {}) && id in s.pools
    ensures forall e :: e in s.pools[id].list ==> e in s.chunks && s.chunks[e].freeNumber >= 0
  {
    hide Counted, Placed, Rooted, Described, Distinct, Linked;
    forall e | e in s.pools[id].list
      ensures e in s.chunks && s.chunks[e].freeNumber >= 0
    {
      assert InOrder(s, e);
    }
  }

  lemma ClientGains(s: Store, t: Store, u: Store, id: int, a: int)
    requires s == t || (OthersUntouched(s, t, id) && SameLive(s, t, id))
    requires OneMoreLive(t, u, id, a) && OthersUntouched(t, u, id)
    requires id != s.desc && t.desc == s.desc && u.desc == s.desc
    ensures OneMoreClient(s, u, a) && PoolOf(u, a) == id && OthersUntouched(s, u, id)
  {
    assert LiveIn(u, id, a);
    if s != t {
      OneMoreTrans(s, t, u, id, a);
      UntouchedTrans(s, t, u, id);
    }
    forall j, x | j != s.desc
      ensures LiveIn(u, j, x) <==> LiveIn(s, j, x) || (j == id && x == a)
      ensures !LiveIn(s, id, a)
    {
      assert j != id ==> Untouched(s, u, j);
    }
    FromClients(s, u, id, a);
  }

  lemma ClientLoses(s: Store, u: Store, id: int, a: int)
    requires OneLessLive(s, u, id, a) && OthersUntouched(s, u, id)
    requires id != s.desc && u.desc == s.desc
    ensures OneLessClient(s, u, a)
  {
    assert LiveIn(s, id, a);
    forall x
      ensures ClientLive(u, x) <==> ClientLive(s, x) && x != a
    {
      var i, j := PoolOf(s, x), PoolOf(u, x);
      assert i != id && i != s.desc ==> Untouched(s, u, i);
      assert j != id && j != s.desc ==> Untouched(s, u, j);
      assert LiveIn(s, i, x) && i == id && x != a ==> LiveIn(u, i, x);
      assert LiveIn(u, j, x) && j == id ==> LiveIn(s, j, x) && x != a;
    }
  }

  lemma FromClients(s: Store, u: Store, id: int, a: int)
    requires id != s.desc && u.desc == s.desc && !LiveIn(s, id, a)
    requires forall j, x :: j != s.desc ==> (LiveIn(u, j, x) <==> LiveIn(s, j, x) || (j == id && x == a))
    ensures OneMoreClient(s, u, a)
  {
    var k := PoolOf(s, a);
    assert LiveIn(u, id, a) && (k != s.desc ==> (LiveIn(u, k, a) <==> LiveIn(s, k, a) || k == id));
    forall x
      ensures ClientLive(u, x) <==> ClientLive(s, x) || x == a
    {
      var i, j := PoolOf(s, x), PoolOf(u, x);
      assert i != s.desc ==> (LiveIn(u, i, x) <==> LiveIn(s, i, x) || (i == id && x == a));
      assert j != s.desc ==> (LiveIn(u, j, x) <==> LiveIn(s, j, x) || (j == id && x == a));
    }
  }

  lemma StuckIsBlocked(s: Store)
    ensures Blocked(s, s.desc) <==> Stuck(s, s.desc)
  {
  }

  lemma Entered(s: Store, id: int, size: int)
    requires Inv(Grab(s, id, MANAGE_INFO_SIZE), {}) && id !in s.pools
    ensures var u := AddPool(Grab(s, id, MANAGE_INFO_SIZE), id, size);
      OthersUntouched(s, u, id) && SameLive(s, u, id) && Counts(u, id) == []
  {
    var t := Grab(s, id, MANAGE_INFO_SIZE);
    hide LiveIn, Counts, Listed;
    forall j
      ensures Untouched(s, AddPool(t, id, size), j)
    {
      GrabSameLive(s, id, MANAGE_INFO_SIZE, j);
      GrabCounts(s, id, MANAGE_INFO_SIZE, j);
      AddPoolCounts(t, id, size, j);
      forall x
        ensures LiveIn(AddPool(t, id, size), j, x) <==> LiveIn(t, j, x)
      {
        AddPoolLive(t, id, size, j, x);
      }
    }
    NoCounts(AddPool(t, id, size), id);
    assert Untouched(s, AddPool(t, id, size), id);
  }

  lemma NoCounts(s: Store, id: int)
    requires id in s.pools && s.pools[id].list == []
    ensures Counts(s, id) == []
  {
  }

  lemma ToDrop(s: Store, d: int, spare: set<int>)
    requires Inv(s, spare) && CanDrop(s, d)
    ensures d in s.pools[s.chunks[d].manage].list && s.chunks[d].allocPtr in s.held && d - BLOCK_INFO_SIZE !in spare
    ensures s.chunks[d].manage == s.desc ==> d in s.held && d != s.chunks[d].allocPtr
  {
    assert d - BLOCK_INFO_SIZE in spare ==> d - BLOCK_INFO_SIZE + BLOCK_INFO_SIZE !in s.chunks;
  }

  lemma SpareIsLive(s: Store, spare: set<int>, a: int)
    requires Inv(s, spare) && a in spare
    ensures LiveIn(s, s.desc, a) && Carries(s, a) && PoolOf(s, a) == s.desc
  {
    assert LiveIn(s, s.desc, a);
    var d := At(s.mem, a).manage;
    assert InOrder(s, d) && d in s.chunks;
  }

  lemma FindAt(s: Store, d: int, spare: set<int>) returns (i: nat)
    requires Inv(s, spare) && d in s.chunks
    ensures IsAt(s, d, i)
  {
    hide Chained, Counted, Placed, Rooted, Described;
    var list := s.pools[s.chunks[d].manage].list;
    assert d in list;
    i :| 0 <= i < |list| && list[i] == d;
  }

  /** The block is on its chunk's chain again; the chunk's counters have changed, and nothing else. */
  lemma PutBackAt(s: Store, id: int, a: int, i: nat, spare: set<int>)
    requires LiveIn(s, id, a) && Inv(s, spare) && IsAt(s, At(s.mem, a).manage, i)
    ensures At(s.mem, a).manage in s.chunks && s.chunks[At(s.mem, a).manage].manage in s.pools
    ensures OneLessLive(s, Put(s, a), id, a) && OthersUntouched(s, Put(s, a), id)
    ensures IsAt(Put(s, a), At(s.mem, a).manage, i) && i < |Counts(s, id)|
    ensures Counts(Put(s, a), id) == Counts(s, id)[i := Count(Counts(s, id)[i].free + 1, Counts(s, id)[i].inuse - 1)]
  {
    hide LiveIn, Counts, Listed, Chained, Counted, Placed, Rooted, Described, Put, IsAt;
    PutCounts(s, id, a, i, id);
    PutStays(s, id, a, i);
    forall j, x
      ensures LiveIn(Put(s, a), j, x) <==> LiveIn(s, j, x) && x != a
      ensures j != id ==> Counts(Put(s, a), j) == Counts(s, j)
    {
      PutLive(s, id, a, j, x);
      PutCounts(s, id, a, i, j);
    }
  }

  lemma PutStays(s: Store, id: int, a: int, i: nat)
    requires LiveIn(s, id, a) && Listed(s) && IsAt(s, At(s.mem, a).manage, i)
    ensures At(s.mem, a).manage in s.chunks && s.chunks[At(s.mem, a).manage].manage in s.pools
    ensures IsAt(Put(s, a), At(s.mem, a).manage, i) && forall j :: j != id ==> !LiveIn(s, j, a)
  {
  }

  /** What the counters say about a release. */
  ghost predicate CountsFreed(s: Store, t: Store, a: int) {
    exists i: nat :: FreedAt(s, t, a, i)
  }

  ghost predicate FreedAt(s: Store, t: Store, a: int, i: nat) {
    IsAt(s, At(s.mem, a).manage, i) && i < |Counts(s, PoolOf(s, a))|
    && Counts(t, PoolOf(s, a)) == PoolCounts.Freed(Counts(s, PoolOf(s, a)), i)
  }

  lemma GivesBackIff(s: Store, a: int, i: nat, spare: set<int>)
    requires Inv(s, spare) && IsAt(s, At(s.mem, a).manage, i)
    ensures var d, l := At(s.mem, a).manage, Counts(s, PoolOf(s, a));
      i < |l| && l[i] == Count(s.chunks[d].freeNumber, s.chunks[d].inuseNumber) && TotalFree(l) == s.pools[PoolOf(s, a)].allFree
  {
    StuckMeansAllocFails(s, PoolOf(s, a));
  }

  lemma NotGivenBack(s: Store, t: Store, a: int, i: nat, spare: set<int>)
    requires Inv(s, spare) && IsAt(s, At(s.mem, a).manage, i) && i < |Counts(s, PoolOf(s, a))|
    requires !Releases(s, a)
    requires Counts(t, PoolOf(s, a)) ==
      Counts(s, PoolOf(s, a))[i := Count(Counts(s, PoolOf(s, a))[i].free + 1, Counts(s, PoolOf(s, a))[i].inuse - 1)]
    ensures CountsFreed(s, t, a)
  {
    hide Counts, TotalFree, Inv;
    GivesBackIff(s, a, i, spare);
    assert FreedAt(s, t, a, i);
  }

  lemma GivenBack(s: Store, t: Store, u: Store, a: int, i: nat, spare: set<int>)
    requires Inv(s, spare) && IsAt(s, At(s.mem, a).manage, i) && i < |Counts(s, PoolOf(s, a))| && Releases(s, a)
    requires Counts(t, PoolOf(s, a)) ==
      Counts(s, PoolOf(s, a))[i := Count(Counts(s, PoolOf(s, a))[i].free + 1, Counts(s, PoolOf(s, a))[i].inuse - 1)]
    requires Counts(u, PoolOf(s, a)) == Counts(t, PoolOf(s, a))[..i] + Counts(t, PoolOf(s, a))[i + 1..]
    ensures CountsFreed(s, u, a)
  {
    hide Counts, TotalFree, Inv;
    GivesBackIff(s, a, i, spare);
    assert FreedAt(s, u, a, i);
  }

  lemma Dropped(s: Store, d: int, i: nat, spare: set<int>)
    requires CanDrop(s, d) && Inv(s, spare) && IsAt(s, d, i)
    ensures var id, t := s.chunks[d].manage, Drop(s, d);
      && SameLive(s, t, id) && (forall j :: j != id ==> Untouched(s, t, j)) && OthersUntouched(s, t, id)
      && i < |Counts(s, id)| && Counts(t, id) == Counts(s, id)[..i] + Counts(s, id)[i + 1..]
  {
    DropCounts(s, d, i, s.chunks[d].manage);
    hide LiveIn, Drop, Counts;
    forall j, x
      ensures LiveIn(Drop(s, d), j, x) <==> LiveIn(s, j, x)
    {
      DropLive(s, d, j, x);
    }
    forall j | j != s.chunks[d].manage
      ensures Untouched(s, Drop(s, d), j)
    {
      DropCounts(s, d, i, j);
    }
  }

  lemma DroppedAndFreed(s: Store, t: Store, u: Store, id: int)
    requires t.desc == s.desc && id != s.desc && SameLive(s, t, id) && OthersUntouched(s, t, id) && OthersUntouched(t, u, s.desc)
    ensures SameLive(s, u, id) && OthersUntouched(s, u, id) && Counts(u, id) == Counts(t, id)
  {
    hide LiveIn, Counts;
    assert Untouched(t, u, id);
    SameTrans(s, t, u, id);
    assert OthersUntouched(t, u, id);
    UntouchedTrans(s, t, u, id);
  }

  lemma LivesLess(s: Store, t: Store, u: Store, id: int, a: int)
    requires OneLessLive(s, t, id, a) && OthersUntouched(s, t, id) && t.desc == s.desc
    requires SameLive(t, u, id) && OthersUntouched(t, u, id)
    ensures OneLessLive(s, u, id, a) && OthersUntouched(s, u, id)
  {
    hide LiveIn, Counts;
    UntouchedTrans(s, t, u, id);
  }

  lemma ExpandedFor(s: Store, t: Store, u: Store, id: int, n: nat)
    requires t.desc == s.desc && id != s.desc && OthersUntouched(s, t, s.desc) && SameLive(t, u, id)
    requires Counts(u, id) == [Count(n, 0)] + Counts(t, id) && forall j :: j != id ==> Untouched(t, u, j)
    ensures SameLive(s, u, id) && Counts(u, id) == [Count(n, 0)] + Counts(s, id) && OthersUntouched(s, u, id)
  {
    hide LiveIn, Counts;
    assert Untouched(s, t, id);
    SameTrans(s, t, u, id);
    UntouchedTrans(s, t, u, id);
  }

  /** An expansion, if there was one, and then a block off the first chunk: what the counters call an allocation. */
  lemma TakenAfter(s: Store, t: Store, id: int, spare: set<int>)
    requires Inv(s, spare) && id in s.pools && Inv(t, spare) && CanTake(t, id) && t.desc == s.desc
    requires if s.pools[id].allFree == 0 then Counts(t, id) == [Count(128, 0)] + Counts(s, id) else t == s
    requires s == t || (SameLive(s, t, id) && OthersUntouched(s, t, id))
    ensures OneMoreLive(s, Take(t, id), id, FirstFree(t, id))
    ensures OthersUntouched(s, Take(t, id), id) && Alloc(Counts(s, id)) == Some(Counts(Take(t, id), id))
  {
    var u := Take(t, id);
    TakeCounts(t, id, id);
    HeadCount(t, id);
    StuckMeansAllocFails(s, id);
    TakeLives(t, id, spare);
    TakeOthers(t, id);
    hide LiveIn, Counts, Inv, Take, Untouched;
    if s != t {
      OneMoreTrans(s, t, u, id, FirstFree(t, id));
      TakeDesc(t, id);
      UntouchedTrans(s, t, u, id);
    }
  }

  lemma TakeDesc(t: Store, id: int)
    requires CanTake(t, id)
    ensures Take(t, id).desc == t.desc
  {
  }

  lemma TakeOthers(t: Store, id: int)
    requires CanTake(t, id) && Listed(t) && Chained(t) && Placed(t)
    ensures OthersUntouched(t, Take(t, id), id)
  {
    hide LiveIn, Counts, Listed, Chained, Placed, Take;
    forall j | j != id
      ensures Untouched(t, Take(t, id), j)
    {
      TakeCounts(t, id, j);
      forall x
        ensures LiveIn(Take(t, id), j, x) <==> LiveIn(t, j, x)
      {
        TakeLive(t, id, j, x);
      }
    }
  }

  lemma GrabUntouched(s: Store, p: int, len: int)
    ensures OthersUntouched(s, Grab(s, p, len), s.desc) && SameLive(s, Grab(s, p, len), s.desc)
  {
    hide LiveIn, Counts;
    GrabSameLive(s, p, len, s.desc);
    forall j
      ensures Untouched(s, Grab(s, p, len), j)
    {
      GrabSameLive(s, p, len, j);
      GrabCounts(s, p, len, j);
    }
  }

  lemma GrabSameLive(s: Store, p: int, len: int, j: int)
    ensures SameLive(s, Grab(s, p, len), j)
  {
    forall x
      ensures LiveIn(Grab(s, p, len), j, x) <==> LiveIn(s, j, x)
    {
      GrabLive(s, p, len, j, x);
    }
  }

  /** The list of a pool with free blocks is not empty. */
  lemma HeadFree(s: Store, id: int, spare: set<int>)
    requires Inv(s, spare) && id in s.pools
    ensures s.pools[id].allFree != 0 ==> s.pools[id].list != [] && s.pools[id].list[0] in s.chunks
  {
    assert Totalled(s.chunks, s.pools[id]);
    if s.pools[id].list != [] {
      var d := s.pools[id].list[0];
      assert d in s.pools[id].list;
    }
  }

  lemma TakeLives(s: Store, id: int, spare: set<int>)
    requires CanTake(s, id) && Inv(s, spare)
    ensures OneMoreLive(s, Take(s, id), id, FirstFree(s, id)) && (id == s.desc ==> FirstFree(s, id) !in spare)
    ensures forall j :: j != id ==> SameLive(s, Take(s, id), j)
  {
    FirstFreeIsSpare(s, id, spare);
    hide LiveIn, Take, CanTake;
    forall j, x
      ensures LiveIn(Take(s, id), j, x) <==> LiveIn(s, j, x) || (j == id && x == FirstFree(s, id))
      ensures !LiveIn(s, j, FirstFree(s, id))
    {
      TakeLive(s, id, j, x);
    }
  }

  lemma RoomIs(n: nat, stride: int)
    requires n > 0 && stride > 0
    ensures Room(n, stride) == n * stride > 0
  {
    RoomGrows(n, stride);
  }

  lemma InvFacts(s: Store, spare: set<int>, id: int)
    requires Inv(s, spare) && id in s.pools
    ensures Disjoint(s.held) && s.pools[id].blockSize > 0 && s.desc in s.pools
  {
  }

  lemma CanGrowHere(s: Store, t: Store, id: int, d: int, base: int, n: nat, mem: Memory, spare: set<int>)
    requires Inv(s, spare) && Inv(t, spare) && id in s.pools && n > 0 && s.pools[id].blockSize > 0
    requires Fits(s.held, base, Room(n, s.pools[id].blockSize + BLOCK_INFO_SIZE))
    requires t == Grab(s, base, Room(n, s.pools[id].blockSize + BLOCK_INFO_SIZE)) && Unowned(t, base)
    requires if id == s.desc then Unowned(s, d) else d - BLOCK_INFO_SIZE in spare
    requires var bs := Blocks(base, n, s.pools[id].blockSize + BLOCK_INFO_SIZE); Fresh(mem, bs) && SameElsewhere(mem, t.mem, bs)
    ensures CanGrow(t, id, d, base, n, mem)
  {
    hide Fresh, SameElsewhere, Blocks, Room, Inv, Fits;
    DescriptorFits(s, t, id, d, base, Room(n, s.pools[id].blockSize + BLOCK_INFO_SIZE), spare);
  }

  lemma DescriptorFits(s: Store, t: Store, id: int, d: int, base: int, len: int, spare: set<int>)
    requires Inv(t, spare) && Fits(s.held, base, len) && t == Grab(s, base, len)
    requires if id == s.desc then Unowned(s, d) else d - BLOCK_INFO_SIZE in spare
    ensures d > 0 && d != base && d !in t.chunks && d !in t.pools && forall e :: e in t.chunks ==> t.chunks[e].allocPtr != d
    ensures id == s.desc ==> d in t.held
  {
    if id != s.desc {
      SpareDescribes(t, d, spare);
    } else {
      assert Disjoint(t.held) && d in t.held;
    }
  }

  lemma ChunkAdded(s: Store, id: int, d: int, base: int, n: nat, mem: Memory, spare: set<int>, len: int)
    requires Inv(Grab(s, base, len), spare) && CanGrow(Grab(s, base, len), id, d, base, n, mem)
    ensures var u := Grow(Grab(s, base, len), id, d, base, n, mem);
      && SameLive(s, u, id) && Counts(u, id) == [Count(n, 0)] + Counts(s, id) && forall j :: j != id ==> Untouched(s, u, j)
  {
    var t := Grab(s, base, len);
    assert id in t.pools;
    hide LiveIn, CanGrow, Grow, Counts;
    forall j, x
      ensures LiveIn(Grow(t, id, d, base, n, mem), j, x) <==> LiveIn(s, j, x)
    {
      GrabLive(s, base, len, j, x);
      GrowLive(t, id, d, base, n, mem, j, x);
    }
    forall j
      ensures Counts(Grow(t, id, d, base, n, mem), j) == if j == id then [Count(n, 0)] + Counts(s, id) else Counts(s, j)
    {
      GrabCounts(s, base, len, j);
      GrowCounts(t, id, d, base, n, mem, j);
    }
  }
}
