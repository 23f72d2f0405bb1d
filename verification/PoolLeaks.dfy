/** No memory is lost: whatever malloc has given out is in use by the pool, through all steps. */
module PoolLeaks {
  import opened DistinctLists
  import opened FreeChains
  import opened PoolStores
  import opened PoolSteps
  import opened PoolGrowth

  ghost predicate RoomOfChunk(s: Store, a: int) {
    exists d :: d in s.chunks && s.chunks[d].allocPtr == a
  }

  /** The region at a is the blocks of a chunk, a pool, or the descriptor of a chunk of the descriptor pool. */
  ghost predicate Owned(s: Store, a: int) {
    RoomOfChunk(s, a) || a in s.pools || (a in s.chunks && s.chunks[a].manage == s.desc)
  }

  /** Everything that malloc has given out and that has not been freed is in use, but for the regions just grabbed. */
  ghost predicate Tight(s: Store, loose: set<int>) {
    forall a {:trigger a in s.held} :: a in s.held ==> a in loose || Owned(s, a)
  }

  /** The regions given out before are still there, as large as they were. */
  ghost predicate HeldStay(before: map<int, int>, after: map<int, int>) {
    forall a {:trigger a in before} :: a in before ==> a in after && after[a] == before[a]
  }

  lemma HeldStayTrans(a: map<int, int>, b: map<int, int>, c: map<int, int>)
    requires HeldStay(a, b) && HeldStay(b, c)
    ensures HeldStay(a, c)
  {
  }

  /** The same chunks with the same memory, and the same pools: nothing changes. */
  lemma SameTight(s: Store, t: Store, loose: set<int>)
    requires Tight(s, loose) && t.held == s.held && t.desc == s.desc && t.pools.Keys == s.pools.Keys && t.chunks.Keys == s.chunks.Keys
    requires forall d :: d in s.chunks ==> t.chunks[d].allocPtr == s.chunks[d].allocPtr && t.chunks[d].manage == s.chunks[d].manage
    ensures Tight(t, loose)
  {
    forall a | a in s.held && a !in loose
      ensures Owned(t, a)
    {
      if RoomOfChunk(s, a) {
        var d :| d in s.chunks && s.chunks[d].allocPtr == a;
        assert d in t.chunks && t.chunks[d].allocPtr == a;
      }
    }
  }

  lemma TakeTight(s: Store, id: int, loose: set<int>)
    requires CanTake(s, id) && Tight(s, loose)
    ensures Tight(Take(s, id), loose) && Take(s, id).held == s.held
  {
    SameTight(s, Take(s, id), loose);
  }

  lemma PutTight(s: Store, a: int, loose: set<int>)
    requires At(s.mem, a).manage in s.chunks && s.chunks[At(s.mem, a).manage].manage in s.pools && Tight(s, loose)
    ensures Tight(Put(s, a), loose) && Put(s, a).held == s.held
  {
    SameTight(s, Put(s, a), loose);
  }

  lemma GrabTight(s: Store, p: int, len: int, loose: set<int>)
    requires Tight(s, loose) && p !in s.held
    ensures Tight(Grab(s, p, len), loose + {p}) && HeldStay(s.held, Grab(s, p, len).held)
  {
    forall a | a in s.held && a !in loose
      ensures Owned(Grab(s, p, len), a)
    {
      assert RoomOfChunk(s, a) <==> RoomOfChunk(Grab(s, p, len), a);
    }
  }

  lemma AddPoolTight(s: Store, id: int, size: int, loose: set<int>)
    requires Tight(s, loose)
    ensures Tight(AddPool(s, id, size), loose - {id})
  {
    forall a | a in s.held && a !in loose
      ensures Owned(AddPool(s, id, size), a)
    {
      assert RoomOfChunk(s, a) <==> RoomOfChunk(AddPool(s, id, size), a);
    }
  }

  lemma GrowTight(s: Store, id: int, d: int, base: int, n: nat, mem: Memory, loose: set<int>)
    requires id in s.pools && d !in s.chunks && Tight(s, loose)
    ensures Tight(Grow(s, id, d, base, n, mem), loose - {base} - (if id == s.desc then {d} else {}))
    ensures Grow(s, id, d, base, n, mem).held == s.held
  {
    var t := Grow(s, id, d, base, n, mem);
    assert d in t.chunks && t.chunks[d].allocPtr == base;
    forall a | a in s.held && a !in loose
      ensures Owned(t, a)
    {
      if RoomOfChunk(s, a) {
        var e :| e in s.chunks && s.chunks[e].allocPtr == a;
        assert e in t.chunks && t.chunks[e].allocPtr == a;
      }
    }
    assert Owned(t, base);
  }

  lemma DropTight(s: Store, d: int, loose: set<int>)
    requires CanDrop(s, d) && Tight(s, loose)
    ensures Tight(Drop(s, d), loose)
  {
    var t := Drop(s, d);
    forall a | a in t.held && a !in loose
      ensures Owned(t, a)
    {
      assert a in s.held && a != s.chunks[d].allocPtr;
      if RoomOfChunk(s, a) {
        var e :| e in s.chunks && s.chunks[e].allocPtr == a;
        assert e != d && e in t.chunks && t.chunks[e].allocPtr == a;
      }
    }
  }
}
