/**
 * The state of the whole memory pool, the four steps that every allocation and release is made of, and the
 * invariants that each step keeps. The descriptors of chunks are themselves blocks of one of the pools, the
 * descriptor pool; only its own chunks have descriptors that come straight from malloc.
 */
module PoolStores {
  import opened DistinctLists
  import opened FreeChains

  const BLOCK_MANAGE_SIZE := 88

  /** allocList, the totals over it, and its length. */
  datatype Pool = Pool(blockSize: int, list: seq<int>, allInuse: int, allFree: int, number: int)

  /** held: the regions that malloc has given out; chunks: the descriptors; desc: the descriptor pool. */
  datatype Store = Store(mem: Memory, held: map<int, int>, chunks: map<int, Chunk>, pools: map<int, Pool>, desc: int)

  function Cap(c: Chunk): int {
    c.inuseNumber + c.freeNumber
  }

  function StrideOf(s: Store, c: Chunk): int {
    if c.manage in s.pools then s.pools[c.manage].blockSize + BLOCK_INFO_SIZE else BLOCK_INFO_SIZE
  }

  function BlocksOf(s: Store, d: int): seq<int> {
    if d in s.chunks && Cap(s.chunks[d]) >= 0 then Blocks(s.chunks[d].allocPtr, Cap(s.chunks[d]), StrideOf(s, s.chunks[d])) else []
  }

  function ChainOf(s: Store, d: int): seq<int> {
    if d in s.chunks && s.chunks[d].freeNumber >= 0 then Walk(s.mem, s.chunks[d].free, s.chunks[d].freeNumber) else []
  }

  ghost predicate IsBlock(s: Store, d: int, a: int) {
    a in BlocksOf(s, d)
  }

  // ----- The invariants -----

  /** The lists of the pools hold each chunk once, in the pool that its descriptor names. */
  ghost predicate Listed(s: Store) {
    && (forall id :: id in s.pools ==> Distinct(s.pools[id].list) && s.pools[id].number == |s.pools[id].list| && s.pools[id].blockSize > 0)
    && (forall id, d :: id in s.pools && d in s.pools[id].list ==> d in s.chunks && s.chunks[d].manage == id)
    && (forall d :: d in s.chunks ==> s.chunks[d].manage in s.pools && d in s.pools[s.chunks[d].manage].list)
    && s.desc in s.pools
  }

  ghost predicate InOrder(s: Store, d: int) {
    d in s.chunks && Sound(s.mem, d, s.chunks[d], BlocksOf(s, d), ChainOf(s, d))
  }

  ghost predicate Chained(s: Store) {
    forall d :: d in s.chunks ==> InOrder(s, d) && Cap(s.chunks[d]) > 0
  }

  function Part(c: Chunk, live: bool): int {
    if live then c.inuseNumber else c.freeNumber
  }

  function Sum(chunks: map<int, Chunk>, list: seq<int>, live: bool): int {
    if list == [] then 0
    else (if list[0] in chunks then Part(chunks[list[0]], live) else 0) + Sum(chunks, list[1..], live)
  }

  ghost predicate Totalled(chunks: map<int, Chunk>, p: Pool) {
    p.allInuse == Sum(chunks, p.list, true) && p.allFree == Sum(chunks, p.list, false)
  }

  /** The totals of each pool are the sums over its chunks. */
  ghost predicate Counted(s: Store) {
    forall id :: id in s.pools ==> Totalled(s.chunks, s.pools[id])
  }

  /** Two regions of memory that do not meet. */
  predicate Apart(a: int, n: int, b: int, m: int) {
    a + n <= b || b + m <= a
  }

  ghost predicate Disjoint(held: map<int, int>) {
    && (forall a :: a in held ==> a > 0 && held[a] > 0)
    && (forall a, b :: a in held && b in held && a != b ==> Apart(a, held[a], b, held[b]))
  }

  /** Every chunk has memory of its own that is large enough for its blocks. */
  ghost predicate Placed(s: Store) {
    && Disjoint(s.held)
    && (forall d :: d in s.chunks ==> var c := s.chunks[d];
          c.allocPtr in s.held && Cap(c) >= 0 && s.held[c.allocPtr] == Room(Cap(c), StrideOf(s, c)))
    && (forall d, e :: d in s.chunks && e in s.chunks && d != e ==> s.chunks[d].allocPtr != s.chunks[e].allocPtr)
  }

  /** The descriptors of the descriptor pool's chunks, and the pools themselves, come from malloc. */
  ghost predicate Rooted(s: Store) {
    && (forall d :: d in s.chunks && s.chunks[d].manage == s.desc ==>
          d in s.held && forall e :: e in s.chunks ==> s.chunks[e].allocPtr != d)
    && (forall id :: id in s.pools ==> id in s.held && forall e :: e in s.chunks ==> s.chunks[e].allocPtr != id && e != id)
  }

  /** The block with its header at a is in use, and its chunk belongs to pool id. */
  ghost predicate LiveIn(s: Store, id: int, a: int) {
    var d := At(s.mem, a).manage;
    d in s.chunks && s.chunks[d].manage == id && IsBlock(s, d, a)
  }

  ghost function DataChunks(s: Store): set<int> {
    set d | d in s.chunks && s.chunks[d].manage != s.desc
  }

  /**
   * The blocks in use of the descriptor pool are the descriptors of the other pools' chunks, except for the spare
   * ones, which have been taken but do not yet, or no longer, describe a chunk; and the pool counts them.
   */
  ghost predicate Described(s: Store, spare: set<int>) {
    Roles(s, spare) && Tally(s, spare)
  }

  ghost predicate Roles(s: Store, spare: set<int>) {
    && (forall a :: LiveIn(s, s.desc, a) <==> a + BLOCK_INFO_SIZE in DataChunks(s) || a in spare)
    && (forall a :: a in spare ==> a + BLOCK_INFO_SIZE !in s.chunks)
  }

  ghost predicate Tally(s: Store, spare: set<int>) {
    s.desc in s.pools && |DataChunks(s)| + |spare| == s.pools[s.desc].allInuse
  }

  ghost predicate Inv(s: Store, spare: set<int>) {
    Listed(s) && Chained(s) && Counted(s) && Placed(s) && Rooted(s) && Described(s, spare)
  }

  // ----- Sums -----

  lemma {:induction false} SumSame(chunks: map<int, Chunk>, more: map<int, Chunk>, list: seq<int>, live: bool)
    requires forall d :: d in list ==> d in chunks && d in more && Part(chunks[d], live) == Part(more[d], live)
    ensures Sum(chunks, list, live) == Sum(more, list, live)
  {
    if list == [] {
    } else {
      var d := list[0];
      assert d in list && d in chunks && d in more;
      assert forall e :: e in list[1..] ==> e in list;
      SumSame(chunks, more, list[1..], live);
    }
  }

  lemma {:induction false} SumUpdate(chunks: map<int, Chunk>, list: seq<int>, d: int, c: Chunk, live: bool)
    requires Distinct(list) && d in list && forall e :: e in list ==> e in chunks
    ensures Sum(chunks[d := c], list, live) == Sum(chunks, list, live) - Part(chunks[d], live) + Part(c, live)
  {
    var rest := list[1..];
    assert list == [list[0]] + rest;
    if list[0] == d {
      SumSame(chunks, chunks[d := c], rest, live);
    } else {
      SumUpdate(chunks, rest, d, c, live);
    }
  }

  lemma {:induction false} SumSplit(chunks: map<int, Chunk>, l: seq<int>, r: seq<int>, live: bool)
    ensures Sum(chunks, l + r, live) == Sum(chunks, l, live) + Sum(chunks, r, live)
  {
    if l == [] {
      assert l + r == r;
    } else {
      assert (l + r)[1..] == l[1..] + r;
      SumSplit(chunks, l[1..], r, live);
    }
  }

  /** A pool with free blocks has a chunk with free blocks: the scan of the earlier version always ends at one. */
  lemma {:induction false} SomeFree(chunks: map<int, Chunk>, list: seq<int>)
    requires Sum(chunks, list, false) > 0
    ensures exists i :: 0 <= i < |list| && list[i] in chunks && chunks[list[i]].freeNumber > 0
  {
    if list[0] in chunks && chunks[list[0]].freeNumber > 0 {
    } else {
      SomeFree(chunks, list[1..]);
      var i :| 0 <= i < |list[1..]| && list[1..][i] in chunks && chunks[list[1..][i]].freeNumber > 0;
      assert list[i + 1] == list[1..][i];
    }
  }

  // ----- Blocks of different chunks -----

  lemma BlockInRegion(s: Store, d: int, a: int)
    requires Placed(s) && Listed(s) && d in s.chunks && IsBlock(s, d, a)
    ensures var c := s.chunks[d]; c.allocPtr <= a && a + StrideOf(s, c) <= c.allocPtr + s.held[c.allocPtr]
  {
    var c := s.chunks[d];
    BlocksApart(c.allocPtr, Cap(c), StrideOf(s, c));
    var i :| 0 <= i < |BlocksOf(s, d)| && BlocksOf(s, d)[i] == a;
  }

  lemma BlocksDiffer(s: Store, d: int, e: int, a: int)
    requires Placed(s) && Listed(s) && d in s.chunks && e in s.chunks && d != e && IsBlock(s, d, a)
    ensures !IsBlock(s, e, a)
  {
    BlockInRegion(s, d, a);
    assert StrideOf(s, s.chunks[d]) > 0 && StrideOf(s, s.chunks[e]) > 0;
    assert Apart(s.chunks[d].allocPtr, s.held[s.chunks[d].allocPtr], s.chunks[e].allocPtr, s.held[s.chunks[e].allocPtr]);
    if IsBlock(s, e, a) {
      BlockInRegion(s, e, a);
    }
  }

  /** Two blocks in use, of whatever pools, do not share a byte. */
  lemma LiveBlocksApart(s: Store, i: int, j: int, a: int, b: int)
    requires Placed(s) && Listed(s) && LiveIn(s, i, a) && LiveIn(s, j, b) && a != b
    ensures Apart(a, StrideOf(s, s.chunks[At(s.mem, a).manage]), b, StrideOf(s, s.chunks[At(s.mem, b).manage]))
  {
    var d, e := At(s.mem, a).manage, At(s.mem, b).manage;
    if d == e {
      var c := s.chunks[d];
      BlocksApart(c.allocPtr, Cap(c), StrideOf(s, c));
      var k :| 0 <= k < |BlocksOf(s, d)| && BlocksOf(s, d)[k] == a;
      var l :| 0 <= l < |BlocksOf(s, d)| && BlocksOf(s, d)[l] == b;
    } else {
      BlockInRegion(s, d, a);
      BlockInRegion(s, e, b);
      assert Apart(s.chunks[d].allocPtr, s.held[s.chunks[d].allocPtr], s.chunks[e].allocPtr, s.held[s.chunks[e].allocPtr]);
    }
  }

  // ----- The counters count the blocks in use -----

  function UsedOf(s: Store, d: int): set<int> {
    set a | a in BlocksOf(s, d) && At(s.mem, a).manage != 0
  }

  function UsedIn(s: Store, list: seq<int>): set<int> {
    if list == [] then {} else UsedOf(s, list[0]) + UsedIn(s, list[1..])
  }

  lemma UsedOfChunk(s: Store, d: int)
    requires Chained(s) && d in s.chunks
    ensures |UsedOf(s, d)| == s.chunks[d].inuseNumber
    ensures forall a :: a in UsedOf(s, d) <==> IsBlock(s, d, a) && At(s.mem, a).manage == d
  {
    assert InOrder(s, d);
    InUseCounted(s.mem, d, s.chunks[d], BlocksOf(s, d), ChainOf(s, d));
  }

  lemma DistinctRest(list: seq<int>)
    requires Distinct(list) && list != []
    ensures Distinct(list[1..]) && list[0] !in list[1..]
  {
    assert forall i :: 0 <= i < |list| - 1 ==> list[1..][i] == list[i + 1];
  }

  lemma JoinSize(a: set<int>, b: set<int>)
    requires forall x :: x in a ==> x !in b
    ensures |a + b| == |a| + |b|
  {
    assert forall x :: x !in a * b;
    assert |a * b| == 0;
  }

  lemma {:induction false} UsedInList(s: Store, list: seq<int>)
    requires Listed(s) && Chained(s) && Placed(s) && Distinct(list) && forall d :: d in list ==> d in s.chunks
    ensures |UsedIn(s, list)| == Sum(s.chunks, list, true)
    ensures forall a :: a in UsedIn(s, list) <==> At(s.mem, a).manage in list && IsBlock(s, At(s.mem, a).manage, a)
  {
    if list == [] {
    } else {
      var d, rest := list[0], list[1..];
      HeadAndRest(list);
      DistinctRest(list);
      hide Listed, Chained, Placed, UsedOf, IsBlock, Distinct;
      UsedInList(s, rest);
      UsedOfChunk(s, d);
      JoinSize(UsedOf(s, d), UsedIn(s, rest));
    }
  }

  /** Conservation: the total of a pool is the number of its blocks in use. */
  lemma InUseIsLive(s: Store, id: int, spare: set<int>)
    requires Inv(s, spare) && id in s.pools
    ensures s.pools[id].allInuse == |UsedIn(s, s.pools[id].list)|
    ensures forall a :: a in UsedIn(s, s.pools[id].list) <==> LiveIn(s, id, a)
  {
    assert Totalled(s.chunks, s.pools[id]);
    UsedInList(s, s.pools[id].list);
  }

  /** The chunks of all other pools are as many as the descriptor pool has blocks in use. */
  lemma ChunksAreDescribed(s: Store)
    requires Inv(s, {})
    ensures |DataChunks(s)| == |UsedIn(s, s.pools[s.desc].list)|
    ensures forall d :: d in DataChunks(s) <==> LiveIn(s, s.desc, d - BLOCK_INFO_SIZE)
  {
    InUseIsLive(s, s.desc, {});
    forall d
      ensures d in DataChunks(s) <==> LiveIn(s, s.desc, d - BLOCK_INFO_SIZE)
    {
      var a := d - BLOCK_INFO_SIZE;
      assert LiveIn(s, s.desc, a) <==> a + BLOCK_INFO_SIZE in DataChunks(s) || a in {};
    }
  }
}
