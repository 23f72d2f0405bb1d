/**
 * One chunk of a memory pool: a stretch of memory cut into blocks of equal stride, each with a header in front.
 * The free blocks of the chunk are linked through their headers.
 */
module FreeChains {
  import opened DistinctLists

  const BLOCK_INFO_SIZE := 16

  /** The union in the header of a block: a link while the block is free, the magic number while it is in use. */
  datatype Ptr = NEXT(next: int) | MAGIC

  /** The header: the address of the chunk's descriptor while the block is in use, and else 0. */
  datatype Header = Header(manage: int, ptr: Ptr)

  /** A chunk's descriptor; manage is the address of the pool. */
  datatype Chunk = Chunk(allocPtr: int, free: int, inuseNumber: int, freeNumber: int, manage: int)

  type Memory = map<int, Header>

  function At(mem: Memory, a: int): Header {
    if a in mem then mem[a] else Header(0, NEXT(0))
  }

  function NextOf(mem: Memory, a: int): int {
    match At(mem, a).ptr
    case NEXT(n) => n
    case MAGIC => 0
  }

  /** The addresses of the n blocks from base on. */
  function Blocks(base: int, n: nat, stride: int): (bs: seq<int>)
    ensures |bs| == n
    decreases n
  {
    if n == 0 then [] else [base] + Blocks(base + stride, n - 1, stride)
  }

  function Room(n: nat, stride: int): int {
    n * stride
  }

  lemma NoRoom(stride: int)
    ensures Room(0, stride) == 0
  {
  }

  lemma RoomGrows(n: nat, stride: int)
    requires n > 0 && stride > 0
    ensures Room(n, stride) == stride + Room(n - 1, stride) && Room(n - 1, stride) >= 0
  {
    assert (n - 1) * stride >= 0;
  }

  /** The blocks lie one behind the other, inside the room that has been allocated for them. */
  lemma {:induction false} BlocksApart(base: int, n: nat, stride: int)
    requires stride > 0
    ensures forall i :: 0 <= i < n ==> base <= Blocks(base, n, stride)[i] <= base + Room(n, stride) - stride
    ensures forall i, j :: 0 <= i < j < n ==> Blocks(base, n, stride)[i] + stride <= Blocks(base, n, stride)[j]
    decreases n
  {
    if n > 0 {
      BlocksApart(base + stride, n - 1, stride);
      RoomGrows(n, stride);
      var bs, rest := Blocks(base, n, stride), Blocks(base + stride, n - 1, stride);
      assert forall i :: 0 < i < n ==> bs[i] == rest[i - 1];
    }
  }

  /** Following n links from a. */
  function Walk(mem: Memory, a: int, n: nat): (ch: seq<int>)
    ensures |ch| == n
    decreases n
  {
    if n == 0 then [] else [a] + Walk(mem, NextOf(mem, a), n - 1)
  }

  function After(ch: seq<int>, i: nat): int {
    if i + 1 < |ch| then ch[i + 1] else 0
  }

  /** From first on, the links run through ch and end with 0. */
  ghost predicate Linked(mem: Memory, first: int, ch: seq<int>) {
    && first == (if ch == [] then 0 else ch[0])
    && forall i :: 0 <= i < |ch| ==> NextOf(mem, ch[i]) == After(ch, i)
  }

  lemma {:induction false} WalkIsLinked(mem: Memory, first: int, ch: seq<int>)
    requires Linked(mem, first, ch)
    ensures Walk(mem, first, |ch|) == ch
    decreases ch
  {
    if ch != [] {
      var rest := ch[1..];
      forall i | 0 <= i < |rest|
        ensures NextOf(mem, rest[i]) == After(rest, i)
      {
        assert rest[i] == ch[i + 1];
      }
      WalkIsLinked(mem, NextOf(mem, first), rest);
    }
  }

  /**
   * The chunk d with blocks bs is in order: its free blocks are an acyclic chain ch, which ends with 0 and is as
   * long as the counter says, and every other block carries the chunk's address and the magic number.
   */
  ghost predicate Sound(mem: Memory, d: int, c: Chunk, bs: seq<int>, ch: seq<int>) {
    && d != 0 && c.inuseNumber >= 0 && |ch| == c.freeNumber && |bs| == c.inuseNumber + c.freeNumber
    && Distinct(bs) && Distinct(ch) && Linked(mem, c.free, ch)
    && (forall a :: a in ch ==> a in bs && At(mem, a).manage == 0)
    && (forall a :: a in bs ==> a != 0 && (a in ch || At(mem, a) == Header(d, MAGIC)))
  }

  // ----- Taking a block off the chain, and putting one back -----

  function Taken(c: Chunk, next: int): Chunk {
    c.(free := next, inuseNumber := c.inuseNumber + 1, freeNumber := c.freeNumber - 1)
  }

  function PutBack(c: Chunk, a: int): Chunk {
    c.(free := a, inuseNumber := c.inuseNumber - 1, freeNumber := c.freeNumber + 1)
  }

  lemma LinkedTail(mem: Memory, first: int, ch: seq<int>, h: Header)
    requires Linked(mem, first, ch) && Distinct(ch) && ch != []
    ensures first == ch[0] && ch[0] !in ch[1..] && Distinct(ch[1..]) && Linked(mem[first := h], NextOf(mem, first), ch[1..])
  {
    var a, rest, m := ch[0], ch[1..], mem[first := h];
    forall i | 0 <= i < |rest|
      ensures rest[i] != a && NextOf(m, rest[i]) == After(rest, i)
    {
      assert rest[i] == ch[i + 1];
    }
  }

  lemma TakeKeepsSound(mem: Memory, d: int, c: Chunk, bs: seq<int>, ch: seq<int>)
    requires Sound(mem, d, c, bs, ch) && ch != []
    ensures c.free == ch[0] && c.free in bs && At(mem, c.free).manage == 0
    ensures Sound(mem[c.free := Header(d, MAGIC)], d, Taken(c, NextOf(mem, c.free)), bs, ch[1..])
  {
    hide Linked, Distinct, NextOf;
    LinkedTail(mem, c.free, ch, Header(d, MAGIC));
    HeadAndRest(ch);
  }

  lemma HeadAndRest(ch: seq<int>)
    requires ch != []
    ensures |ch[1..]| == |ch| - 1 && forall x :: x in ch <==> x == ch[0] || x in ch[1..]
  {
    assert ch == [ch[0]] + ch[1..];
  }

  lemma PutKeepsSound(mem: Memory, d: int, c: Chunk, bs: seq<int>, ch: seq<int>, a: int)
    requires Sound(mem, d, c, bs, ch) && a in bs && At(mem, a).manage != 0
    ensures Sound(mem[a := Header(0, NEXT(c.free))], d, PutBack(c, a), bs, [a] + ch)
  {
    var more, m := [a] + ch, mem[a := Header(0, NEXT(c.free))];
    assert a !in ch;
    forall i | 0 <= i < |more|
      ensures NextOf(m, more[i]) == After(more, i)
    {
      if i > 0 {
        assert more[i] == ch[i - 1] != a;
      }
    }
    InuseIsRest(bs, ch, a);
  }

  /** A chain inside the blocks that misses one of them is shorter. */
  lemma InuseIsRest(bs: seq<int>, ch: seq<int>, a: int)
    requires Distinct(bs) && Distinct(ch) && (forall x :: x in ch ==> x in bs) && a in bs && a !in ch
    ensures |ch| < |bs|
  {
    SetSize(ch);
    SetSize(bs);
    var cs, all := set x | x in ch, set x | x in bs;
    assert a in all - cs;
    assert all == cs + (all - cs);
  }

  lemma {:induction false} SetSize(s: seq<int>)
    requires Distinct(s)
    ensures |set x | x in s| == |s|
  {
    if s != [] {
      var rest := s[1..];
      SetSize(rest);
      assert s == [s[0]] + rest;
      assert (set x | x in s) == {s[0]} + set x | x in rest;
    }
  }

  /** A chunk without blocks in use has all its blocks on the chain. */
  lemma NoneInUse(mem: Memory, d: int, c: Chunk, bs: seq<int>, ch: seq<int>)
    requires Sound(mem, d, c, bs, ch) && c.inuseNumber == 0
    ensures forall a :: a in bs ==> At(mem, a).manage == 0
  {
    forall a | a in bs
      ensures a in ch
    {
      if a !in ch {
        InuseIsRest(bs, ch, a);
      }
    }
  }

  /** The counter of a chunk counts its blocks in use. */
  lemma InUseCounted(mem: Memory, d: int, c: Chunk, bs: seq<int>, ch: seq<int>)
    requires Sound(mem, d, c, bs, ch)
    ensures c.inuseNumber == |set a | a in bs && At(mem, a).manage != 0|
    ensures c.freeNumber == |set a | a in bs && At(mem, a).manage == 0|
  {
    var free, used, all := set a | a in ch, set a | a in bs && At(mem, a).manage != 0, set a | a in bs;
    SetSize(ch);
    SetSize(bs);
    assert free == set a | a in bs && At(mem, a).manage == 0;
    assert all == free + used;
  }

  lemma OtherKeepsSound(mem: Memory, d: int, c: Chunk, bs: seq<int>, ch: seq<int>, a: int, h: Header)
    requires Sound(mem, d, c, bs, ch) && a !in bs
    ensures Sound(mem[a := h], d, c, bs, ch)
  {
  }

  // ----- A new chunk -----

  /** The headers of the blocks bs form one chain in the order of the blocks. */
  ghost predicate Fresh(mem: Memory, bs: seq<int>) {
    forall i :: 0 <= i < |bs| ==> At(mem, bs[i]) == Header(0, NEXT(After(bs, i)))
  }

  lemma FreshIsSound(mem: Memory, d: int, c: Chunk, bs: seq<int>)
    requires d != 0 && Fresh(mem, bs) && Distinct(bs) && 0 !in bs && c.inuseNumber == 0 && c.freeNumber == |bs| > 0 && c.free == bs[0]
    ensures Sound(mem, d, c, bs, bs)
  {
  }

  lemma BlockAt(base: int, n: nat, stride: int, k: nat)
    requires k < n
    ensures Blocks(base, n, stride)[k] == base + Room(k, stride)
    decreases k
  {
    if k > 0 {
      BlockAt(base + stride, n - 1, stride, k - 1);
    }
  }

  /** The headers of the first i blocks have been written. */
  ghost predicate Written(mem: Memory, bs: seq<int>, i: nat) {
    forall k :: 0 <= k < i <= |bs| ==> At(mem, bs[k]) == Header(0, NEXT(After(bs, k)))
  }

  lemma WriteNext(mem: Memory, bs: seq<int>, i: nat)
    requires Written(mem, bs, i) && Distinct(bs) && i < |bs|
    ensures Written(mem[bs[i] := Header(0, NEXT(After(bs, i)))], bs, i + 1)
  {
  }

  ghost predicate SameElsewhere(m: Memory, mem: Memory, bs: seq<int>) {
    forall a :: a !in bs ==> At(m, a) == At(mem, a)
  }

  lemma NextBlock(base: int, number: nat, blockSize: int, i: nat)
    requires i < number && blockSize > 0
    ensures var bs := Blocks(base, number, blockSize);
      && bs[i] == base + Room(i, blockSize) && Room(i + 1, blockSize) == Room(i, blockSize) + blockSize
      && After(bs, i) == if number - 1 == i then 0 else bs[i] + blockSize
  {
    BlockAt(base, number, blockSize, i);
    RoomGrows(i + 1, blockSize);
    if i + 1 < number {
      BlockAt(base, number, blockSize, i + 1);
    }
  }

  /** initBlockManage: writes the headers of a new chunk. */
  method InitBlocks(mem: Memory, base: int, number: nat, blockSize: int) returns (m: Memory)
    requires blockSize > 0
    ensures Fresh(m, Blocks(base, number, blockSize)) && SameElsewhere(m, mem, Blocks(base, number, blockSize))
  {
    hide At, Blocks, Room, After;
    ghost var bs := Blocks(base, number, blockSize);
    BlocksApart(base, number, blockSize);
    m := mem;
    var blockPtr := base;
    NoRoom(blockSize);
    var i := 0;
    while i < number
      invariant 0 <= i <= number && blockPtr == base + Room(i, blockSize)
      invariant Written(m, bs, i) && SameElsewhere(m, mem, bs)
    {
      NextBlock(base, number, blockSize, i);
      WriteNext(m, bs, i);
      ghost var before := m;
      var nextBlockPtr := blockPtr + blockSize;
      m := m[blockPtr := Header(0, NEXT(if number - 1 == i then 0 else nextBlockPtr))];
      WroteInside(before, mem, bs, i, m[blockPtr]);
      blockPtr := nextBlockPtr;
      i := i + 1;
    }
  }

  lemma WroteInside(m: Memory, mem: Memory, bs: seq<int>, i: nat, h: Header)
    requires SameElsewhere(m, mem, bs) && i < |bs|
    ensures SameElsewhere(m[bs[i] := h], mem, bs)
  {
  }
}
