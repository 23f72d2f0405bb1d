/**
 * A pool seen through its counters alone: for each chunk of its list the number of free blocks and of blocks in
 * use. This is enough to say which chunk an allocation uses and when it fails.
 */
module PoolCounts {
  import opened Options

  datatype Count = Count(free: int, inuse: int)

  datatype Op = ALLOC | FREE(i: nat)

  function TotalFree(l: seq<Count>): int {
    if l == [] then 0 else l[0].free + TotalFree(l[1..])
  }

  /** One block from the first chunk, which goes to the end of the list when that was its last one. */
  function Drained(l: seq<Count>): (r: seq<Count>)
    requires l != []
    ensures |r| == |l|
  {
    var h := Count(l[0].free - 1, l[0].inuse + 1);
    if h.free == 0 then l[1..] + [h] else [h] + l[1..]
  }

  function Expanded(l: seq<Count>): (r: seq<Count>)
    ensures l != [] ==> r != []
  {
    if TotalFree(l) == 0 then [Count(128, 0)] + l else l
  }

  /** An allocation, or None for the failed assertion that the first chunk has a free block. */
  function Alloc(l: seq<Count>): Option<seq<Count>> {
    var m := Expanded(l);
    if m == [] || m[0].free <= 0 then None else Some(Drained(m))
  }

  /** The release of the last block in use gives the chunk back, when the other chunks have 128 free blocks. */
  predicate GivesBack(l: seq<Count>, i: nat)
    requires i < |l|
  {
    l[i].inuse == 1 && TotalFree(l) - l[i].free >= 128
  }

  /** A release in chunk i. */
  function Freed(l: seq<Count>, i: nat): seq<Count>
    requires i < |l|
  {
    if GivesBack(l, i) then l[..i] + l[i + 1..] else l[i := Count(l[i].free + 1, l[i].inuse - 1)]
  }

  /** A run from l; it ends in None with the failed assertion, or with a release where nothing is in use. */
  function Run(l: seq<Count>, ops: seq<Op>): Option<seq<Count>>
    decreases ops
  {
    if ops == [] then Some(l)
    else
      var m := match ops[0]
        case ALLOC => Alloc(l)
        case FREE(i) => if i < |l| && l[i].inuse > 0 then Some(Freed(l, i)) else None;
      if m == None then None else Run(m.value, ops[1..])
  }

  ghost predicate Natural(l: seq<Count>) {
    forall i :: 0 <= i < |l| ==> l[i].free >= 0 && l[i].inuse >= 0
  }

  /** Chunks with free blocks come first, and the exhausted ones follow. */
  ghost predicate FreeFirst(l: seq<Count>) {
    forall i, j :: 0 <= i < j < |l| && l[j].free > 0 ==> l[i].free > 0
  }

  lemma {:induction false} TotalSplit(l: seq<Count>, r: seq<Count>)
    ensures TotalFree(l + r) == TotalFree(l) + TotalFree(r)
  {
    if l == [] {
      assert l + r == r;
    } else {
      assert (l + r)[1..] == l[1..] + r;
      TotalSplit(l[1..], r);
    }
  }

  lemma {:induction false} TotalIsZero(l: seq<Count>)
    requires Natural(l)
    ensures TotalFree(l) >= 0
    ensures TotalFree(l) == 0 <==> forall i :: 0 <= i < |l| ==> l[i].free == 0
  {
    if l != [] {
      var rest := l[1..];
      assert forall i :: 0 <= i < |rest| ==> rest[i] == l[i + 1];
      TotalIsZero(rest);
      if TotalFree(rest) == 0 && l[0].free == 0 {
        forall i | 0 <= i < |l|
          ensures l[i].free == 0
        {
          if i > 0 {
            assert rest[i - 1].free == 0;
          }
        }
      }
    }
  }

  /** An allocation fails exactly when the pool has free blocks, but its first chunk has none. */
  lemma AllocFailsIff(l: seq<Count>)
    requires Natural(l)
    ensures Alloc(l) == None <==> TotalFree(l) > 0 && l[0].free == 0
  {
    TotalIsZero(l);
    if l == [] {
      assert TotalFree(l) == 0;
    }
  }

  /** As long as the chunks with free blocks come first, allocations succeed and keep it so. */
  lemma AllocKeepsFreeFirst(l: seq<Count>)
    requires Natural(l) && FreeFirst(l)
    ensures Alloc(l).Some? && FreeFirst(Alloc(l).value) && Natural(Alloc(l).value)
  {
    TotalIsZero(l);
    var m := Expanded(l);
    assert Natural(m) && FreeFirst(m) && m != [] && m[0].free > 0 by {
      if TotalFree(l) != 0 {
        var i :| 0 <= i < |l| && l[i].free != 0;
        assert i == 0 || l[0].free > 0;
      }
    }
    var r := Drained(m);
    if m[0].free == 1 {
      assert forall i :: 0 <= i < |r| - 1 ==> r[i] == m[i + 1];
    }
  }

  /**
   * A release keeps the order exactly when its chunk has free blocks already, is the first exhausted one, or is
   * given back.
   */
  lemma FreeKeepsOrderIff(l: seq<Count>, i: nat)
    requires Natural(l) && FreeFirst(l) && i < |l| && l[i].inuse > 0
    ensures Natural(Freed(l, i))
    ensures FreeFirst(Freed(l, i)) <==> GivesBack(l, i) || l[i].free > 0 || i == 0 || l[i - 1].free > 0
  {
    var r := Freed(l, i);
    if GivesBack(l, i) {
      assert forall j :: 0 <= j < |r| ==> r[j] == if j < i then l[j] else l[j + 1];
    } else if i > 0 && l[i - 1].free <= 0 && l[i].free <= 0 {
      assert r[i - 1].free <= 0 && r[i].free > 0;
    }
  }

  /** n allocations in a row all succeed. */
  predicate AllocsSucceed(l: seq<Count>, n: nat)
    decreases n
  {
    n == 0 || (Alloc(l).Some? && AllocsSucceed(Alloc(l).value, n - 1))
  }

  lemma {:induction false} FreeFirstNeverFails(l: seq<Count>, n: nat)
    requires Natural(l) && FreeFirst(l)
    ensures AllocsSucceed(l, n)
    decreases n
  {
    if n > 0 {
      AllocKeepsFreeFirst(l);
      FreeFirstNeverFails(Alloc(l).value, n - 1);
    }
  }

  lemma AllocTakesOne(l: seq<Count>)
    requires Natural(l) && l != [] && l[0].free > 0
    ensures TotalFree(l) > 0 && Alloc(l) == Some(Drained(l)) && Natural(Drained(l))
    ensures TotalFree(Drained(l)) == TotalFree(l) - 1
  {
    TotalIsZero(l);
    TotalDrained(l);
    hide TotalFree;
    DrainedAt(l);
  }

  lemma TotalDrained(l: seq<Count>)
    requires l != []
    ensures TotalFree(Drained(l)) == TotalFree(l) - 1
  {
    var h := Count(l[0].free - 1, l[0].inuse + 1);
    TotalSplit(l[1..], [h]);
    TotalSplit([h], l[1..]);
    assert [h][1..] == [];
    assert TotalFree([h]) == h.free;
  }

  lemma AllocKeepsOrder(l: seq<Count>)
    requires l != [] && l[0].free > 0
    ensures FreeFirst(Drained(l)) ==> FreeFirst(l)
  {
    var r, d := Drained(l), if l[0].free == 1 then 1 else 0;
    DrainedAt(l);
    hide Drained;
    if FreeFirst(r) {
      forall i, j | 0 <= i < j < |l| && l[j].free > 0
        ensures l[i].free > 0
      {
        if i > 0 {
          assert r[i - d] == l[i] && r[j - d] == l[j];
        }
      }
    }
  }

  lemma DrainedAt(l: seq<Count>)
    requires l != []
    ensures var d := if l[0].free == 1 then 1 else 0;
      forall i :: 0 < i < |l| ==> Drained(l)[i - d] == l[i]
  {
  }

  lemma AllocsUnfold(l: seq<Count>, n: nat)
    ensures AllocsSucceed(l, n + 1) <==> Alloc(l).Some? && AllocsSucceed(Alloc(l).value, n)
  {
  }

  lemma SomeoneFree(l: seq<Count>)
    requires Natural(l) && !FreeFirst(l)
    ensures l != [] && l[0].free >= 0 && exists i :: 0 <= i < |l| && l[i].free != 0
  {
  }

  /** When an exhausted chunk stands before one with free blocks, the allocations reach it. */
  lemma {:induction false} FailsSometime(l: seq<Count>) returns (n: nat)
    requires Natural(l) && !FreeFirst(l)
    ensures !AllocsSucceed(l, n)
    decreases TotalFree(l)
  {
    hide *;
    TotalIsZero(l);
    SomeoneFree(l);
    if l[0].free <= 0 {
      AllocFailsIff(l);
      n := 1;
      AllocsUnfold(l, 0);
    } else {
      AllocTakesOne(l);
      AllocKeepsOrder(l);
      TotalIsZero(Drained(l));
      var m := FailsSometime(Drained(l));
      n := m + 1;
      AllocsUnfold(l, m);
    }
  }

  /** Repeated allocations never fail exactly when no exhausted chunk stands before one with free blocks. */
  lemma NeverFailsIff(l: seq<Count>)
    requires Natural(l)
    ensures (forall n: nat :: AllocsSucceed(l, n)) <==> FreeFirst(l)
  {
    if FreeFirst(l) {
      forall n: nat
        ensures AllocsSucceed(l, n)
      {
        FreeFirstNeverFails(l, n);
      }
    } else {
      var n := FailsSometime(l);
    }
  }

  // ----- A run that fails -----

  function Allocs(n: nat): (ops: seq<Op>)
    ensures |ops| == n
  {
    if n == 0 then [] else [ALLOC] + Allocs(n - 1)
  }

  lemma NoAllocs(ops: seq<Op>)
    ensures Allocs(0) + ops == ops
  {
  }

  lemma OneAlloc(l: seq<Count>, n: nat, ops: seq<Op>)
    requires n > 0 && Alloc(l).Some?
    ensures Run(l, Allocs(n) + ops) == Run(Alloc(l).value, Allocs(n - 1) + ops)
  {
    assert (Allocs(n) + ops)[0] == ALLOC && (Allocs(n) + ops)[1..] == Allocs(n - 1) + ops;
  }

  lemma AllocFromFirst(f: int, u: int, rest: seq<Count>)
    requires f > 0 && u >= 0 && Natural(rest)
    ensures Alloc([Count(f, u)] + rest) == Some(if f > 1 then [Count(f - 1, u + 1)] + rest else rest + [Count(0, u + 1)])
  {
    var l := [Count(f, u)] + rest;
    TotalIsZero(l);
    assert l[1..] == rest;
  }

  /** n allocations from a first chunk that has more. */
  lemma {:induction false} AllocsFromFirst(f: int, u: int, rest: seq<Count>, n: nat, ops: seq<Op>)
    requires n < f && u >= 0 && Natural(rest)
    ensures Run([Count(f, u)] + rest, Allocs(n) + ops) == Run([Count(f - n, u + n)] + rest, ops)
    decreases n
  {
    hide *;
    NoAllocs(ops);
    if n > 0 {
      AllocFromFirst(f, u, rest);
      OneAlloc([Count(f, u)] + rest, n, ops);
      AllocsFromFirst(f - 1, u + 1, rest, n - 1, ops);
    }
  }

  /** The allocations that use up the first chunk; the last one sends it to the end. */
  lemma {:induction false} AllocsUseUp(f: nat, u: int, rest: seq<Count>, ops: seq<Op>)
    requires f > 0 && u >= 0 && Natural(rest)
    ensures Run([Count(f, u)] + rest, Allocs(f) + ops) == Run(rest + [Count(0, u + f)], ops)
    decreases f
  {
    hide *;
    NoAllocs(ops);
    AllocFromFirst(f, u, rest);
    OneAlloc([Count(f, u)] + rest, f, ops);
    if f > 1 {
      AllocsUseUp(f - 1, u + 1, rest, ops);
    }
  }

  /** The first allocation from an exhausted pool, and n - 1 more. */
  lemma Expands(l: seq<Count>, n: nat, ops: seq<Op>)
    requires Natural(l) && TotalFree(l) == 0 && 0 < n < 128
    ensures Run(l, Allocs(n) + ops) == Run([Count(128 - n, n)] + l, ops)
  {
    hide *;
    AllocExpands(l);
    OneAlloc(l, n, ops);
    AllocsFromFirst(127, 1, l, n - 1, ops);
  }

  lemma AllocExpands(l: seq<Count>)
    requires TotalFree(l) == 0
    ensures Alloc(l) == Some([Count(127, 1)] + l)
  {
    var m := [Count(128, 0)] + l;
    hide TotalFree;
    assert m[1..] == l && Expanded(l) == m && Drained(m) == [Count(127, 1)] + l;
  }

  /** A fresh pool is exhausted twice and expands a third time; a block of the second chunk comes back before the third is used up. */
  function RunUp(last: seq<Op>): seq<Op> {
    Allocs(512) + (Allocs(127) + (Allocs(1) + (Allocs(1) + ([FREE(2)] + (Allocs(127) + last)))))
  }

  /** The next allocation fails: the first chunk is exhausted, while the second one has the block that came back. */
  lemma RunFails()
    ensures Run([Count(512, 0)], RunUp([])) == Some([Count(0, 512), Count(1, 127), Count(0, 128)])
    ensures Run([Count(512, 0)], RunUp([ALLOC])) == None
  {
    var l := [Count(0, 512), Count(1, 127), Count(0, 128)];
    RunsUp([]);
    RunsUp([ALLOC]);
    AllocFailsIff(l);
    assert TotalFree(l) == 1 by {
      assert l[1..] == [Count(1, 127), Count(0, 128)] && l[1..][1..] == [Count(0, 128)];
    }
  }

  lemma RunsUp(last: seq<Op>)
    ensures Run([Count(512, 0)], RunUp(last)) == Run([Count(0, 512), Count(1, 127), Count(0, 128)], last)
  {
    hide Run, Allocs, TotalFree, Alloc, Expanded, Drained, Freed, GivesBack, FreeFirst;
    var r1 := Allocs(127) + last;
    var r2 := [FREE(2)] + r1;
    var r3 := Allocs(1) + r2;
    var r4 := Allocs(1) + r3;
    var r5 := Allocs(127) + r4;
    var a, b := Count(0, 512), Count(0, 128);
    AllocsUseUp(512, 0, [], r5);
    assert [Count(512, 0)] + [] == [Count(512, 0)] && [] + [a] == [a];
    ExhaustedTotal([a]);
    Expands([a], 127, r4);
    AllocsUseUp(1, 127, [a], r3);
    ExhaustedTotal([a] + [b]);
    Expands([a] + [b], 1, r2);
    var three := [Count(127, 1)] + ([a] + [b]);
    FreeLast(three, 2, r1);
    assert three[2 := Count(1, 127)] == [Count(127, 1)] + [a, Count(1, 127)];
    AllocsUseUp(127, 1, [a, Count(1, 127)], last);
    assert [a, Count(1, 127)] + [b] == [a, Count(1, 127), b];
  }

  lemma ExhaustedTotal(l: seq<Count>)
    requires Natural(l) && forall i :: 0 <= i < |l| ==> l[i].free == 0
    ensures TotalFree(l) == 0
  {
    TotalIsZero(l);
  }

  lemma FreeLast(l: seq<Count>, i: nat, ops: seq<Op>)
    requires i < |l| && l[i].inuse > 1
    ensures Run(l, [FREE(i)] + ops) == Run(l[i := Count(l[i].free + 1, l[i].inuse - 1)], ops)
  {
    assert ([FREE(i)] + ops)[1..] == ops;
  }

  // ----- The choice of the earlier version -----

  /**
   * The earlier version takes the chunk at cache if that has free blocks, and else scans the list from its start.
   * Given that the pool has free blocks at all, the scan ends at a chunk with free blocks.
   */
  method ChooseChunk(l: seq<Count>, cache: Option<nat>) returns (i: nat)
    requires Natural(l) && TotalFree(l) > 0
    ensures i < |l| && l[i].free > 0
    ensures cache.Some? && cache.value < |l| && l[cache.value].free > 0 ==> i == cache.value
  {
    if cache.Some? && cache.value < |l| && l[cache.value].free != 0 {
      return cache.value;
    }
    TotalIsZero(l);
    i := 0;
    while l[i].free == 0
      invariant i < |l|
      invariant forall j :: 0 <= j < i ==> l[j].free == 0
      decreases |l| - i
    {
      i := i + 1;
    }
  }
}
