/**
 * How the memory pool finds the pool of a block size: a list of the pools in ascending order, a hash table
 * of 48 chains, and the pool created last as a cache.
 */
module PoolDirectory {
  import opened DistinctLists
  import opened Options

  const ALIGN_SIZE := 16
  const MIN_SIZE := 32
  const MAX_SIZE := 1024 * 1024
  const HASH_TABLE_SIZE := 48

  /** A pool: its block size, and the address of its structure. */
  datatype Manage = Manage(size: int, addr: int)

  /** DO_ALIGN_SIZE: 16 is added and the low four bits are cleared. */
  function AlignSize(size: int): (a: int)
    requires size >= 0
  {
    size + ALIGN_SIZE - (size + ALIGN_SIZE) % ALIGN_SIZE
  }

  /** A block is always larger than asked for, also when the size asked for is aligned already. */
  lemma AlignedIsLarger(size: int)
    requires size >= 0
    ensures size < AlignSize(size) <= size + ALIGN_SIZE && AlignSize(size) % ALIGN_SIZE == 0
    ensures MIN_SIZE <= AlignSize(size) <= MAX_SIZE <==> 16 <= size < MAX_SIZE
  {
  }

  function HashIndex(size: int): (i: nat)
    ensures i < HASH_TABLE_SIZE - 1
  {
    size % (HASH_TABLE_SIZE - 1)
  }

  ghost predicate Ascending(list: seq<Manage>) {
    forall i, j :: 0 <= i < j < |list| ==> list[i].size < list[j].size
  }

  /** The hash table holds the pools of the list, each once and in the chain of its size. */
  ghost predicate Indexes(hash: seq<seq<Manage>>, list: seq<Manage>) {
    && |hash| == HASH_TABLE_SIZE
    && (forall m :: m in list ==> m in hash[HashIndex(m.size)])
    && (forall i :: 0 <= i < |hash| ==> Distinct(hash[i]) && forall m :: m in hash[i] ==> m in list && HashIndex(m.size) == i)
  }

  ghost predicate Has(list: seq<Manage>, size: int) {
    exists m :: m in list && m.size == size
  }

  /** The place where a pool of this size goes into the list. */
  ghost predicate IsPlace(list: seq<Manage>, size: int, at: nat) {
    && at <= |list|
    && (forall i :: 0 <= i < at ==> list[i].size < size)
    && (forall i :: at <= i < |list| ==> list[i].size > size)
  }

  function Inserted(list: seq<Manage>, at: nat, m: Manage): (r: seq<Manage>)
    requires at <= |list|
  {
    list[..at] + [m] + list[at..]
  }

  lemma InsertedAscends(list: seq<Manage>, at: nat, m: Manage)
    requires Ascending(list) && IsPlace(list, m.size, at)
    ensures Ascending(Inserted(list, at, m))
    ensures forall x :: x in Inserted(list, at, m) <==> x in list || x == m
  {
    var r := Inserted(list, at, m);
    assert list == list[..at] + list[at..];
    assert forall i :: 0 <= i < |r| ==> r[i] == if i < at then list[i] else if i == at then m else list[i - 1];
  }

  lemma IndexesMore(hash: seq<seq<Manage>>, list: seq<Manage>, more: seq<Manage>, m: Manage)
    requires Indexes(hash, list) && m !in list && forall x :: x in more <==> x in list || x == m
    ensures |hash| == HASH_TABLE_SIZE && Indexes(hash[HashIndex(m.size) := [m] + hash[HashIndex(m.size)]], more)
  {
    var k := HashIndex(m.size);
    var h := hash[k := [m] + hash[k]];
    forall i | 0 <= i < |h|
      ensures Distinct(h[i]) && forall x :: x in h[i] ==> x in more && HashIndex(x.size) == i
    {
      assert Distinct(hash[i]);
      assert i != k ==> h[i] == hash[i];
    }
  }

  lemma OneOfASize(list: seq<Manage>, m: Manage, n: Manage)
    requires Ascending(list) && m in list && n in list && m.size == n.size
    ensures m == n
  {
  }

  class Directory {
    var first: seq<Manage>
    var hash: seq<seq<Manage>>
    var cache: Option<Manage>
    var manageNumber: int

    /** The list, the hash table and the cache agree. */
    ghost predicate Valid()
      reads this
    {
      && Ascending(first) && Indexes(hash, first) && manageNumber == |first|
      && (cache.Some? ==> cache.value in first)
    }

    constructor ()
      ensures Valid() && first == [] && cache == None
    {
      first, cache, manageNumber := [], None, 0;
      hash := seq(HASH_TABLE_SIZE, _ => []);
    }

    /** getMemPoolFromHash */
    method Lookup(size: int) returns (found: Option<Manage>)
      requires Valid()
      ensures found.Some? ==> found.value in first && found.value.size == size
      ensures found == None ==> !Has(first, size)
    {
      var chain := hash[HashIndex(size)];
      var i := 0;
      while i < |chain|
        invariant 0 <= i <= |chain| && forall j :: 0 <= j < i ==> chain[j].size != size
      {
        if chain[i].size == size {
          return Some(chain[i]);
        }
        i := i + 1;
      }
      found := None;
    }

    /** The list node behind which createManageStruct would insert: the last one whose successor is not larger. */
    method FindNode(size: int) returns (find: int)
      requires Valid()
      ensures find == -1 <==> first == []
      ensures find != -1 ==> 0 <= find < |first| && (find > 0 ==> first[find].size <= size)
      ensures forall i :: find < i < |first| ==> first[i].size > size
    {
      if first == [] {
        return -1;
      }
      find := 0;
      while find + 1 < |first| && first[find + 1].size <= size
        invariant 0 <= find < |first| && (find > 0 ==> first[find].size <= size)
      {
        find := find + 1;
      }
    }

    /**
     * createManageStruct. A pool of this size in the list already is taken as it is, but it gets a second entry
     * in the hash table then.
     */
    method CreateManageStruct(size: int, addr: int) returns (made: Manage)
      requires Valid()
      modifies this
      ensures cache == Some(made)
      ensures !old(Has(first, size)) ==> Valid() && made == Manage(size, addr) && manageNumber == old(manageNumber) + 1
      ensures !old(Has(first, size)) ==> forall m :: m in first <==> m in old(first) || m == made
      ensures old(Has(first, size)) ==> made in first && made.size == size && first == old(first) && !Valid()
    {
      hide Indexes, Ascending;
      var find := FindNode(size);
      if find != -1 && first[find].size == size {
        made := first[find];
        TwiceInChain(hash, first, made);
        cache := Some(made);
        InsertNewManage(made);
        return;
      }
      made := Manage(size, addr);
      ghost var list := first;
      LinkIn(made, find);
      cache := Some(made);
      IndexesMore(hash, list, first, made);
      InsertNewManage(made);
      manageNumber := manageNumber + 1;
    }

    method LinkIn(made: Manage, find: int)
      requires Ascending(first) && (find == -1 <==> first == [])
      requires find != -1 ==> 0 <= find < |first| && first[find].size != made.size && (find > 0 ==> first[find].size <= made.size)
      requires forall i :: find < i < |first| ==> first[i].size > made.size
      modifies this`first
      ensures Ascending(first) && |first| == |old(first)| + 1 && made !in old(first) && !Has(old(first), made.size)
      ensures forall m :: m in first <==> m in old(first) || m == made
    {
      ghost var at := if find != -1 && first[0].size > made.size then 0 else find + 1;
      ghost var list := first;
      if first == [] {
        first := [made];
      } else if first[0].size > made.size {
        first := [made] + first;
      } else {
        first := first[..find + 1] + [made] + first[find + 1..];
      }
      assert IsPlace(list, made.size, at) && first == Inserted(list, at, made);
      InsertedAscends(list, at, made);
    }

    method InsertNewManage(m: Manage)
      requires |hash| == HASH_TABLE_SIZE
      modifies this`hash
      ensures hash == old(hash)[HashIndex(m.size) := [m] + old(hash)[HashIndex(m.size)]]
    {
      var k := HashIndex(m.size);
      hash := hash[k := [m] + hash[k]];
    }

    /** How allocBlock finds the pool of a size: first the cache, and then the hash table. */
    method FindPool(size: int) returns (found: Option<Manage>)
      requires Valid()
      ensures found.Some? ==> found.value in first && found.value.size == size
      ensures found == None ==> !Has(first, size)
    {
      if cache.Some? && cache.value.size == size {
        return cache;
      }
      found := Lookup(size);
    }
  }

  lemma TwiceInChain(hash: seq<seq<Manage>>, list: seq<Manage>, m: Manage)
    requires Indexes(hash, list) && m in list
    ensures |hash| == HASH_TABLE_SIZE && !Indexes(hash[HashIndex(m.size) := [m] + hash[HashIndex(m.size)]], list)
  {
    var k := HashIndex(m.size);
    var h := hash[k := [m] + hash[k]];
    var j :| 0 <= j < |hash[k]| && hash[k][j] == m;
    assert h[k][0] == h[k][j + 1];
  }
}
