/** The dynamic array that buffers bit indices. */
module DArrays {

  const MIN_EXPAND_LENGTH := 8
  const DEFAULT_LENGTH := 16
  const MIN_SPACE := 4

  function Inserted(s: seq<int>, index: nat, data: int): (t: seq<int>)
    ensures |t| == |s| + 1
  {
    if index >= |s| then s + [data] else s[..index] + [data] + s[index..]
  }

  lemma InsertedAt(s: seq<int>, index: nat, data: int)
    ensures var t, at := Inserted(s, index, data), if index < |s| then index else |s|;
      t[..at] == s[..at] && t[at] == data && t[at + 1..] == s[at..]
  {
    var t, at := Inserted(s, index, data), if index < |s| then index else |s|;
    assert t == s[..at] + [data] + s[at..];
  }

  /** In t, the elements of s from index on up to size stand one place further up. */
  ghost predicate MovedUp(s: seq<int>, t: seq<int>, index: nat, size: nat)
    requires index <= size < |s|
  {
    && |t| == |s|
    && (forall k {:trigger t[k]} :: 0 <= k <= size ==> t[k] == if k <= index then s[k] else s[k - 1])
  }

  lemma MovedUpInserts(s: seq<int>, t: seq<int>, index: nat, size: nat, data: int)
    requires index < size < |s| && MovedUp(s, t, index, size)
    ensures t[index := data][..size + 1] == Inserted(s[..size], index, data)
  {
  }

  class DArray {
    var base: array<int>
    var size: nat

    ghost predicate Valid()
      reads this
    {
      size <= base.Length
    }

    function Contents(): (s: seq<int>)
      requires Valid()
      reads this, base
    {
      base[..size]
    }

    constructor (length: nat)
      ensures Valid() && Contents() == [] && fresh(base)
    {
      base := new int[length](_ => 0);
      size := 0;
    }

    /** Makes room for one more element: at least half as much again, and never fewer than 16 places. */
    method Expand()
      requires Valid() && base.Length - size <= MIN_SPACE
      modifies this`base
      ensures Valid() && Contents() == old(Contents()) && size < base.Length && fresh(base)
      ensures base.Length == if old(base.Length) < MIN_EXPAND_LENGTH then DEFAULT_LENGTH else old(base.Length) * 3 / 2
    {
      var length := if base.Length < MIN_EXPAND_LENGTH then DEFAULT_LENGTH else base.Length + base.Length / 2;
      var newBase := new int[length](_ => 0);
      forall i | 0 <= i < size {
        newBase[i] := base[i];
      }
      base := newBase;
    }

    /** The shifting loop of the insertion: everything from index on moves up by one. */
    method Shift(index: nat)
      requires Valid() && index <= size < base.Length
      modifies base
      ensures MovedUp(old(base[..]), base[..], index, size)
    {
      var i := size;
      while i > index
        invariant index <= i <= size && MovedUp(old(base[..]), base[..], i, size)
      {
        base[i] := base[i - 1];
        i := i - 1;
      }
    }

    /** Inserts before position index; an index past the end appends. */
    method Insert(index: nat, data: int)
      requires Valid()
      modifies this, base
      ensures Valid() && if old(base.Length - size) > MIN_SPACE then base == old(base) else fresh(base)
      ensures Contents() == Inserted(old(Contents()), index, data)
    {
      if base.Length - size <= MIN_SPACE {
        Expand();
      }
      ghost var s := base[..];
      if index >= size {
        base[size] := data;
        size := size + 1;
        assert base[..size] == base[..size - 1] + [data];
      } else {
        Shift(index);
        MovedUpInserts(s, base[..], index, size, data);
        base[index] := data;
        size := size + 1;
        assert base[..][..size] == base[..size];
      }
    }

    method Append(data: int)
      requires Valid()
      modifies this, base
      ensures Valid() && Contents() == old(Contents()) + [data] && (base == old(base) || fresh(base))
    {
      Insert(size, data);
    }

    method ClearAndResize(length: nat)
      requires length > 0
      modifies this
      ensures Valid() && Contents() == [] && fresh(base)
    {
      size := 0;
      base := new int[length];
    }
  }
}
