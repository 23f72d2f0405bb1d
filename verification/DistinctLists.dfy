/** Lists without duplicates, and taking an element out of one. */
module DistinctLists {
  ghost predicate Distinct<T>(s: seq<T>) {
    forall i, j {:trigger s[i], s[j]} :: 0 <= i < j < |s| ==> s[i] != s[j]
  }

  /** The list without the first occurrence of x. */
  function Without<T(==)>(s: seq<T>, x: T): (t: seq<T>) {
    if s == [] then [] else if s[0] == x then s[1..] else [s[0]] + Without(s[1..], x)
  }

  lemma DistinctSnoc<T>(s: seq<T>, x: T)
    requires Distinct(s) && x !in s
    ensures Distinct(s + [x])
  {
  }

  lemma {:induction false} WithoutMembers<T(!new)>(s: seq<T>, x: T)
    requires Distinct(s)
    ensures forall y :: y in Without(s, x) <==> y in s && y != x
    ensures |Without(s, x)| == if x in s then |s| - 1 else |s|
  {
    if s == [] {
    } else {
      var first, rest := s[0], s[1..];
      assert s == [first] + rest;
      WithoutMembers(rest, x);
      assert first !in rest;
    }
  }

  lemma {:induction false} WithoutDistinct<T(!new)>(s: seq<T>, x: T)
    requires Distinct(s)
    ensures Distinct(Without(s, x))
  {
    if s == [] {
    } else {
      var first, rest := s[0], s[1..];
      assert forall i :: 0 <= i < |rest| ==> rest[i] == s[i + 1];
      WithoutDistinct(rest, x);
      WithoutMembers(rest, x);
      assert first !in rest;
    }
  }

  lemma {:induction false} WithoutAt<T>(s: seq<T>, x: T, i: nat)
    requires i <= |s| && (forall j :: 0 <= j < i ==> s[j] != x) && (i < |s| ==> s[i] == x)
    ensures Without(s, x) == if i < |s| then s[..i] + s[i + 1..] else s
    decreases i
  {
    if i == 0 {
      if s != [] {
        assert s[..0] + s[1..] == s[1..];
      }
    } else {
      TailParts(s, i);
      var rest := s[1..];
      WithoutAt(rest, x, i - 1);
      assert Without(s, x) == [s[0]] + Without(rest, x);
      hide Without;
      if i < |s| {
        assert s[..i] + s[i + 1..] == [s[0]] + (rest[..i - 1] + rest[i..]);
      }
    }
  }

  lemma TailParts<T>(s: seq<T>, i: nat)
    requires 0 < i <= |s|
    ensures s == [s[0]] + s[1..] && s[..i] == [s[0]] + s[1..][..i - 1]
    ensures i < |s| ==> s[1..][i - 1] == s[i] && s[1..][i..] == s[i + 1..]
    ensures forall j :: 0 <= j < i - 1 ==> s[1..][j] == s[j + 1]
  {
  }
}
