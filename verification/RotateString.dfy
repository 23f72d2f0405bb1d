/**
 * The two in-place rotations: the juggling one, which moves one element at a time
 * along gcd(len, mid) closed orbits, and the one made of three reversals.
 */
module RotateString {
  import opened NumberTheory

  /** What both promise: position i receives the element `mid` places further on, cyclically. */
  function Rotated<T>(s: seq<T>, mid: nat): (r: seq<T>)
  {
    seq(|s|, i requires 0 <= i < |s| => s[Next(i, mid, |s|)])
  }

  function Next(i: nat, mid: nat, len: nat): (p: nat)
    requires len > 0
    ensures p < len
  {
    Wrap(i + mid, len)
  }

  /** The remainder in `Rotated` is the program's own `%`. */
  lemma RotatedAt<T>(s: seq<T>, mid: nat, i: nat)
    requires i < |s|
    ensures Rotated(s, mid)[i] == s[(i + mid) % |s|]
  {
    WrapIsMod(i + mid, |s|);
  }

  /** Rotating by `mid` within the string exchanges its two parts. */
  lemma RotatedExchangesParts<T>(s: seq<T>, mid: nat)
    requires mid <= |s|
    ensures Rotated(s, mid) == s[mid..] + s[..mid]
  {
    forall i | 0 <= i < |s|
      ensures Rotated(s, mid)[i] == (s[mid..] + s[..mid])[i]
    {
      if i + mid >= |s| {
        WrapOnce(i + mid, |s|);
      }
    }
  }

  /** Rotations compose by adding their distances, even past the length. */
  lemma RotatedComposes<T>(s: seq<T>, a: nat, b: nat)
    ensures Rotated(Rotated(s, a), b) == Rotated(s, a + b)
  {
    forall i | 0 <= i < |s|
      ensures Rotated(Rotated(s, a), b)[i] == Rotated(s, a + b)[i]
    {
      WrapAdd(i + b, a, |s|);
    }
  }

  /** Rotating on by the rest of the length brings the string back. */
  lemma RotatedBack<T>(s: seq<T>, mid: nat)
    requires mid <= |s|
    ensures Rotated(Rotated(s, mid), |s| - mid) == s
  {
    hide *;
    RotatedComposes(s, mid, |s| - mid);
    assert mid + (|s| - mid) == |s|;
    RotatedOnce(s);
  }

  lemma RotatedOnce<T>(s: seq<T>)
    ensures Rotated(s, |s|) == s
  {
    forall i | 0 <= i < |s|
      ensures Rotated(s, |s|)[i] == s[i]
    {
      WrapOnce(i + |s|, |s|);
    }
  }

  method GcdLoop(m0: nat, n0: nat) returns (g: nat)
    requires n0 > 0
    ensures g == Gcd(m0, n0)
  {
    var m, n := m0, n0;
    WrapIsMod(m, n);
    while m % n != 0
      invariant n > 0 && Gcd(m, n) == Gcd(m0, n0) && m % n == Wrap(m, n)
      decreases n
    {
      var r := n;
      n := m % n;
      m := r;
      WrapIsMod(m, n);
    }
    return n;
  }

  // ----- The orbits of q -> (q + mid) % len -----

  /** The t-th position on the orbit that starts at i. */
  function Orbit(i: nat, mid: nat, len: nat, t: nat): (p: nat)
    requires i < len
    ensures p < len
  {
    if t == 0 then i else Wrap(Orbit(i, mid, len, t - 1) + mid, len)
  }

  lemma {:induction false} OrbitClosedForm(i: nat, mid: nat, len: nat, t: nat)
    requires i < len
    ensures Orbit(i, mid, len, t) == Wrap(i + t * mid, len)
  {
    if t > 0 {
      OrbitClosedForm(i, mid, len, t - 1);
      WrapAdd(i + (t - 1) * mid, mid, len);
      MulDistribute(t - 1, 1, mid);
    }
  }

  /** len == times * g and mid == step * g, with coprime quotients times and step. */
  ghost predicate Split(len: nat, mid: nat, g: nat, times: nat, step: nat, u: int, v: int) {
    len > 0 && g > 0 && times > 0 && len == times * g && mid == step * g && u * times + v * step == 1
  }

  lemma SplitByGcd(len: nat, mid: nat) returns (times: nat, step: nat, u: int, v: int)
    requires len > 0 && mid > 0
    ensures Split(len, mid, Gcd(len, mid), times, step, u, v) && times == len / Gcd(len, mid)
    ensures Gcd(len, mid) <= len
  {
    times, step, u, v := QuotientsCoprime(len, mid);
    var g := Gcd(len, mid);
    assert len == (len / g) * g + len % g;
    DivisionUnique(times, 0, len / g, len % g, g);
    MulMono(1, times, g);
  }

  /** An orbit stays in one residue class modulo g. */
  lemma {:induction false} OrbitStaysInClass(i: nat, mid: nat, len: nat, g: nat, times: nat, step: nat, u: int, v: int, t: nat)
    requires Split(len, mid, g, times, step, u, v) && i < g && i < len
    ensures Wrap(Orbit(i, mid, len, t), g) == i
  {
    if t > 0 {
      OrbitStaysInClass(i, mid, len, g, times, step, u, v, t - 1);
      var p := Orbit(i, mid, len, t - 1);
      WrapRespectsDivisor(p + mid, g, times);
      var q := WrapQuotient(p, g);
      MulDistribute(q, step, g);
      WrapUnique(p + mid, g, q + step, i);
    }
  }

  /** If `times` divides d * step for coprime times and step, it divides d. */
  lemma Gauss(d: int, step: int, times: int, k: int, u: int, v: int) returns (m: int)
    requires d * step == k * times && u * times + v * step == 1
    ensures d == m * times
  {
    m := d * u + v * k;
    MulAssociate(d, u, times);
    MulAssociate(v, d, step);
    MulAssociate(v, k, times);
    MulDistribute(d * u, v * k, times);
    MulDistribute(u * times, v * step, d);
  }

  /** The first `times` positions of an orbit are pairwise different. */
  lemma OrbitInjective(i: nat, mid: nat, len: nat, g: nat, times: nat, step: nat, u: int, v: int, s: nat, t: nat)
    requires Split(len, mid, g, times, step, u, v) && i < len && s < t < times
    ensures Orbit(i, mid, len, s) != Orbit(i, mid, len, t)
  {
    OrbitClosedForm(i, mid, len, s);
    OrbitClosedForm(i, mid, len, t);
    if Wrap(i + s * mid, len) == Wrap(i + t * mid, len) {
      var a := WrapQuotient(i + s * mid, len);
      var b := WrapQuotient(i + t * mid, len);
      MeetAfterWholeTurns(i, s, t, Wrap(i + s * mid, len), a, b, mid, len, g, times, step, u, v);
    }
  }

  lemma MeetAfterWholeTurns(i: int, s: int, t: int, w: int, a: int, b: int,
                            mid: int, len: int, g: int, times: int, step: int, u: int, v: int)
    requires len == times * g && mid == step * g && g > 0 && times > 0 && u * times + v * step == 1
    requires i + s * mid == a * len + w && i + t * mid == b * len + w && s < t
    ensures t - s >= times
  {
    MulDistribute(t, s, mid);
    MulDistribute(b, a, len);
    MeetingArithmetic(t - s, b - a, times, step, g);
    var m := Gauss(t - s, step, times, b - a, u, v);
    if t - s < times {
      DivisionUnique(0, t - s, m, 0, times);
    }
  }

  lemma MeetingArithmetic(d: int, k: int, times: int, step: int, g: int)
    requires g > 0 && d * (step * g) == k * (times * g)
    ensures d * step == k * times
  {
    MulAssociate(d, step, g);
    MulAssociate(k, times, g);
    MulCancel(d * step, k * times, g);
  }

  /** Every position of the residue class is met within the first `times` steps. */
  lemma OrbitCovers(i: nat, mid: nat, len: nat, g: nat, times: nat, step: nat, u: int, v: int, q: nat)
    returns (t: nat)
    requires Split(len, mid, g, times, step, u, v) && i < g && i < len && q < len && Wrap(q, g) == i
    ensures t < times && Orbit(i, mid, len, t) == q
  {
    var k := WrapQuotient(q, g);
    t := (k * v) % times;
    var w := (k * v) / times;
    var c := k * u + w * step;
    assert t == k * v - w * times;
    CoverArithmetic(k, v, w, u, times, step, g, t);
    OrbitClosedForm(i, mid, len, t);
    assert i + t * mid == (-c) * len + q;
    WrapUnique(i + t * mid, len, -c, q);
  }

  lemma CoverArithmetic(k: int, v: int, w: int, u: int, times: int, step: int, g: int, t: int)
    requires u * times + v * step == 1 && t == k * v - w * times
    ensures t * (step * g) == k * g + (-(k * u + w * step)) * (times * g)
  {
    MulDistribute(k * v, w * times, step);
    MulAssociate(k, v, step);
    MulAssociate(w, times, step);
    MulAssociate(k, u, times);
    MulDistribute(u * times, v * step, k);
    MulDistribute(k * u, w * step, times);
    var c := k * u + w * step;
    assert t * step == k - c * times;
    MulAssociate(t, step, g);
    MulAssociate(c, times, g);
    MulDistribute(k, c * times, g);
  }

  /** After `times` steps the orbit is back at its start. */
  lemma OrbitCloses(i: nat, mid: nat, len: nat, g: nat, times: nat, step: nat, u: int, v: int)
    requires Split(len, mid, g, times, step, u, v) && i < len
    ensures Orbit(i, mid, len, times) == i
  {
    OrbitClosedForm(i, mid, len, times);
    MulAssociate(times, step, g);
    MulAssociate(step, times, g);
    WrapUnique(i + times * mid, len, step, i);
  }

  predicate Visits(i: nat, mid: nat, len: nat, t: nat, q: nat)
    requires i < len
  {
    Orbit(i, mid, len, t) == q
  }

  predicate InClass(q: nat, g: nat, i: nat)
    requires g > 0
  {
    Wrap(q, g) == i
  }

  /** o lists the whole closed orbit of i, which fills the class of i modulo g. */
  ghost predicate IsOrbit(o: seq<nat>, i: nat, mid: nat, len: nat, g: nat)
    requires len > 0 && g > 0
  {
    && |o| >= 2 && o[0] == o[|o| - 1] == i
    && (forall t {:trigger o[t]} :: 0 <= t < |o| ==> o[t] < len && Wrap(o[t], g) == i)
    && (forall s, t {:trigger o[s], o[t]} :: 0 <= s < t < |o| - 1 ==> o[s] != o[t])
    && (forall t {:trigger Next(o[t], mid, len)} :: 0 <= t < |o| - 1 ==> o[t + 1] == Next(o[t], mid, len))
    && (forall q: nat {:trigger InClass(q, g, i)} :: q < len && InClass(q, g, i) ==>
          exists t {:trigger o[t]} :: 0 <= t < |o| - 1 && o[t] == q)
  }

  lemma OrbitOf(i: nat, mid: nat, len: nat, g: nat, times: nat, step: nat, u: int, v: int) returns (o: seq<nat>)
    requires Split(len, mid, g, times, step, u, v) && i < g && i < len
    ensures |o| == times + 1 && IsOrbit(o, i, mid, len, g)
  {
    assert times > 0;
    hide Split;
    o := seq(times + 1, t requires 0 <= t => Orbit(i, mid, len, t));
    OrbitCloses(i, mid, len, g, times, step, u, v);
    OrbitFacts(i, mid, len, g, times, step, u, v);
    forall t | 0 <= t < |o| - 1
      ensures o[t + 1] == Next(o[t], mid, len)
    {
      assert Orbit(i, mid, len, t + 1) == Next(Orbit(i, mid, len, t), mid, len);
    }
    forall q: nat {:trigger InClass(q, g, i)} | q < len && InClass(q, g, i)
      ensures exists t {:trigger o[t]} :: 0 <= t < |o| - 1 && o[t] == q
    {
      var t: nat :| t < times && Visits(i, mid, len, t, q);
      assert o[t] == q;
    }
  }

  lemma OrbitFacts(i: nat, mid: nat, len: nat, g: nat, times: nat, step: nat, u: int, v: int)
    requires Split(len, mid, g, times, step, u, v) && i < g && i < len
    ensures forall t: nat {:trigger Orbit(i, mid, len, t)} :: Wrap(Orbit(i, mid, len, t), g) == i
    ensures forall s: nat, t: nat {:trigger Orbit(i, mid, len, s), Orbit(i, mid, len, t)} ::
              s < t < times ==> Orbit(i, mid, len, s) != Orbit(i, mid, len, t)
    ensures forall q: nat {:trigger InClass(q, g, i)} :: q < len && InClass(q, g, i) ==>
              exists t: nat :: t < times && Visits(i, mid, len, t, q)
  {
    hide Split;
    forall t: nat ensures Wrap(Orbit(i, mid, len, t), g) == i {
      OrbitStaysInClass(i, mid, len, g, times, step, u, v, t);
    }
    forall s: nat, t: nat | s < t < times ensures Orbit(i, mid, len, s) != Orbit(i, mid, len, t) {
      OrbitInjective(i, mid, len, g, times, step, u, v, s, t);
    }
    forall q: nat {:trigger InClass(q, g, i)} | q < len && InClass(q, g, i)
      ensures exists t: nat :: t < times && Visits(i, mid, len, t, q) {
      var t := OrbitCovers(i, mid, len, g, times, step, u, v, q);
      assert t < times && Visits(i, mid, len, t, q);
    }
  }

  /**
   * The gcd(len, mid) orbits of length len / gcd(len, mid) that the rotation walks along meet every position
   * exactly once: q is on the orbit that starts at its remainder, at one point of it, and on no other.
   */
  lemma {:induction false} OrbitsPartition(len: nat, mid: nat, q: nat) returns (t: nat)
    requires mid > 0 && q < len
    ensures t < len / Gcd(len, mid) && Orbit(Wrap(q, Gcd(len, mid)), mid, len, t) == q
    ensures forall i: nat, s: nat :: i < Gcd(len, mid) <= len && s < len / Gcd(len, mid) && Visits(i, mid, len, s, q) ==>
              i == Wrap(q, Gcd(len, mid)) && s == t
  {
    var g := Gcd(len, mid);
    var times, step, u, v := SplitByGcd(len, mid);
    var c := Wrap(q, g);
    hide Split;
    t := OrbitCovers(c, mid, len, g, times, step, u, v, q);
    forall i: nat, s: nat | i < g && s < times && Visits(i, mid, len, s, q)
      ensures i == c && s == t
    {
      OrbitStaysInClass(i, mid, len, g, times, step, u, v, s);
      if s < t {
        OrbitInjective(c, mid, len, g, times, step, u, v, s, t);
      } else if t < s {
        OrbitInjective(c, mid, len, g, times, step, u, v, t, s);
      }
    }
  }

  /** The index expression of the loops. */
  method Index(n: nat, len: nat) returns (p: nat)
    requires len > 0
    ensures p == Wrap(n, len)
  {
    WrapIsMod(n, len);
    return n % len;
  }

  /** The classes below i have moved by `mid`, the others have not moved yet. */
  ghost predicate ClassesMoved<T>(was: seq<T>, now: seq<T>, mid: nat, g: nat, i: nat)
    requires g > 0
  {
    |now| == |was| &&
    forall q {:trigger now[q]} :: 0 <= q < |was| ==> now[q] == if Wrap(q, g) < i then was[Next(q, mid, |was|)] else was[q]
  }

  /** Of the class of i, the first j positions of the orbit have moved; no other class is touched. */
  ghost predicate OrbitMoved<T>(was: seq<T>, now: seq<T>, o: seq<nat>, i: nat, mid: nat, g: nat, j: nat)
    requires g > 0 && |was| > 0 && IsOrbit(o, i, mid, |was|, g)
  {
    && |now| == |was|
    && (forall q {:trigger now[q]} :: 0 <= q < |was| && Wrap(q, g) != i ==> now[q] == was[q])
    && (forall t {:trigger now[o[t]]} :: 0 <= t < |o| - 1 ==> now[o[t]] == was[if t < j then o[t + 1] else o[t]])
  }

  lemma OrbitStarts<T>(was: seq<T>, o: seq<nat>, i: nat, mid: nat, g: nat)
    requires g > 0 && |was| > 0 && IsOrbit(o, i, mid, |was|, g)
    ensures OrbitMoved(was, was, o, i, mid, g, 0) && |o| > 1 && o[0] == i && Wrap(i, |was|) == i
  {
  }

  /** One assignment of the loop; its source has not been overwritten unless it is the start. */
  lemma OrbitAdvances<T>(was: seq<T>, now: seq<T>, o: seq<nat>, i: nat, mid: nat, g: nat, j: nat)
    requires g > 0 && |was| > 0 && IsOrbit(o, i, mid, |was|, g) && j < |o| - 1
    requires OrbitMoved(was, now, o, i, mid, g, j)
    ensures |now| == |was| && o[j] < |was| && o[j + 1] < |was| && o[j + 1] == Next(o[j], mid, |was|)
    ensures OrbitMoved(was, now[o[j] := was[o[j + 1]]], o, i, mid, g, j + 1)
    ensures if j + 1 < |o| - 1 then now[o[j + 1]] == was[o[j + 1]] else o[j + 1] == i
  {
    assert o[j + 1] == Next(o[j], mid, |was|);
    var now' := now[o[j] := was[o[j + 1]]];
    forall t | 0 <= t < |o| - 1
      ensures now'[o[t]] == was[if t < j + 1 then o[t + 1] else o[t]]
    {
      assert t < j ==> o[t] != o[j];
      assert t > j ==> o[j] != o[t];
      assert t != j ==> now'[o[t]] == now[o[t]];
    }
  }

  /** With the whole orbit moved, the whole class has moved. */
  lemma OrbitFinishes<T>(was: seq<T>, before: seq<T>, now: seq<T>, o: seq<nat>, i: nat, mid: nat, g: nat)
    requires |was| > 0 && g > 0 && IsOrbit(o, i, mid, |was|, g) && ClassesMoved(was, before, mid, g, i)
    requires OrbitMoved(before, now, o, i, mid, g, |o| - 1)
    ensures ClassesMoved(was, now, mid, g, i + 1)
  {
    var len := |was|;
    forall q | 0 <= q < len
      ensures now[q] == if Wrap(q, g) < i + 1 then was[Next(q, mid, len)] else was[q]
    {
      if InClass(q, g, i) {
        var t :| 0 <= t < |o| - 1 && o[t] == q;
        assert now[o[t]] == before[o[t + 1]];
        assert o[t + 1] == Next(o[t], mid, len);
        assert Wrap(o[t + 1], g) == i;
      }
    }
  }

  /** The largest value that the index variable takes before its remainder is formed. */
  function LargestIndex(len: nat, mid: nat): (top: int)
    requires len > 0 && mid > 0
  {
    Gcd(len, mid) - 1 + (len / Gcd(len, mid) - 1) * mid
  }

  /** The 32-bit index does not overflow when the product of length and distance is at most 2^31. */
  lemma SmallProductFits(len: nat, mid: nat)
    requires len > 0 && mid > 0 && len * mid <= 0x8000_0000
    ensures LargestIndex(len, mid) < 0x8000_0000
  {
    var g := Gcd(len, mid);
    var times, step, u, v := SplitByGcd(len, mid);
    MulMono(1, step, g);
    MulMono(times, len, mid);
    MulDistribute(times - 1, 1, mid);
  }

  /** A text of 65536 characters, rotated by 65535: the index would have to reach 4294836225. */
  lemma IndexOverflows()
    ensures LargestIndex(65536, 65535) == 4294836225
  {
    assert Gcd(65536, 65535) == 1;
  }

  /**
   * The juggling rotation, for every len > 0 and every mid > 0.
   * Outer iteration i settles exactly the positions congruent to i modulo gcd(len, mid). `top` is the largest value
   * of the index variable; the original's is a 32-bit one, so for it all this holds exactly if top is below 2^31.
   */
  method Rotate(start: array<char>, mid: nat) returns (ghost top: nat)
    requires start.Length > 0 && mid > 0
    modifies start
    ensures start[..] == Rotated(old(start[..]), mid)
    ensures top == LargestIndex(start.Length, mid)
  {
    ghost var was := start[..];
    var subs := GcdLoop(start.Length, mid);
    ghost var times', step, u, v := SplitByGcd(start.Length, mid);
    var times := start.Length / subs;
    var i := 0;
    top := 0;
    while i < subs
      invariant 0 <= i <= subs && ClassesMoved(was, start[..], mid, subs, i)
      invariant if i == 0 then top == 0 else top == i - 1 + (times - 1) * mid
    {
      ghost var o := OrbitOf(i, mid, start.Length, subs, times, step, u, v);
      ghost var before := start[..];
      ghost var reached := MoveOrbit(start, i, mid, times, subs, o);
      top := if reached > top then reached else top;
      OrbitFinishes(was, before, start[..], o, i, mid, subs);
      i := i + 1;
    }
  }

  /** The inner loop: the orbit of i moves by one place, everything else stays. `top` is the largest index formed. */
  method MoveOrbit(start: array<char>, i: nat, mid: nat, times: nat, ghost subs: nat, ghost o: seq<nat>)
    returns (ghost top: nat)
    requires i < start.Length && subs > 0 && |o| == times + 1 && IsOrbit(o, i, mid, start.Length, subs)
    modifies start
    ensures OrbitMoved(old(start[..]), start[..], o, i, mid, subs, times)
    ensures times > 0 && top == i + (times - 1) * mid
  {
    hide IsOrbit, OrbitMoved;
    var len := start.Length;
    ghost var was := start[..];
    OrbitStarts(was, o, i, mid, subs);
    var temp := start[i];
    var j, next := 0, i;
    top := next;
    while j < times - 1
      invariant 0 <= j <= times - 1 && top == next == i + j * mid && Wrap(next, len) == o[j]
      invariant OrbitMoved(was, start[..], o, i, mid, subs, j)
    {
      WrapAdd(next, mid, len);
      OrbitAdvances(was, start[..], o, i, mid, subs, j);
      var to := Index(next, len);
      var from := Index(next + mid, len);
      start[to] := start[from];
      MulDistribute(j, 1, mid);
      top := if next + mid > top then next + mid else top;
      j, next := j + 1, next + mid;
    }
    OrbitAdvances(was, start[..], o, i, mid, subs, j);
    var to := Index(next, len);
    start[to] := temp;
  }

  // ----- Three reversals -----

  function Reversed<T>(s: seq<T>): (r: seq<T>)
  {
    seq(|s|, i requires 0 <= i < |s| => s[|s| - 1 - i])
  }

  function ReversedWithin<T>(s: seq<T>, from: nat, end: nat): (r: seq<T>)
    requires from <= end <= |s|
  {
    s[..from] + Reversed(s[from..end]) + s[end..]
  }

  /** Reverses start[from0..to0 + 1] by exchanging the two ends inwards. */
  method Swap(start: array<char>, from0: nat, to0: int)
    requires from0 <= to0 + 1 <= start.Length
    modifies start
    ensures start[..] == ReversedWithin(old(start[..]), from0, to0 + 1)
  {
    hide ReversedWithin;
    var from, to := from0, to0;
    while from < to
      invariant from0 <= from <= to + 2 && from + to == from0 + to0
      invariant forall k :: 0 <= k < from0 || to0 < k < start.Length ==> start[k] == old(start[k])
      invariant forall k :: from <= k <= to ==> start[k] == old(start[k])
      invariant forall k {:trigger start[k]} :: from0 <= k < from || to < k <= to0 ==> start[k] == old(start[from0 + to0 - k])
    {
      var temp := start[from];
      start[from] := start[to];
      start[to] := temp;
      from, to := from + 1, to - 1;
    }
    ReversedWithinIs(old(start[..]), start[..], from0, to0 + 1);
  }

  lemma ReversedWithinIs<T>(s: seq<T>, t: seq<T>, from: nat, end: nat)
    requires from <= end <= |s| == |t|
    requires forall k :: 0 <= k < from || end <= k < |s| ==> t[k] == s[k]
    requires forall k {:trigger t[k]} :: from <= k < end ==> t[k] == s[from + end - 1 - k]
    ensures t == ReversedWithin(s, from, end)
  {
  }

  lemma ReversedWithinParts<T>(a: seq<T>, b: seq<T>)
    ensures ReversedWithin(a + b, 0, |a|) == Reversed(a) + b
    ensures ReversedWithin(a + b, |a|, |a + b|) == a + Reversed(b)
    ensures ReversedWithin(a, 0, |a|) == Reversed(a)
  {
    assert (a + b)[0..|a|] == a && (a + b)[|a|..] == b && (a + b)[|a|..|a + b|] == b;
    assert a[0..|a|] == a;
  }

  lemma ReversedJoin<T>(a: seq<T>, b: seq<T>)
    ensures Reversed(Reversed(a) + Reversed(b)) == b + a && |Reversed(a)| == |a|
  {
    var r := Reversed(a) + Reversed(b);
    assert forall k :: 0 <= k < |r| ==> Reversed(r)[k] == (b + a)[k];
  }

  /** Reversing the two parts and then the whole exchanges the parts. */
  lemma ThreeReversals<T>(s: seq<T>, mid: nat)
    requires mid <= |s|
    ensures ReversedWithin(ReversedWithin(ReversedWithin(s, 0, mid), mid, |s|), 0, |s|) == Rotated(s, mid)
  {
    hide *;
    var a, b := s[..mid], s[mid..];
    assert s == a + b;
    TwoReversals(a, b);
    ReversedWhole(Reversed(a) + Reversed(b));
    ReversedJoin(a, b);
    RotatedExchangesParts(s, mid);
  }

  lemma TwoReversals<T>(a: seq<T>, b: seq<T>)
    ensures ReversedWithin(ReversedWithin(a + b, 0, |a|), |a|, |a + b|) == Reversed(a) + Reversed(b)
    ensures |Reversed(a) + Reversed(b)| == |a + b|
  {
    hide *;
    ReversedJoin(a, b);
    ReversedJoin(b, a);
    ReversedWithinParts(a, b);
    ReversedWithinParts(Reversed(a), b);
  }

  lemma ReversedWhole<T>(s: seq<T>)
    ensures ReversedWithin(s, 0, |s|) == Reversed(s)
  {
    hide *;
    ReversedWithinParts(s, []);
  }

  method RotateBySwaps(start: array<char>, mid: nat)
    requires mid <= start.Length
    modifies start
    ensures start[..] == Rotated(old(start[..]), mid)
  {
    hide *;
    ghost var was := start[..];
    var len := start.Length;
    Swap(start, 0, mid - 1);
    Swap(start, mid, len - 1);
    Swap(start, 0, len - 1);
    ThreeReversals(was, mid);
  }
}
