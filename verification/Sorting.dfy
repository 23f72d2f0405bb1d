/**
 * What the sorting functions share: the comparison callback, ordered sequences and
 * permutations within a range.
 */
module SortOrder {

  /** comp(a, b) says that a has to stand after b. */
  type Compare = (int, int) -> bool

  /** a may stand before b. */
  predicate Le(comp: Compare, a: int, b: int) {
    !comp(a, b)
  }

  /** The callback is a strict weak order, so Le is transitive and total. */
  ghost predicate StrictWeakOrder(comp: Compare) {
    && (forall a, b {:trigger Le(comp, a, b)} :: Le(comp, a, b) || Le(comp, b, a))
    && (forall a, b, c {:trigger Le(comp, a, b), Le(comp, b, c)} :: Le(comp, a, b) && Le(comp, b, c) ==> Le(comp, a, c))
  }

  /** The textbook axioms: irreflexive, transitive, and incomparability is transitive. */
  ghost predicate TextbookOrder(comp: Compare) {
    && (forall a :: !comp(a, a))
    && (forall a, b, c :: comp(a, b) && comp(b, c) ==> comp(a, c))
    && (forall a, b, c :: !comp(a, b) && !comp(b, a) && !comp(b, c) && !comp(c, b) ==> !comp(a, c) && !comp(c, a))
  }

  lemma StrictWeakOrderAxioms(comp: Compare)
    ensures StrictWeakOrder(comp) <==> TextbookOrder(comp)
  {
    if StrictWeakOrder(comp) {
      OrderIsTextbook(comp);
    }
    if TextbookOrder(comp) {
      TextbookIsOrder(comp);
    }
  }

  lemma OrderIsTextbook(comp: Compare)
    requires StrictWeakOrder(comp)
    ensures TextbookOrder(comp)
  {
    forall a
      ensures !comp(a, a)
    {
      assert Le(comp, a, a);
    }
    forall a, b, c
      ensures comp(a, b) && comp(b, c) ==> comp(a, c)
      ensures !comp(a, b) && !comp(b, a) && !comp(b, c) && !comp(c, b) ==> !comp(a, c) && !comp(c, a)
    {
      assert Le(comp, b, a) || Le(comp, a, b);
      assert Le(comp, c, b) || Le(comp, b, c);
      assert Le(comp, a, c) && Le(comp, c, b) ==> Le(comp, a, b);
      assert Le(comp, a, b) && Le(comp, b, c) ==> Le(comp, a, c);
      assert Le(comp, c, b) && Le(comp, b, a) ==> Le(comp, c, a);
    }
  }

  lemma TextbookIsOrder(comp: Compare)
    requires TextbookOrder(comp)
    ensures StrictWeakOrder(comp)
  {
    forall a, b
      ensures Le(comp, a, b) || Le(comp, b, a)
    {
      assert comp(a, b) && comp(b, a) ==> comp(a, a);
    }
    forall a, b, c
      ensures Le(comp, a, b) && Le(comp, b, c) ==> Le(comp, a, c)
    {
      assert comp(b, a) && comp(a, c) ==> comp(b, c);
      assert comp(a, c) && comp(c, b) ==> comp(a, b);
      assert !comp(a, b) && !comp(b, a) && !comp(b, c) && !comp(c, b) ==> !comp(a, c);
    }
  }

  ghost predicate Ordered(comp: Compare, s: seq<int>) {
    forall i, j {:trigger Le(comp, s[i], s[j])} :: 0 <= i < j < |s| ==> Le(comp, s[i], s[j])
  }

  /** t arises from s by permuting the elements of [low, high). */
  ghost predicate RangePermuted(s: seq<int>, t: seq<int>, low: nat, high: nat)
    requires low <= high <= |s|
  {
    && |t| == |s| && multiset(t) == multiset(s)
    && forall i {:trigger t[i]} {:trigger s[i]} :: 0 <= i < low || high <= i < |s| ==> t[i] == s[i]
  }

  lemma SplitMultiset(s: seq<int>, low: nat, high: nat)
    requires low <= high <= |s|
    ensures multiset(s) == multiset(s[..low]) + multiset(s[low..high]) + multiset(s[high..])
  {
    assert s == s[..low] + s[low..high] + s[high..];
  }

  lemma CancelMultiset(a: multiset<int>, b: multiset<int>, b': multiset<int>, c: multiset<int>)
    requires a + b + c == a + b' + c
    ensures b == b'
  {
    assert b == (a + b + c) - a - c;
    assert b' == (a + b' + c) - a - c;
  }

  lemma RangeMultiset(s: seq<int>, t: seq<int>, low: nat, high: nat)
    requires low <= high <= |s| && RangePermuted(s, t, low, high)
    ensures multiset(s[low..high]) == multiset(t[low..high])
  {
    SplitMultiset(s, low, high);
    SplitMultiset(t, low, high);
    assert s[..low] == t[..low] && s[high..] == t[high..];
    CancelMultiset(multiset(s[..low]), multiset(s[low..high]), multiset(t[low..high]), multiset(s[high..]));
  }

  function Exchanged(s: seq<int>, i: nat, j: nat): (t: seq<int>)
    requires i < |s| && j < |s|
  {
    s[i := s[j]][j := s[i]]
  }

  lemma ExchangedPermutes(s: seq<int>, i: nat, j: nat, low: nat, high: nat)
    requires low <= i < high <= |s| && low <= j < high
    ensures RangePermuted(s, Exchanged(s, i, j), low, high)
  {
  }

  lemma RangePermutedTransitive(s: seq<int>, t: seq<int>, u: seq<int>, low: nat, high: nat)
    requires low <= high <= |s| && RangePermuted(s, t, low, high) && RangePermuted(t, u, low, high)
    ensures RangePermuted(s, u, low, high)
  {
  }

  /** Every element of the permuted range was in the range before. */
  lemma RangeElement(s: seq<int>, t: seq<int>, low: nat, high: nat, i: nat) returns (k: nat)
    requires low <= i < high <= |s| && RangePermuted(s, t, low, high)
    ensures low <= k < high && s[k] == t[i]
  {
    RangeMultiset(s, t, low, high);
    assert t[low..high][i - low] in multiset(s[low..high]);
    var d :| 0 <= d < high - low && s[low..high][d] == t[i];
    k := low + d;
  }

  method Swap(a: array<int>, first: nat, second: nat)
    requires first < a.Length && second < a.Length
    modifies a
    ensures a[..] == Exchanged(old(a[..]), first, second)
  {
    if first != second {
      var temp := a[first];
      a[first] := a[second];
      a[second] := temp;
    }
  }
}

/** Quick sort: a two-ended partition that carries its key along, then the two sides. */
module QuickSort {
  import opened SortOrder

  /** Around the key: [low, kl) may stand before it and (kh, high] after it. */
  ghost predicate Around(comp: Compare, s: seq<int>, key: int, low: nat, kl: int, kh: int, high: nat)
    requires high < |s| && kl <= |s| && kh >= -1
  {
    && (forall i {:trigger s[i]} :: low <= i < kl ==> Le(comp, s[i], key))
    && (forall i {:trigger s[i]} :: kh < i <= high ==> Le(comp, key, s[i]))
  }

  lemma SwapFromRight(comp: Compare, s: seq<int>, key: int, low: nat, kl: nat, kh: nat, high: nat)
    requires StrictWeakOrder(comp) && low <= kl <= kh <= high < |s| && s[kl] == key
    requires Around(comp, s, key, low, kl, kh, high) && (kl == kh || comp(key, s[kh]))
    ensures var t := Exchanged(s, kh, kl);
      t[kh] == key && Around(comp, t, key, low, if kl == kh then kl else kl + 1, kh, high) && RangePermuted(s, t, low, high + 1)
  {
    ExchangedPermutes(s, kh, kl, low, high + 1);
    assert Le(comp, key, s[kh]) || Le(comp, s[kh], key);
  }

  lemma SwapFromLeft(comp: Compare, s: seq<int>, key: int, low: nat, kl: nat, kh: nat, high: nat)
    requires StrictWeakOrder(comp) && low <= kl <= kh <= high < |s| && s[kh] == key
    requires Around(comp, s, key, low, kl, kh, high) && (kl == kh || comp(s[kl], key))
    ensures var t := Exchanged(s, kh, kl);
      t[kl] == key && Around(comp, t, key, low, kl, if kl == kh then kh else kh - 1, high) && RangePermuted(s, t, low, high + 1)
  {
    ExchangedPermutes(s, kh, kl, low, high + 1);
    assert Le(comp, s[kl], key) || Le(comp, key, s[kl]);
  }

  lemma PartitionStarts(comp: Compare, s: seq<int>, low: nat, high: nat)
    requires low < high < |s|
    ensures RangePermuted(s, s, low, high + 1) && Around(comp, s, s[low], low, low, high, high)
  {
  }

  lemma AroundShrinks(comp: Compare, s: seq<int>, key: int, low: nat, kl: nat, kh: nat, high: nat, kl': nat, kh': nat)
    requires kl <= kl' <= kh' <= kh <= high < |s| && Around(comp, s, key, low, kl, kh, high)
    requires forall i {:trigger s[i]} :: kl <= i < kl' ==> Le(comp, s[i], key)
    requires forall i {:trigger s[i]} :: kh' < i <= kh ==> Le(comp, key, s[i])
    ensures Around(comp, s, key, low, kl', kh', high)
  {
  }

  /** The first inner loop: down to the first element from the right that has to stand before the key. */
  method ScanDown(a: array<int>, key: int, keyLowIndex: nat, high: nat, comp: Compare) returns (keyHighIndex: nat)
    requires keyLowIndex <= high < a.Length
    ensures keyLowIndex <= keyHighIndex <= high && (keyHighIndex == keyLowIndex || comp(key, a[keyHighIndex]))
    ensures forall i {:trigger a[..][i]} :: keyHighIndex < i <= high ==> Le(comp, key, a[..][i])
  {
    keyHighIndex := high;
    while !comp(key, a[keyHighIndex]) && keyHighIndex > keyLowIndex
      invariant keyLowIndex <= keyHighIndex <= high
      invariant forall i {:trigger a[i]} :: keyHighIndex < i <= high ==> Le(comp, key, a[i])
    {
      keyHighIndex := keyHighIndex - 1;
    }
  }

  /** The second inner loop: up to the first element from the left that has to stand after the key. */
  method ScanUp(a: array<int>, key: int, low: nat, keyHighIndex: nat, comp: Compare) returns (keyLowIndex: nat)
    requires low <= keyHighIndex < a.Length
    ensures low <= keyLowIndex <= keyHighIndex && (keyHighIndex == keyLowIndex || comp(a[keyLowIndex], key))
    ensures forall i {:trigger a[..][i]} :: low <= i < keyLowIndex ==> Le(comp, a[..][i], key)
  {
    keyLowIndex := low;
    while !comp(a[keyLowIndex], key) && keyLowIndex < keyHighIndex
      invariant low <= keyLowIndex <= keyHighIndex
      invariant forall i {:trigger a[i]} :: low <= i < keyLowIndex ==> Le(comp, a[i], key)
    {
      keyLowIndex := keyLowIndex + 1;
    }
  }

  /** The loop of doQuickSort: nothing that has to stand after the key is left of it, nothing before it right. */
  method Partition(a: array<int>, low: nat, high: nat, comp: Compare) returns (keyIndex: nat)
    requires StrictWeakOrder(comp) && low < high < a.Length
    modifies a
    ensures low <= keyIndex <= high && RangePermuted(old(a[..]), a[..], low, high + 1)
    ensures a[keyIndex] == old(a[low]) && Around(comp, a[..], a[keyIndex], low, keyIndex, keyIndex, high)
  {
    hide RangePermuted, StrictWeakOrder, Exchanged, Around;
    ghost var was := a[..];
    var keyHighIndex: int, keyLowIndex := high, low;
    keyIndex := low;
    var key := a[keyIndex];
    PartitionStarts(comp, was, low, high);
    while keyHighIndex > keyLowIndex
      invariant low <= keyLowIndex <= keyHighIndex + 1 && keyLowIndex <= high && low <= keyHighIndex <= high
      invariant RangePermuted(was, a[..], low, high + 1)
      invariant keyIndex == keyLowIndex && a[keyIndex] == key
      invariant Around(comp, a[..], key, low, keyLowIndex, if keyHighIndex < keyLowIndex then keyLowIndex else keyHighIndex, high)
      decreases keyHighIndex - keyLowIndex
    {
      ghost var kl, kh := keyLowIndex, keyHighIndex;
      keyHighIndex := ScanDown(a, key, keyLowIndex, keyHighIndex, comp);
      AroundShrinks(comp, a[..], key, low, kl, kh, high, kl, keyHighIndex);
      ghost var before := a[..];
      SwapFromRight(comp, before, key, low, keyLowIndex, keyHighIndex, high);
      Swap(a, keyHighIndex, keyLowIndex);
      RangePermutedTransitive(was, before, a[..], low, high + 1);
      keyIndex := keyHighIndex;
      keyLowIndex := keyLowIndex + 1;
      if keyLowIndex >= keyHighIndex {
        break;
      }
      kl := keyLowIndex;
      keyLowIndex := ScanUp(a, key, keyLowIndex, keyHighIndex, comp);
      AroundShrinks(comp, a[..], key, low, kl, keyHighIndex, high, keyLowIndex, keyHighIndex);
      before := a[..];
      SwapFromLeft(comp, before, key, low, keyLowIndex, keyHighIndex, high);
      Swap(a, keyHighIndex, keyLowIndex);
      RangePermutedTransitive(was, before, a[..], low, high + 1);
      keyIndex := keyLowIndex;
      keyHighIndex := keyHighIndex - 1;
    }
  }

  ghost predicate OrderedRange(comp: Compare, s: seq<int>, low: nat, high: nat)
    requires high <= |s|
  {
    forall i, j {:trigger Le(comp, s[i], s[j])} :: low <= i < j < high ==> Le(comp, s[i], s[j])
  }

  /** Permuting the two sides of the key separately keeps them on their sides. */
  lemma SidesKeepAround(comp: Compare, s: seq<int>, t: seq<int>, low: nat, keyIndex: nat, high: nat, lo: nat, hi: nat)
    requires low <= keyIndex <= high < |s| && Around(comp, s, s[keyIndex], low, keyIndex, keyIndex, high)
    requires low <= lo <= hi <= keyIndex || keyIndex < lo <= hi <= high + 1
    requires RangePermuted(s, t, lo, hi)
    ensures t[keyIndex] == s[keyIndex] && Around(comp, t, t[keyIndex], low, keyIndex, keyIndex, high)
  {
    forall i | low <= i <= high && i != keyIndex
      ensures if i < keyIndex then Le(comp, t[i], s[keyIndex]) else Le(comp, s[keyIndex], t[i])
    {
      if lo <= i < hi {
        var k := RangeElement(s, t, lo, hi, i);
      }
    }
  }

  lemma SidesMakeOrdered(comp: Compare, s: seq<int>, low: nat, keyIndex: nat, high: nat)
    requires StrictWeakOrder(comp) && low <= keyIndex <= high < |s|
    requires Around(comp, s, s[keyIndex], low, keyIndex, keyIndex, high)
    requires OrderedRange(comp, s, low, keyIndex) && OrderedRange(comp, s, keyIndex + 1, high + 1)
    ensures OrderedRange(comp, s, low, high + 1)
  {
    forall i, j | low <= i < j < high + 1
      ensures Le(comp, s[i], s[j])
    {
      if i <= keyIndex <= j {
        assert Le(comp, s[i], s[keyIndex]) || i == keyIndex;
        assert Le(comp, s[keyIndex], s[j]) || j == keyIndex;
      }
    }
  }

  lemma OutsideKeepsOrder(comp: Compare, s: seq<int>, t: seq<int>, low: nat, high: nat, lo: nat, hi: nat)
    requires high <= lo <= hi <= |s| && RangePermuted(s, t, lo, hi) && OrderedRange(comp, s, low, high)
    ensures OrderedRange(comp, t, low, high)
  {
  }

  lemma Widen(s: seq<int>, t: seq<int>, lo: nat, hi: nat, low: nat, high: nat)
    requires low <= lo <= hi <= high <= |s| && RangePermuted(s, t, lo, hi)
    ensures RangePermuted(s, t, low, high)
  {
  }

  method DoQuickSort(a: array<int>, low: nat, high: nat, comp: Compare)
    requires StrictWeakOrder(comp) && low < a.Length && high < a.Length
    modifies a
    ensures low <= high ==> RangePermuted(old(a[..]), a[..], low, high + 1) && OrderedRange(comp, a[..], low, high + 1)
    ensures low > high ==> a[..] == old(a[..])
    decreases high - low
  {
    if low >= high {
      return;
    }
    hide RangePermuted, Around, OrderedRange, StrictWeakOrder;
    ghost var s0 := a[..];
    var keyIndex := Partition(a, low, high, comp);
    ghost var s1 := a[..];
    if keyIndex > low + 1 {
      DoQuickSort(a, low, keyIndex - 1, comp);
    } else {
      ShortRange(comp, s1, low, keyIndex);
    }
    ghost var s2 := a[..];
    SidesKeepAround(comp, s1, s2, low, keyIndex, high, low, keyIndex);
    if high > keyIndex + 1 {
      DoQuickSort(a, keyIndex + 1, high, comp);
    } else {
      ShortRange(comp, s2, keyIndex + 1, high + 1);
    }
    ghost var s3 := a[..];
    SidesKeepAround(comp, s2, s3, low, keyIndex, high, keyIndex + 1, high + 1);
    OutsideKeepsOrder(comp, s2, s3, low, keyIndex, keyIndex + 1, high + 1);
    SidesMakeOrdered(comp, s3, low, keyIndex, high);
    Widen(s1, s2, low, keyIndex, low, high + 1);
    Widen(s2, s3, keyIndex + 1, high + 1, low, high + 1);
    RangePermutedTransitive(s0, s1, s2, low, high + 1);
    RangePermutedTransitive(s0, s2, s3, low, high + 1);
  }

  lemma ShortRange(comp: Compare, s: seq<int>, low: nat, high: nat)
    requires low <= high <= |s| && high <= low + 1
    ensures RangePermuted(s, s, low, high) && OrderedRange(comp, s, low, high)
  {
  }

  method Sort(a: array<int>, comp: Compare)
    requires StrictWeakOrder(comp)
    modifies a
    ensures Ordered(comp, a[..]) && multiset(a[..]) == multiset(old(a[..]))
  {
    if a.Length < 2 {
      return;
    }
    DoQuickSort(a, 0, a.Length - 1, comp);
  }
}
