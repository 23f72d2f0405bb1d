/** Finding the two or three values that occur an odd number of times, with XOR alone. */
module OddOccurrences {

  /** The machine's 32-bit int, by its bits. */
  type Word = bv32

  /** Exclusive or, under a name that proofs can keep closed. */
  function Xor(a: Word, b: Word): (x: Word) {
    a ^ b
  }

  /** Shifting a signed int right by one keeps its sign bit. */
  function ShiftRight(n: Word): (r: Word) {
    (n >> 1) | (n & 0x8000_0000)
  }

  predicate LowSet(n: Word) {
    n & 1 == 1
  }

  /** Bit k of n, as the shifting loops see it. */
  predicate Bit(n: Word, k: nat)
    decreases k
  {
    if k == 0 then LowSet(n) else Bit(ShiftRight(n), k - 1)
  }

  lemma ShiftXor(x: Word, y: Word)
    ensures ShiftRight(Xor(x, y)) == Xor(ShiftRight(x), ShiftRight(y))
    ensures LowSet(Xor(x, y)) == (LowSet(x) != LowSet(y))
  {
  }

  lemma {:induction false} BitXor(x: Word, y: Word, k: nat)
    ensures Bit(Xor(x, y), k) == (Bit(x, k) != Bit(y, k))
    decreases k
  {
    hide ShiftRight, Xor, LowSet;
    ShiftXor(x, y);
    if k > 0 {
      BitXor(ShiftRight(x), ShiftRight(y), k - 1);
    }
  }

  // ----- The lowest set bit -----

  /** The m lowest bits. */
  function Mask(m: nat): (r: Word)
    decreases m
  {
    if m == 0 then 0 else (Mask(m - 1) << 1) | 1
  }

  lemma MaskStep(n: Word, m: Word)
    requires !LowSet(n) && ShiftRight(n) & m == 0
    ensures n & ((m << 1) | 1) == 0
  {
  }

  /** The index of the first set bit among the lowest m ones; m if they are all clear. */
  function FirstSet(n: Word, m: nat): (k: nat)
    ensures k <= m
    decreases m
  {
    if m == 0 || LowSet(n) then 0 else FirstSet(ShiftRight(n), m - 1) + 1
  }

  lemma {:induction false} AllClear(n: Word, m: nat)
    requires FirstSet(n, m) == m
    ensures n & Mask(m) == 0
    decreases m
  {
    if m > 0 {
      AllClear(ShiftRight(n), m - 1);
      MaskStep(n, Mask(m - 1));
    }
  }

  lemma MaskOf32()
    ensures Mask(31) == 0x7FFF_FFFF && Mask(32) == 0xFFFF_FFFF
  {
    assert Mask(4) == 0xF by { assert Mask(2) == 3; }
    assert Mask(8) == 0xFF by { assert Mask(6) == 0x3F; }
    assert Mask(12) == 0xFFF by { assert Mask(10) == 0x3FF; }
    assert Mask(16) == 0xFFFF by { assert Mask(14) == 0x3FFF; }
    assert Mask(20) == 0xF_FFFF by { assert Mask(18) == 0x3_FFFF; }
    assert Mask(24) == 0xFF_FFFF by { assert Mask(22) == 0x3F_FFFF; }
    assert Mask(28) == 0xFFF_FFFF by { assert Mask(26) == 0x3FF_FFFF; }
    assert Mask(32) == 0xFFFF_FFFF by { assert Mask(30) == 0x3FFF_FFFF; }
  }

  /** The index of the lowest set bit, 0 for n == 0. */
  function Lowest(n: Word): (k: nat)
    ensures k <= 32
  {
    if n == 0 then 0 else FirstSet(n, 32)
  }

  lemma AllBits(n: Word)
    ensures n & 0xFFFF_FFFF == n
  {
  }

  /** A nonzero word has a set bit among its 32. */
  lemma LowestBelow32(n: Word)
    requires n != 0
    ensures FirstSet(n, 32) < 32
  {
    if FirstSet(n, 32) == 32 {
      AllClear(n, 32);
      MaskOf32();
      AllBits(n);
    }
  }

  lemma {:induction false} FirstSetMeaning(n: Word, m: nat, j: nat)
    ensures FirstSet(n, m) < m ==> Bit(n, FirstSet(n, m))
    ensures j < FirstSet(n, m) ==> !Bit(n, j)
    decreases m
  {
    if m > 0 && !LowSet(n) {
      FirstSetMeaning(ShiftRight(n), m - 1, if j > 0 then j - 1 else 0);
    }
  }

  /** The bit at the index is set and every bit below it is clear. */
  lemma LowestMeaning(n: Word, j: nat)
    requires n != 0
    ensures Lowest(n) < 32 && Bit(n, Lowest(n)) && (j < Lowest(n) ==> !Bit(n, j))
  {
    LowestBelow32(n);
    FirstSetMeaning(n, 32, j);
  }

  /** The counter value k in a machine word. */
  function Counter(k: nat): (w: Word) {
    if k == 0 then 0 else Inc(Counter(k - 1))
  }

  function Inc(w: Word): (r: Word) {
    w + 1
  }

  function Plus(a: Word, b: Word): (r: Word) {
    a + b
  }

  /** The loop counts up in a machine word. */
  method FindLowest(n0: Word) returns (cnt: Word)
    ensures cnt == Counter(Lowest(n0))
  {
    var n := n0;
    if n == 0 {
      return 0;
    }
    LowestBelow32(n);
    hide LowSet, ShiftRight, Inc;
    cnt := 0;
    ghost var k := 0;
    while !LowSet(n)
      invariant k < 32 && cnt == Counter(k) && FirstSet(n, 32 - k) < 32 - k && FirstSet(n0, 32) == FirstSet(n, 32 - k) + k
      decreases 32 - k
    {
      cnt := Inc(cnt);
      n := ShiftRight(n);
      k := k + 1;
    }
  }

  // ----- The word with one bit set -----

  function ShiftLeft(n: Word): (r: Word) {
    n << 1
  }

  /** 1 << k. */
  function OneShifted(k: nat): (w: Word) {
    if k == 0 then 1 else ShiftLeft(OneShifted(k - 1))
  }

  lemma {:induction false} OneShiftedInMask(k: nat)
    ensures OneShifted(k) & !Mask(k + 1) == 0
  {
    if k == 0 {
      assert Mask(1) == 1;
    } else {
      OneShiftedInMask(k - 1);
      ShiftInMask(OneShifted(k - 1), Mask(k));
    }
  }

  lemma ShiftInMask(x: Word, m: Word)
    requires x & !m == 0
    ensures ShiftLeft(x) & !((m << 1) | 1) == 0 && ((x << 1) | 1) & !((m << 1) | 1) == 0
  {
  }

  lemma {:induction false} MaskGrows(a: nat, b: nat)
    requires a <= b
    ensures Mask(a) & !Mask(b) == 0
  {
    if a > 0 {
      MaskGrows(a - 1, b - 1);
      ShiftInMask(Mask(a - 1), Mask(b - 1));
    }
  }

  lemma TopBitClear(x: Word, m: Word)
    requires x & !m == 0 && m & !0x7FFF_FFFF == 0
    ensures x & 0x8000_0000 == 0
  {
  }

  /** n has a bit of the mask. */
  predicate Tests(n: Word, mask: Word) {
    n & mask != 0
  }

  lemma TestShifted(n: Word, x: Word)
    requires x & 0x8000_0000 == 0
    ensures Tests(n, ShiftLeft(x)) == Tests(ShiftRight(n), x)
  {
  }

  lemma TestLowest(n: Word)
    ensures Tests(n, 1) == LowSet(n)
  {
  }

  lemma OneShiftedBelowTop(k: nat)
    requires k < 31
    ensures OneShifted(k) & 0x8000_0000 == 0
  {
    OneShiftedInMask(k);
    MaskGrows(k + 1, 31);
    MaskOf32();
    TopBitClear(OneShifted(k), Mask(k + 1));
  }

  /** Testing with 1 << k looks at bit k, for every k that the word has. */
  lemma {:induction false} TestBit(n: Word, k: nat)
    requires k < 32
    ensures Tests(n, OneShifted(k)) == Bit(n, k)
    decreases k
  {
    hide Tests, ShiftRight, LowSet, ShiftLeft;
    if k == 0 {
      TestLowest(n);
    } else {
      TestBit(ShiftRight(n), k - 1);
      OneShiftedBelowTop(k - 1);
      TestShifted(n, OneShifted(k - 1));
    }
  }

  // ----- Different indices are different words -----

  lemma {:induction false} CounterAdd(a: nat, b: nat)
    ensures Counter(a + b) == Plus(Counter(a), Counter(b))
    decreases b
  {
    PlusFacts(Counter(a), if b > 0 then Counter(b - 1) else 0);
    hide Inc, Plus;
    if b > 0 {
      CounterAdd(a, b - 1);
    }
  }

  lemma PlusFacts(a: Word, b: Word)
    ensures Inc(Plus(a, b)) == Plus(a, Inc(b)) && Plus(a, 0) == a
  {
  }

  predicate Level(bound: nat, mask: Word) {
    (bound == 2 && mask == 1) || (bound == 4 && mask == 3) || (bound == 8 && mask == 7)
    || (bound == 16 && mask == 15) || (bound == 32 && mask == 31)
  }

  lemma {:induction false} CounterParity(k: nat)
    ensures (Counter(k) & 1 == 1) == (k % 2 == 1)
  {
    if k > 0 {
      CounterParity(k - 1);
      Flips(Counter(k - 1));
    }
  }

  lemma Flips(w: Word)
    ensures (Inc(w) & 1 == 1) == (w & 1 != 1)
  {
  }

  lemma DoubledIsNonzero(w: Word, mask: Word)
    requires w & mask != 0 && mask & 0x8000_0000 == 0
    ensures (w << 1) & ((mask << 1) | 1) != 0
  {
  }

  lemma Doubled(w: Word)
    ensures Plus(w, w) == w << 1
  {
  }

  /** No counter value in 1..31 is the zero word. */
  lemma {:induction false} CounterNonzero(d: nat, bound: nat, mask: Word)
    requires Level(bound, mask) && 0 < d < bound
    ensures Counter(d) & mask != 0
    decreases bound
  {
    CounterParity(d);
    if d % 2 == 0 {
      var half := mask >> 1;
      CounterNonzero(d / 2, bound / 2, half);
      CounterAdd(d / 2, d / 2);
      Doubled(Counter(d / 2));
      DoubledIsNonzero(Counter(d / 2), half);
      assert (half << 1) | 1 == mask;
    } else {
      OddMask(Counter(d), mask);
    }
  }

  lemma OddMask(w: Word, mask: Word)
    requires w & 1 == 1 && mask & 1 == 1
    ensures w & mask != 0
  {
  }

  lemma CounterInjective(a: nat, b: nat)
    requires a < 32 && b < 32 && Counter(a) == Counter(b)
    ensures a == b
  {
    var low, high := if a < b then a else b, if a < b then b else a;
    if low < high {
      CounterAdd(low, high - low);
      CancelSum(Counter(low), Counter(high - low));
      CounterNonzero(high - low, 32, 31);
    }
  }

  lemma CancelSum(a: Word, d: Word)
    requires a == Plus(a, d)
    ensures d & 31 == 0
  {
  }

  /**
   * Of three nonzero words with XOR 0 exactly two share the index of their lowest set bit.
   */
  lemma LowestOfThree(x: Word, y: Word, z: Word)
    requires x != 0 && y != 0 && z != 0 && Xor(x, y) == z
    ensures var a, b, c := Lowest(x), Lowest(y), Lowest(z);
      (a == b && c != a) || (a == c && b != a) || (b == c && a != b)
  {
    hide Bit, Lowest;
    var a, b, c := Lowest(x), Lowest(y), Lowest(z);
    BitXor(x, y, a);
    BitXor(x, y, b);
    BitXor(x, y, c);
    LowestMeaning(x, b);
    LowestMeaning(x, c);
    LowestMeaning(y, a);
    LowestMeaning(y, c);
    LowestMeaning(z, a);
    LowestMeaning(z, b);
  }

  // ----- XOR over a sequence -----

  lemma XorAssociates(a: Word, b: Word, c: Word)
    ensures Xor(a, Xor(b, c)) == Xor(Xor(a, b), c)
  {
  }

  lemma XorZero(a: Word)
    ensures Xor(0, a) == a && Xor(a, 0) == a && Xor(a, a) == 0
  {
  }

  lemma XorEqual(a: Word, b: Word)
    ensures Xor(a, b) == Xor(b, a) && (Xor(a, b) == 0 <==> a == b)
  {
  }

  /** The XOR of f over all elements. */
  function XorMap(s: seq<Word>, f: Word -> Word): (x: Word) {
    if s == [] then 0 else Xor(f(s[0]), XorMap(s[1..], f))
  }

  lemma {:induction false} XorMapConcat(s: seq<Word>, t: seq<Word>, f: Word -> Word)
    ensures XorMap(s + t, f) == Xor(XorMap(s, f), XorMap(t, f))
  {
    if s == [] {
      XorZero(XorMap(t, f));
      assert s + t == t;
    } else {
      hide Xor;
      assert (s + t)[1..] == s[1..] + t;
      XorMapConcat(s[1..], t, f);
      XorAssociates(f(s[0]), XorMap(s[1..], f), XorMap(t, f));
    }
  }

  lemma XorOne(x: Word, f: Word -> Word)
    ensures XorMap([x], f) == f(x)
  {
    hide Xor;
    XorZero(f(x));
    assert XorMap([x][1..], f) == 0;
  }

  /** How often v occurs in s. */
  function Count<T(==)>(s: seq<T>, v: T): (n: nat) {
    if s == [] then 0 else (if s[0] == v then 1 else 0) + Count(s[1..], v)
  }

  lemma {:induction false} CountConcat<T>(s: seq<T>, t: seq<T>, v: T)
    ensures Count(s + t, v) == Count(s, v) + Count(t, v)
  {
    if s == [] {
      assert s + t == t;
    } else {
      assert (s + t)[1..] == s[1..] + t;
      CountConcat(s[1..], t, v);
    }
  }

  lemma {:induction false} CountIsMultiplicity<T>(s: seq<T>, v: T)
    ensures Count(s, v) == multiset(s)[v]
  {
    if s != [] {
      CountIsMultiplicity(s[1..], v);
      assert s == [s[0]] + s[1..];
    }
  }

  /** A position of a value that occurs. */
  lemma {:induction false} FindValue<T>(s: seq<T>, v: T) returns (j: nat)
    requires Count(s, v) > 0
    ensures j < |s| && s[j] == v
  {
    if s[0] == v {
      j := 0;
    } else {
      j := FindValue(s[1..], v);
      j := j + 1;
    }
  }

  /** Every value occurs an even number of times. */
  ghost predicate AllEven(s: seq<Word>) {
    forall v: Word {:trigger Count(s, v)} :: Count(s, v) % 2 == 0
  }

  /** The first element occurs again. */
  lemma FindPair(s: seq<Word>) returns (a: seq<Word>, b: seq<Word>)
    requires AllEven(s) && s != []
    ensures s == [s[0]] + (a + ([s[0]] + b))
  {
    assert Count(s, s[0]) % 2 == 0;
    var t := s[1..];
    var j := FindValue(t, s[0]);
    a, b := t[..j], t[j + 1..];
    assert t == a + ([s[0]] + b);
  }

  lemma RestEven(s: seq<Word>, x: Word, a: seq<Word>, b: seq<Word>)
    requires AllEven(s) && s == [x] + (a + ([x] + b))
    ensures AllEven(a + b)
  {
    forall v: Word
      ensures Count(a + b, v) % 2 == 0
    {
      assert Count(s, v) % 2 == 0;
      CountConcat([x], a + ([x] + b), v);
      CountConcat(a, [x] + b, v);
      CountConcat([x], b, v);
      CountConcat(a, b, v);
    }
  }

  /** Pairs cancel: over a sequence in which every value occurs evenly often, XOR gives 0. */
  lemma {:induction false} PairsCancel(s: seq<Word>, f: Word -> Word)
    requires AllEven(s)
    ensures XorMap(s, f) == 0
    decreases |s|
  {
    if s != [] {
      var x := s[0];
      var a, b := FindPair(s);
      RestEven(s, x, a, b);
      PairsCancel(a + b, f);
      hide AllEven, Xor;
      XorMapConcat([x], a + ([x] + b), f);
      XorMapConcat(a, [x] + b, f);
      XorMapConcat([x], b, f);
      XorMapConcat(a, b, f);
      CancelTwice(XorMap([x], f), XorMap(a, f), XorMap(b, f));
    }
  }

  lemma CancelTwice(x: Word, a: Word, b: Word)
    ensures Xor(x, Xor(a, Xor(x, b))) == Xor(a, b)
  {
  }

  /** Exactly the listed values occur an odd number of times. */
  ghost predicate OddExactly(s: seq<Word>, odd: seq<Word>) {
    && (forall i, j :: 0 <= i < j < |odd| ==> odd[i] != odd[j])
    && (forall v: Word {:trigger Count(s, v)} :: Count(s, v) % 2 == if v in odd then 1 else 0)
  }

  /** So XOR over the whole sequence is XOR over the values that occur an odd number of times. */
  lemma XorOfOdd(s: seq<Word>, odd: seq<Word>, f: Word -> Word)
    requires OddExactly(s, odd)
    ensures XorMap(s, f) == XorMap(odd, f)
  {
    forall v: Word
      ensures Count(s + odd, v) % 2 == 0
    {
      DistinctCount(odd, v);
      CountConcat(s, odd, v);
      assert Count(s, v) % 2 == if v in odd then 1 else 0;
    }
    hide Xor;
    PairsCancel(s + odd, f);
    XorMapConcat(s, odd, f);
    XorEqual(XorMap(s, f), XorMap(odd, f));
  }

  lemma {:induction false} DistinctCount<T>(odd: seq<T>, v: T)
    requires forall i, j :: 0 <= i < j < |odd| ==> odd[i] != odd[j]
    ensures Count(odd, v) == if v in odd then 1 else 0
  {
    if odd != [] {
      var rest := odd[1..];
      DistinctCount(rest, v);
      assert v in odd <==> v == odd[0] || v in rest;
    }
  }

  // ----- The two searches -----

  function Same(): Word -> Word {
    v => v
  }

  /** Keeps the values that have (or do not have) a bit of the mask, and blanks the others. */
  function Having(mask: Word, wanted: bool): Word -> Word {
    v => if Tests(v, mask) == wanted then v else 0
  }

  /** The lowest-bit index of the difference to `sum`, as a machine word. */
  function IndexOfDifference(sum: Word): Word -> Word {
    v => Counter(Lowest(Xor(v, sum)))
  }

  /** Keeps the values whose difference to `sum` has the given lowest-bit index. */
  function HavingIndex(sum: Word, index: Word): Word -> Word {
    v => if index == Counter(Lowest(Xor(sum, v))) then v else 0
  }

  lemma XorSnoc(s: seq<Word>, i: nat, f: Word -> Word)
    requires i < |s|
    ensures XorMap(s[..i + 1], f) == Xor(XorMap(s[..i], f), f(s[i]))
  {
    hide Xor;
    assert s[..i + 1] == s[..i] + [s[i]];
    XorMapConcat(s[..i], [s[i]], f);
    XorOne(s[i], f);
  }

  method XorLoop(s: seq<Word>) returns (x: Word)
    ensures x == XorMap(s, Same())
  {
    hide XorMap, Xor;
    x := 0;
    EmptyXor(s, Same());
    for i := 0 to |s|
      invariant x == XorMap(s[..i], Same())
    {
      XorSnoc(s, i, Same());
      x := Xor(x, s[i]);
    }
    assert s[..|s|] == s;
  }

  lemma EmptyXor(s: seq<Word>, f: Word -> Word)
    ensures XorMap(s[..0], f) == 0
  {
  }

  /** The loop that splits the elements by one bit and XORs the two parts separately. */
  method SplitLoop(s: seq<Word>, bit: Word) returns (ret1: Word, ret2: Word)
    ensures ret1 == XorMap(s, Having(bit, true)) && ret2 == XorMap(s, Having(bit, false))
  {
    hide XorMap, Xor, Tests;
    ret1, ret2 := 0, 0;
    EmptyXor(s, Having(bit, true));
    EmptyXor(s, Having(bit, false));
    for i := 0 to |s|
      invariant ret1 == XorMap(s[..i], Having(bit, true)) && ret2 == XorMap(s[..i], Having(bit, false))
    {
      XorSnoc(s, i, Having(bit, true));
      XorSnoc(s, i, Having(bit, false));
      XorZero(ret1);
      XorZero(ret2);
      if Tests(s[i], bit) {
        ret1 := Xor(ret1, s[i]);
      } else {
        ret2 := Xor(ret2, s[i]);
      }
    }
    assert s[..|s|] == s;
  }

  /** The first set bit of a nonzero sum, as a word: the shifting loop and the final 1 << bit. */
  method DistinguishingBit(sumXor: Word) returns (bit: Word)
    requires sumXor != 0
    ensures bit == OneShifted(Lowest(sumXor))
  {
    LowestBelow32(sumXor);
    hide LowSet, ShiftRight, OneShifted;
    var n, k := sumXor, 0;
    while !LowSet(n)
      invariant k < 32 && FirstSet(n, 32 - k) < 32 - k && FirstSet(sumXor, 32) == FirstSet(n, 32 - k) + k
      decreases 32 - k
    {
      k := k + 1;
      n := ShiftRight(n);
    }
    bit := OneShifted(k);
  }

  /** The outcome of find_2_diff_number: the return code and the two numbers it reports. */
  datatype Report = Wrong | Found(ret1: Word, ret2: Word)

  method Find2DiffNumber(s: seq<Word>) returns (r: Report)
    ensures r.Wrong? <==> XorMap(s, Same()) == 0
    ensures forall b: Word, c: Word :: OddExactly(s, [b, c]) ==> r.Found? && {r.ret1, r.ret2} == {b, c}
  {
    var sumXor := XorLoop(s);
    if sumXor == 0 {
      forall b: Word, c: Word | OddExactly(s, [b, c]) ensures false {
        TwoOdd(s, b, c);
      }
      return Wrong;
    }
    var bit := DistinguishingBit(sumXor);
    var ret1, ret2 := SplitLoop(s, bit);
    forall b: Word, c: Word | OddExactly(s, [b, c])
      ensures {ret1, ret2} == {b, c}
    {
      TwoOdd(s, b, c);
    }
    return Found(ret1, ret2);
  }

  /** Splitting by the lowest bit of the sum separates the two values. */
  lemma TwoOdd(s: seq<Word>, b: Word, c: Word)
    requires OddExactly(s, [b, c])
    ensures XorMap(s, Same()) != 0
    ensures var bit := OneShifted(Lowest(XorMap(s, Same())));
      {XorMap(s, Having(bit, true)), XorMap(s, Having(bit, false))} == {b, c}
  {
    hide XorMap, Xor, Tests, Bit, OneShifted, Lowest;
    var sum := XorMap(s, Same());
    XorOfOdd(s, [b, c], Same());
    XorTwo(b, c, Same());
    assert [b, c][0] != [b, c][1];
    XorEqual(b, c);
    XorZero(b);
    XorZero(c);
    var k := Lowest(sum);
    LowestMeaning(sum, 0);
    BitXor(b, c, k);
    var bit := OneShifted(k);
    TestBit(b, k);
    TestBit(c, k);
    XorOfOdd(s, [b, c], Having(bit, true));
    XorTwo(b, c, Having(bit, true));
    XorOfOdd(s, [b, c], Having(bit, false));
    XorTwo(b, c, Having(bit, false));
  }

  lemma XorTwo(b: Word, c: Word, f: Word -> Word)
    ensures XorMap([b, c], f) == Xor(f(b), f(c))
  {
    assert [b, c] == [b] + [c];
    XorMapConcat([b], [c], f);
    XorOne(b, f);
    XorOne(c, f);
  }

  lemma XorThree(a: Word, b: Word, c: Word, f: Word -> Word)
    ensures XorMap([a, b, c], f) == Xor(f(a), Xor(f(b), f(c)))
  {
    assert [a, b, c] == [a] + [b, c];
    XorMapConcat([a], [b, c], f);
    XorOne(a, f);
    XorTwo(b, c, f);
  }

  // ----- Three values -----

  /** The loop over find_lowest. */
  method IndexLoop(s: seq<Word>, sum: Word) returns (last: Word)
    ensures last == XorMap(s, IndexOfDifference(sum))
  {
    hide XorMap, Xor, Counter, Lowest;
    last := 0;
    EmptyXor(s, IndexOfDifference(sum));
    for i := 0 to |s|
      invariant last == XorMap(s[..i], IndexOfDifference(sum))
    {
      XorSnoc(s, i, IndexOfDifference(sum));
      var index := FindLowest(Xor(s[i], sum));
      last := Xor(last, index);
    }
    assert s[..|s|] == s;
  }

  /** The loop that XORs the elements with the index found. */
  method SelectLoop(s: seq<Word>, sum: Word, last: Word) returns (ano: Word)
    ensures ano == XorMap(s, HavingIndex(sum, last))
  {
    hide XorMap, Xor, Counter, Lowest;
    ano := 0;
    EmptyXor(s, HavingIndex(sum, last));
    for i := 0 to |s|
      invariant ano == XorMap(s[..i], HavingIndex(sum, last))
    {
      XorSnoc(s, i, HavingIndex(sum, last));
      XorZero(ano);
      var index := FindLowest(Xor(sum, s[i]));
      if last == index {
        ano := Xor(ano, s[i]);
      }
    }
    assert s[..|s|] == s;
  }

  lemma DifferencesOfThree(a: Word, b: Word, c: Word)
    requires a != b && a != c && b != c
    ensures var sum := Xor(a, Xor(b, c));
      && Xor(a, sum) == Xor(sum, a) == Xor(b, c) != 0
      && Xor(b, sum) == Xor(sum, b) == Xor(a, c) != 0
      && Xor(c, sum) == Xor(sum, c) == Xor(a, b) != 0
      && Xor(Xor(a, sum), Xor(b, sum)) == Xor(c, sum)
  {
    XorEqual(a, b);
    XorEqual(a, c);
    XorEqual(b, c);
    DifferencesCancel(a, b, c);
  }

  lemma DifferencesCancel(a: Word, b: Word, c: Word)
    ensures var sum := Xor(a, Xor(b, c));
      && Xor(a, sum) == Xor(sum, a) == Xor(b, c)
      && Xor(b, sum) == Xor(sum, b) == Xor(a, c)
      && Xor(c, sum) == Xor(sum, c) == Xor(a, b)
      && Xor(Xor(b, c), Xor(a, c)) == Xor(a, b)
  {
    XorCancels(a, Xor(b, c));
    XorCancels(b, Xor(a, c));
    XorCancels(c, Xor(a, b));
    XorCancels(c, a);
    XorEqual(a, b);
    XorEqual(a, c);
    XorEqual(a, Xor(a, Xor(b, c)));
    XorEqual(b, Xor(a, Xor(b, c)));
    XorEqual(c, Xor(a, Xor(b, c)));
    XorEqual(c, Xor(a, b));
    XorAssociates(a, b, c);
    XorAssociates(b, a, c);
    XorAssociates(b, c, Xor(a, c));
    hide Xor;
  }

  lemma XorCancels(a: Word, w: Word)
    ensures Xor(a, Xor(a, w)) == w
  {
  }

  lemma TwiceAndOnce(p: Word, q: Word)
    ensures Xor(p, Xor(p, q)) == q && Xor(p, Xor(q, p)) == q && Xor(q, Xor(p, p)) == q
  {
  }

  /** The XOR of the three indices is the index of exactly one of the three values. */
  lemma OneIsSelected(a: Word, b: Word, c: Word, sum: Word, last: Word)
    requires a != b && a != c && b != c && sum == Xor(a, Xor(b, c))
    requires var f := IndexOfDifference(sum); last == Xor(f(a), Xor(f(b), f(c)))
    ensures var g := HavingIndex(sum, last); Xor(g(a), Xor(g(b), g(c))) in {a, b, c}
  {
    DifferencesOfThree(a, b, c);
    hide Xor, Lowest, Counter;
    var x, y, z := Xor(a, sum), Xor(b, sum), Xor(c, sum);
    LowestOfThree(x, y, z);
    LowestMeaning(x, 0);
    LowestMeaning(y, 0);
    LowestMeaning(z, 0);
    Injective(Lowest(x), Lowest(y));
    Injective(Lowest(x), Lowest(z));
    Injective(Lowest(y), Lowest(z));
    TwiceAndOnce(Counter(Lowest(x)), Counter(Lowest(y)));
    TwiceAndOnce(Counter(Lowest(x)), Counter(Lowest(z)));
    TwiceAndOnce(Counter(Lowest(y)), Counter(Lowest(x)));
    XorZero(a);
    XorZero(b);
    XorZero(c);
    XorZero(0);
  }

  lemma Injective(a: nat, b: nat)
    requires a < 32 && b < 32
    ensures Counter(a) == Counter(b) ==> a == b
  {
    if Counter(a) == Counter(b) {
      CounterInjective(a, b);
    }
  }

  /** What find_3_diff_number singles out is one of the three values. */
  lemma ThreeOdd(s: seq<Word>, a: Word, b: Word, c: Word)
    requires OddExactly(s, [a, b, c])
    ensures var sum := XorMap(s, Same());
      XorMap(s, HavingIndex(sum, XorMap(s, IndexOfDifference(sum)))) in {a, b, c}
  {
    var sum := XorMap(s, Same());
    var last := XorMap(s, IndexOfDifference(sum));
    assert [a, b, c][0] != [a, b, c][1] && [a, b, c][0] != [a, b, c][2] && [a, b, c][1] != [a, b, c][2];
    XorOfOdd(s, [a, b, c], Same());
    XorThree(a, b, c, Same());
    hide Xor, XorMap, Lowest, Counter, OddExactly;
    XorOfOdd(s, [a, b, c], IndexOfDifference(sum));
    XorThree(a, b, c, IndexOfDifference(sum));
    XorOfOdd(s, [a, b, c], HavingIndex(sum, last));
    XorThree(a, b, c, HavingIndex(sum, last));
    OneIsSelected(a, b, c, sum, last);
  }

  /** The loop that brings the number found to the front, and keeps every other element. */
  method MoveToFront(numbers: array<Word>, ano: Word)
    modifies numbers
    ensures multiset(numbers[..]) == multiset(old(numbers[..]))
    ensures ano in old(numbers[..]) ==> numbers.Length > 0 && numbers[0] == ano
  {
    var i := 0;
    while i < numbers.Length
      invariant 0 <= i <= numbers.Length && multiset(numbers[..]) == multiset(old(numbers[..]))
      invariant ano in old(numbers[..i]) ==> numbers[0] == ano
      invariant forall k :: i <= k < numbers.Length && k > 0 ==> numbers[k] == old(numbers[k])
      invariant i == 0 ==> numbers[..] == old(numbers[..])
    {
      if numbers[i] == ano {
        numbers[i] := numbers[0];
        numbers[0] := ano;
      }
      i := i + 1;
    }
  }

  /** Without one occurrence of x, the other two values are the ones that occur an odd number of times. */
  lemma RestHasTwoOdd(was: seq<Word>, now: seq<Word>, x: Word, y: Word, z: Word)
    requires OddExactly(was, [x, y, z]) && multiset(now) == multiset(was) && now != [] && now[0] == x
    ensures OddExactly(now[1..], [y, z])
  {
    assert [x, y, z][0] != [x, y, z][1] && [x, y, z][0] != [x, y, z][2] && [x, y, z][1] != [x, y, z][2];
    forall v: Word
      ensures Count(now[1..], v) % 2 == if v in [y, z] then 1 else 0
    {
      CountIsMultiplicity(now, v);
      CountIsMultiplicity(was, v);
      assert Count(was, v) % 2 == if v in [x, y, z] then 1 else 0;
    }
  }

  lemma Reordered(s: seq<Word>, x: Word, y: Word, z: Word)
    requires OddExactly(s, [x, y, z])
    ensures OddExactly(s, [y, x, z]) && OddExactly(s, [z, x, y]) && x in s && y in s && z in s
  {
    assert [x, y, z][0] != [x, y, z][1] && [x, y, z][0] != [x, y, z][2] && [x, y, z][1] != [x, y, z][2];
    forall v: Word
      ensures Count(s, v) % 2 == if v in [y, x, z] then 1 else 0
      ensures Count(s, v) % 2 == if v in [z, x, y] then 1 else 0
      ensures v in [x, y, z] ==> v in s
    {
      assert Count(s, v) % 2 == if v in [x, y, z] then 1 else 0;
      Occurs(s, v);
    }
  }

  lemma {:induction false} Occurs<T>(s: seq<T>, v: T)
    ensures Count(s, v) > 0 ==> v in s
  {
    if Count(s, v) > 0 {
      var j := FindValue(s, v);
    }
  }

  /** The three lemmas above, for the three values in their given order. */
  lemma Found3(was: seq<Word>, now: seq<Word>, first: Word, x: Word, y: Word, z: Word, r: Report)
    requires OddExactly(was, [x, y, z]) && multiset(now) == multiset(was) && first in {x, y, z}
    requires first in was ==> now != [] && now[0] == first
    requires now != [] ==> forall b: Word, c: Word :: OddExactly(now[1..], [b, c]) ==> r.Found? && {r.ret1, r.ret2} == {b, c}
    ensures now != [] && now[0] == first && r.Found? && {first, r.ret1, r.ret2} == {x, y, z}
  {
    Reordered(was, x, y, z);
    if first == x {
      RestHasTwoOdd(was, now, x, y, z);
      SetOfThree(first, r.ret1, r.ret2, y, z);
    } else if first == y {
      RestHasTwoOdd(was, now, y, x, z);
      SetOfThree(first, r.ret1, r.ret2, x, z);
    } else {
      RestHasTwoOdd(was, now, z, x, y);
      SetOfThree(first, r.ret1, r.ret2, x, y);
    }
  }

  lemma SetOfThree(first: Word, p: Word, q: Word, y: Word, z: Word)
    requires {p, q} == {y, z}
    ensures {first, p, q} == {first, y, z} == {y, first, z} == {y, z, first}
  {
    assert {first, p, q} == {first} + {p, q};
    assert {first, y, z} == {first} + {y, z};
  }

  method Find3DiffNumber(numbers: array<Word>) returns (first: Word, r: Report)
    modifies numbers
    ensures multiset(numbers[..]) == multiset(old(numbers[..]))
    ensures forall x: Word, y: Word, z: Word :: OddExactly(old(numbers[..]), [x, y, z]) ==>
      numbers.Length > 0 && numbers[0] == first && r.Found? && {first, r.ret1, r.ret2} == {x, y, z}
  {
    hide XorMap, Xor, Count, OddExactly;
    ghost var was := numbers[..];
    var sumXor := XorLoop(numbers[..]);
    var lastXor := IndexLoop(numbers[..], sumXor);
    first := SelectLoop(numbers[..], sumXor, lastXor);
    MoveToFront(numbers, first);
    r := Find2DiffNumber(if numbers.Length > 0 then numbers[1..] else []);
    forall x: Word, y: Word, z: Word | OddExactly(was, [x, y, z])
      ensures numbers.Length > 0 && numbers[0] == first && r.Found? && {first, r.ret1, r.ret2} == {x, y, z}
    {
      ThreeOdd(was, x, y, z);
      Found3(was, numbers[..], first, x, y, z, r);
    }
  }
}
