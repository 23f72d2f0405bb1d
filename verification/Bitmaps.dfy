/** Bitmaps as byte strings: single bits, OR by bytes, and OR by 64-bit words. */
module Bitmaps {

  type Byte = bv8
  type Bytes = seq<Byte>

  /** 1 << (7 - k): bit k of a byte, counted from the most significant one. */
  function MaskOf(k: nat): (m: Byte)
    requires k < 8
  {
    if k == 0 then 0x80 else if k == 1 then 0x40 else if k == 2 then 0x20 else if k == 3 then 0x10
    else if k == 4 then 8 else if k == 5 then 4 else if k == 6 then 2 else 1
  }

  function Pow2(n: nat): (p: nat)
    ensures p > 0
  {
    if n == 0 then 1 else 2 * Pow2(n - 1)
  }

  lemma Powers()
    ensures Pow2(0) == 1 && Pow2(1) == 2 && Pow2(2) == 4 && Pow2(3) == 8
    ensures Pow2(4) == 16 && Pow2(5) == 32 && Pow2(6) == 64 && Pow2(7) == 128
  {
    assert Pow2(2) == 2 * Pow2(1);
    assert Pow2(4) == 2 * Pow2(3);
    assert Pow2(6) == 2 * Pow2(5);
  }

  /** Bit k of a byte, by its weight 2^(7 - k) in the byte's value. */
  predicate Has(b: Byte, k: nat)
    requires k < 8
  {
    b as int / Pow2(7 - k) % 2 == 1
  }

  function OrByte(a: Byte, b: Byte): (c: Byte) {
    a | b
  }

  /** What `1 << (7 - k)` picks out by `&`. */
  predicate Masked(b: Byte, k: nat)
    requires k < 8
  {
    b & MaskOf(k) != 0
  }

  /** The mask picks out the bit of weight w, and ORed in it adds w to a byte that does not have the bit. */
  predicate Weighs(b: Byte, k: nat, w: nat)
    requires k < 8 && w > 0
  {
    && (Masked(b, k) <==> b as int / w % 2 == 1)
    && (!Masked(b, k) ==> OrByte(b, MaskOf(k)) as int == b as int + w)
    && (Masked(b, k) ==> OrByte(b, MaskOf(k)) == b)
  }

  lemma Weight0(b: Byte)
    ensures Weighs(b, 0, 128)
  {
  }

  lemma Weight1(b: Byte)
    ensures Weighs(b, 1, 64)
  {
  }

  lemma Weight2(b: Byte)
    ensures Weighs(b, 2, 32)
  {
  }

  lemma Weight3(b: Byte)
    ensures Weighs(b, 3, 16)
  {
  }

  lemma Weight4(b: Byte)
    ensures Weighs(b, 4, 8)
  {
  }

  lemma Weight5(b: Byte)
    ensures Weighs(b, 5, 4)
  {
  }

  lemma Weight6(b: Byte)
    ensures Weighs(b, 6, 2)
  {
  }

  lemma Weight7(b: Byte)
    ensures Weighs(b, 7, 1)
  {
  }

  lemma HasMasked(b: Byte, k: nat)
    requires k < 8
    ensures Has(b, k) <==> Masked(b, k)
    ensures OrByte(b, MaskOf(k)) as int == b as int + if Has(b, k) then 0 else Pow2(7 - k)
  {
    hide Pow2, MaskOf, Masked, OrByte;
    assert Weighs(b, k, Pow2(7 - k)) by {
      hide Weighs;
      Powers();
      Weight0(b);
      Weight1(b);
      Weight2(b);
      Weight3(b);
      Weight4(b);
      Weight5(b);
      Weight6(b);
      Weight7(b);
      assert k == 0 || k == 1 || k == 2 || k == 3 || k == 4 || k == 5 || k == 6 || k == 7;
    }
  }

  lemma MaskedOr(a: Byte, b: Byte, k: nat)
    requires k < 8
    ensures Masked(OrByte(a, b), k) == (Masked(a, k) || Masked(b, k))
  {
  }

  lemma MaskedMask(j: nat, k: nat)
    requires j < 8 && k < 8
    ensures Masked(MaskOf(j), k) == (j == k) && !Masked(0, k)
  {
  }

  lemma HasOr(a: Byte, b: Byte, k: nat)
    requires k < 8
    ensures Has(OrByte(a, b), k) == (Has(a, k) || Has(b, k))
  {
    hide *;
    MaskedOr(a, b, k);
    HasMasked(a, k);
    HasMasked(b, k);
    HasMasked(OrByte(a, b), k);
  }

  lemma HasMask(j: nat, k: nat)
    requires j < 8 && k < 8
    ensures Has(MaskOf(j), k) == (j == k) && !Has(0, k)
  {
    hide *;
    MaskedMask(j, k);
    HasMasked(MaskOf(j), k);
    HasMasked(0, k);
  }

  /** Bit n of a bitmap, counted from the most significant bit of the first byte; bits past its end are clear. */
  predicate Bit(s: Bytes, n: nat) {
    n / 8 < |s| && Has(s[n / 8], n % 8)
  }

  /** The bitmap of size bytes with bit n added. */
  function WithBit(s: Bytes, n: nat): (t: Bytes)
    requires n / 8 < |s|
    ensures |t| == |s|
  {
    s[n / 8 := OrByte(s[n / 8], MaskOf(n % 8))]
  }

  lemma WithBitAdds(s: Bytes, n: nat, m: nat)
    requires n / 8 < |s|
    ensures Bit(WithBit(s, n), m) == (Bit(s, m) || m == n)
  {
    hide Has, MaskOf, OrByte;
    if m / 8 == n / 8 {
      HasOr(s[n / 8], MaskOf(n % 8), m % 8);
      HasMask(n % 8, m % 8);
      assert m % 8 == n % 8 ==> m == n;
    }
  }

  function OrBytes(s: Bytes, t: Bytes): (u: Bytes)
    requires |s| == |t|
    ensures |u| == |s|
  {
    seq(|s|, i requires 0 <= i < |s| => OrByte(s[i], t[i]))
  }

  lemma OrBytesAdds(s: Bytes, t: Bytes, m: nat)
    requires |s| == |t|
    ensures Bit(OrBytes(s, t), m) == (Bit(s, m) || Bit(t, m))
  {
    hide Has, OrByte;
    if m / 8 < |s| {
      HasOr(s[m / 8], t[m / 8], m % 8);
    }
  }

  function Zeros(n: nat): (s: Bytes)
    ensures |s| == n
  {
    seq(n, _ => 0)
  }

  lemma ZerosClear(n: nat, m: nat)
    ensures !Bit(Zeros(n), m)
  {
    if m / 8 < n {
      HasMask(0, m % 8);
    }
  }

  // ----- OR by words -----

  /** The little-endian unsigned long made of eight bytes in memory order. */
  function Join(a0: Byte, a1: Byte, a2: Byte, a3: Byte, a4: Byte, a5: Byte, a6: Byte, a7: Byte): (w: bv64) {
    (a0 as bv64) | (a1 as bv64 << 8) | (a2 as bv64 << 16) | (a3 as bv64 << 24)
    | (a4 as bv64 << 32) | (a5 as bv64 << 40) | (a6 as bv64 << 48) | (a7 as bv64 << 56)
  }

  /** The k-th byte of a word in memory. */
  function Part(w: bv64, k: nat): (b: Byte)
    requires k < 8
  {
    if k == 0 then LowByte(w)
    else if k == 1 then LowByte(w >> 8)
    else if k == 2 then LowByte(w >> 16)
    else if k == 3 then LowByte(w >> 24)
    else if k == 4 then LowByte(w >> 32)
    else if k == 5 then LowByte(w >> 40)
    else if k == 6 then LowByte(w >> 48)
    else LowByte(w >> 56)
  }

  function LowByte(w: bv64): (b: Byte) {
    (w & 0xFF) as bv8
  }

  function OrWord(v: bv64, w: bv64): (x: bv64) {
    v | w
  }

  lemma PartOfOr(v: bv64, w: bv64, k: nat)
    requires k < 8
    ensures Part(OrWord(v, w), k) == OrByte(Part(v, k), Part(w, k))
  {
    PartOfOr0(v, w);
    PartOfOr1(v, w);
    PartOfOr2(v, w);
    PartOfOr3(v, w);
    PartOfOr4(v, w);
    PartOfOr5(v, w);
    PartOfOr6(v, w);
    PartOfOr7(v, w);
    hide LowByte, OrWord, OrByte;
  }

  lemma PartOfOr0(v: bv64, w: bv64)
    ensures LowByte(OrWord(v, w)) == OrByte(LowByte(v), LowByte(w))
  {
  }

  lemma PartOfOr1(v: bv64, w: bv64)
    ensures LowByte(OrWord(v, w) >> 8) == OrByte(LowByte(v >> 8), LowByte(w >> 8))
  {
  }

  lemma PartOfOr2(v: bv64, w: bv64)
    ensures LowByte(OrWord(v, w) >> 16) == OrByte(LowByte(v >> 16), LowByte(w >> 16))
  {
  }

  lemma PartOfOr3(v: bv64, w: bv64)
    ensures LowByte(OrWord(v, w) >> 24) == OrByte(LowByte(v >> 24), LowByte(w >> 24))
  {
  }

  lemma PartOfOr4(v: bv64, w: bv64)
    ensures LowByte(OrWord(v, w) >> 32) == OrByte(LowByte(v >> 32), LowByte(w >> 32))
  {
  }

  lemma PartOfOr5(v: bv64, w: bv64)
    ensures LowByte(OrWord(v, w) >> 40) == OrByte(LowByte(v >> 40), LowByte(w >> 40))
  {
  }

  lemma PartOfOr6(v: bv64, w: bv64)
    ensures LowByte(OrWord(v, w) >> 48) == OrByte(LowByte(v >> 48), LowByte(w >> 48))
  {
  }

  lemma PartOfOr7(v: bv64, w: bv64)
    ensures LowByte(OrWord(v, w) >> 56) == OrByte(LowByte(v >> 56), LowByte(w >> 56))
  {
  }

  lemma PartOfJoin(a0: Byte, a1: Byte, a2: Byte, a3: Byte, a4: Byte, a5: Byte, a6: Byte, a7: Byte)
    ensures var w := Join(a0, a1, a2, a3, a4, a5, a6, a7);
      && Part(w, 0) == a0 && Part(w, 1) == a1 && Part(w, 2) == a2 && Part(w, 3) == a3
      && Part(w, 4) == a4 && Part(w, 5) == a5 && Part(w, 6) == a6 && Part(w, 7) == a7
  {
  }

  /** The word at byte position i. */
  function Load(s: Bytes, i: nat): (w: bv64)
    requires i + 8 <= |s|
  {
    Join(s[i], s[i + 1], s[i + 2], s[i + 3], s[i + 4], s[i + 5], s[i + 6], s[i + 7])
  }

  lemma LoadParts(s: Bytes, i: nat, k: nat)
    requires i + 8 <= |s| && k < 8
    ensures Part(Load(s, i), k) == s[i + k]
  {
    hide Join, Part;
    PartOfJoin(s[i], s[i + 1], s[i + 2], s[i + 3], s[i + 4], s[i + 5], s[i + 6], s[i + 7]);
    assert k == 0 || k == 1 || k == 2 || k == 3 || k == 4 || k == 5 || k == 6 || k == 7;
  }

  /** One word of the destination takes in one word of the source. */
  method OrOneWord(dest: array<Byte>, src: array<Byte>, i: nat)
    requires dest != src && i + 8 <= dest.Length == src.Length
    modifies dest
    ensures forall k {:trigger dest[k]} :: 0 <= k < dest.Length ==>
      dest[k] == if i <= k < i + 8 then OrByte(old(dest[k]), src[k]) else old(dest[k])
  {
    hide Part, Load, OrWord, OrByte;
    ghost var s, t := dest[..], src[..];
    var w := OrWord(Load(dest[..], i), Load(src[..], i));
    forall k | 0 <= k < 8
      ensures Part(w, k) == OrByte(s[i + k], t[i + k])
    {
      PartOfOr(Load(s, i), Load(t, i), k);
      LoadParts(s, i, k);
      LoadParts(t, i, k);
    }
    forall k | i <= k < i + 8 {
      dest[k] := Part(w, k - i);
    }
  }

  /** OR by whole words, then the tail byte by byte from the end. */
  method AndBitmap(dest: array<Byte>, src: array<Byte>)
    requires dest != src && dest.Length == src.Length
    modifies dest
    ensures dest[..] == OrBytes(old(dest[..]), src[..])
  {
    hide OrByte;
    var size := dest.Length;
    var countByInt, lastSize := size / 8, size % 8;
    var i := 0;
    while i < countByInt
      invariant 0 <= i <= countByInt
      invariant forall k {:trigger dest[k]} :: 0 <= k < size ==> dest[k] == if k < 8 * i then OrByte(old(dest[k]), src[k]) else old(dest[k])
    {
      OrOneWord(dest, src, 8 * i);
      i := i + 1;
    }
    i := 0;
    while i < lastSize
      invariant 0 <= i <= lastSize
      invariant forall k {:trigger dest[k]} :: 0 <= k < size ==>
        dest[k] == if k < 8 * countByInt || k >= size - i then OrByte(old(dest[k]), src[k]) else old(dest[k])
    {
      dest[size - 1 - i] := OrByte(dest[size - 1 - i], src[size - 1 - i]);
      i := i + 1;
    }
  }

  /** Sets one bit in the cache. */
  method AndBitToBitmap(cache: array<Byte>, n: nat)
    requires n / 8 < cache.Length
    modifies cache
    ensures cache[..] == WithBit(old(cache[..]), n)
    ensures forall i {:trigger cache[i]} :: 0 <= i < cache.Length ==>
      cache[i] as int == old(cache[i]) as int + if i == n / 8 && !Has(old(cache[i]), n % 8) then Pow2(7 - n % 8) else 0
  {
    var byteIndex := n / 8;
    var subIndex := n % 8;
    HasMasked(cache[byteIndex], subIndex);
    hide MaskOf, OrByte, Has, Pow2;
    cache[byteIndex] := OrByte(cache[byteIndex], MaskOf(subIndex));
  }
}
