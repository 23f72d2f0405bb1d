/**
 * The write-behind cache in front of a bitmap file: bit indices are buffered per block of the
 * bitmap, and a flush ORs each block's buffered bits into the file.
 */
module CacheTables {
  import opened Bitmaps
  import opened DArrays

  const MAXLINE := 4096
  const INIT_SIZE := 512
  const BLOCK_RANGE := 8 * 1024 * 1024
  const BLOCK_BYTES := 1024 * 1024
  const LIMIT_SIZE := 3 * 1024 * 1024

  /** The file with `piece` written at `offset`; a gap before it reads as zeros. */
  function Overlay(content: Bytes, offset: nat, piece: Bytes): (s: Bytes)
    ensures |s| == if offset + |piece| > |content| && piece != [] then offset + |piece| else |content|
  {
    if piece == [] then content
    else
      var padded := if |content| < offset then content + Zeros(offset - |content|) else content;
      padded[..offset] + piece + (if offset + |piece| < |padded| then padded[offset + |piece|..] else [])
  }

  lemma OverlayAt(content: Bytes, offset: nat, piece: Bytes, i: nat)
    requires i < |Overlay(content, offset, piece)|
    ensures Overlay(content, offset, piece)[i] ==
      if offset <= i < offset + |piece| then piece[i - offset] else if i < |content| then content[i] else 0
  {
  }

  lemma OverlayNothing(content: Bytes, offset: nat)
    ensures Overlay(content, offset, []) == content
    ensures forall b: Bytes {:trigger b[..0]} :: Overlay(content, offset, b[..0]) == content
  {
  }

  /** Writing two adjacent pieces one after the other writes them both. */
  lemma OverlayTwice(content: Bytes, offset: nat, p: Bytes, q: Bytes)
    ensures Overlay(Overlay(content, offset, p), offset + |p|, q) == Overlay(content, offset, p + q)
  {
    hide Overlay;
    var once := Overlay(content, offset, p);
    if p == [] {
      OverlayNothing(content, offset);
      assert p + q == q;
    } else if q == [] {
      OverlayNothing(once, offset + |p|);
      assert p + q == p;
    } else {
      var a, b := Overlay(once, offset + |p|, q), Overlay(content, offset, p + q);
      forall i | 0 <= i < |a|
        ensures a[i] == b[i]
      {
        OverlayAt(once, offset + |p|, q, i);
        if i < |once| {
          OverlayAt(content, offset, p, i);
        }
        OverlayAt(content, offset, p + q, i);
      }
    }
  }

  /** `size` bytes of the file from `offset` on; what lies past its end is zero. */
  function Slice(content: Bytes, offset: nat, size: nat): (s: Bytes)
    ensures |s| == size
  {
    seq(size, i requires i >= 0 => if offset + i < |content| then content[offset + i] else 0)
  }

  /** The bitmap file, with the descriptor's position and the number of system calls on it that have failed. */
  class File {
    var content: Bytes
    var pos: nat
    ghost var failures: nat

    constructor ()
      ensures content == [] && failures == 0
    {
      content, pos, failures := [], 0, 0;
    }

    method Seek(offset: nat) returns (ok: bool)
      modifies this`pos, this`failures
      ensures ok ==> pos == offset
      ensures failures == old(failures) + if ok then 0 else 1
    {
      ok := *;
      if ok {
        pos := offset;
      } else {
        failures := failures + 1;
      }
    }

    /** read(2): at least one byte unless at the end of the file (0), or -1. */
    method Read(buf: array<Byte>, from: nat, max: nat) returns (rlen: int)
      requires 0 < max && from + max <= buf.Length
      modifies this`pos, this`failures, buf
      ensures -1 <= rlen <= max && pos == old(pos) + (if rlen > 0 then rlen else 0)
      ensures failures == old(failures) + if rlen < 0 then 1 else 0
      ensures rlen == 0 ==> pos >= |content|
      ensures rlen > 0 ==> pos <= |content|
      ensures forall k :: 0 <= k < buf.Length ==>
        buf[k] == if from <= k < from + rlen then content[old(pos) + (k - from)] else old(buf[k])
    {
      var n: int := *;
      if n < 0 {
        failures := failures + 1;
        return -1;
      }
      if pos >= |content| {
        return 0;
      }
      rlen := if n == 0 then 1 else if n < max then n else max;
      rlen := if pos + rlen <= |content| then rlen else |content| - pos;
      forall k | 0 <= k < rlen {
        buf[from + k] := content[pos + k];
      }
      pos := pos + rlen;
    }

    /** write(2): at least one byte of the piece, or -1. */
    method Write(piece: Bytes) returns (wlen: int)
      requires piece != []
      modifies this
      ensures wlen == -1 || 0 < wlen <= |piece|
      ensures failures == old(failures) + if wlen < 0 then 1 else 0
      ensures wlen < 0 ==> content == old(content) && pos == old(pos)
      ensures wlen > 0 ==> pos == old(pos) + wlen && content == Overlay(old(content), old(pos), piece[..wlen])
    {
      var n: int := *;
      if n < 0 {
        failures := failures + 1;
        return -1;
      }
      wlen := if n == 0 then 1 else if n < |piece| then n else |piece|;
      content := Overlay(content, pos, piece[..wlen]);
      pos := pos + wlen;
    }
  }

  /** Reads until the buffer is full or the file ends, unless a call fails; `got` bytes of the block have arrived then. */
  method ReadFromFile(f: File, offset: nat, buf: array<Byte>) returns (ok: bool, ghost got: nat)
    requires forall k :: 0 <= k < buf.Length ==> buf[k] == 0
    modifies f`pos, f`failures, buf
    ensures ok <==> f.failures == old(f.failures)
    ensures f.failures >= old(f.failures)
    ensures if ok then got == buf.Length else got < buf.Length || buf.Length == 0 == got
    ensures buf[..] == Slice(f.content, offset, got) + Zeros(buf.Length - got)
  {
    ok := f.Seek(offset);
    if !ok {
      return false, 0;
    }
    var size := buf.Length;
    var readBytes, cacheIndex := size, 0;
    while readBytes > 0
      invariant 0 <= cacheIndex <= size && readBytes == size - cacheIndex && f.pos == offset + cacheIndex
      invariant f.failures == old(f.failures)
      invariant cacheIndex > 0 ==> f.pos <= |f.content|
      invariant forall k :: 0 <= k < cacheIndex ==> buf[k] == f.content[offset + k]
      invariant forall k :: cacheIndex <= k < size ==> buf[k] == 0
    {
      var readSize := if MAXLINE > readBytes then readBytes else MAXLINE;
      var rlen := f.Read(buf, cacheIndex, readSize);
      if rlen < 0 {
        return false, cacheIndex;
      } else if rlen == 0 {
        break;
      } else {
        readBytes := readBytes - rlen;
        cacheIndex := cacheIndex + rlen;
      }
    }
    return true, size;
  }

  /** Writes all of the buffer, unless a call fails; `put` bytes of it have been written then. */
  method WriteToFile(f: File, offset: nat, buf: array<Byte>) returns (ok: bool, ghost put: nat)
    modifies f
    ensures ok <==> f.failures == old(f.failures)
    ensures f.failures >= old(f.failures)
    ensures if ok then put == buf.Length else put < buf.Length || buf.Length == 0 == put
    ensures f.content == Overlay(old(f.content), offset, buf[..put])
  {
    hide Overlay;
    ghost var bytes := buf[..];
    OverlayNothing(f.content, offset);
    ok := f.Seek(offset);
    if !ok {
      return false, 0;
    }
    var size := buf.Length;
    var writeBytes, cacheIndex := size, 0;
    while writeBytes > 0
      invariant 0 <= cacheIndex <= size && writeBytes == size - cacheIndex && f.pos == offset + cacheIndex
      invariant f.failures == old(f.failures)
      invariant buf[..] == bytes && f.content == Overlay(old(f.content), offset, bytes[..cacheIndex])
    {
      var writeSize := if MAXLINE > writeBytes then writeBytes else MAXLINE;
      var piece := buf[cacheIndex..cacheIndex + writeSize];
      var wlen := f.Write(piece);
      if wlen < 0 {
        return false, cacheIndex;
      }
      OverlayNext(old(f.content), offset, bytes, cacheIndex, wlen);
      PieceOf(bytes, cacheIndex, writeSize, wlen);
      writeBytes := writeBytes - wlen;
      cacheIndex := cacheIndex + wlen;
    }
    return true, size;
  }

  lemma PieceOf(bytes: Bytes, at: nat, size: nat, n: nat)
    requires n <= size && at + size <= |bytes|
    ensures bytes[at..at + size][..n] == bytes[at..at + n]
  {
  }

  lemma OverlayNext(content: Bytes, offset: nat, bytes: Bytes, at: nat, n: nat)
    requires at + n <= |bytes|
    ensures Overlay(Overlay(content, offset, bytes[..at]), offset + at, bytes[at..at + n]) == Overlay(content, offset, bytes[..at + n])
  {
    hide Overlay;
    OverlayTwice(content, offset, bytes[..at], bytes[at..at + n]);
    assert bytes[..at] + bytes[at..at + n] == bytes[..at + n];
  }

  // ----- One block -----

  /** The bitmap of a block that starts at bit `start`, with the indices of s set. */
  function MarkAll(size: nat, start: nat, s: seq<int>): (m: Bytes)
    requires InBlock(size, start, s)
    ensures |m| == size
  {
    if s == [] then Zeros(size) else WithBit(MarkAll(size, start, s[..|s| - 1]), s[|s| - 1] - start)
  }

  lemma NothingMarked(size: nat, start: nat, s: seq<int>)
    ensures MarkAll(size, start, s[..0]) == Zeros(size)
  {
  }

  lemma MarkNext(size: nat, start: nat, s: seq<int>, i: nat)
    requires i < |s| && InBlock(size, start, s)
    ensures MarkAll(size, start, s[..i + 1]) == WithBit(MarkAll(size, start, s[..i]), s[i] - start)
  {
    assert s[..i + 1][..i] == s[..i];
  }

  predicate InBlock(size: nat, start: nat, s: seq<int>) {
    forall i {:trigger s[i]} :: 0 <= i < |s| ==> start <= s[i] < start + 8 * size
  }

  lemma {:induction false} MarkAllBits(size: nat, start: nat, s: seq<int>, n: nat)
    requires InBlock(size, start, s)
    ensures Bit(MarkAll(size, start, s), n) <==> start + n in s
  {
    if s == [] {
      ZerosClear(size, n);
    } else {
      hide Bit, WithBit, MarkAll;
      var k := |s| - 1;
      assert s[..k + 1] == s;
      MarkAllBits(size, start, s[..k], n);
      MarkNext(size, start, s, k);
      WithBitAdds(MarkAll(size, start, s[..k]), s[k] - start, n);
      InFront(s, k, start + n);
    }
  }

  lemma InFront(s: seq<int>, k: nat, x: int)
    requires |s| == k + 1
    ensures x in s <==> x in s[..k] || x == s[k]
  {
    assert s == s[..k] + [s[k]];
  }

  /** What a flush writes: the marks ORed with the bytes read, of which only `got` have arrived. */
  function Merged(content: Bytes, offset: nat, marks: Bytes, got: nat): (m: Bytes)
    requires got <= |marks|
    ensures |m| == |marks|
  {
    OrBytes(marks, Slice(content, offset, got) + Zeros(|marks| - got))
  }

  lemma SliceBits(content: Bytes, offset: nat, size: nat, got: nat, n: nat)
    requires got <= size
    ensures Bit(Slice(content, offset, got) + Zeros(size - got), n) == (n / 8 < got && Bit(content, 8 * offset + n))
  {
    hide MaskOf;
    HasMask(0, n % 8);
  }

  lemma OverlayBits(content: Bytes, offset: nat, piece: Bytes, n: nat)
    ensures Bit(Overlay(content, offset, piece), n) ==
      if offset <= n / 8 < offset + |piece| then Bit(piece, n - 8 * offset) else Bit(content, n)
  {
    hide MaskOf;
    HasMask(0, n % 8);
    if n / 8 < |Overlay(content, offset, piece)| {
      OverlayAt(content, offset, piece, n / 8);
    }
  }

  /** What the file holds after a flush whose read delivered `got` bytes and whose write put `put` of them. */
  function Rewritten(content: Bytes, offset: nat, marks: Bytes, got: nat, put: nat): Bytes
    requires got <= |marks| && put <= |marks|
  {
    Overlay(content, offset, Merged(content, offset, marks, got)[..put])
  }

  lemma BitOfPrefix(s: Bytes, k: nat, n: nat)
    requires n / 8 < k <= |s|
    ensures Bit(s[..k], n) == Bit(s, n)
  {
  }

  lemma FlushBits(content: Bytes, offset: nat, marks: Bytes, got: nat, put: nat, n: nat)
    requires got <= |marks| && put <= |marks|
    ensures Bit(Rewritten(content, offset, marks, got, put), n) ==
      if offset <= n / 8 < offset + put
      then Bit(marks, n - 8 * offset) || (n / 8 < offset + got && Bit(content, n))
      else Bit(content, n)
  {
    hide Bit, Overlay, OrBytes, Slice, Zeros;
    var merged := Merged(content, offset, marks, got);
    OverlayBits(content, offset, merged[..put], n);
    if offset <= n / 8 < offset + put {
      var m := n - 8 * offset;
      BitOfPrefix(merged, put, m);
      OrBytesAdds(marks, Slice(content, offset, got) + Zeros(|marks| - got), m);
      SliceBits(content, offset, |marks|, got, m);
    }
  }

  /**
   * The result of the read is not looked at: after a failed read the block is still written back. No bit of the
   * file is lost exactly when every set bit that was written over without having been read is among the marks.
   */
  lemma FailedReadKeepsBitsIff(content: Bytes, offset: nat, marks: Bytes, got: nat, put: nat)
    requires got <= |marks| && put <= |marks|
    ensures (forall n: nat :: Bit(content, n) ==> Bit(Rewritten(content, offset, marks, got, put), n)) <==>
            (forall n: nat :: offset + got <= n / 8 < offset + put && Bit(content, n) ==> Bit(marks, n - 8 * offset))
  {
    hide Bit, Rewritten;
    forall n: nat
      ensures Bit(Rewritten(content, offset, marks, got, put), n) == if offset <= n / 8 < offset + put
        then Bit(marks, n - 8 * offset) || (n / 8 < offset + got && Bit(content, n)) else Bit(content, n)
    {
      FlushBits(content, offset, marks, got, put, n);
    }
  }

  // ----- What a flush does to the bits, for every outcome of its read and its write -----

  /** Bit n of the file after the indices of s have been flushed to the block at `offset`. */
  predicate AfterBit(before: Bytes, offset: nat, s: seq<int>, got: nat, put: nat, n: nat) {
    if offset <= n / 8 < offset + put then n in s || (n / 8 < offset + got && Bit(before, n)) else Bit(before, n)
  }

  ghost predicate Flushed(before: Bytes, after: Bytes, offset: nat, s: seq<int>, got: nat, put: nat) {
    forall n: nat {:trigger Bit(after, n)} :: Bit(after, n) <==> AfterBit(before, offset, s, got, put, n)
  }

  lemma FlushFlushes(content: Bytes, size: nat, start: nat, s: seq<int>, got: nat, put: nat)
    requires start % 8 == 0 && InBlock(size, start, s) && got <= size && put <= size
    ensures Flushed(content, Rewritten(content, start / 8, MarkAll(size, start, s), got, put), start / 8, s, got, put)
  {
    hide Bit, Rewritten, MarkAll;
    var offset, marks := start / 8, MarkAll(size, start, s);
    forall n: nat
      ensures Bit(Rewritten(content, offset, marks, got, put), n) <==> AfterBit(content, offset, s, got, put, n)
    {
      FlushBits(content, offset, marks, got, put, n);
      if offset <= n / 8 < offset + put {
        MarkAllBits(size, start, s, n - start);
      }
    }
  }

  /** The set bits of `after` are those of `before` and the indices of s. */
  ghost predicate BitsAdded(before: Bytes, after: Bytes, s: seq<int>) {
    forall n: nat {:trigger Bit(after, n)} :: Bit(after, n) <==> Bit(before, n) || n in s
  }

  /**
   * Nothing was lost: every set bit that was written over without having been read is among the indices, and every
   * index behind the bytes written was set in the file before.
   */
  ghost predicate Unspoilt(before: Bytes, offset: nat, got: nat, put: nat, s: seq<int>) {
    && (forall n: nat {:trigger Bit(before, n)} :: offset + got <= n / 8 < offset + put && Bit(before, n) ==> n in s)
    && (forall n: nat {:trigger n in s} :: n in s && n / 8 >= offset + put ==> Bit(before, n))
  }

  /** The flush of one block adds just its indices to the file exactly when nothing was lost. */
  lemma FlushExactIff(before: Bytes, after: Bytes, offset: nat, size: nat, s: seq<int>, got: nat, put: nat)
    requires InBlock(size, 8 * offset, s) && got <= size && put <= size && Flushed(before, after, offset, s, got, put)
    ensures BitsAdded(before, after, s) <==> Unspoilt(before, offset, got, put, s)
    ensures got == put == size ==> BitsAdded(before, after, s)
  {
    hide Bit;
    if BitsAdded(before, after, s) {
      forall n: nat
        ensures offset + got <= n / 8 < offset + put && Bit(before, n) ==> n in s
        ensures n in s && n / 8 >= offset + put ==> Bit(before, n)
      {
        assert Bit(after, n) <==> AfterBit(before, offset, s, got, put, n);
      }
    }
    if Unspoilt(before, offset, got, put, s) {
      forall n: nat
        ensures Bit(after, n) <==> Bit(before, n) || n in s
      {
        assert Bit(after, n) <==> AfterBit(before, offset, s, got, put, n);
      }
    }
  }

  /** In terms of the bytes: the bit of weight 2^(7 - n % 8) in byte n / 8 is set for every index n of s. */
  lemma MarksSet(before: Bytes, after: Bytes, s: seq<int>)
    requires BitsAdded(before, after, s)
    ensures forall n: nat {:trigger n in s} :: n in s ==> n / 8 < |after| && after[n / 8] as int / Pow2(7 - n % 8) % 2 == 1
  {
    hide Pow2;
    forall n: nat | n in s
      ensures n / 8 < |after| && after[n / 8] as int / Pow2(7 - n % 8) % 2 == 1
    {
      assert Bit(after, n);
    }
  }

  const SUCCEED := true

  class TableItem {
    const start: nat
    const blockSize: nat
    const handle: DArray

    ghost predicate Valid()
      reads handle, handle.base
    {
      start % 8 == 0 && handle.Valid() && InBlock(blockSize, start, handle.Contents())
    }

    constructor (initSize: nat, start: nat, end: nat)
      requires start <= end && start % 8 == 0
      ensures Valid() && this.start == start && blockSize == (end - start) / 8 && handle.Contents() == []
      ensures fresh(handle) && fresh(handle.base)
    {
      this.start := start;
      blockSize := (end - start) / 8;
      handle := new DArray(initSize);
    }

    method AppendItem(item: int) returns (r: bool)
      requires Valid() && start <= item < start + 8 * blockSize
      modifies handle, handle.base
      ensures Valid() && r == SUCCEED && handle.Contents() == old(handle.Contents()) + [item]
      ensures handle.base == old(handle.base) || fresh(handle.base)
    {
      handle.Append(item);
      return SUCCEED;
    }

    /** The loop that marks the buffered indices in a fresh bitmap. */
    method MarkLoop() returns (bitmapCache: array<Byte>)
      requires Valid()
      ensures fresh(bitmapCache) && bitmapCache[..] == MarkAll(blockSize, start, handle.Contents())
    {
      hide MarkAll, WithBit;
      bitmapCache := new Byte[blockSize](_ => 0);
      var i := 0;
      ghost var s := handle.Contents();
      assert bitmapCache[..] == Zeros(blockSize);
      NothingMarked(blockSize, start, s);
      while i < handle.size
        invariant 0 <= i <= handle.size && bitmapCache[..] == MarkAll(blockSize, start, s[..i])
      {
        MarkNext(blockSize, start, s, i);
        var bit := handle.base[i] - start;
        AndBitToBitmap(bitmapCache, bit);
        i := i + 1;
      }
      assert s[..i] == s;
    }

    /**
     * Empties the buffer into the file. `got` and `put` are what the read and the write achieved, all of the block
     * when no call has failed; the method's own result ignores that.
     */
    method FlushCache(f: File) returns (r: bool, newArraySize: nat, ghost got: nat, ghost put: nat)
      requires Valid()
      modifies handle, f
      ensures Valid() && r == SUCCEED && newArraySize == INIT_SIZE && handle.Contents() == [] && fresh(handle.base)
      ensures got <= blockSize && put <= blockSize && f.failures >= old(f.failures)
      ensures f.failures == old(f.failures) ==> got == put == blockSize
      ensures f.failures != old(f.failures) && blockSize > 0 ==> got < blockSize || put < blockSize
      ensures f.content == Rewritten(old(f.content), start / 8, MarkAll(blockSize, start, old(handle.Contents())), got, put)
      ensures Flushed(old(f.content), f.content, start / 8, old(handle.Contents()), got, put)
      ensures BitsAdded(old(f.content), f.content, old(handle.Contents())) <==>
        Unspoilt(old(f.content), start / 8, got, put, old(handle.Contents()))
      ensures f.failures == old(f.failures) ==> forall n: nat {:trigger n in old(handle.Contents())} :: n in old(handle.Contents()) ==>
        n / 8 < |f.content| && f.content[n / 8] as int / Pow2(7 - n % 8) % 2 == 1
    {
      hide Pow2;
      ghost var s, was := handle.Contents(), f.content;
      var bitmapCache := MarkLoop();
      handle.ClearAndResize(INIT_SIZE);
      newArraySize := INIT_SIZE;
      got, put := DealWithBitmap(f, bitmapCache);
      FlushFlushes(was, blockSize, start, s, got, put);
      FlushExactIff(was, f.content, start / 8, blockSize, s, got, put);
      if f.failures == old(f.failures) {
        MarksSet(was, f.content, s);
      }
      r := SUCCEED;
    }

    method DealWithBitmap(f: File, destBitmap: array<Byte>) returns (ghost got: nat, ghost put: nat)
      requires destBitmap.Length == blockSize
      modifies f, destBitmap
      ensures got <= blockSize && put <= blockSize && f.failures >= old(f.failures)
      ensures f.failures == old(f.failures) ==> got == put == blockSize
      ensures f.failures != old(f.failures) && blockSize > 0 ==> got < blockSize || put < blockSize
      ensures f.content == Rewritten(old(f.content), start / 8, old(destBitmap[..]), got, put)
    {
      var srcBitmap := new Byte[destBitmap.Length](_ => 0);
      var offset := start / 8;
      var readOk, writeOk;
      readOk, got := ReadFromFile(f, offset, srcBitmap);
      AndBitmap(destBitmap, srcBitmap);
      writeOk, put := WriteToFile(f, offset, destBitmap);
    }
  }

  // ----- The table of blocks -----

  ghost function Sum(sizes: seq<nat>): (n: nat) {
    if sizes == [] then 0 else Sum(sizes[..|sizes| - 1]) + sizes[|sizes| - 1]
  }

  lemma {:induction false} SumUpdate(sizes: seq<nat>, i: nat, n: nat)
    requires i < |sizes|
    ensures Sum(sizes[i := n]) == Sum(sizes) - sizes[i] + n
  {
    var k := |sizes| - 1;
    if i == k {
      assert sizes[i := n][..k] == sizes[..k];
    } else {
      assert sizes[i := n][..k] == sizes[..k][i := n];
      SumUpdate(sizes[..k], i, n);
    }
  }

  lemma {:induction false} SumZero(sizes: seq<nat>)
    requires forall i :: 0 <= i < |sizes| ==> sizes[i] == 0
    ensures Sum(sizes) == 0
  {
    if sizes != [] {
      SumZero(sizes[..|sizes| - 1]);
    }
  }

  function Sizes(buffered: seq<seq<int>>): (sizes: seq<nat>) {
    seq(|buffered|, i requires 0 <= i < |buffered| => |buffered[i]|)
  }

  /** n is in one of the buffers. */
  ghost predicate In(buffered: seq<seq<int>>, n: int) {
    exists i {:trigger buffered[i]} :: 0 <= i < |buffered| && n in buffered[i]
  }

  /** n is a set bit of the file or waits in a buffer. */
  ghost predicate Known(content: Bytes, buffered: seq<seq<int>>, n: nat) {
    Bit(content, n) || In(buffered, n)
  }

  /** The same indices are known before and after. */
  ghost predicate SameKnown(c: Bytes, b: seq<seq<int>>, c': Bytes, b': seq<seq<int>>) {
    forall n: nat {:trigger Known(c', b', n)} :: Known(c', b', n) <==> Known(c, b, n)
  }

  /** Exactly the item has become known. */
  ghost predicate Grown(c: Bytes, b: seq<seq<int>>, c': Bytes, b': seq<seq<int>>, item: int) {
    forall n: nat {:trigger Known(c', b', n)} :: Known(c', b', n) <==> Known(c, b, n) || n == item
  }

  /** The indices known are the bits set at first and the items appended since. */
  ghost predicate Remembers(first: Bytes, appended: seq<int>, content: Bytes, buffered: seq<seq<int>>) {
    forall n: nat {:trigger Known(content, buffered, n)} :: Known(content, buffered, n) <==> Bit(first, n) || n in appended
  }

  lemma RemembersNothing(content: Bytes, buffered: seq<seq<int>>)
    requires forall n :: !In(buffered, n)
    ensures Remembers(content, [], content, buffered)
  {
  }

  lemma RemembersOneMore(first: Bytes, appended: seq<int>, c: Bytes, b: seq<seq<int>>, c': Bytes, b': seq<seq<int>>, item: int)
    requires Remembers(first, appended, c, b) && Grown(c, b, c', b', item)
    ensures Remembers(first, appended + [item], c', b')
  {
    hide Known, Bit;
  }

  lemma RemembersTheSame(first: Bytes, appended: seq<int>, c: Bytes, b: seq<seq<int>>, c': Bytes, b': seq<seq<int>>)
    requires Remembers(first, appended, c, b) && SameKnown(c, b, c', b')
    ensures Remembers(first, appended, c', b')
  {
    hide Known, Bit;
  }

  /** With all buffers empty, the known indices are the set bits of the file. */
  lemma KnownWhenEmpty(content: Bytes, buffered: seq<seq<int>>, n: nat)
    requires forall i :: 0 <= i < |buffered| ==> buffered[i] == []
    ensures Known(content, buffered, n) <==> Bit(content, n)
  {
  }

  /** The item joins the buffer of its block. */
  function Appended(buffered: seq<seq<int>>, item: nat): seq<seq<int>> {
    var k := item / BLOCK_RANGE;
    if k < |buffered| then buffered[k := buffered[k] + [item]] else buffered
  }

  lemma AppendsThere(buffered: seq<seq<int>>, k: nat, item: nat)
    requires k < |buffered| && item / BLOCK_RANGE == k
    ensures Appended(buffered, item) == buffered[k := buffered[k] + [item]]
  {
  }

  lemma AppendOne(content: Bytes, buffered: seq<seq<int>>, k: nat, item: int)
    requires k < |buffered|
    ensures var b := buffered[k := buffered[k] + [item]];
      Sum(Sizes(b)) == Sum(Sizes(buffered)) + 1 && Grown(content, buffered, content, b, item)
  {
    var b := buffered[k := buffered[k] + [item]];
    assert Sizes(b) == Sizes(buffered)[k := |buffered[k]| + 1];
    SumUpdate(Sizes(buffered), k, |buffered[k]| + 1);
    forall n: nat
      ensures In(b, n) <==> In(buffered, n) || n == item
    {
      if In(buffered, n) {
        var i :| 0 <= i < |buffered| && n in buffered[i];
        assert n in b[i];
      }
      assert item in b[k];
    }
  }

  lemma SumFlushed(buffered: seq<seq<int>>, k: nat)
    requires k < |buffered|
    ensures Sum(Sizes(buffered[k := []])) == Sum(Sizes(buffered)) - |buffered[k]|
  {
    assert Sizes(buffered[k := []]) == Sizes(buffered)[k := 0];
    SumUpdate(Sizes(buffered), k, 0);
  }

  // ----- A flush of all blocks -----

  /** Every buffer holds indices of its own block only. */
  ghost predicate Sorted(buffered: seq<seq<int>>) {
    forall i {:trigger buffered[i]} :: 0 <= i < |buffered| ==> InBlock(BLOCK_BYTES, i * BLOCK_RANGE, buffered[i])
  }

  /** The first k blocks have been flushed, block i with gots[i] bytes read and puts[i] bytes written. */
  ghost predicate FlushedTo(before: Bytes, after: Bytes, buffered: seq<seq<int>>, gots: seq<nat>, puts: seq<nat>, k: nat)
    requires k <= |buffered| && |gots| == |puts| == k
  {
    forall n: nat {:trigger Bit(after, n)} :: Bit(after, n) <==>
      if n / BLOCK_RANGE < k
      then AfterBit(before, n / BLOCK_RANGE * BLOCK_BYTES, buffered[n / BLOCK_RANGE], gots[n / BLOCK_RANGE], puts[n / BLOCK_RANGE], n)
      else Bit(before, n)
  }

  /** All blocks have been flushed, and every byte of them has been read and written exactly if `well`. */
  ghost predicate AllFlushed(before: Bytes, after: Bytes, buffered: seq<seq<int>>, gots: seq<nat>, puts: seq<nat>, well: bool) {
    && |gots| == |puts| == |buffered| && (well <==> Whole(gots, puts))
    && FlushedTo(before, after, buffered, gots, puts, |buffered|)
  }

  ghost predicate WithinBlocks(ks: seq<nat>) {
    forall i {:trigger ks[i]} :: 0 <= i < |ks| ==> ks[i] <= BLOCK_BYTES
  }

  ghost predicate Whole(gots: seq<nat>, puts: seq<nat>)
    requires |gots| == |puts|
  {
    forall i {:trigger gots[i]} :: 0 <= i < |gots| ==> gots[i] == puts[i] == BLOCK_BYTES
  }

  /** The first k buffers have been emptied. */
  ghost predicate Emptied(was: seq<seq<int>>, now: seq<seq<int>>, k: nat) {
    |now| == |was| && forall i {:trigger now[i]} :: 0 <= i < |was| ==> now[i] == if i < k then [] else was[i]
  }

  lemma OneMoreBlock(gots: seq<nat>, puts: seq<nat>, got: nat, put: nat, was: seq<seq<int>>, now: seq<seq<int>>)
    requires |gots| == |puts| < |was| && Emptied(was, now, |gots|) && WithinBlocks(gots) && WithinBlocks(puts)
    requires got <= BLOCK_BYTES && put <= BLOCK_BYTES
    ensures Whole(gots + [got], puts + [put]) <==> Whole(gots, puts) && got == put == BLOCK_BYTES
    ensures WithinBlocks(gots + [got]) && WithinBlocks(puts + [put])
    ensures now[|gots|] == was[|gots|] && Emptied(was, now[|gots| := []], |gots| + 1)
  {
    var gs, ps := gots + [got], puts + [put];
    assert gs[|gots|] == got && ps[|gots|] == put;
    assert forall i :: 0 <= i < |gots| ==> gs[i] == gots[i] && ps[i] == puts[i];
  }

  ghost predicate AllUnspoilt(before: Bytes, buffered: seq<seq<int>>, gots: seq<nat>, puts: seq<nat>) {
    |gots| == |puts| == |buffered|
    && forall i {:trigger buffered[i]} :: 0 <= i < |buffered| ==> Unspoilt(before, i * BLOCK_BYTES, gots[i], puts[i], buffered[i])
  }

  lemma NothingFlushed(content: Bytes, buffered: seq<seq<int>>)
    ensures FlushedTo(content, content, buffered, [], [], 0) && Emptied(buffered, buffered, 0) && Whole([], []) && WithinBlocks([])
  {
  }

  /** Block k is flushed next: the other blocks' bits stay. */
  lemma FlushNext(before: Bytes, now: Bytes, after: Bytes, buffered: seq<seq<int>>, gots: seq<nat>, puts: seq<nat>, k: nat, got: nat, put: nat)
    requires k < |buffered| && |gots| == |puts| == k && FlushedTo(before, now, buffered, gots, puts, k)
    requires put <= BLOCK_BYTES && Flushed(now, after, k * BLOCK_BYTES, buffered[k], got, put)
    ensures FlushedTo(before, after, buffered, gots + [got], puts + [put], k + 1)
  {
    hide Bit;
    forall n: nat
      ensures Bit(after, n) <==>
        if n / BLOCK_RANGE < k + 1
        then AfterBit(before, n / BLOCK_RANGE * BLOCK_BYTES, buffered[n / BLOCK_RANGE],
                      (gots + [got])[n / BLOCK_RANGE], (puts + [put])[n / BLOCK_RANGE], n)
        else Bit(before, n)
    {
      assert Bit(after, n) <==> AfterBit(now, k * BLOCK_BYTES, buffered[k], got, put, n);
      BlockOf(n, k);
      assert Bit(now, n) <==> Bit(now, n);
    }
  }

  lemma BlockOf(n: nat, k: nat)
    ensures n / BLOCK_RANGE == k <==> k * BLOCK_BYTES <= n / 8 < k * BLOCK_BYTES + BLOCK_BYTES
    ensures n / BLOCK_RANGE == k <==> k * BLOCK_RANGE <= n < k * BLOCK_RANGE + BLOCK_RANGE
  {
  }

  /** Index n can only wait in the buffer of its block. */
  lemma InOwnBlock(buffered: seq<seq<int>>, n: nat)
    requires Sorted(buffered)
    ensures In(buffered, n) <==> n / BLOCK_RANGE < |buffered| && n in buffered[n / BLOCK_RANGE]
  {
    forall i | 0 <= i < |buffered| && n in buffered[i]
      ensures i == n / BLOCK_RANGE
    {
      var j :| 0 <= j < |buffered[i]| && buffered[i][j] == n;
      BlockOf(n, i);
    }
  }

  lemma KnownAfter(before: Bytes, after: Bytes, buffered: seq<seq<int>>, gots: seq<nat>, puts: seq<nat>, empty: seq<seq<int>>, n: nat)
    requires Sorted(buffered) && |gots| == |puts| == |buffered| && FlushedTo(before, after, buffered, gots, puts, |buffered|)
    requires forall i :: 0 <= i < |empty| ==> empty[i] == []
    ensures var i := n / BLOCK_RANGE;
      && (Known(after, empty, n) <==>
           if i < |buffered| then AfterBit(before, i * BLOCK_BYTES, buffered[i], gots[i], puts[i], n) else Bit(before, n))
      && (Known(before, buffered, n) <==> Bit(before, n) || (i < |buffered| && n in buffered[i]))
  {
    KnownWhenEmpty(after, empty, n);
    InOwnBlock(buffered, n);
  }

  /** A flush of all blocks keeps the indices known exactly when it loses nothing in any block. */
  lemma FlushKeepsKnownIff(before: Bytes, after: Bytes, buffered: seq<seq<int>>, gots: seq<nat>, puts: seq<nat>, empty: seq<seq<int>>)
    requires Sorted(buffered) && |gots| == |puts| == |buffered| && FlushedTo(before, after, buffered, gots, puts, |buffered|)
    requires WithinBlocks(gots) && WithinBlocks(puts) && forall i :: 0 <= i < |empty| ==> empty[i] == []
    ensures SameKnown(before, buffered, after, empty) <==> AllUnspoilt(before, buffered, gots, puts)
  {
    hide Bit, Known, FlushedTo, Sorted;
    if SameKnown(before, buffered, after, empty) {
      forall i | 0 <= i < |buffered|
        ensures Unspoilt(before, i * BLOCK_BYTES, gots[i], puts[i], buffered[i])
      {
        BlockUnspoilt(before, after, buffered, gots, puts, empty, i);
      }
    }
    if AllUnspoilt(before, buffered, gots, puts) {
      forall n: nat
        ensures Known(after, empty, n) <==> Known(before, buffered, n)
      {
        KnownAfter(before, after, buffered, gots, puts, empty, n);
        var i := n / BLOCK_RANGE;
        if i < |buffered| {
          assert Unspoilt(before, i * BLOCK_BYTES, gots[i], puts[i], buffered[i]);
          BlockOf(n, i);
        }
      }
    }
  }

  lemma BlockUnspoilt(before: Bytes, after: Bytes, buffered: seq<seq<int>>, gots: seq<nat>, puts: seq<nat>, empty: seq<seq<int>>, i: nat)
    requires i < |buffered| && Sorted(buffered) && |gots| == |puts| == |buffered| && FlushedTo(before, after, buffered, gots, puts, |buffered|)
    requires WithinBlocks(puts) && forall k :: 0 <= k < |empty| ==> empty[k] == []
    requires SameKnown(before, buffered, after, empty)
    ensures Unspoilt(before, i * BLOCK_BYTES, gots[i], puts[i], buffered[i])
  {
    hide Bit, Known, FlushedTo;
    forall n: nat
      ensures i * BLOCK_BYTES + gots[i] <= n / 8 < i * BLOCK_BYTES + puts[i] && Bit(before, n) ==> n in buffered[i]
      ensures n in buffered[i] && n / 8 >= i * BLOCK_BYTES + puts[i] ==> Bit(before, n)
    {
      KnownAfter(before, after, buffered, gots, puts, empty, n);
      assert Known(after, empty, n) <==> Known(before, buffered, n);
      BlockOf(n, i);
      if n in buffered[i] {
        var j :| 0 <= j < |buffered[i]| && buffered[i][j] == n;
      }
    }
  }

  /** When every byte of every block has been read and written, nothing is lost. */
  lemma WholeIsUnspoilt(before: Bytes, buffered: seq<seq<int>>, gots: seq<nat>, puts: seq<nat>)
    requires Sorted(buffered) && |gots| == |puts| == |buffered|
    requires Whole(gots, puts)
    ensures AllUnspoilt(before, buffered, gots, puts)
  {
    hide Bit;
    forall i | 0 <= i < |buffered|
      ensures Unspoilt(before, i * BLOCK_BYTES, gots[i], puts[i], buffered[i])
    {
      assert gots[i] == puts[i] == BLOCK_BYTES;
      assert InBlock(BLOCK_BYTES, i * BLOCK_RANGE, buffered[i]);
    }
  }

  /** The new index counts as known already while it waits in its buffer. */
  lemma GrownIff(c: Bytes, b: seq<seq<int>>, b': seq<seq<int>>, c'': Bytes, b'': seq<seq<int>>, item: int)
    requires Grown(c, b, c, b', item)
    ensures Grown(c, b, c'', b'', item) <==> SameKnown(c, b', c'', b'')
  {
    hide Known;
  }

  /** A file of one byte with its first bit set, an empty buffer and a read that fails at once: the index is not known any more. */
  lemma FailedReadLosesBit()
    ensures var after := Rewritten([0x80], 0, Zeros(1), 0, 1);
      Known([0x80], [[]], 0) && !Known(after, [[]], 0)
  {
    FlushBits([0x80], 0, Zeros(1), 0, 1, 0);
    ZerosClear(1, 0);
    HasMask(0, 0);
    KnownWhenEmpty([0x80], [[]], 0);
    KnownWhenEmpty(Rewritten([0x80], 0, Zeros(1), 0, 1), [[]], 0);
  }

  /** An empty file, one index in the buffer and a write that fails at once: the buffer has been cleared before. */
  lemma FailedWriteLosesIndex()
    ensures var after := Rewritten([], 0, MarkAll(1, 0, [0]), 1, 0);
      Known([], [[0]], 0) && !Known(after, [[]], 0)
  {
    assert 0 in [[0]][0] && In([[0]], 0);
    FlushBits([], 0, MarkAll(1, 0, [0]), 1, 0, 0);
    HasMask(0, 0);
    KnownWhenEmpty(Rewritten([], 0, MarkAll(1, 0, [0]), 1, 0), [[]], 0);
  }

  lemma AllEmptied(was: seq<seq<int>>, now: seq<seq<int>>)
    requires Emptied(was, now, |was|)
    ensures Sum(Sizes(now)) == 0 && forall i :: 0 <= i < |now| ==> now[i] == []
  {
    AllEmpty(now);
  }

  lemma AllEmpty(buffered: seq<seq<int>>)
    requires forall i :: 0 <= i < |buffered| ==> buffered[i] == []
    ensures Sum(Sizes(buffered)) == 0 && forall n :: !In(buffered, n)
  {
    SumZero(Sizes(buffered));
  }

  class CacheTable {
    const items: seq<TableItem>
    const file: File
    var sumSize: int
    /** The contents of the buffers, block by block. */
    ghost var buffered: seq<seq<int>>
    /** What the file has held at first, how many calls on it had failed then, and all the items appended since. */
    ghost const first: Bytes
    ghost const failedBefore: nat
    ghost var appended: seq<int>

    ghost function Repr(): (r: set<object>)
      reads this, set i | 0 <= i < |items| :: items[i].handle
    {
      {this, file} + (set i | 0 <= i < |items| :: items[i].handle) + (set i | 0 <= i < |items| :: items[i].handle.base)
    }

    ghost predicate Valid()
      reads this, set i | 0 <= i < |items| :: items[i].handle, set i | 0 <= i < |items| :: items[i].handle.base
    {
      && |buffered| == |items|
      && (forall i {:trigger items[i]} :: 0 <= i < |items| ==>
            && items[i].Valid() && items[i].handle.Contents() == buffered[i]
            && items[i].start == i * BLOCK_RANGE && items[i].blockSize == BLOCK_RANGE / 8)
      && (forall i, j {:trigger items[i], items[j]} :: 0 <= i < j < |items| ==>
            items[i].handle != items[j].handle && items[i].handle.base != items[j].handle.base)
      && sumSize == Sum(Sizes(buffered))
    }

    /** As long as no call on the file has failed, the indices known are the first ones and all those appended. */
    ghost predicate Recorded()
      reads this, file
    {
      && file.failures >= failedBefore
      && (file.failures == failedBefore ==> Remembers(first, appended, file.content, buffered))
    }

    constructor (globleSize: nat, file: File)
      ensures Recorded() && first == file.content && failedBefore == file.failures && appended == []
      ensures Valid() && sumSize == 0 && |items| == globleSize / BLOCK_RANGE + 1 && this.file == file
      ensures forall i :: 0 <= i < |items| ==> buffered[i] == []
    {
      var cacheSize := globleSize / BLOCK_RANGE + 1;
      var list: seq<TableItem> := [];
      ghost var empty: seq<seq<int>> := [];
      var i := 0;
      while i < cacheSize
        invariant 0 <= i <= cacheSize && |list| == |empty| == i
        invariant forall k {:trigger empty[k]} :: 0 <= k < i ==> empty[k] == []
        invariant forall k {:trigger list[k]} :: 0 <= k < i ==>
          list[k].Valid() && list[k].handle.Contents() == [] && list[k].start == k * BLOCK_RANGE && list[k].blockSize == BLOCK_RANGE / 8
        invariant forall k, l {:trigger list[k], list[l]} :: 0 <= k < l < i ==>
                    list[k].handle != list[l].handle && list[k].handle.base != list[l].handle.base
        invariant forall k {:trigger list[k]} :: 0 <= k < i ==> fresh(list[k].handle) && fresh(list[k].handle.base)
      {
        var item := new TableItem(INIT_SIZE, i * BLOCK_RANGE, (i + 1) * BLOCK_RANGE);
        list := list + [item];
        empty := empty + [[]];
        i := i + 1;
      }
      AllEmpty(empty);
      RemembersNothing(file.content, empty);
      items, this.file, sumSize, buffered := list, file, 0, empty;
      first, failedBefore, appended := file.content, file.failures, [];
    }

    /** The body of the flush loop for one block. */
    method FlushItem(i: nat) returns (ghost got: nat, ghost put: nat)
      requires Valid() && i < |items|
      modifies this`sumSize, this`buffered, file, items[i].handle
      ensures Valid() && buffered == old(buffered)[i := []] && fresh(items[i].handle.base)
      ensures got <= BLOCK_BYTES && put <= BLOCK_BYTES && file.failures >= old(file.failures)
      ensures file.failures == old(file.failures) <==> got == put == BLOCK_BYTES
      ensures Flushed(old(file.content), file.content, i * BLOCK_BYTES, old(buffered)[i], got, put)
    {
      hide Sum, Sizes, Bit, Rewritten, MarkAll, Flushed, BitsAdded, Unspoilt;
      var item := items[i];
      var oldLength := item.handle.size;
      assert oldLength == |buffered[i]|;
      SumFlushed(buffered, i);
      var r, newLength;
      r, newLength, got, put := item.FlushCache(file);
      sumSize := sumSize - oldLength;
      buffered := buffered[i := []];
    }

    /**
     * Empties every buffer; block i is flushed with gots[i] bytes read and puts[i] bytes written, all of them when no
     * call on the file has failed. The indices known stay the same exactly when no block has lost anything.
     */
    method FlushCache() returns (r: bool, ghost gots: seq<nat>, ghost puts: seq<nat>)
      requires Valid()
      modifies Repr()
      ensures Valid() && r == SUCCEED && sumSize == 0 && fresh(Repr() - old(Repr())) && |gots| == |puts| == |items|
      ensures forall i :: 0 <= i < |items| ==> buffered[i] == []
      ensures AllFlushed(old(file.content), file.content, old(buffered), gots, puts, file.failures == old(file.failures))
      ensures SameKnown(old(file.content), old(buffered), file.content, buffered) <==> AllUnspoilt(old(file.content), old(buffered), gots, puts)
      ensures file.failures == old(file.failures) ==> SameKnown(old(file.content), old(buffered), file.content, buffered)
      ensures appended == old(appended) && (old(Recorded()) ==> Recorded()) && file.failures >= old(file.failures)
    {
      hide Sum, BitsAdded, Known, Sizes, SameKnown, Flushed, FlushedTo, Bit, Sorted, AllUnspoilt, Valid, Whole, Emptied, WithinBlocks, Remembers;
      r := SUCCEED;
      ghost var content, was := file.content, buffered;
      BuffersSorted();
      LengthOfBuffered();
      gots, puts := FlushLoop();
      LengthOfBuffered();
      AllEmptied(was, buffered);
      FlushKeepsKnownIff(content, file.content, was, gots, puts, buffered);
      if file.failures == old(file.failures) {
        WholeIsUnspoilt(content, was, gots, puts);
        if Remembers(first, appended, content, was) {
          RemembersTheSame(first, appended, content, was, file.content, buffered);
        }
      }
    }

    /** The loop over the blocks. */
    method FlushLoop() returns (ghost gots: seq<nat>, ghost puts: seq<nat>)
      requires Valid()
      modifies Repr()
      ensures Valid() && fresh(Repr() - old(Repr())) && |gots| == |puts| == |items| == |old(buffered)|
      ensures Emptied(old(buffered), buffered, |items|) && WithinBlocks(gots) && WithinBlocks(puts) && appended == old(appended)
      ensures file.failures >= old(file.failures) && (file.failures == old(file.failures) <==> Whole(gots, puts))
      ensures FlushedTo(old(file.content), file.content, old(buffered), gots, puts, |items|)
    {
      gots, puts := [], [];
      ghost var content, was := file.content, buffered;
      NothingFlushed(content, was);
      LengthOfBuffered();
      hide Sum, BitsAdded, Known, Sizes, SameKnown, Flushed, FlushedTo, Bit, Sorted, AllUnspoilt, Valid, Whole, Emptied, WithinBlocks;
      var i := 0;
      while i < |items|
        invariant 0 <= i <= |items| == |was| && Valid() && fresh(Repr() - old(Repr())) && |gots| == |puts| == i
        invariant Emptied(was, buffered, i) && WithinBlocks(gots) && WithinBlocks(puts) && appended == old(appended)
        invariant file.failures >= old(file.failures) && (file.failures == old(file.failures) <==> Whole(gots, puts))
        invariant FlushedTo(content, file.content, was, gots, puts, i)
      {
        ghost var now, b := file.content, buffered;
        ghost var got, put := FlushItem(i);
        OneMoreBlock(gots, puts, got, put, was, b);
        FlushNext(content, now, file.content, was, gots, puts, i, got, put);
        gots, puts := gots + [got], puts + [put];
        i := i + 1;
      }
    }

    lemma BuffersSorted()
      requires Valid()
      ensures Sorted(buffered)
    {
      forall i | 0 <= i < |buffered|
        ensures InBlock(BLOCK_BYTES, i * BLOCK_RANGE, buffered[i])
      {
        assert items[i].Valid();
      }
    }

    /**
     * The index of the block is not checked: the caller has to stay within the table. Without a flush the index is
     * known afterwards, and nothing else has changed; with one, that is so exactly when the flush loses nothing.
     */
    method AppendItem(item: int) returns (r: bool, ghost gots: seq<nat>, ghost puts: seq<nat>)
      requires Valid() && 0 <= item < |items| * BLOCK_RANGE && sumSize <= LIMIT_SIZE
      modifies Repr()
      ensures Valid() && sumSize <= LIMIT_SIZE && fresh(Repr() - old(Repr()))
      ensures r == SUCCEED <==> old(sumSize) == LIMIT_SIZE
      ensures r == SUCCEED ==> sumSize == 0 && forall i :: 0 <= i < |items| ==> buffered[i] == []
      ensures r != SUCCEED ==> file.content == old(file.content) && file.failures == old(file.failures) && sumSize == old(sumSize) + 1
      ensures r != SUCCEED || file.failures == old(file.failures) ==> Grown(old(file.content), old(buffered), file.content, buffered, item)
      ensures r != SUCCEED ==> buffered == Appended(old(buffered), item)
      ensures r == SUCCEED ==>
        AllFlushed(old(file.content), file.content, Appended(old(buffered), item), gots, puts, file.failures == old(file.failures))
      ensures r == SUCCEED ==> (Grown(old(file.content), old(buffered), file.content, buffered, item) <==>
        AllUnspoilt(old(file.content), Appended(old(buffered), item), gots, puts))
      ensures appended == old(appended) + [item] && (old(Recorded()) ==> Recorded())
    {
      var index := item / BLOCK_RANGE;
      ghost var content, was := file.content, buffered;
      gots, puts := [], [];
      LengthOfBuffered();
      hide Sum, Sizes, BitsAdded, Known, Grown, SameKnown, Valid, AllFlushed, AllUnspoilt, Appended, Recorded;
      RecordItem(index, item);
      ghost var all := buffered;
      if sumSize > LIMIT_SIZE {
        var done;
        done, gots, puts := FlushCache();
        GrownIff(content, was, all, file.content, buffered, item);
        return SUCCEED, gots, puts;
      }
      return !SUCCEED, gots, puts;
    }

    lemma LengthOfBuffered()
      requires Valid()
      ensures |buffered| == |items| && sumSize == Sum(Sizes(buffered))
    {
    }

    /** The index goes to the buffer of its block. */
    method BufferItem(index: nat, item: int)
      requires Valid() && index < |items| && index * BLOCK_RANGE <= item < (index + 1) * BLOCK_RANGE
      modifies Repr()
      ensures Valid() && sumSize == old(sumSize) + 1 && file.content == old(file.content) && file.failures == old(file.failures)
      ensures buffered == Appended(old(buffered), item)
      ensures Grown(old(file.content), old(buffered), file.content, buffered, item)
      ensures fresh(Repr() - old(Repr())) && appended == old(appended)
    {
      hide Sum, Sizes, BitsAdded, Known, Grown, SameKnown, Appended;
      AppendOne(file.content, buffered, index, item);
      BlockOf(item, index);
      AppendsThere(buffered, index, item);
      var done := items[index].AppendItem(item);
      buffered := buffered[index := buffered[index] + [item]];
      sumSize := sumSize + 1;
    }

    /** The same with the record of all items. */
    method RecordItem(index: nat, item: int)
      requires Valid() && index < |items| && index * BLOCK_RANGE <= item < (index + 1) * BLOCK_RANGE
      modifies Repr()
      ensures Valid() && sumSize == old(sumSize) + 1 && file.content == old(file.content) && file.failures == old(file.failures)
      ensures buffered == Appended(old(buffered), item)
      ensures Grown(old(file.content), old(buffered), file.content, buffered, item)
      ensures appended == old(appended) + [item] && (old(Recorded()) ==> Recorded())
      ensures fresh(Repr() - old(Repr()))
    {
      hide Sum, Sizes, BitsAdded, Known, Grown, SameKnown, Appended, Remembers;
      ghost var was := buffered;
      BufferItem(index, item);
      if Remembers(first, appended, file.content, was) {
        RemembersOneMore(first, appended, file.content, was, file.content, buffered, item);
      }
      appended := appended + [item];
    }
  }
}
