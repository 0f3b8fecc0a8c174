/** The first-fit bitmap allocator of physical frames (kernel/src/frame_alloc.rs). */
module FrameAlloc {
  import opened Bytes
  import opened Bits

  const PAGE_SIZE: nat := 0x1000
  const MAX_BITMAP_BYTES: nat := 1024
  const MAX_FRAMES: nat := 8192
  const DEFAULT_START: nat := 0x0200_0000
  const DEFAULT_END: nat := 0x0400_0000
  const MIN_ADDR: nat := 0x0010_0000
  const MAX_ADDR: nat := 0x4000_0000

  /** One range of the boot memory map; kind 1 is usable RAM. */
  datatype MemRange = MemRange(start: nat, end: nat, kind: nat)
  {
    /** The part of the range that the allocator may consider. */
    function Lo(): nat { if start < MIN_ADDR then MIN_ADDR else start }
    function Hi(): nat { if end > MAX_ADDR then MAX_ADDR else end }
    predicate Usable() { kind == 1 && Lo() < Hi() }
    function Size(): nat { if Usable() then Hi() - Lo() else 0 }
  }

  function PageUp(a: nat): nat { (a + PAGE_SIZE - 1) / PAGE_SIZE * PAGE_SIZE }
  function PageDown(a: nat): nat { a / PAGE_SIZE * PAGE_SIZE }

  /** The frames, among the first `n`, whose bit is set. */
  ghost function UsedFrames(bm: seq<byte>, n: nat): set<nat>
    requires n <= 8 * |bm|
  {
    set i: nat | i < n && BitAt(bm, i)
  }

  /** `i` is the lowest frame below `n` that is not in `used`. */
  predicate LowestFree(used: set<nat>, n: nat, i: nat) {
    i < n && i !in used && forall j :: 0 <= j < i ==> j in used
  }

  /**
   * Range `i` is usable, larger than 32 MiB, larger than every earlier range and at least as large as every later
   * one.
   */
  predicate FirstLargest(ranges: seq<MemRange>, i: nat) {
    && i < |ranges| && ranges[i].Size() > DEFAULT_END - DEFAULT_START
    && (forall j :: 0 <= j < i ==> ranges[j].Size() < ranges[i].Size())
    && (forall j :: i < j < |ranges| ==> ranges[j].Size() <= ranges[i].Size())
  }

  /** A range above 32 MiB has at least 8191 whole pages, which the bitmap rounds up to 8192. */
  lemma RegionFits(lo: nat, hi: nat)
    requires hi - lo > DEFAULT_END - DEFAULT_START || (lo == DEFAULT_START && hi == DEFAULT_END)
    ensures PageUp(lo) < PageDown(hi) && (PageDown(hi) - PageUp(lo)) / PAGE_SIZE >= 8191
    ensures (lo == DEFAULT_START && hi == DEFAULT_END) ==> PageUp(lo) == lo && PageDown(hi) == hi
  {
  }

  /**
   * The chosen region of 8192 frames stays inside its memory range exactly when the range has that many whole
   * pages; ranges on page boundaries always do.
   */
  lemma RegionInsideRange(r: MemRange)
    requires r.Size() > DEFAULT_END - DEFAULT_START
    ensures PageUp(r.Lo()) + MAX_FRAMES * PAGE_SIZE <= r.Hi() <==>
      PageDown(r.Hi()) - PageUp(r.Lo()) >= MAX_FRAMES * PAGE_SIZE
    ensures r.start % PAGE_SIZE == 0 && r.end % PAGE_SIZE == 0 ==>
      PageDown(r.Hi()) - PageUp(r.Lo()) >= MAX_FRAMES * PAGE_SIZE
  {
  }

  /** A range off the page boundaries whose region runs past its end. */
  lemma RegionOutsideRange()
    ensures var r := MemRange(0x0010_0001, 0x0210_0002, 1);
            r.Size() > DEFAULT_END - DEFAULT_START && PageUp(r.Lo()) + MAX_FRAMES * PAGE_SIZE > r.end
  {
  }

  class FrameAllocator {
    const bitmap: array<byte>
    var start: nat
    var end: nat
    /** Bytes of the bitmap in use; 0 before initialization. */
    var bitmapLen: nat
    var initialized: bool

    ghost predicate Valid()
      reads this
    {
      && bitmap.Length == MAX_BITMAP_BYTES
      && start % PAGE_SIZE == 0 && start <= end <= start + MAX_FRAMES * PAGE_SIZE
      && (end - start) % (8 * PAGE_SIZE) == 0
      && bitmapLen == (if initialized then (end - start) / (8 * PAGE_SIZE) else 0)
      && (!initialized ==> start == DEFAULT_START && end == DEFAULT_END)
    }

    function Frames(): nat
      reads this
    {
      8 * bitmapLen
    }

    /** The allocated frames, by index. */
    ghost function Used(): set<nat>
      reads this, bitmap
      requires Valid()
    {
      UsedFrames(bitmap[..], Frames())
    }

    function Addr(i: nat): nat
      reads this
    {
      start + PAGE_SIZE * i
    }

    predicate InRegion(a: nat)
      reads this
    {
      start <= a < end
    }

    function IndexOf(a: nat): nat
      reads this
      requires InRegion(a)
    {
      (a - start) / PAGE_SIZE
    }

    constructor ()
      ensures Valid() && !initialized && Frames() == 0 && fresh(bitmap)
    {
      bitmap := new byte[MAX_BITMAP_BYTES](i => 0);
      start, end := DEFAULT_START, DEFAULT_END;
      bitmapLen, initialized := 0, false;
    }

    /** The bitmap after clearing it and reserving the first `n` bytes. */
    method ResetBitmap(n: nat)
      requires bitmap.Length == MAX_BITMAP_BYTES && n <= MAX_BITMAP_BYTES
      modifies bitmap
      ensures forall i :: 0 <= i < MAX_BITMAP_BYTES ==> bitmap[i] == if i < n then 0xFF else 0
    {
      for i := 0 to MAX_BITMAP_BYTES
        invariant forall j :: 0 <= j < i ==> bitmap[j] == 0
      {
        bitmap[i] := 0;
      }
      for i := 0 to n
        invariant forall j :: 0 <= j < MAX_BITMAP_BYTES ==> bitmap[j] == if j < i then 0xFF else 0
      {
        bitmap[i] := 0xFF;
      }
    }

    /** init: the current region, with its first 256 frames reserved. */
    method Init()
      requires Valid()
      modifies this, bitmap
      ensures Valid() && initialized && start == old(start) && end == old(end)
      ensures Frames() == (end - start) / PAGE_SIZE
      ensures forall i: nat :: i in Used() <==> i < Frames() && i < 256
    {
      var frames := (end - start) / PAGE_SIZE;
      var len := (frames + 7) / 8;
      var reserved := if len < 32 then len else 32;
      ResetBitmap(reserved);
      bitmapLen := len;
      initialized := true;
      ReservedBits(bitmap[..], reserved, Frames());
    }

    /** The search of init_from_memory_map for the best range. */
    static method ChooseRange(ranges: seq<MemRange>) returns (chosen: Option<nat>, bestStart: nat, bestEnd: nat)
      ensures chosen.None? ==> bestStart == DEFAULT_START && bestEnd == DEFAULT_END
      ensures chosen.None? ==> forall i :: 0 <= i < |ranges| ==> ranges[i].Size() <= DEFAULT_END - DEFAULT_START
      ensures chosen.Some? ==> FirstLargest(ranges, chosen.value)
      ensures chosen.Some? ==> bestStart == ranges[chosen.value].Lo() && bestEnd == ranges[chosen.value].Hi()
    {
      chosen, bestStart, bestEnd := None, DEFAULT_START, DEFAULT_END;
      for i := 0 to |ranges|
        invariant chosen.None? ==> bestStart == DEFAULT_START && bestEnd == DEFAULT_END
        invariant chosen.Some? ==> chosen.value < i && FirstLargest(ranges[..i], chosen.value)
        invariant chosen.Some? ==> bestStart == ranges[chosen.value].Lo() && bestEnd == ranges[chosen.value].Hi()
        invariant bestStart < bestEnd && forall j :: 0 <= j < i ==> ranges[j].Size() <= bestEnd - bestStart
      {
        var r := ranges[i];
        if r.Usable() && r.Hi() - r.Lo() > bestEnd - bestStart {
          chosen, bestStart, bestEnd := Some(i), r.Lo(), r.Hi();
        }
      }
      assert ranges[..|ranges|] == ranges;
    }

    /**
     * init_from_memory_map: take the first largest usable range above 32 MiB, else the default region. The result
     * names the chosen range. The region is 8192 frames from the range's first page boundary.
     */
    method InitFromMemoryMap(ranges: seq<MemRange>) returns (chosen: Option<nat>)
      requires Valid()
      modifies this, bitmap
      ensures old(initialized) ==>
        start == old(start) && end == old(end) && bitmap[..] == old(bitmap[..]) && chosen.None?
      ensures Valid() && initialized
      ensures !old(initialized) && chosen.None? ==> start == DEFAULT_START && end == DEFAULT_END
      ensures !old(initialized) && chosen.None? ==>
        forall i :: 0 <= i < |ranges| ==> ranges[i].Size() <= DEFAULT_END - DEFAULT_START
      ensures chosen.Some? ==>
        FirstLargest(ranges, chosen.value) && start == PageUp(ranges[chosen.value].Lo()) && Frames() == MAX_FRAMES
      ensures !old(initialized) ==> forall i: nat :: i in Used() <==> i < 256 && start < 0x0020_0000
    {
      if initialized { return None; }
      var bestStart, bestEnd;
      chosen, bestStart, bestEnd := ChooseRange(ranges);
      RegionFits(bestStart, bestEnd);
      start, end := PageUp(bestStart), PageDown(bestEnd);
      var frames := (end - start) / PAGE_SIZE;
      var len := (frames + 7) / 8;
      var effectiveLen := if len < MAX_BITMAP_BYTES then len else MAX_BITMAP_BYTES;
      var reserved := if start < 0x0020_0000 then if effectiveLen < 32 then effectiveLen else 32 else 0;
      ResetBitmap(reserved);
      bitmapLen := effectiveLen;
      end := start + 8 * effectiveLen * PAGE_SIZE;
      initialized := true;
      ReservedBits(bitmap[..], reserved, Frames());
    }

    /** alloc_frame: the lowest free frame; the address is always inside the region. */
    method AllocFrame() returns (r: Option<nat>)
      requires Valid()
      modifies bitmap
      ensures r.None? ==> bitmap[..] == old(bitmap[..]) && forall i: nat :: i in Used() <==> i < Frames()
      ensures r.None? <==> |old(Used())| == Frames()
      ensures r.Some? ==> |Used()| == |old(Used())| + 1
      ensures r.Some? ==> InRegion(r.value) && r.value % PAGE_SIZE == 0
      ensures r.Some? ==> var i := IndexOf(r.value);
                          LowestFree(old(Used()), Frames(), i) && r.value == Addr(i)
                          && bitmap[..] == SetAt(old(bitmap[..]), i) && Used() == old(Used()) + {i}
    {
      var idx := FirstClear();
      if idx.None? {
        AllUsedCount(Used(), Frames());
        return None;
      }
      var i := idx.value;
      NotFull(Used(), Frames(), i);
      MarkFrame(i);
      var addr := start + i * PAGE_SIZE;
      InsideRegion(start, end, i);
      assert addr < end;
      IndexOfAddr(start, end, i);
      r := Some(addr);
    }

    /** Set the bit of frame `i`. */
    method MarkFrame(i: nat)
      requires Valid() && i < Frames()
      modifies bitmap
      ensures bitmap[..] == SetAt(old(bitmap[..]), i) && Used() == old(Used()) + {i}
    {
      ghost var before := bitmap[..];
      bitmap[i / 8] := SetByteBit(bitmap[i / 8], i % 8);
      assert bitmap[..] == SetAt(before, i);
      UsedAfterSet(before, i, Frames());
    }

    /** The scan of alloc_frame: byte by byte, then bit by bit. */
    method FirstClear() returns (r: Option<nat>)
      requires Valid()
      ensures r.Some? ==> LowestFree(Used(), Frames(), r.value)
      ensures r.None? ==> forall i: nat :: i in Used() <==> i < Frames()
    {
      for n := 0 to bitmapLen
        invariant forall j :: 0 <= j < 8 * n ==> BitAt(bitmap[..], j)
      {
        var k := FirstClearIn(bitmap[n]);
        if k < 8 {
          ByteBits(bitmap[..], n, k);
          return Some(8 * n + k);
        }
        ByteBits(bitmap[..], n, 8);
      }
      r := None;
    }

    /** The scan of one byte: its lowest clear bit, or 8. */
    static method FirstClearIn(b: byte) returns (k: nat)
      ensures k <= 8 && (k < 8 ==> !Bit(b, k)) && forall j :: 0 <= j < k ==> Bit(b, j)
    {
      if b == 0xFF {
        forall j | 0 <= j < 8 ensures Bit(b, j) { FullByte(j); }
        return 8;
      }
      k := 0;
      while k < 8
        invariant k <= 8 && forall j :: 0 <= j < k ==> Bit(b, j)
      {
        if !Bit(b, k) { return; }
        k := k + 1;
      }
    }

    /**
     * free_frame: addresses outside the region are ignored; inside it, the frame must be allocated (else the source
     * panics).
     */
    method FreeFrame(a: nat)
      requires Valid() && (InRegion(a) ==> initialized && IndexOf(a) in Used())
      modifies bitmap
      ensures !InRegion(a) ==> bitmap[..] == old(bitmap[..])
      ensures InRegion(a) ==> bitmap[..] == ClearAt(old(bitmap[..]), IndexOf(a)) && Used() == old(Used()) - {IndexOf(a)}
    {
      if a < start || a >= end { return; }
      var i := (a - start) / PAGE_SIZE;
      ghost var before := bitmap[..];
      bitmap[i / 8] := ClearByteBit(bitmap[i / 8], i % 8);
      assert bitmap[..] == ClearAt(before, i);
      UsedAfterClear(before, i, Frames());
    }
  }

  /** Frames of the bitmap lie inside the region. */
  lemma InsideRegion(start: nat, end: nat, i: nat)
    requires start <= end && (end - start) % (8 * PAGE_SIZE) == 0 && i < 8 * ((end - start) / (8 * PAGE_SIZE))
    ensures start + i * PAGE_SIZE < end
  {
  }

  lemma IndexOfAddr(start: nat, end: nat, i: nat)
    requires start % PAGE_SIZE == 0 && start + i * PAGE_SIZE < end
    ensures (start + i * PAGE_SIZE) % PAGE_SIZE == 0 && (start + i * PAGE_SIZE - start) / PAGE_SIZE == i
  {
  }

  lemma UsedAfterSet(bm: seq<byte>, i: nat, n: nat)
    requires i < n <= 8 * |bm|
    ensures UsedFrames(SetAt(bm, i), n) == UsedFrames(bm, n) + {i}
  {
    forall j: nat | j < n ensures BitAt(SetAt(bm, i), j) == (j == i || BitAt(bm, j)) { BitAtSet(bm, i, j); }
  }

  lemma UsedAfterClear(bm: seq<byte>, i: nat, n: nat)
    requires i < n <= 8 * |bm|
    ensures UsedFrames(ClearAt(bm, i), n) == UsedFrames(bm, n) - {i}
  {
    forall j: nat | j < n ensures BitAt(ClearAt(bm, i), j) == (j != i && BitAt(bm, j)) { BitAtClear(bm, i, j); }
  }

  lemma ReservedBits(bm: seq<byte>, r: nat, n: nat)
    requires r <= |bm| && n <= 8 * |bm| && forall i :: 0 <= i < |bm| ==> bm[i] == if i < r then 0xFF else 0
    ensures forall i: nat :: i in UsedFrames(bm, n) <==> i < n && i < 8 * r
  {
    forall i: nat | i < n ensures BitAt(bm, i) <==> i < 8 * r {
      if i < 8 * r { FullByte(i % 8); } else { ZeroBits(i % 8); }
    }
  }

  lemma ZeroBits(k: nat)
    ensures !Bit(0, k)
  {
    if k > 0 { ZeroBits(k - 1); }
  }

  /** Clearing the bit that was just set gives back the bitmap. */
  lemma ClearUndoesSet(bm: seq<byte>, i: nat)
    requires i < 8 * |bm| && !BitAt(bm, i)
    ensures ClearAt(SetAt(bm, i), i) == bm
  {
    forall j: nat | j < 8 * |bm| ensures BitAt(ClearAt(SetAt(bm, i), i), j) == BitAt(bm, j) {
      BitAtSet(bm, i, j);
      BitAtClear(SetAt(bm, i), i, j);
    }
    BitmapsEqual(ClearAt(SetAt(bm, i), i), bm);
  }

  /** The bits of one byte of the bitmap: the first `k` are set, and bit `k` is clear unless it is past the byte. */
  lemma ByteBits(bm: seq<byte>, n: nat, k: nat)
    requires n < |bm| && k <= 8 && (forall j :: 0 <= j < k ==> Bit(bm[n], j)) && (k < 8 ==> !Bit(bm[n], k))
    ensures forall j :: 8 * n <= j < 8 * n + k ==> BitAt(bm, j)
    ensures k < 8 ==> !BitAt(bm, 8 * n + k)
  {
    forall j | 8 * n <= j < 8 * n + k ensures BitAt(bm, j) { assert j / 8 == n && j % 8 == j - 8 * n; }
    if k < 8 { assert (8 * n + k) / 8 == n && (8 * n + k) % 8 == k; }
  }

  /** The first `n` frames. */
  ghost function FirstFrames(n: nat): (s: set<nat>)
    ensures |s| == n && forall i: nat :: i in s <==> i < n
  {
    if n == 0 then {} else FirstFrames(n - 1) + {n - 1}
  }

  // ---- Lowest first -------------------------------------------------------

  /** `used` came from `used0` by taking the lowest free frame, any number of times. */
  ghost predicate LowestFirst(used0: set<nat>, used: set<nat>) {
    used0 <= used && forall i: nat, j: nat :: i < j && j in used && j !in used0 ==> i in used
  }

  /** The number of free frames below frame `i`. */
  ghost function FreeBelow(used: set<nat>, i: nat): nat {
    if i == 0 then 0 else FreeBelow(used, i - 1) + if i - 1 in used then 0 else 1
  }

  ghost function FreeSet(used: set<nat>, i: nat): (s: set<nat>)
    ensures |s| == FreeBelow(used, i) && forall j: nat :: j in s <==> j < i && j !in used
  {
    if i == 0 then {} else if i - 1 in used then FreeSet(used, i - 1) else FreeSet(used, i - 1) + {i - 1}
  }

  lemma LowestMore(used0: set<nat>, used: set<nat>, k: nat)
    requires LowestFirst(used0, used) && forall j :: 0 <= j < k ==> j in used
    ensures LowestFirst(used0, used + {k})
  {
  }

  lemma LowestTrans(used0: set<nat>, used: set<nat>, used': set<nat>)
    requires LowestFirst(used0, used) && LowestFirst(used, used')
    ensures LowestFirst(used0, used')
  {
  }

  lemma NewCount(used0: set<nat>, used: set<nat>)
    requires used0 <= used
    ensures |used - used0| == |used| - |used0|
  {
    assert used == used0 + (used - used0);
  }

  lemma TakenBelow(used0: set<nat>, used: set<nat>, i: nat)
    requires LowestFirst(used0, used) && i !in used0 && i in used
    ensures FreeBelow(used0, i) < |used| - |used0|
  {
    NewCount(used0, used);
    var below := FreeSet(used0, i);
    forall j | j in below + {i} ensures j in used - used0 { assert j == i || j < i; }
    assert |below + {i}| == |below| + 1;
    CountSubset(below + {i}, used - used0);
  }

  lemma TakenAbove(used0: set<nat>, used: set<nat>, i: nat)
    requires LowestFirst(used0, used) && i !in used
    ensures FreeBelow(used0, i) >= |used| - |used0|
  {
    NewCount(used0, used);
    forall j | j in used - used0 ensures j in FreeSet(used0, i) { assert j < i; }
    CountSubset(used - used0, FreeSet(used0, i));
  }

  /** A frame that was free is taken exactly when more frames were taken than were free below it. */
  lemma TakenIff(used0: set<nat>, used: set<nat>, i: nat)
    requires LowestFirst(used0, used) && i !in used0
    ensures i in used <==> FreeBelow(used0, i) < |used| - |used0|
  {
    if i in used { TakenBelow(used0, used, i); } else { TakenAbove(used0, used, i); }
  }

  /** The next frame that is taken has as many free frames below it as were taken before. */
  lemma NextTaken(used0: set<nat>, used: set<nat>, k: nat)
    requires LowestFirst(used0, used) && k !in used && forall j :: 0 <= j < k ==> j in used
    ensures FreeBelow(used0, k) == |used| - |used0|
  {
    TakenAbove(used0, used, k);
    NewCount(used0, used);
    CountSubset(FreeSet(used0, k), used - used0);
  }

  /** A free frame is known by the number of free frames below it. */
  lemma {:induction false} FreeBelowGrows(used: set<nat>, i: nat, j: nat)
    requires i < j && i !in used
    ensures FreeBelow(used, i) < FreeBelow(used, j)
  {
    if i < j - 1 { FreeBelowGrows(used, i, j - 1); }
  }

  /** All frames are in use exactly when their number is that of the region. */
  lemma FullCount(used: set<nat>, n: nat)
    requires forall i :: i in used ==> i < n
    ensures |used| <= n && (|used| == n <==> forall i: nat :: i in used <==> i < n)
  {
    var all := FirstFrames(n);
    CountSubset(used, all);
    if forall i: nat :: i in used <==> i < n { assert used == all; }
  }

  lemma AllUsedCount(used: set<nat>, n: nat)
    requires forall i: nat :: i in used <==> i < n
    ensures |used| == n
  {
    FullCount(used, n);
  }

  /** A free frame: not all are used, and using it is one more. */
  lemma NotFull(used: set<nat>, n: nat, i: nat)
    requires i < n && i !in used && forall j :: j in used ==> j < n
    ensures |used| < n && |used + {i}| == |used| + 1
  {
    FullCount(used, n);
  }

  lemma {:induction false} CountSubset(a: set<nat>, b: set<nat>)
    requires a <= b
    ensures |a| <= |b| && (|a| == |b| ==> a == b)
  {
    if a != {} {
      var x :| x in a;
      CountSubset(a - {x}, b - {x});
    }
  }
}
