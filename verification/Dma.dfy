/** All-or-nothing allocation of physically contiguous frames (kernel/src/memory/dma.rs). */
module Dma {
  import opened Bytes
  import opened Bits
  import opened FrameAlloc

  const DMA_PHYSICAL_LIMIT: nat := 0x1_0000_0000

  datatype DmaBuffer = DmaBuffer(phys: nat, size: nat)

  predicate IsPowerOfTwo(n: nat) {
    n == 1 || (n > 1 && n % 2 == 0 && IsPowerOfTwo(n / 2))
  }

  predicate ValidRequest(size: nat, alignment: nat) {
    && size != 0 && size % PAGE_SIZE == 0
    && alignment != 0 && IsPowerOfTwo(alignment) && alignment % PAGE_SIZE == 0
  }

  /** Bitmap `bm` is `bm0` with the bits from `lo` to `hi` set as well. */
  ghost predicate RunSet(bm0: seq<byte>, bm: seq<byte>, lo: nat, hi: nat) {
    |bm| == |bm0| && forall j: nat :: j < 8 * |bm0| ==> BitAt(bm, j) == (BitAt(bm0, j) || lo <= j < hi)
  }

  /** The frames from `k` on, `n` of them, exist and are all free. */
  predicate RunFree(used: set<nat>, frames: nat, k: nat, n: nat) {
    k + n <= frames && forall j :: k <= j < k + n ==> j !in used
  }

  lemma RunSetGrow(bm0: seq<byte>, bm: seq<byte>, lo: nat, hi: nat)
    requires RunSet(bm0, bm, lo, hi) && lo <= hi < 8 * |bm0|
    ensures RunSet(bm0, SetAt(bm, hi), lo, hi + 1)
  {
    forall j: nat | j < 8 * |bm0|
      ensures BitAt(SetAt(bm, hi), j) == (BitAt(bm0, j) || lo <= j < hi + 1)
    {
      BitAtSet(bm, hi, j);
    }
  }

  lemma RunSetShrink(bm0: seq<byte>, bm: seq<byte>, lo: nat, hi: nat)
    requires RunSet(bm0, bm, lo, hi) && lo < hi <= 8 * |bm0| && !BitAt(bm0, lo)
    ensures RunSet(bm0, ClearAt(bm, lo), lo + 1, hi)
  {
    forall j: nat | j < 8 * |bm0|
      ensures BitAt(ClearAt(bm, lo), j) == (BitAt(bm0, j) || lo + 1 <= j < hi)
    {
      BitAtClear(bm, lo, j);
    }
  }

  lemma RunSetEmpty(bm0: seq<byte>, bm: seq<byte>, lo: nat)
    requires RunSet(bm0, bm, lo, lo)
    ensures bm == bm0
  {
    BitmapsEqual(bm, bm0);
  }

  /** What the run does to the set of used frames. */
  lemma RunSetUsed(bm0: seq<byte>, bm: seq<byte>, lo: nat, hi: nat, frames: nat)
    requires RunSet(bm0, bm, lo, hi) && frames <= 8 * |bm0|
    ensures forall j: nat :: j in UsedFrames(bm, frames) <==>
      j < frames && (j in UsedFrames(bm0, frames) || lo <= j < hi)
  {
  }

  /** Give back the frames from `lo` to `hi`, lowest first. */
  method FreeRun(fa: FrameAllocator, phys: nat, count: nat, ghost bm0: seq<byte>, ghost k: nat)
    requires fa.Valid() && fa.initialized && |bm0| == MAX_BITMAP_BYTES && RunSet(bm0, fa.bitmap[..], k, k + count)
    requires k + count <= fa.Frames() && (forall j :: k <= j < k + count ==> !BitAt(bm0, j)) && phys == fa.Addr(k)
    modifies fa.bitmap
    ensures fa.bitmap[..] == bm0
  {
    for i := 0 to count
      invariant RunSet(bm0, fa.bitmap[..], k + i, k + count)
    {
      var frame := phys + PAGE_SIZE * i;
      FrameIndex(fa.start, fa.end, k + i);
      RunSetShrink(bm0, fa.bitmap[..], k + i, k + count);
      fa.FreeFrame(frame);
    }
    RunSetEmpty(bm0, fa.bitmap[..], k + count);
  }

  lemma FrameIndex(start: nat, end: nat, i: nat)
    requires start <= end && (end - start) % (8 * PAGE_SIZE) == 0 && i < 8 * ((end - start) / (8 * PAGE_SIZE))
    ensures start + PAGE_SIZE * i < end && (start + PAGE_SIZE * i - start) / PAGE_SIZE == i
  {
  }

  /** free_dma: frees every page of the buffer. */
  method FreeDma(fa: FrameAllocator, dma: DmaBuffer, ghost bm0: seq<byte>, ghost k: nat)
    requires fa.Valid() && fa.initialized && |bm0| == MAX_BITMAP_BYTES
    requires RunSet(bm0, fa.bitmap[..], k, k + dma.size / PAGE_SIZE)
    requires k + dma.size / PAGE_SIZE <= fa.Frames()
    requires (forall j :: k <= j < k + dma.size / PAGE_SIZE ==> !BitAt(bm0, j))
    requires dma.phys == fa.Addr(k)
    modifies fa.bitmap
    ensures fa.bitmap[..] == bm0
  {
    FreeRun(fa, dma.phys, dma.size / PAGE_SIZE, bm0, k);
  }

  /** The next lowest free frame continues the run exactly when the frame behind the run was free. */
  lemma NextInRun(bm0: seq<byte>, bm: seq<byte>, k: nat, i: nat, frames: nat, f: nat)
    requires RunSet(bm0, bm, k, k + i) && frames <= 8 * |bm0|
    requires LowestFree(UsedFrames(bm, frames), frames, f)
    requires i > 0 ==> LowestFree(UsedFrames(bm0, frames), frames, k)
    ensures i == 0 ==> LowestFree(UsedFrames(bm0, frames), frames, f)
    ensures i > 0 ==> (f == k + i <==> k + i < frames && k + i !in UsedFrames(bm0, frames))
  {
    RunSetUsed(bm0, bm, k, k + i, frames);
    var u0, u := UsedFrames(bm0, frames), UsedFrames(bm, frames);
    if i > 0 {
      assert k !in u0 && k in u;
      assert forall j :: 0 <= j < k ==> j in u0;
      assert f >= k + i;
    } else {
      assert u == u0;
    }
  }

  /** The lowest free frame starts a free run of `size` bytes that ends below 4 GiB. */
  ghost predicate Possible(used: set<nat>, frames: nat, start: nat, size: nat) {
    exists k :: LowestFree(used, frames, k) && RunFits(used, frames, start, k, size / PAGE_SIZE)
  }

  predicate RunFits(used: set<nat>, frames: nat, start: nat, k: nat, n: nat) {
    RunFree(used, frames, k, n) && start + PAGE_SIZE * (k + n) <= DMA_PHYSICAL_LIMIT
  }

  /** Frame `j + i` cannot extend a run of `i` frames from `j`. */
  predicate Blocked(used: set<nat>, frames: nat, start: nat, j: nat, i: nat) {
    j + i >= frames || j + i in used || start + PAGE_SIZE * (j + i + 1) > DMA_PHYSICAL_LIMIT
  }

  lemma NotPossible(used: set<nat>, frames: nat, start: nat, size: nat, i: nat)
    requires i < size / PAGE_SIZE && forall j: nat :: LowestFree(used, frames, j) ==> Blocked(used, frames, start, j, i)
    ensures !Possible(used, frames, start, size)
  {
    forall k: nat | LowestFree(used, frames, k) ensures !RunFits(used, frames, start, k, size / PAGE_SIZE) {
      assert Blocked(used, frames, start, k, i);
    }
  }

  /** Physical memory with `n` bytes from `at` on zeroed. */
  function ZeroRange(mem: nat -> byte, at: nat, n: nat): nat -> byte {
    (a: nat) => if at <= a < at + n then 0 else mem(a)
  }

  /**
   * alloc_dma: exactly when the lowest free frame starts a long enough free run below 4 GiB, that run is taken
   * and zeroed.
   */
  method AllocDma(fa: FrameAllocator, size: nat, alignment: nat, mem: nat -> byte)
    returns (r: Option<DmaBuffer>, mem': nat -> byte, ghost k: nat)
    requires fa.Valid() && fa.initialized
    modifies fa.bitmap
    ensures r.None? ==> fa.bitmap[..] == old(fa.bitmap[..])
    ensures r.Some? <==> ValidRequest(size, alignment) && Possible(old(fa.Used()), fa.Frames(), fa.start, size)
    ensures r.Some? ==>
      LowestFree(old(fa.Used()), fa.Frames(), k) && RunFree(old(fa.Used()), fa.Frames(), k, size / PAGE_SIZE)
    ensures r.Some? ==>
      r.value == DmaBuffer(fa.Addr(k), size) && RunSet(old(fa.bitmap[..]), fa.bitmap[..], k, k + size / PAGE_SIZE)
    ensures forall a: nat :: mem'(a) == if r.Some? && r.value.phys <= a < r.value.phys + r.value.size then 0 else mem(a)
  {
    k, mem' := 0, mem;
    if !ValidRequest(size, alignment) { return None, mem, 0; }
    var n := size / PAGE_SIZE;
    ghost var bm0, used := fa.bitmap[..], fa.Used();
    var frames: seq<nat> := [];
    for i := 0 to n
      invariant |frames| == i && Collected(fa, bm0, frames, k)
      invariant used == UsedFrames(bm0, fa.Frames())
    {
      var frame;
      frame, k := TakeNext(fa, frames, bm0, k);
      if frame.None? {
        NotPossible(used, fa.Frames(), fa.start, size, i);
        return None, mem, k;
      }
      frames := frames + [frame.value];
    }
    assert RunFits(used, fa.Frames(), fa.start, k, n);
    mem' := ZeroRange(mem, frames[0], size);
    r := Some(DmaBuffer(frames[0], size));
  }

  /**
   * The frames collected so far are a run from the lowest free frame, below 4 GiB, and `bm` is `bm0` with that run
   * taken.
   */
  ghost predicate Run(bm0: seq<byte>, bm: seq<byte>, start: nat, total: nat, frames: seq<nat>, k: nat) {
    && |bm0| == MAX_BITMAP_BYTES && total <= 8 * |bm0| && RunSet(bm0, bm, k, k + |frames|)
    && (forall j :: 0 <= j < |frames| ==> frames[j] == start + PAGE_SIZE * (k + j))
    && (frames != [] ==> LowestFree(UsedFrames(bm0, total), total, k))
    && (frames != [] ==> RunFits(UsedFrames(bm0, total), total, start, k, |frames|))
  }

  ghost predicate Collected(fa: FrameAllocator, bm0: seq<byte>, frames: seq<nat>, k: nat)
    reads fa, fa.bitmap
  {
    fa.Valid() && fa.initialized && Run(bm0, fa.bitmap[..], fa.start, fa.Frames(), frames, k)
  }

  /** Adding the lowest free frame `f` to the run, when it continues it. */
  lemma ExtendRun(bm0: seq<byte>, bm: seq<byte>, start: nat, total: nat, frames: seq<nat>, k: nat, f: nat)
    returns (k': nat)
    requires Run(bm0, bm, start, total, frames, k) && LowestFree(UsedFrames(bm, total), total, f)
    requires frames != [] ==> f == k + |frames|
    requires start + PAGE_SIZE * (f + 1) <= DMA_PHYSICAL_LIMIT
    ensures Run(bm0, SetAt(bm, f), start, total, frames + [start + PAGE_SIZE * f], k')
  {
    k' := k;
    NextInRun(bm0, bm, k, |frames|, total, f);
    if frames == [] {
      RunSetEmpty(bm0, bm, k);
      k' := f;
    }
    RunSetGrow(bm0, bm, k', f);
  }

  /** Give back all collected frames. */
  method Rollback(fa: FrameAllocator, frames: seq<nat>, ghost bm0: seq<byte>, ghost k: nat)
    requires Collected(fa, bm0, frames, k)
    modifies fa.bitmap
    ensures fa.bitmap[..] == bm0
  {
    if frames == [] {
      RunSetEmpty(bm0, fa.bitmap[..], k);
    } else {
      forall j | k <= j < k + |frames| ensures !BitAt(bm0, j) {
        assert j !in UsedFrames(bm0, fa.Frames());
      }
      FreeRun(fa, frames[0], |frames|, bm0, k);
    }
  }

  /** Give back the frame just taken and all collected frames. */
  method Reject(fa: FrameAllocator, frame: nat, frames: seq<nat>, ghost bm: seq<byte>, ghost bm0: seq<byte>,
                ghost k: nat)
    requires fa.Valid() && fa.initialized && Run(bm0, bm, fa.start, fa.Frames(), frames, k)
    requires fa.InRegion(frame) && fa.IndexOf(frame) in fa.Used()
    requires |bm| == MAX_BITMAP_BYTES && fa.IndexOf(frame) < 8 * MAX_BITMAP_BYTES && !BitAt(bm, fa.IndexOf(frame))
    requires fa.bitmap[..] == SetAt(bm, fa.IndexOf(frame))
    modifies fa.bitmap
    ensures fa.bitmap[..] == bm0
  {
    ClearUndoesSet(bm, fa.IndexOf(frame));
    fa.FreeFrame(frame);
    Rollback(fa, frames, bm0, k);
  }

  lemma FullBlocked(bm0: seq<byte>, bm: seq<byte>, k: nat, i: nat, frames: nat, start: nat)
    requires RunSet(bm0, bm, k, k + i) && frames <= 8 * |bm0|
    requires forall j: nat :: j in UsedFrames(bm, frames) <==> j < frames
    requires i > 0 ==> LowestFree(UsedFrames(bm0, frames), frames, k)
    ensures forall j: nat :: LowestFree(UsedFrames(bm0, frames), frames, j) ==>
      Blocked(UsedFrames(bm0, frames), frames, start, j, i)
  {
    RunSetUsed(bm0, bm, k, k + i, frames);
    forall j: nat | LowestFree(UsedFrames(bm0, frames), frames, j)
      ensures Blocked(UsedFrames(bm0, frames), frames, start, j, i)
    {
      if i > 0 {
        assert j == k;
        assert k + i < frames ==> k + i in UsedFrames(bm, frames);
      }
    }
  }

  /** A frame that does not continue the run, or lies too high, blocks it. */
  lemma FrameBlocks(bm0: seq<byte>, bm: seq<byte>, k: nat, i: nat, frames: nat, start: nat, f: nat)
    requires RunSet(bm0, bm, k, k + i) && frames <= 8 * |bm0| && LowestFree(UsedFrames(bm, frames), frames, f)
    requires i > 0 ==> LowestFree(UsedFrames(bm0, frames), frames, k)
    requires (i > 0 && f != k + i) || start + PAGE_SIZE * (f + 1) > DMA_PHYSICAL_LIMIT
    ensures forall j: nat :: LowestFree(UsedFrames(bm0, frames), frames, j) ==>
      Blocked(UsedFrames(bm0, frames), frames, start, j, i)
  {
    NextInRun(bm0, bm, k, i, frames, f);
  }

  /** One round of alloc_dma: allocate a frame that continues the run, or give everything back. */
  method TakeNext(fa: FrameAllocator, frames: seq<nat>, ghost bm0: seq<byte>, ghost k: nat)
    returns (r: Option<nat>, ghost k': nat)
    requires Collected(fa, bm0, frames, k)
    modifies fa.bitmap
    ensures r.Some? ==> Collected(fa, bm0, frames + [r.value], k')
    ensures r.None? ==> fa.bitmap[..] == bm0
    ensures r.None? ==> forall j: nat :: LowestFree(UsedFrames(bm0, fa.Frames()), fa.Frames(), j) ==>
      Blocked(UsedFrames(bm0, fa.Frames()), fa.Frames(), fa.start, j, |frames|)
  {
    k' := k;
    ghost var i, bm := |frames|, fa.bitmap[..];
    r := fa.AllocFrame();
    if r.None? {
      assert fa.Used() == UsedFrames(bm, fa.Frames());
      FullBlocked(bm0, bm, k, i, fa.Frames(), fa.start);
      Rollback(fa, frames, bm0, k);
      return;
    }
    var frame := r.value;
    ghost var f := fa.IndexOf(frame);
    var apart := |frames| > 0 && frame != frames[|frames| - 1] + PAGE_SIZE;
    if apart || frame + PAGE_SIZE > DMA_PHYSICAL_LIMIT {
      FrameBlocks(bm0, bm, k, i, fa.Frames(), fa.start, f);
      Reject(fa, frame, frames, bm, bm0, k);
      return None, k;
    }
    k' := ExtendRun(bm0, bm, fa.start, fa.Frames(), frames, k, f);
  }

  /** Allocating a DMA buffer and freeing it leaves the bitmap as it was. */
  method AllocThenFree(fa: FrameAllocator, size: nat, alignment: nat, mem: nat -> byte) returns (ok: bool)
    requires fa.Valid() && fa.initialized
    modifies fa.bitmap
    ensures fa.bitmap[..] == old(fa.bitmap[..])
    ensures ok <==> ValidRequest(size, alignment) && Possible(old(fa.Used()), fa.Frames(), fa.start, size)
  {
    ghost var bm0, k := fa.bitmap[..], 0;
    var dma, mem';
    dma, mem', k := AllocDma(fa, size, alignment, mem);
    ok := dma.Some?;
    if ok {
      forall j | k <= j < k + size / PAGE_SIZE ensures !BitAt(bm0, j) {
        assert j !in UsedFrames(bm0, fa.Frames());
      }
      FreeDma(fa, dma.value, bm0, k);
    }
  }
}
