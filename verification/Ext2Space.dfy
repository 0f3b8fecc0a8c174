/**
 * Where alloc_block finds a block, when it finds none, and how many blocks an operation may take
 * (kernel/src/fs/ext2.rs).
 */
module Ext2Space {
  import opened Bytes
  import opened Bits
  import opened Ext2Layout
  import opened Ext2Growth

  /** The lowest free block among the groups whose descriptor claims free blocks. */
  ghost predicate FirstFit(geo: Geometry, d: Disk, b: nat) {
    forall c: nat :: c < b && geo.Addressable(c) && geo.groups[geo.GroupOf(c)].freeBlocks != 0 ==> Used(geo, d, c)
  }

  ghost predicate AllSet(bm: Block, n: nat)
    requires n <= BITS_PER_BLOCK
  {
    forall j :: 0 <= j < n ==> BitAt(bm, j)
  }

  /** The scan goes on behind group `g`: it claims no free blocks, or every bit of its bitmap block is set. */
  ghost predicate Passed(geo: Geometry, d: Disk, g: nat)
    requires g < |geo.groups|
  {
    geo.groups[g].freeBlocks == 0
    || (geo.groups[g].blockBitmap in d && AllSet(d[geo.groups[g].blockBitmap], BITS_PER_BLOCK))
  }

  ghost predicate PassedBefore(geo: Geometry, d: Disk, g: nat)
    requires g <= |geo.groups|
  {
    forall h :: 0 <= h < g ==> Passed(geo, d, h)
  }

  /**
   * The scan gives up at group `g`: it has no free block, and its bitmap block has a clear bit past the group's
   * blocks.
   */
  ghost predicate StopsAt(geo: Geometry, d: Disk, g: nat)
    requires g < |geo.groups|
  {
    && geo.groups[g].freeBlocks != 0 && geo.groups[g].blockBitmap in d
    && AllSet(d[geo.groups[g].blockBitmap], geo.blocksPerGroup)
    && !AllSet(d[geo.groups[g].blockBitmap], BITS_PER_BLOCK)
  }

  /** The scan of alloc_block passes every group, or gives up at one without looking at the groups behind it. */
  ghost predicate NoSpace(geo: Geometry, d: Disk) {
    exists g: nat :: g <= |geo.groups| && PassedBefore(geo, d, g) && (g == |geo.groups| || StopsAt(geo, d, g))
  }

  lemma PassedNext(geo: Geometry, d: Disk, g: nat)
    requires g < |geo.groups| && PassedBefore(geo, d, g) && Passed(geo, d, g)
    ensures PassedBefore(geo, d, g + 1)
  {
  }

  lemma StopsHere(geo: Geometry, d: Disk, g: nat, i: nat)
    requires g < |geo.groups| && PassedBefore(geo, d, g) && geo.groups[g].freeBlocks != 0
    requires geo.groups[g].blockBitmap in d && geo.blocksPerGroup <= i < BITS_PER_BLOCK
    requires !BitAt(d[geo.groups[g].blockBitmap], i) && AllSet(d[geo.groups[g].blockBitmap], i)
    ensures NoSpace(geo, d)
  {
    assert StopsAt(geo, d, g);
  }

  lemma AllPassed(geo: Geometry, d: Disk)
    requires PassedBefore(geo, d, |geo.groups|)
    ensures NoSpace(geo, d)
  {
  }

  /** A group that the scan reaches, claims free blocks and has one. */
  lemma FoundSpace(geo: Geometry, d: Disk, g: nat, i: nat)
    requires g < |geo.groups| && PassedBefore(geo, d, g) && geo.groups[g].freeBlocks != 0
    requires geo.groups[g].blockBitmap in d && i < geo.blocksPerGroup && !BitAt(d[geo.groups[g].blockBitmap], i)
    ensures !NoSpace(geo, d)
  {
    forall h: nat | h <= |geo.groups| && PassedBefore(geo, d, h) ensures h < |geo.groups| && !StopsAt(geo, d, h) {
      assert g < h ==> Passed(geo, d, g);
      assert h < g ==> Passed(geo, d, h);
    }
  }

  lemma FirstFitFromScan(geo: Geometry, d: Disk, g: nat, i: nat)
    requires g < |geo.groups| && i < geo.blocksPerGroup && geo.Distinct() && Present(geo, d)
    requires PassedBefore(geo, d, g)
    requires geo.groups[g].blockBitmap in d && AllSet(d[geo.groups[g].blockBitmap], i)
    ensures FirstFit(geo, d, geo.BlockAt(g, i))
  {
    BlockAtInverse(geo, g, i);
    forall c: nat | c < geo.BlockAt(g, i) && geo.Addressable(c) && geo.groups[geo.GroupOf(c)].freeBlocks != 0
      ensures Used(geo, d, c)
    {
      BlockOrder(geo, c, g, i);
      BitmapPresent(geo, d, geo.GroupOf(c));
      assert geo.GroupOf(c) < g ==> Passed(geo, d, geo.GroupOf(c));
    }
  }

  /** Block numbers follow group order, then bit order. */
  lemma BlockOrder(geo: Geometry, c: nat, g: nat, i: nat)
    requires c >= geo.firstDataBlock && i < geo.blocksPerGroup && c < geo.BlockAt(g, i)
    ensures geo.GroupOf(c) < g || (geo.GroupOf(c) == g && geo.IndexOf(c) < i)
  {
    var n := geo.blocksPerGroup;
    var h, j := geo.GroupOf(c), geo.IndexOf(c);
    assert c == geo.firstDataBlock + h * n + j;
    if h > g { MulStep(g, h, n); }
  }

  // ---- Running short ---------------------------------------------------

  /** `d` is `d0` after the free blocks in `news` were taken. */
  ghost predicate TookUp(geo: Geometry, d0: Disk, d: Disk, news: set<nat>) {
    DiskOk(geo, d0) && DiskOk(geo, d) && UsedPlus(geo, d0, d, news) && PaddingSame(geo, d0, d)
  }

  /** After fewer than `n` blocks are taken from `d0`, alloc_block finds no further one. */
  ghost predicate ShortBy(geo: Geometry, d0: Disk, n: nat) {
    exists d, news: set<nat> :: TookUp(geo, d0, d, news) && |news| < n && NoSpace(geo, d)
  }

  lemma TookNone(geo: Geometry, d: Disk)
    requires DiskOk(geo, d)
    ensures TookUp(geo, d, d, {})
  {
    UsedFrame(geo, d, d);
  }

  lemma TookMore(geo: Geometry, d0: Disk, d1: Disk, d2: Disk, s: set<nat>, t: set<nat>)
    requires TookUp(geo, d0, d1, s) && TookUp(geo, d1, d2, t)
    ensures TookUp(geo, d0, d2, s + t) && |s + t| <= |s| + |t|
  {
    UsedPlusTrans(geo, d0, d1, d2, s, t);
    PaddingTrans(geo, d0, d1, d2);
    assert t + s == s + t;
    UnionSize(s, t);
  }

  lemma UnionSize(s: set<nat>, t: set<nat>)
    ensures |s + t| <= |s| + |t|
  {
    assert s + t == s + (t - s);
    assert |t - s| <= |t| by { assert t == (t - s) + (t * s); }
  }

  lemma ShortNow(geo: Geometry, d: Disk, n: nat)
    requires DiskOk(geo, d) && NoSpace(geo, d) && n > 0
    ensures ShortBy(geo, d, n)
  {
    TookNone(geo, d);
  }

  lemma ShortLater(geo: Geometry, d0: Disk, d1: Disk, news: set<nat>, n: nat, m: nat)
    requires TookUp(geo, d0, d1, news) && ShortBy(geo, d1, n) && |news| + n <= m
    ensures ShortBy(geo, d0, m)
  {
    var d, more: set<nat> :| TookUp(geo, d1, d, more) && |more| < n && NoSpace(geo, d);
    TookMore(geo, d0, d1, d, news, more);
    ShortAt(geo, d0, d, news + more, m);
  }

  lemma ShortAt(geo: Geometry, d0: Disk, d: Disk, news: set<nat>, n: nat)
    requires TookUp(geo, d0, d, news) && |news| < n && NoSpace(geo, d)
    ensures ShortBy(geo, d0, n)
  {
  }

  // ---- Volumes whose free space is always found ------------------------

  /** Every group claims free blocks, and the bits past its blocks are set. */
  ghost predicate Padded(geo: Geometry, d: Disk) {
    forall g :: 0 <= g < |geo.groups| ==> geo.groups[g].freeBlocks != 0 && PaddingSet(geo, d, g)
  }

  ghost predicate PaddingSet(geo: Geometry, d: Disk, g: nat)
    requires g < |geo.groups|
  {
    geo.groups[g].blockBitmap in d
    && forall i :: geo.blocksPerGroup <= i < BITS_PER_BLOCK ==> BitAt(d[geo.groups[g].blockBitmap], i)
  }

  lemma PaddedKept(geo: Geometry, d0: Disk, d: Disk, news: set<nat>)
    requires TookUp(geo, d0, d, news) && Padded(geo, d0)
    ensures Padded(geo, d)
  {
    forall g | 0 <= g < |geo.groups| ensures PaddingSet(geo, d, g) {
      BitmapPresent(geo, d0, g);
      BitmapPresent(geo, d, g);
      assert PaddingSet(geo, d0, g);
      forall i | geo.blocksPerGroup <= i < BITS_PER_BLOCK ensures BitAt(d[geo.groups[g].blockBitmap], i) {
        assert GroupBit(geo, d, g, i) == GroupBit(geo, d0, g, i);
      }
    }
  }

  lemma PaddedFull(geo: Geometry, d: Disk, b: nat)
    requires DiskOk(geo, d) && Padded(geo, d) && NoSpace(geo, d)
    ensures !Free(geo, d, b)
  {
    var g: nat :| g <= |geo.groups| && PassedBefore(geo, d, g) && (g == |geo.groups| || StopsAt(geo, d, g));
    assert g == |geo.groups|;
    if geo.Addressable(b) {
      BitmapPresent(geo, d, geo.GroupOf(b));
      assert Passed(geo, d, geo.GroupOf(b));
    }
  }

  /** On a padded volume an operation that needs at most `n` blocks runs short only if fewer than `n` are free. */
  lemma ShortMeansFew(geo: Geometry, d: Disk, n: nat, free: set<nat>)
    requires DiskOk(geo, d) && Padded(geo, d) && ShortBy(geo, d, n)
    requires forall b :: b in free ==> Free(geo, d, b)
    ensures |free| < n
  {
    var d1, news: set<nat> :| TookUp(geo, d, d1, news) && |news| < n && NoSpace(geo, d1);
    PaddedKept(geo, d, d1, news);
    forall b | b in free ensures b in news {
      PaddedFull(geo, d1, b);
    }
    SubsetSize(free, news);
  }

  lemma SubsetSize(s: set<nat>, t: set<nat>)
    requires s <= t
    ensures |s| <= |t|
  {
    assert t == s + (t - s);
  }

  // ---- Free space that alloc_block does not find -----------------------

  function TwoGroups(): Geometry {
    Geometry(17, 1, 8, 8, 128, [Group(1, 2, 3, 1), Group(9, 10, 11, 1)])
  }

  function FirstByte(v: byte): Block {
    seq(1024, i => if i == 0 then v else 0)
  }

  /** Group 0 is full, group 1 has five free blocks, and the bits past the eight blocks of a group are clear. */
  function HalfFull(): Disk {
    map b: nat | b < 17 :: HalfFullBlock(b)
  }

  function HalfFullBlock(b: nat): Block {
    if b == 1 then FirstByte(0xFF) else if b == 9 then FirstByte(7) else ZeroBlock()
  }

  lemma FirstByteBit(v: byte, i: nat)
    requires i < BITS_PER_BLOCK
    ensures BitAt(FirstByte(v), i) == (i < 8 && Bit(v, i))
  {
    assert FirstByte(v)[i / 8] == if i < 8 then v else 0;
    NoBits(i % 8);
  }

  lemma {:induction false} NoBits(k: nat)
    ensures !Bit(0, k)
  {
    if k > 0 { NoBits(k - 1); }
  }

  lemma SevenBits(k: nat)
    requires k < 8
    ensures Bit(7, k) == (k < 3)
  {
    assert !Bit(7, 3) && Bit(7, 2) && Bit(7, 1) && Bit(7, 0);
    if k >= 3 {
      assert Bit(7, k) == Bit(0, k - 3) by { assert Bit(7, k) == Bit(3, k - 1) == Bit(1, k - 2); }
      NoBits(k - 3);
    }
  }

  lemma HalfFullUsed(b: nat)
    ensures Used(TwoGroups(), HalfFull(), b) <==> 1 <= b <= 11
  {
    if 1 <= b <= 8 {
      FirstByteBit(0xFF, b - 1);
      FullByte(b - 1);
    } else if 9 <= b <= 16 {
      FirstByteBit(7, b - 9);
      SevenBits(b - 9);
    }
  }

  lemma HalfFullOk()
    ensures DiskOk(TwoGroups(), HalfFull())
  {
    var geo := TwoGroups();
    assert geo.TableBlocks() == 1;
    assert geo.groups[0].blockBitmap == 1 && geo.groups[1].blockBitmap == 9;
    forall b: nat ensures geo.IsMeta(b) <==> b in {1, 2, 3, 9, 10, 11} {
      assert geo.InGroupInodeArea(0, b) <==> b in {2, 3};
      assert geo.InGroupInodeArea(1, b) <==> b in {10, 11};
    }
    forall b: nat | geo.Addressable(b) && !Used(geo, HalfFull(), b) ensures b < geo.blocksCount && !geo.IsMeta(b) {
      HalfFullUsed(b);
    }
  }

  /** The first group claims a free block and has none: alloc_block reports no space although block 12 is free. */
  lemma LostSpace()
    ensures DiskOk(TwoGroups(), HalfFull()) && NoSpace(TwoGroups(), HalfFull()) && Free(TwoGroups(), HalfFull(), 12)
  {
    HalfFullOk();
    HalfFullUsed(12);
    forall j | 0 <= j < 8 ensures BitAt(FirstByte(0xFF), j) {
      FirstByteBit(0xFF, j);
      FullByte(j);
    }
    FirstByteBit(0xFF, 8);
    StopsHere(TwoGroups(), HalfFull(), 0, 8);
  }
}
