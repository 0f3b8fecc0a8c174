/** The fixed geometry of an ext2 volume: blocks, block groups, bitmaps and pointer blocks (kernel/src/fs/ext2.rs). */
module Ext2Layout {
  import opened Bytes
  import opened Bits

  /** Pointers per indirect block: block_size / 4. */
  const ENTRIES: nat := 256
  const BITS_PER_BLOCK: nat := 8192

  type Block = s: seq<byte> | |s| == 1024 witness seq(1024, i => 0)
  type Disk = map<nat, Block>
  type PerGroup = x: int | 1 <= x <= 8192 witness 1
  type Positive = x: int | 1 <= x witness 1

  function ZeroBlock(): Block {
    seq(1024, i => 0)
  }

  /** Pointer `i` of an indirect block. */
  function Entry(b: Block, i: nat): u32
    requires i < ENTRIES
  {
    GetU32(b, 4 * i)
  }

  function SetEntry(b: Block, i: nat, v: u32): Block
    requires i < ENTRIES
  {
    PutU32(b, 4 * i, v)
  }

  lemma EntryOfSetEntry(b: Block, i: nat, v: u32, j: nat)
    requires i < ENTRIES && j < ENTRIES
    ensures Entry(SetEntry(b, i, v), j) == if j == i then v else Entry(b, j)
  {
    if j == i {
      PutU32Get(b, 4 * i, v);
    } else {
      var r := SetEntry(b, i, v);
      assert r[4 * j..4 * j + 4] == b[4 * j..4 * j + 4];
      GetU32Same(r, 4 * j, b, 4 * j);
    }
  }

  lemma EntryOfZeroBlock(i: nat)
    requires i < ENTRIES
    ensures Entry(ZeroBlock(), i) == 0
  {
  }

  /** A block group descriptor; the free count is read once at mount and never written back. */
  datatype Group = Group(blockBitmap: nat, inodeBitmap: nat, inodeTable: nat, freeBlocks: nat)

  datatype Geometry = Geometry(
    blocksCount: nat,
    firstDataBlock: Positive,
    blocksPerGroup: PerGroup,
    inodesPerGroup: PerGroup,
    inodeSize: nat,
    groups: seq<Group>)
  {
    function GroupOf(b: nat): nat
      requires b >= firstDataBlock
    {
      (b - firstDataBlock) / blocksPerGroup
    }

    function IndexOf(b: nat): nat
      requires b >= firstDataBlock
    {
      (b - firstDataBlock) % blocksPerGroup
    }

    /** The block that bit `i` of group `g` stands for. */
    function BlockAt(g: nat, i: nat): nat {
      firstDataBlock + g * blocksPerGroup + i
    }

    /** Blocks that have a bit in some group's bitmap. */
    predicate Addressable(b: nat) {
      b >= firstDataBlock && GroupOf(b) < |groups|
    }

    predicate IsBlockBitmap(b: nat) {
      exists g :: 0 <= g < |groups| && b == groups[g].blockBitmap
    }

    function TableBlocks(): nat {
      (inodesPerGroup * SlotSize() + 1023) / 1024
    }

    /** superblock.inode_size.max(INODE_SIZE) */
    function SlotSize(): nat {
      if inodeSize < 128 then 128 else inodeSize
    }

    predicate InGroupInodeArea(g: nat, b: nat)
      requires g < |groups|
    {
      b == groups[g].inodeBitmap || groups[g].inodeTable <= b < groups[g].inodeTable + TableBlocks()
    }

    predicate IsInodeArea(b: nat) {
      exists g :: 0 <= g < |groups| && InGroupInodeArea(g, b)
    }

    predicate IsMeta(b: nat) {
      IsBlockBitmap(b) || IsInodeArea(b)
    }

    /** Bitmaps and inode tables of different groups lie in different blocks of the volume. */
    ghost predicate Distinct() {
      && blocksCount <= U32_LIMIT
      && (forall g, h :: 0 <= g < |groups| && 0 <= h < |groups| && groups[g].blockBitmap == groups[h].blockBitmap ==>
          g == h)
      && (forall g, h, b: nat ::
          0 <= g < |groups| && 0 <= h < |groups| && InGroupInodeArea(g, b) && InGroupInodeArea(h, b) ==> g == h)
      && (forall g :: 0 <= g < |groups| ==>
        !IsInodeArea(groups[g].blockBitmap)
        && !(groups[g].inodeTable <= groups[g].inodeBitmap < groups[g].inodeTable + TableBlocks()))
      && (forall b: nat :: IsMeta(b) ==> b < blocksCount)
    }
  }

  lemma BlockAtInverse(geo: Geometry, g: nat, i: nat)
    requires i < geo.blocksPerGroup
    ensures geo.GroupOf(geo.BlockAt(g, i)) == g && geo.IndexOf(geo.BlockAt(g, i)) == i
  {
    DivModUnique(geo.BlockAt(g, i) - geo.firstDataBlock, geo.blocksPerGroup, g, i);
  }

  lemma MulStep(a: nat, b: nat, n: nat)
    requires a < b
    ensures a * n + n <= b * n
    decreases b
  {
    assert b * n == (b - 1) * n + n;
    if a < b - 1 { MulStep(a, b - 1, n); }
  }

  lemma DivModUnique(x: nat, n: nat, q: nat, r: nat)
    requires n > 0 && r < n && x == q * n + r
    ensures x / n == q && x % n == r
  {
    var q' := x / n;
    if q' < q {
      MulStep(q', q, n);
    } else if q < q' {
      MulStep(q, q', n);
    }
  }

  lemma SameBitSameBlock(geo: Geometry, b: nat, c: nat)
    requires b >= geo.firstDataBlock && c >= geo.firstDataBlock
    requires geo.GroupOf(b) == geo.GroupOf(c) && geo.IndexOf(b) == geo.IndexOf(c)
    ensures b == c
  {
    var n := geo.blocksPerGroup;
    assert b - geo.firstDataBlock == geo.GroupOf(b) * n + geo.IndexOf(b);
    assert c - geo.firstDataBlock == geo.GroupOf(c) * n + geo.IndexOf(c);
  }

  /** The volume is fully present on the device. */
  ghost predicate Present(geo: Geometry, d: Disk) {
    forall b :: 0 <= b < geo.blocksCount ==> b in d
  }

  /** Bit `i` of group `g`'s block bitmap. */
  predicate GroupBit(geo: Geometry, d: Disk, g: nat, i: nat)
    requires g < |geo.groups| && geo.groups[g].blockBitmap in d && i < BITS_PER_BLOCK
  {
    BitAt(d[geo.groups[g].blockBitmap], i)
  }

  /** Block `b` is marked used in its group's bitmap. */
  predicate Used(geo: Geometry, d: Disk, b: nat) {
    geo.Addressable(b)
    && geo.groups[geo.GroupOf(b)].blockBitmap in d
    && GroupBit(geo, d, geo.GroupOf(b), geo.IndexOf(b))
  }

  function MarkUsed(geo: Geometry, d: Disk, b: nat): Disk
    requires geo.Addressable(b) && geo.groups[geo.GroupOf(b)].blockBitmap in d
  {
    var bm := geo.groups[geo.GroupOf(b)].blockBitmap;
    d[bm := SetAt(d[bm], geo.IndexOf(b))]
  }

  function MarkFree(geo: Geometry, d: Disk, b: nat): Disk
    requires geo.Addressable(b) && geo.groups[geo.GroupOf(b)].blockBitmap in d
  {
    var bm := geo.groups[geo.GroupOf(b)].blockBitmap;
    d[bm := ClearAt(d[bm], geo.IndexOf(b))]
  }

  /** Metadata blocks and bits past the end of the volume are marked used, so they are never handed out. */
  ghost predicate Reserved(geo: Geometry, d: Disk) {
    forall b: nat :: geo.Addressable(b) && !Used(geo, d, b) ==> b < geo.blocksCount && !geo.IsMeta(b)
  }

  ghost predicate DiskOk(geo: Geometry, d: Disk) {
    geo.Distinct() && Present(geo, d) && Reserved(geo, d)
  }

  lemma BitmapPresent(geo: Geometry, d: Disk, g: nat)
    requires geo.Distinct() && Present(geo, d) && g < |geo.groups|
    ensures geo.groups[g].blockBitmap in d && geo.IsBlockBitmap(geo.groups[g].blockBitmap)
  {
    assert geo.IsMeta(geo.groups[g].blockBitmap);
  }

  /** Marking sets one bit of one bitmap and nothing else. */
  lemma GroupBitOfMark(geo: Geometry, d: Disk, b: nat, g: nat, i: nat)
    requires geo.Distinct() && Present(geo, d) && geo.Addressable(b)
    requires g < |geo.groups| && i < BITS_PER_BLOCK
    ensures geo.groups[geo.GroupOf(b)].blockBitmap in d && geo.groups[g].blockBitmap in d
    ensures GroupBit(geo, MarkUsed(geo, d, b), g, i) ==
      ((g == geo.GroupOf(b) && i == geo.IndexOf(b)) || GroupBit(geo, d, g, i))
    ensures GroupBit(geo, MarkFree(geo, d, b), g, i) ==
      (!(g == geo.GroupOf(b) && i == geo.IndexOf(b)) && GroupBit(geo, d, g, i))
  {
    BitmapPresent(geo, d, geo.GroupOf(b));
    BitmapPresent(geo, d, g);
    if g == geo.GroupOf(b) {
      BitAtSet(d[geo.groups[g].blockBitmap], geo.IndexOf(b), i);
      BitAtClear(d[geo.groups[g].blockBitmap], geo.IndexOf(b), i);
    }
  }

  lemma UsedAfterMark(geo: Geometry, d: Disk, b: nat, c: nat)
    requires geo.Distinct() && Present(geo, d) && geo.Addressable(b)
    ensures geo.groups[geo.GroupOf(b)].blockBitmap in d
    ensures Used(geo, MarkUsed(geo, d, b), c) == (c == b || Used(geo, d, c))
    ensures Used(geo, MarkFree(geo, d, b), c) == (c != b && Used(geo, d, c))
  {
    BitmapPresent(geo, d, geo.GroupOf(b));
    if geo.Addressable(c) {
      GroupBitOfMark(geo, d, b, geo.GroupOf(c), geo.IndexOf(c));
      if geo.GroupOf(b) == geo.GroupOf(c) && geo.IndexOf(b) == geo.IndexOf(c) {
        SameBitSameBlock(geo, b, c);
      }
    }
  }
}
