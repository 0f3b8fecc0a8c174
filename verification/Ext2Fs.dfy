/** The ext2 driver (kernel/src/fs/ext2.rs) over a block store whose reads and writes may fail. */
module Ext2Files {
  import opened Bytes
  import opened Bits
  import opened Ext2Layout
  import opened Ext2Tree
  import opened Ext2Growth
  import opened Ext2Inode
  import opened Ext2Content
  import opened Ext2Space
  import opened Ext2Survival
  import opened Ext2Failure
  import opened Ext2Release
  import opened Ext2Dir
  import opened Ext2Directory

  /** Offsets below 4 TiB have a 32-bit logical block number. */
  const MAX_FILE: nat := 0x400_0000_0000

  /** Entry `i` of pointer block `b`; 0 for an absent pointer block. */
  function EntryOf(d: Disk, b: nat, i: nat): u32 {
    if b == 0 || b !in d || i >= ENTRIES then 0 else Entry(d[b], i)
  }

  /** A pointer to a block that the disk does not have. */
  predicate Lost(d: Disk, b: nat) {
    b != 0 && b !in d
  }

  /** The tree points outside the disk. */
  ghost predicate Broken(d: Disk, ptrs: Pointers) {
    exists p :: Valid(p) && Lost(d, Ptr(d, ptrs, p))
  }

  lemma LostBreaks(d: Disk, ptrs: Pointers, p: Path)
    requires Valid(p)
    ensures Lost(d, Ptr(d, ptrs, p)) ==> Broken(d, ptrs)
  {
  }

  lemma LostInDouble(d: Disk, ptrs: Pointers, i: nat)
    requires i < 65536
    ensures Lost(d, ptrs[13]) || Lost(d, EntryOf(d, ptrs[13], i / 256)) ==> Broken(d, ptrs)
  {
    LostBreaks(d, ptrs, Root(13));
    LostBreaks(d, ptrs, Child(Root(13), i / 256));
  }

  lemma LostInTriple(d: Disk, ptrs: Pointers, i: nat)
    requires i < 16777216
    ensures Lost(d, ptrs[14]) || Lost(d, EntryOf(d, ptrs[14], i / 65536)) ==> Broken(d, ptrs)
    ensures Lost(d, EntryOf(d, EntryOf(d, ptrs[14], i / 65536), i % 65536 / 256)) ==> Broken(d, ptrs)
  {
    LostBreaks(d, ptrs, Root(14));
    LostBreaks(d, ptrs, Child(Root(14), i / 65536));
    LostBreaks(d, ptrs, Child(Child(Root(14), i / 65536), i % 65536 / 256));
  }

  lemma LostLeaf(d: Disk, ptrs: Pointers, l: nat)
    requires l < MAX_BLOCKS
    ensures Lost(d, Ptr(d, ptrs, PathOf(l))) ==> Broken(d, ptrs)
  {
    PathOfLeaf(l);
    LostBreaks(d, ptrs, PathOf(l));
  }

  lemma SlotPresent(geo: Geometry, d: Disk, num: nat)
    requires DiskOk(geo, d) && SlotsTile(geo) && HasSlot(geo, num)
    ensures SlotBlock(geo, num) in d
  {
    SlotInTable(geo, num);
    assert geo.IsMeta(SlotBlock(geo, num));
  }

  lemma NotBroken(geo: Geometry, d: Disk, ptrs: Pointers)
    requires DiskOk(geo, d) && TreeOk(geo, d, ptrs)
    ensures !Broken(d, ptrs)
  {
  }

  class Ext2Fs {
    const geo: Geometry
    /** Whether the block store can fail: a device error, or a cache full of dirty sectors. */
    const faulty: bool
    var disk: Disk
    /** Set when free_block clears a bit that was already clear. */
    ghost var doubleFree: bool

    constructor (geo: Geometry, faulty: bool, disk: Disk)
      ensures this.geo == geo && this.faulty == faulty && this.disk == disk && !doubleFree
    {
      this.geo, this.faulty, this.disk := geo, faulty, disk;
      doubleFree := false;
    }

    /** read_block: the stored block, or a device failure. */
    method ReadBlock(b: nat) returns (r: Option<Block>)
      ensures r.Some? ==> b in disk && r.value == disk[b]
      ensures r.None? ==> faulty || b !in disk
    {
      var fails := *;
      if b in disk && !(faulty && fails) { return Some(disk[b]); }
      return None;
    }

    /** write_block: two sector writes; a failure leaves the block as it was or half written. */
    method WriteBlock(b: nat, data: Block) returns (ok: bool)
      modifies this`disk
      ensures ok ==> disk == old(disk)[b := data]
      ensures !ok ==> faulty && SameBut(old(disk), disk, b)
    {
      var fails := *;
      if !(faulty && fails) {
        disk := disk[b := data];
        ok := true;
      } else {
        if b in disk {
          if * { disk := disk[b := data[..512] + disk[b][512..]]; }
        }
        ok := false;
      }
    }

    // ---- Block lookup ----------------------------------------------------

    method ReadIndirect(b: nat, index: nat) returns (r: Option<u32>)
      ensures r.Some? ==> r.value == EntryOf(disk, b, index) && (b != 0 ==> index < ENTRIES)
      ensures r.None? && index < ENTRIES ==> faulty || Lost(disk, b)
    {
      if b == 0 { return Some(0); }
      var data := ReadBlock(b);
      if data.None? { return None; }
      if 4 * index + 4 > |data.value| { return None; }
      r := Some(GetU32(data.value, 4 * index));
    }

    method ReadDoubleIndirect(b: nat, index: nat) returns (r: Option<u32>)
      ensures r.Some? ==> r.value == EntryOf(disk, EntryOf(disk, b, index / 256), index % 256)
      ensures r.Some? && b != 0 ==> index / 256 < ENTRIES
      ensures r.None? && index < 65536 ==> faulty || Lost(disk, b) || Lost(disk, EntryOf(disk, b, index / 256))
    {
      if b == 0 { return Some(0); }
      var first, second := index / 256, index % 256;
      var data := ReadBlock(b);
      if data.None? { return None; }
      if 4 * first + 4 > |data.value| { return None; }
      r := ReadIndirect(GetU32(data.value, 4 * first), second);
    }

    method ReadTripleIndirect(b: nat, index: nat) returns (r: Option<u32>)
      ensures r.Some? ==>
        r.value ==
          EntryOf(disk, EntryOf(disk, EntryOf(disk, b, index / 65536), index % 65536 / 256), index % 65536 % 256)
      ensures r.Some? && b != 0 ==> index / 65536 < ENTRIES
      ensures r.None? && index < 16777216 ==>
        || faulty || Lost(disk, b) || Lost(disk, EntryOf(disk, b, index / 65536))
        || Lost(disk, EntryOf(disk, EntryOf(disk, b, index / 65536), index % 65536 / 256))
    {
      if b == 0 { return Some(0); }
      var first, remainder := index / 65536, index % 65536;
      var data := ReadBlock(b);
      if data.None? { return None; }
      if 4 * first + 4 > |data.value| { return None; }
      r := ReadDoubleIndirect(GetU32(data.value, 4 * first), remainder);
    }

    /**
     * resolve_block: the block number of logical block `l`, 0 if unmapped; beyond the tree only an empty triple slot
     * resolves.
     */
    method ResolveBlock(ptrs: Pointers, l: nat) returns (r: Option<u32>)
      ensures r.Some? && l < MAX_BLOCKS ==> r.value == Ptr(disk, ptrs, PathOf(l))
      ensures r.Some? && l >= MAX_BLOCKS ==> r.value == 0 && ptrs[14] == 0
      ensures r.None? ==> faulty || Broken(disk, ptrs) || (l >= MAX_BLOCKS && ptrs[14] != 0)
    {
      if l < 12 {
        r := Some(ptrs[l]);
      } else if l < 268 {
        if ptrs[12] == 0 { return Some(0); }
        r := ReadIndirect(ptrs[12], l - 12);
        LostBreaks(disk, ptrs, Root(12));
      } else if l < 65804 {
        assert Ptr(disk, ptrs, Child(Root(13), (l - 268) / 256)) == EntryOf(disk, ptrs[13], (l - 268) / 256);
        if ptrs[13] == 0 { return Some(0); }
        r := ReadDoubleIndirect(ptrs[13], l - 268);
        LostInDouble(disk, ptrs, l - 268);
      } else {
        assert Ptr(disk, ptrs, Child(Root(14), (l - 65804) / 65536)) == EntryOf(disk, ptrs[14], (l - 65804) / 65536);
        if ptrs[14] == 0 { return Some(0); }
        r := ReadTripleIndirect(ptrs[14], l - 65804);
        if l < MAX_BLOCKS { LostInTriple(disk, ptrs, l - 65804); }
      }
    }

    // ---- Block allocation ------------------------------------------------

    /** The scan of alloc_block over one bitmap: the first clear bit. */
    static method FirstClearBit(bm: Block) returns (r: Option<nat>)
      ensures r.Some? ==> r.value < BITS_PER_BLOCK && !BitAt(bm, r.value) && AllSet(bm, r.value)
      ensures r.None? ==> AllSet(bm, BITS_PER_BLOCK)
    {
      for n := 0 to 1024
        invariant forall j :: 0 <= j < 8 * n ==> BitAt(bm, j)
      {
        if bm[n] != 0xFF {
          for k := 0 to 8
            invariant forall j :: 0 <= j < 8 * n + k ==> BitAt(bm, j)
          {
            if !Bit(bm[n], k) { return Some(8 * n + k); }
          }
        } else {
          forall j | 8 * n <= j < 8 * n + 8 ensures BitAt(bm, j) { FullByte(j % 8); }
        }
      }
      r := None;
    }

    method AllocBlock() returns (r: Option<u32>)
      requires DiskOk(geo, disk)
      modifies this`disk
      ensures r.Some? ==> Free(geo, old(disk), r.value) && FirstFit(geo, old(disk), r.value)
      ensures r.Some? ==>
        geo.groups[geo.GroupOf(r.value)].blockBitmap in old(disk) && disk == MarkUsed(geo, old(disk), r.value)
      ensures r.None? ==>
        disk.Keys == old(disk).Keys && forall b :: b in disk && !geo.IsBlockBitmap(b) ==> disk[b] == old(disk)[b]
      ensures r.Some? ==> !NoSpace(geo, old(disk))
      ensures r.None? ==> faulty || (NoSpace(geo, old(disk)) && disk == old(disk))
    {
      for g := 0 to |geo.groups|
        invariant disk == old(disk)
        invariant PassedBefore(geo, disk, g)
      {
        var desc := geo.groups[g];
        if desc.freeBlocks == 0 {
          PassedNext(geo, disk, g);
          continue;
        }
        BitmapPresent(geo, disk, g);
        var bitmap := ReadBlock(desc.blockBitmap);
        if bitmap.None? { return None; }
        var i := FirstClearBit(bitmap.value);
        if i.Some? {
          if i.value >= geo.blocksPerGroup {
            StopsHere(geo, disk, g, i.value);
            return None;
          }
          var b := geo.BlockAt(g, i.value);
          BlockAtInverse(geo, g, i.value);
          assert Free(geo, disk, b);
          FirstFitFromScan(geo, disk, g, i.value);
          FoundSpace(geo, disk, g, i.value);
          var ok := WriteBlock(desc.blockBitmap, SetAt(bitmap.value, i.value));
          if !ok { return None; }
          return Some(b);
        }
        PassedNext(geo, disk, g);
      }
      AllPassed(geo, disk);
      r := None;
    }

    // ---- Setting block pointers ------------------------------------------

    method WriteIndirectEntry(b: nat, index: nat, v: u32) returns (ok: bool)
      requires index < ENTRIES
      modifies this`disk
      ensures ok ==> b in old(disk) && disk == WithEntry(old(disk), b, index, v)
      ensures !ok ==> SameBut(old(disk), disk, b) && (faulty || b !in old(disk))
    {
      var data := ReadBlock(b);
      if data.None? { return false; }
      ok := WriteBlock(b, PutU32(data.value, 4 * index, v));
    }

    /** Allocate a pointer block, link it at entry `i` of pointer block `b` (whose contents are `data`), and zero it. */
    method AddTable(b: nat, data: Block, i: nat, ghost ptrs: Pointers, ghost q: Path) returns (ok: bool, n: u32)
      requires DiskOk(geo, disk) && TreeOk(geo, disk, ptrs)
      requires Interior(q) && Level(q) > 1 && i < ENTRIES && b != 0 && b == Ptr(disk, ptrs, q)
      requires Ptr(disk, ptrs, Child(q, i)) == 0 && b in disk && data == disk[b]
      modifies this`disk
      ensures ok ==> n != 0 && Grew(geo, old(disk), ptrs, disk, ptrs, Child(q, i), n, {n as nat})
      ensures !ok ==> GaveUp(geo, faulty, old(disk), ptrs, disk, 1)
    {
      var r := AllocForTable(ptrs);
      if r.None? { return false, 0; }
      n := r.value;
      TableInTree(geo, old(disk), ptrs, q);
      ok := LinkTable(b, data, i, n, old(disk), ptrs);
      if ok { GrewTableEntry(geo, old(disk), ptrs, q, i, n); }
    }

    /** Store the new pointer block `n` at entry `i` of `b`, and zero it. */
    method LinkTable(b: nat, data: Block, i: nat, n: u32, ghost d0: Disk, ghost ptrs: Pointers) returns (ok: bool)
      requires i < ENTRIES && b in disk && OthersSame(geo, d0, ptrs, disk) && !Foreign(geo, d0, ptrs, b)
      requires !Foreign(geo, d0, ptrs, n)
      modifies this`disk
      ensures ok ==> disk == old(disk)[b := PutU32(data, 4 * i, n)][n := ZeroBlock()]
      ensures !ok ==> faulty && OthersSame(geo, d0, ptrs, disk)
    {
      ok := WriteBlock(b, PutU32(data, 4 * i, n));
      if !ok {
        FailedStore(geo, d0, ptrs, old(disk), disk, b);
        return;
      }
      ghost var d1 := disk;
      ok := WriteBlock(n, ZeroBlock());
      if !ok { FailedTwice(geo, d0, ptrs, old(disk), b, d1, n, disk); }
    }

    /** alloc_block, on the way to growing the tree. */
    method AllocForTable(ghost ptrs: Pointers) returns (r: Option<u32>)
      requires DiskOk(geo, disk) && TreeOk(geo, disk, ptrs)
      modifies this`disk
      ensures r.Some? ==> Free(geo, old(disk), r.value) && geo.groups[geo.GroupOf(r.value)].blockBitmap in old(disk)
      ensures r.Some? ==> disk == MarkUsed(geo, old(disk), r.value) && Prepared(geo, old(disk), ptrs, disk, r.value)
      ensures OthersSame(geo, old(disk), ptrs, disk)
      ensures r.None? ==> GaveUp(geo, faulty, old(disk), ptrs, disk, 1)
    {
      r := AllocBlock();
      if r.Some? {
        PreparedByMark(geo, old(disk), ptrs, r.value);
        PreparedLeaves(geo, old(disk), ptrs, disk, r.value);
      } else if !faulty {
        ShortNow(geo, old(disk), 1);
        StuckRefl(geo, old(disk), ptrs, 1);
      }
    }

    /** Allocate a pointer block for indirect slot `s` of the inode and zero it. */
    method AddRootTable(ptrs: Pointers, s: nat) returns (ok: bool, ptrs': Pointers)
      requires DiskOk(geo, disk) && TreeOk(geo, disk, ptrs)
      requires 12 <= s < 15 && ptrs[s] == 0
      modifies this`disk
      ensures ok ==> ptrs' == ptrs[s := ptrs'[s]] && ptrs'[s] != 0
      ensures ok ==> Grew(geo, old(disk), ptrs, disk, ptrs', Root(s), ptrs'[s], {ptrs'[s] as nat})
      ensures !ok ==> GaveUp(geo, faulty, old(disk), ptrs, disk, 1)
    {
      ptrs' := ptrs;
      var n := AllocForTable(ptrs);
      if n.None? { return false, ptrs; }
      GrewTableRoot(geo, old(disk), ptrs, s, n.value);
      ptrs' := ptrs[s := n.value];
      ghost var d1 := disk;
      ok := WriteBlock(n.value, ZeroBlock());
      if !ok { FailedStore(geo, old(disk), ptrs, d1, disk, n.value); }
    }

    /** set_double_indirect_entry on the level-2 pointer block at `q`. */
    method SetDoubleIndirectEntry(b: nat, index: nat, v: u32, ghost ptrs: Pointers, ghost q: Path, ghost c: Path)
      returns (ok: bool, ghost news: set<nat>)
      requires DiskOk(geo, disk) && TreeOk(geo, disk, ptrs) && Owned(geo, disk, v) && !InTree(disk, ptrs, v)
      requires Interior(q) && Level(q) == 2 && b != 0 && b == Ptr(disk, ptrs, q) && index < 65536
      requires c == Child(Child(q, index / 256), index % 256)
      modifies this`disk
      ensures ok ==> Mapped(geo, old(disk), ptrs, disk, ptrs, c, v, news) && |news| <= 1
      ensures !ok ==> GaveUp(geo, faulty, old(disk), ptrs, disk, 1)
    {
      news := {};
      var first, second := index / 256, index % 256;
      var data := ReadBlock(b);
      if data.None? { return false, {}; }
      var indirect := GetU32(data.value, 4 * first);
      if indirect == 0 {
        ok, indirect := AddTable(b, data.value, first, ptrs, q);
        if !ok { return; }
        ghost var d1 := disk;
        GrewLeaves(geo, old(disk), ptrs, d1, ptrs, Child(q, first), indirect);
        NewTable(geo, old(disk), ptrs, d1, ptrs, Child(q, first), indirect);
        ok := WriteIndirectEntry(indirect, second, v);
        if ok {
          MapBelowNewTable(geo, old(disk), ptrs, d1, ptrs, Child(q, first), indirect, second, v);
          news := {indirect as nat};
        } else {
          FailedStore(geo, old(disk), ptrs, d1, disk, indirect);
        }
      } else {
        TableInTree(geo, disk, ptrs, Child(q, first));
        ok := WriteIndirectEntry(indirect, second, v);
        if ok {
          MapThroughTable(geo, old(disk), ptrs, Child(q, first), second, v);
        } else {
          FailedStore(geo, old(disk), ptrs, old(disk), disk, indirect);
        }
      }
    }

    /** set_triple_indirect_entry on the level-3 pointer block at `q`. */
    method SetTripleIndirectEntry(b: nat, index: nat, v: u32, ghost ptrs: Pointers, ghost q: Path, ghost c: Path)
      returns (ok: bool, ghost news: set<nat>)
      requires DiskOk(geo, disk) && TreeOk(geo, disk, ptrs) && Owned(geo, disk, v) && !InTree(disk, ptrs, v)
      requires Interior(q) && Level(q) == 3 && b != 0 && b == Ptr(disk, ptrs, q) && index < 16777216
      requires c == Child(Child(Child(q, index / 65536), index % 65536 / 256), index % 65536 % 256)
      modifies this`disk
      ensures ok ==> Mapped(geo, old(disk), ptrs, disk, ptrs, c, v, news) && |news| <= 2
      ensures !ok ==> GaveUp(geo, faulty, old(disk), ptrs, disk, 2)
    {
      news := {};
      var first, remainder := index / 65536, index % 65536;
      var data := ReadBlock(b);
      if data.None? { return false, {}; }
      var double := GetU32(data.value, 4 * first);
      if double == 0 {
        ok, double := AddTable(b, data.value, first, ptrs, q);
        if !ok {
          FailedMore(geo, faulty, old(disk), ptrs, disk, 1, 2);
          return;
        }
        ghost var d1 := disk;
        StaysOutside(geo, old(disk), ptrs, d1, ptrs, Child(q, first), double, v);
        ok, news := SetDoubleIndirectEntry(double, remainder, v, ptrs, Child(q, first), c);
        if ok {
          MappedStep(geo, old(disk), ptrs, d1, ptrs, disk, ptrs, Child(q, first), double, c, v, news);
          news := news + {double as nat};
        } else {
          FailedBelow(geo, faulty, old(disk), ptrs, d1, Child(q, first), double, disk, 1, 2);
        }
      } else {
        ok, news := SetDoubleIndirectEntry(double, remainder, v, ptrs, Child(q, first), c);
        if !ok { FailedMore(geo, faulty, old(disk), ptrs, disk, 1, 2); }
      }
    }

    /** set_block_pointer: a map update of the tree at the position of logical block `l`. */
    method SetBlockPointer(ptrs: Pointers, l: nat, v: u32) returns (ok: bool, ptrs': Pointers, ghost news: set<nat>)
      requires DiskOk(geo, disk) && TreeOk(geo, disk, ptrs) && Owned(geo, disk, v) && !InTree(disk, ptrs, v)
      requires l < MAX_BLOCKS
      modifies this`disk
      ensures ok ==> Mapped(geo, old(disk), ptrs, disk, ptrs', PathOf(l), v, news) && |news| <= 3
      ensures !ok ==> GaveUp(geo, faulty, old(disk), ptrs, disk, 3)
    {
      ptrs', news := ptrs, {};
      if l < 12 {
        GrewDirect(geo, disk, ptrs, l, v);
        MappedLast(geo, disk, ptrs, disk, ptrs[l := v], Root(l), v);
        return true, ptrs[l := v], {};
      }
      var slot := if l < 268 then 12 else if l < 65804 then 13 else 14;
      if ptrs[slot] == 0 {
        ok, ptrs', news := SetBelowNewRoot(ptrs, slot, l, v);
      } else {
        ok, news := SetBelowRoot(ptrs, slot, l, v);
        if !ok { FailedMore(geo, faulty, old(disk), ptrs, disk, 2, 3); }
      }
    }

    /** The part of set_block_pointer for an indirect slot that is still empty. */
    method SetBelowNewRoot(ptrs: Pointers, slot: nat, l: nat, v: u32)
      returns (ok: bool, ptrs': Pointers, ghost news: set<nat>)
      requires DiskOk(geo, disk) && TreeOk(geo, disk, ptrs) && Owned(geo, disk, v) && !InTree(disk, ptrs, v)
      requires 12 <= l < MAX_BLOCKS && slot == (if l < 268 then 12 else if l < 65804 then 13 else 14) && ptrs[slot] == 0
      modifies this`disk
      ensures ok ==> Mapped(geo, old(disk), ptrs, disk, ptrs', PathOf(l), v, news) && |news| <= 3
      ensures !ok ==> GaveUp(geo, faulty, old(disk), ptrs, disk, 3)
    {
      news := {};
      ok, ptrs' := AddRootTable(ptrs, slot);
      if !ok {
        FailedMore(geo, faulty, old(disk), ptrs, disk, 1, 3);
        return;
      }
      ghost var d1 := disk;
      StaysOutside(geo, old(disk), ptrs, d1, ptrs', Root(slot), ptrs'[slot], v);
      ok, news := SetBelowRoot(ptrs', slot, l, v);
      if ok {
        PathBelowRoot(l);
        MappedStep(geo, old(disk), ptrs, d1, ptrs', disk, ptrs', Root(slot), ptrs'[slot], PathOf(l), v, news);
        news := news + {ptrs'[slot] as nat};
      } else {
        FailedBelowRoot(geo, faulty, old(disk), ptrs, d1, slot, ptrs'[slot], disk, 2, 3);
      }
    }

    /** The part of set_block_pointer below an indirect slot that is already filled. */
    method SetBelowRoot(ptrs: Pointers, slot: nat, l: nat, v: u32) returns (ok: bool, ghost news: set<nat>)
      requires DiskOk(geo, disk) && TreeOk(geo, disk, ptrs) && Owned(geo, disk, v) && !InTree(disk, ptrs, v)
      requires 12 <= l < MAX_BLOCKS && slot == (if l < 268 then 12 else if l < 65804 then 13 else 14) && ptrs[slot] != 0
      modifies this`disk
      ensures ok ==> Mapped(geo, old(disk), ptrs, disk, ptrs, PathOf(l), v, news) && |news| <= 2
      ensures !ok ==> GaveUp(geo, faulty, old(disk), ptrs, disk, 2)
    {
      if l < 268 {
        news := {};
        TableInTree(geo, disk, ptrs, Root(12));
        ok := WriteIndirectEntry(ptrs[12], l - 12, v);
        if ok {
          MapThroughTable(geo, old(disk), ptrs, Root(12), l - 12, v);
        } else {
          FailedStore(geo, old(disk), ptrs, old(disk), disk, ptrs[12]);
        }
      } else if l < 65804 {
        ok, news := SetDoubleIndirectEntry(ptrs[13], l - 268, v, ptrs, Root(13), PathOf(l));
        if !ok { FailedMore(geo, faulty, old(disk), ptrs, disk, 1, 2); }
      } else {
        ok, news := SetTripleIndirectEntry(ptrs[14], l - 65804, v, ptrs, Root(14), PathOf(l));
      }
    }

    // ---- Inodes ----------------------------------------------------------

    method ReadInode(num: nat) returns (r: Option<Inode>)
      requires SlotsTile(geo)
      ensures r.Some? ==> HasSlot(geo, num) && SlotBlock(geo, num) in disk && r.value == InodeAt(geo, disk, num)
      ensures r.None? ==> faulty || !HasSlot(geo, num) || SlotBlock(geo, num) !in disk
    {
      if num == 0 { return None; }
      var g, i := (num - 1) / geo.inodesPerGroup, (num - 1) % geo.inodesPerGroup;
      if g >= |geo.groups| { return None; }
      var o := i * geo.SlotSize();
      SlotInTable(geo, num);
      var data := ReadBlock(geo.groups[g].inodeTable + o / 1024);
      if data.None? { return None; }
      if o % 1024 + 128 > |data.value| { return None; }
      r := Some(FromBytes(data.value[o % 1024..o % 1024 + 128]));
    }

    method WriteInode(num: nat, x: Inode) returns (ok: bool)
      requires SlotsTile(geo)
      modifies this`disk
      ensures ok ==> HasSlot(geo, num) && SlotBlock(geo, num) in old(disk) && disk == WithInode(geo, old(disk), num, x)
      ensures !ok ==> faulty || !HasSlot(geo, num) || SlotBlock(geo, num) !in old(disk)
      ensures !ok ==> if HasSlot(geo, num) then SameBut(old(disk), disk, SlotBlock(geo, num)) else disk == old(disk)
    {
      if num == 0 { return false; }
      var g, i := (num - 1) / geo.inodesPerGroup, (num - 1) % geo.inodesPerGroup;
      if g >= |geo.groups| { return false; }
      var o := i * geo.SlotSize();
      SlotInTable(geo, num);
      var data := ReadBlock(geo.groups[g].inodeTable + o / 1024);
      if data.None? { return false; }
      ok := WriteBlock(geo.groups[g].inodeTable + o / 1024, Splice(data.value, o % 1024, ToBytes(x)));
    }

    // ---- File data -------------------------------------------------------

    /**
     * read_inode_data: the bytes of the file from `offset`, at most `len` and not past the end of the file. The
     * logical block number is cut to 32 bits, so what lies 4 TiB or more into the file reads as its position modulo 4
     * TiB.
     */
    method ReadInodeData(x: Inode, offset: nat, len: nat) returns (r: Option<seq<byte>>)
      ensures r.Some? ==>
        |r.value| == if offset >= x.Size() then 0 else if len < x.Size() - offset then len else x.Size() - offset
      ensures r.Some? ==>
        forall k :: 0 <= k < |r.value| ==> r.value[k] == FileByte(disk, x.block, (offset + k) % MAX_FILE)
      ensures r.None? ==> faulty || Broken(disk, x.block) || (x.Size() > MAX_BYTES && x.block[14] != 0)
    {
      if offset >= x.Size() { return Some([]); }
      var toRead := if len < x.Size() - offset then len else x.Size() - offset;
      var buf: seq<byte> := [];
      while |buf| < toRead
        invariant |buf| <= toRead
        invariant forall k :: 0 <= k < |buf| ==> buf[k] == FileByte(disk, x.block, (offset + k) % MAX_FILE)
      {
        var chunk := ReadChunk(x, offset + |buf|, toRead - |buf|);
        if chunk.None? { return None; }
        buf := buf + chunk.value;
      }
      r := Some(buf);
    }

    /** One round of that loop: up to `len` bytes of the block that position `k` lies in. */
    method ReadChunk(x: Inode, k: nat, len: nat) returns (r: Option<seq<byte>>)
      requires k < x.Size() && len > 0
      ensures r.Some? ==> 0 < |r.value| <= len && forall i :: 0 <= i < |r.value| ==>
        r.value[i] == FileByte(disk, x.block, (k + i) % MAX_FILE)
      ensures r.None? ==> faulty || Broken(disk, x.block) || (x.Size() > MAX_BYTES && x.block[14] != 0)
    {
      var l, o := k / 1024 % U32_LIMIT, k % 1024;
      CutPosition(k);
      var b := ResolveBlock(x.block, l);
      if b.None? { return None; }
      var n := if len < 1024 - o then len else 1024 - o;
      if b.value == 0 {
        ChunkRead(disk, x.block, k, n, Zeros(n));
        return Some(Zeros(n));
      }
      var data := ReadBlock(b.value);
      if l < MAX_BLOCKS { LostLeaf(disk, x.block, l); }
      if data.None? { return None; }
      ChunkRead(disk, x.block, k, n, data.value[o..o + n]);
      r := Some(data.value[o..o + n]);
    }

    /** The block that holds logical block `l`, allocated and linked if there was none. */
    method BlockForWrite(ptrs: Pointers, l: nat, ghost d0: Disk, ghost p0: Pointers, ghost offset: nat,
                         ghost data: seq<byte>, ghost n: nat)
      returns (b: Option<u32>, ptrs': Pointers, ghost news: set<nat>)
      requires Extended(geo, d0, p0, disk, ptrs) && l < MAX_BLOCKS
      requires n <= |data| && Written(d0, p0, disk, ptrs, offset, data, n)
      modifies this`disk
      ensures b.Some? ==> b.value != 0 && b.value == Ptr(disk, ptrs', PathOf(l))
      ensures b.Some? ==> Extended(geo, d0, p0, disk, ptrs') && Written(d0, p0, disk, ptrs', offset, data, n)
      ensures b.Some? ==> TookUp(geo, old(disk), disk, news) && |news| <= 4
      ensures b.None? ==> OthersSame(geo, d0, p0, disk)
      ensures b.None? ==> faulty || (ShortBy(geo, old(disk), 4) && Stuck(geo, old(disk), ptrs, disk, 4))
    {
      ptrs', news := ptrs, {};
      b := ResolveBlock(ptrs, l);
      TookNone(geo, disk);
      if b.None? || b.value != 0 { return; }
      b, ptrs', news := MapNewBlock(ptrs, l, d0, p0, offset, data, n);
      if b.None? {
        ExtendedLeaves(geo, d0, p0, old(disk), ptrs);
        OthersLater(geo, d0, p0, old(disk), ptrs, disk);
      }
    }

    /** Allocate a block and link it as logical block `l`, which has none. */
    method MapNewBlock(ptrs: Pointers, l: nat, ghost d0: Disk, ghost p0: Pointers, ghost offset: nat,
                       ghost data: seq<byte>, ghost n: nat)
      returns (b: Option<u32>, ptrs': Pointers, ghost news: set<nat>)
      requires Extended(geo, d0, p0, disk, ptrs) && l < MAX_BLOCKS && Ptr(disk, ptrs, PathOf(l)) == 0
      requires n <= |data| && Written(d0, p0, disk, ptrs, offset, data, n)
      modifies this`disk
      ensures b.Some? ==> b.value != 0 && b.value == Ptr(disk, ptrs', PathOf(l))
      ensures b.Some? ==> Extended(geo, d0, p0, disk, ptrs') && Written(d0, p0, disk, ptrs', offset, data, n)
      ensures b.Some? ==> TookUp(geo, old(disk), disk, news) && |news| <= 4
      ensures b.None? ==> GaveUp(geo, faulty, old(disk), ptrs, disk, 4)
    {
      ptrs', news := ptrs, {};
      b := AllocForTable(ptrs);
      if b.None? {
        FailedMore(geo, faulty, old(disk), ptrs, disk, 1, 4);
        return;
      }
      ghost var d1 := disk;
      var ok;
      ok, ptrs', news := SetBlockPointer(ptrs, l, b.value);
      if !ok {
        FailedAfterTake(geo, faulty, old(disk), ptrs, d1, b.value, disk, 3, 4);
        return None, ptrs, {};
      }
      PathOfLeaf(l);
      ExtendByMap(geo, d0, p0, old(disk), ptrs, d1, disk, ptrs', PathOf(l), b.value, news);
      WrittenByMap(geo, d0, p0, old(disk), ptrs, d1, disk, ptrs', l, b.value, news, offset, data, n);
      TookMore(geo, old(disk), d1, disk, {b.value as nat}, news);
      news := {b.value as nat} + news;
    }

    /** The loop of write_inode_data: copy `data` into the file's blocks from `offset` on. */
    method WriteBytes(ptrs: Pointers, offset: nat, data: seq<byte>)
      returns (ok: bool, ptrs': Pointers, ghost news: set<nat>)
      requires DiskOk(geo, disk) && TreeOk(geo, disk, ptrs) && offset + |data| <= MAX_BYTES
      modifies this`disk
      ensures ok ==>
        Extended(geo, old(disk), ptrs, disk, ptrs') && Written(old(disk), ptrs, disk, ptrs', offset, data, |data|)
      ensures ok ==> Spent(geo, old(disk), disk, news, offset, |data|)
      ensures !ok ==> CopyFailed(geo, faulty, old(disk), ptrs, disk, offset, data, 4 * Touched(offset, |data|))
    {
      var n := 0;
      ptrs', news := ptrs, {};
      ExtendedRefl(geo, disk, ptrs);
      TookNone(geo, disk);
      while n < |data|
        invariant n <= |data| && (n == 0 || BlockEdge(offset, n, |data|))
        invariant Extended(geo, old(disk), ptrs, disk, ptrs') && Written(old(disk), ptrs, disk, ptrs', offset, data, n)
        invariant Spent(geo, old(disk), disk, news, offset, n)
      {
        ghost var more, d1, p1, m := {}, disk, ptrs', n;
        ok, ptrs', n, more := WriteOneBlock(ptrs', old(disk), ptrs, offset, data, n);
        if !ok {
          SpentAll(geo, faulty, old(disk), ptrs, d1, p1, disk, news, offset, data, m);
          return;
        }
        SpendMore(geo, old(disk), d1, disk, news, more, offset, m, n);
        news := news + more;
      }
      ok := true;
    }

    /** One round of that loop. */
    method WriteOneBlock(ptrs: Pointers, ghost d0: Disk, ghost p0: Pointers, offset: nat, data: seq<byte>, n: nat)
      returns (ok: bool, ptrs': Pointers, n': nat, ghost news: set<nat>)
      requires n < |data| && offset + |data| <= MAX_BYTES
      requires Extended(geo, d0, p0, disk, ptrs) && Written(d0, p0, disk, ptrs, offset, data, n)
      modifies this`disk
      ensures ok ==> n < n' <= |data| && BlockEdge(offset, n', |data|)
      ensures ok ==> Extended(geo, d0, p0, disk, ptrs') && Written(d0, p0, disk, ptrs', offset, data, n')
      ensures ok ==> TookUp(geo, old(disk), disk, news) && |news| <= 4
      ensures !ok ==> OthersSame(geo, d0, p0, disk)
      ensures !ok ==> faulty || (ShortBy(geo, old(disk), 4) && Stuck(geo, old(disk), ptrs, disk, 4))
    {
      var l, o := (offset + n) / 1024, (offset + n) % 1024;
      var len := if |data| - n < 1024 - o then |data| - n else 1024 - o;
      n' := n + len;
      ChunkEnd(offset, n, n', |data|);
      var b;
      b, ptrs', news := BlockForWrite(ptrs, l, d0, p0, offset, data, n);
      if b.None? { return false, ptrs', n', {}; }
      ghost var d1 := disk;
      ok := CopyChunk(b.value, l, o, ptrs', d0, p0, offset, data, n, n');
      if ok {
        TookMore(geo, old(disk), d1, disk, news, {});
        assert news + {} == news;
      }
    }

    /** The read-modify-write of one block; a whole block is not read first. */
    method CopyChunk(b: u32, l: nat, o: nat, ghost ptrs: Pointers, ghost d0: Disk, ghost p0: Pointers,
                     ghost offset: nat, data: seq<byte>, n: nat, n': nat)
      returns (ok: bool)
      requires Extended(geo, d0, p0, disk, ptrs) && l < MAX_BLOCKS && b != 0 && b == Ptr(disk, ptrs, PathOf(l))
      requires n <= n' <= |data| && Written(d0, p0, disk, ptrs, offset, data, n)
      requires l == (offset + n) / 1024 && o == (offset + n) % 1024 && o + n' - n <= 1024
      modifies this`disk
      ensures ok ==> Extended(geo, d0, p0, disk, ptrs) && Written(d0, p0, disk, ptrs, offset, data, n')
      ensures ok ==> TookUp(geo, old(disk), disk, {})
      ensures !ok ==> faulty && OthersSame(geo, d0, p0, disk)
    {
      PathOfLeaf(l);
      assert Owned(geo, disk, b);
      var block: Block := ZeroBlock();
      if !(o == 0 && n' - n == 1024) {
        var r := ReadBlock(b);
        if r.None? { return false; }
        block := r.value;
      }
      ghost var d1 := disk;
      assert Splice(block, o, data[n..n']) == Splice(disk[b], o, data[n..n']);
      ok := WriteBlock(b, Splice(block, o, data[n..n']));
      if ok {
        ExtendByData(geo, d0, p0, d1, ptrs, PathOf(l), Splice(block, o, data[n..n']));
        WrittenByData(geo, d0, p0, d1, ptrs, l, offset, data, n, n', disk);
        TookData(geo, d1, disk, b);
      } else {
        ExtendedLeaves(geo, d0, p0, d1, ptrs);
        FailedStore(geo, d0, p0, d1, disk, b);
      }
    }

    /** write_inode_data: the file becomes the old bytes overwritten by `data` at `offset`, and the inode is stored. */
    method WriteInodeData(x: Inode, num: nat, offset: nat, data: seq<byte>)
      returns (ok: bool, x': Inode, ghost news: set<nat>)
      requires DiskOk(geo, disk) && TreeOk(geo, disk, x.block) && SlotsTile(geo)
      requires !x.IsDir() && offset + |data| <= MAX_BYTES
      modifies this`disk
      ensures data == [] ==> ok && x' == x && disk == old(disk)
      ensures ok && data != [] ==> x' == AfterWrite(x, x'.block, offset + |data|)
      ensures ok && data != [] ==> WriteStored(geo, old(disk), x.block, disk, num, x', offset, data)
      ensures ok ==> Spent(geo, old(disk), disk, news, offset, |data|)
      ensures !ok ==> StoreFailed(geo, faulty, old(disk), x.block, disk, num, 4 * Touched(offset, |data|))
      ensures !ok && !faulty && HasSlot(geo, num) ==>
        CopyFailed(geo, faulty, old(disk), x.block, disk, offset, data, 4 * Touched(offset, |data|))
    {
      x', news := x, {};
      TookNone(geo, disk);
      if data == [] { return true, x, {}; }
      var ptrs;
      ok, ptrs, news := WriteBytes(x.block, offset, data);
      if !ok { return; }
      x' := AfterWrite(x, ptrs, offset + |data|);
      ghost var d3 := disk;
      ok := StoreInode(num, x', old(disk), x.block, news, 4 * Touched(offset, |data|));
      if ok { StoredInode(geo, old(disk), x.block, d3, num, x', offset, data); }
    }

    /** write_inode, as the last step of an operation that grew the file. */
    method StoreInode(num: nat, x: Inode, ghost d0: Disk, ghost p0: Pointers, ghost news: set<nat>, ghost n: nat)
      returns (ok: bool)
      requires SlotsTile(geo) && Extended(geo, d0, p0, disk, x.block) && TookUp(geo, d0, disk, news)
      modifies this`disk
      ensures ok ==> HasSlot(geo, num) && SlotBlock(geo, num) in old(disk) && disk == WithInode(geo, old(disk), num, x)
      ensures ok ==> TookUp(geo, d0, disk, news)
      ensures !ok ==> (faulty || !HasSlot(geo, num)) && StoreFailed(geo, faulty, d0, p0, disk, num, n)
    {
      if HasSlot(geo, num) {
        SlotPresent(geo, disk, num);
        SlotInTable(geo, num);
      }
      ok := WriteInode(num, x);
      if ok {
        TookData(geo, old(disk), disk, SlotBlock(geo, num));
        TookMore(geo, d0, old(disk), disk, news, {});
        assert news + {} == news;
      } else {
        FailedInode(geo, faulty, d0, p0, old(disk), disk, num, n);
      }
    }

    /** free_block; block 0 is ignored. */
    method FreeBlock(b: nat) returns (ok: bool)
      requires b == 0 || b >= geo.firstDataBlock
      modifies this
      ensures ok && b != 0 ==> geo.Addressable(b) && geo.groups[geo.GroupOf(b)].blockBitmap in old(disk)
      ensures ok && b != 0 ==> disk == MarkFree(geo, old(disk), b)
      ensures b == 0 ==> ok && disk == old(disk)
      ensures doubleFree == (old(doubleFree) || (b != 0 && !Used(geo, old(disk), b)))
      ensures !ok ==> faulty || !geo.Addressable(b) || geo.groups[geo.GroupOf(b)].blockBitmap !in old(disk)
    {
      if b == 0 { return true; }
      doubleFree := doubleFree || !Used(geo, disk, b);
      var g, i := geo.GroupOf(b), geo.IndexOf(b);
      if g >= |geo.groups| { return false; }
      var bitmap := ReadBlock(geo.groups[g].blockBitmap);
      if bitmap.None? { return false; }
      ok := WriteBlock(geo.groups[g].blockBitmap, ClearAt(bitmap.value, i));
    }

    /** The nested loops of free_inode_blocks below one pointer block: free what its entries lead to, then the block. */
    method FreeTable(b: u32, level: nat, ghost d0: Disk, ghost ptrs: Pointers, ghost a: Path) returns (ok: bool)
      requires DiskOk(geo, d0) && TreeOk(geo, d0, ptrs) && BitmapsOnly(geo, d0, disk)
      requires Interior(a) && level == Level(a) && b != 0 && b == Ptr(d0, ptrs, a)
      requires SubtreeUsed(geo, d0, ptrs, a, disk)
      modifies this
      decreases level, 0
      ensures ok ==> BitmapsOnly(geo, d0, disk) && doubleFree == old(doubleFree)
      ensures ok ==> UsedLessSubtree(geo, d0, ptrs, a, old(disk), disk)
      ensures !ok ==> faulty
    {
      assert Owned(geo, d0, b);
      var data := ReadBlock(b);
      if data.None? { return false; }
      ghost var start := disk;
      for i := 0 to ENTRIES
        invariant BitmapsOnly(geo, d0, disk) && doubleFree == old(doubleFree)
        invariant UsedLessChildren(geo, d0, ptrs, a, i, start, disk)
      {
        ghost var before := disk;
        ChildStillUsed(geo, d0, ptrs, a, i, start, disk);
        ok := FreeEntry(GetU32(data.value, 4 * i), level - 1, d0, ptrs, Child(a, i));
        if !ok { return; }
        ChildrenNext(geo, d0, ptrs, a, i, start, before, disk);
      }
      RootAfterChildren(geo, d0, ptrs, a, start, disk);
      ok := FreeBlock(b);
    }

    /** One entry of a pointer block: nothing if it is 0, a data block at level 0, a pointer block above. */
    method FreeEntry(b: u32, level: nat, ghost d0: Disk, ghost ptrs: Pointers, ghost a: Path) returns (ok: bool)
      requires DiskOk(geo, d0) && TreeOk(geo, d0, ptrs) && BitmapsOnly(geo, d0, disk)
      requires Valid(a) && level == Level(a) && b == Ptr(d0, ptrs, a)
      requires SubtreeUsed(geo, d0, ptrs, a, disk)
      modifies this
      decreases level, 1
      ensures ok ==> BitmapsOnly(geo, d0, disk) && doubleFree == old(doubleFree)
      ensures ok ==> UsedLessSubtree(geo, d0, ptrs, a, old(disk), disk)
      ensures !ok ==> faulty
    {
      if b == 0 {
        ok := true;
        EmptySubtree(d0, ptrs, a);
      } else if level == 0 {
        assert InSubtree(d0, ptrs, a, b);
        FreeFacts(geo, d0, disk, b);
        LeafSubtree(d0, ptrs, a);
        ok := FreeBlock(b);
      } else {
        ok := FreeTable(b, level, d0, ptrs, a);
      }
    }

    /** free_inode_blocks: clears exactly the bits of the blocks in the file's tree, each of them set until then. */
    method FreeInodeBlocks(ptrs: Pointers) returns (ok: bool)
      requires DiskOk(geo, disk) && TreeOk(geo, disk, ptrs)
      modifies this
      ensures ok ==> BitmapsOnly(geo, old(disk), disk) && doubleFree == old(doubleFree)
      ensures ok ==> forall b: nat :: Used(geo, disk, b) <==> Used(geo, old(disk), b) && !InTree(old(disk), ptrs, b)
      ensures !ok ==> faulty
    {
      ghost var d0 := disk;
      BitmapsOnlyRefl(geo, d0);
      for s := 0 to 12
        invariant BitmapsOnly(geo, d0, disk) && doubleFree == old(doubleFree)
        invariant UsedLessSlots(geo, d0, ptrs, s, disk)
      {
        ok := FreeSlot(ptrs, s, d0);
        if !ok { return; }
      }
      for s := 12 to 15
        invariant BitmapsOnly(geo, d0, disk) && doubleFree == old(doubleFree)
        invariant UsedLessSlots(geo, d0, ptrs, s, disk)
      {
        ok := FreeSlot(ptrs, s, d0);
        if !ok { return; }
      }
      forall b: nat ensures InTree(d0, ptrs, b) <==> InSlots(d0, ptrs, 15, b) { TreeIsSlots(d0, ptrs, b); }
      ok := true;
    }

    method FreeSlot(ptrs: Pointers, s: nat, ghost d0: Disk) returns (ok: bool)
      requires DiskOk(geo, d0) && TreeOk(geo, d0, ptrs) && s < 15
      requires BitmapsOnly(geo, d0, disk) && UsedLessSlots(geo, d0, ptrs, s, disk)
      modifies this
      ensures ok ==> BitmapsOnly(geo, d0, disk) && doubleFree == old(doubleFree)
      ensures ok ==> UsedLessSlots(geo, d0, ptrs, s + 1, disk)
      ensures !ok ==> faulty
    {
      SlotStillUsed(geo, d0, ptrs, s, disk);
      ok := FreeEntry(ptrs[s], if s < 12 then 0 else s - 11, d0, ptrs, Root(s));
      if ok { SlotsNext(geo, d0, ptrs, s, old(disk), disk); }
    }

    // ---- Directories -----------------------------------------------------

    /** read_dir_entries: the visible entries of all blocks, in order. */
    method ReadDirEntries(x: Inode) returns (r: Option<seq<DirEntry>>)
      requires x.IsDir() ==> DirOk(disk, x)
      ensures r.Some? ==> x.IsDir() && r.value == Visible(Listing(disk, x))
      ensures r.None? && x.IsDir() ==> faulty || Broken(disk, x.block)
    {
      if !x.IsDir() { return None; }
      var fileSize := x.Size();
      var entries := [];
      var bytesRead, l := 0, 0;
      while bytesRead < fileSize
        invariant bytesRead == 1024 * l <= fileSize
        invariant entries == Visible(DirList(disk, x.block, 0, l))
      {
        var b := ResolveBlock(x.block, l);
        if b.None? { return None; }
        DirListSplit(disk, x.block, 0, l, l + 1);
        VisibleJoin(DirList(disk, x.block, 0, l), BlockList(disk, x.block, l));
        assert DirList(disk, x.block, l, l + 1) == BlockList(disk, x.block, l);
        if b.value == 0 {
          bytesRead := bytesRead + 1024;
        } else {
          assert DirBlockOk(disk, x.block, l);
          var data := ReadBlock(b.value);
          if data.None? { return None; }
          var es;
          es, bytesRead := ParseBlock(data.value, bytesRead, fileSize, Records(data.value));
          entries := entries + es;
        }
        l := l + 1;
      }
      r := Some(entries);
    }

    /** find_entry: the inode of the first visible entry with that name. */
    method FindEntry(x: Inode, name: seq<byte>) returns (r: Option<u32>, ghost failed: bool)
      requires x.IsDir() ==> DirOk(disk, x)
      ensures r.Some? ==> x.IsDir()
      ensures r.Some? ==>
        exists i: nat :: FirstCalled(Visible(Listing(disk, x)), i, name) && Visible(Listing(disk, x))[i].ino == r.value
      ensures r.None? && !failed ==> x.IsDir() && forall e :: e in Visible(Listing(disk, x)) ==> e.name != name
      ensures failed && x.IsDir() ==> faulty || Broken(disk, x.block)
    {
      var es := ReadDirEntries(x);
      if es.None? { return None, true; }
      for i := 0 to |es.value|
        invariant forall j :: 0 <= j < i ==> es.value[j].name != name
      {
        if es.value[i].name == name {
          assert FirstCalled(es.value, i, name);
          return Some(es.value[i].ino), false;
        }
      }
      return None, false;
    }

    /** remove_dir_entry_from_disk: drop the first used entry with that name. */
    method RemoveDirEntry(x: Inode, name: seq<byte>) returns (ok: bool, found: Option<u32>, ghost pos: nat)
      requires DiskOk(geo, disk) && TreeOk(geo, disk, x.block) && DirOk(disk, x)
      modifies this`disk
      ensures ok ==> Extended(geo, old(disk), x.block, disk, x.block) && DirOk(disk, x)
      ensures ok && found.None? ==> disk == old(disk) && forall e :: e in Listing(disk, x) ==> e.name != name
      ensures ok && found.Some? ==> RemovedFrom(old(disk), disk, x, name, found.value, pos)
      ensures !ok ==> faulty && OthersSame(geo, old(disk), x.block, disk)
    {
      pos, found := 0, None;
      var n := x.Size() / 1024;
      var bytesScanned, l := 0, 0;
      ExtendedRefl(geo, disk, x.block);
      while bytesScanned < x.Size()
        invariant bytesScanned == 1024 * l && l <= n && disk == old(disk)
        invariant forall e :: e in DirList(disk, x.block, 0, l) ==> e.name != name
      {
        var b := ResolveBlock(x.block, l);
        if b.None? { return false, None, 0; }
        if b.value != 0 {
          assert DirBlockOk(disk, x.block, l);
          var data := ReadBlock(b.value);
          if data.None? { return false, None, 0; }
          ghost var rs, at;
          var r;
          r, at, rs := RemoveInBlock(data.value, name, Records(data.value));
          if r.Some? {
            RewriteExtends(geo, disk, x.block, l, r.value.0);
            pos := RemoveFromListing(disk, x, disk[b.value := r.value.0], l, name, r.value.0, at, rs);
            DataInTree(geo, disk, x.block, l);
            ok := WriteBlock(b.value, r.value.0);
            if !ok { FailedStore(geo, old(disk), x.block, old(disk), disk, b.value); }
            found := Some(r.value.1);
            return;
          }
        }
        NotInNextBlock(disk, x.block, l, name);
        bytesScanned := bytesScanned + 1024;
        l := l + 1;
      }
      ok := true;
    }

    /** One round of add_dir_entry's scan: try block `l` of the directory. */
    method TryAddInBlock(x: Inode, l: nat, e: DirEntry) returns (ok: bool, added: bool, ghost pos: nat)
      requires DiskOk(geo, disk) && TreeOk(geo, disk, x.block) && DirOk(disk, x) && l < x.Size() / 1024
      requires e.ino != 0 && |e.name| <= 255
      modifies this`disk
      ensures ok && !added ==> disk == old(disk) && !RoomIn(disk, x.block, l, Needed(|e.name|))
      ensures ok && added ==> DirOk(disk, x) && Extended(geo, old(disk), x.block, disk, x.block)
      ensures ok && added ==>
        pos <= |Listing(old(disk), x)| && Listing(disk, x) == InsertAt(Listing(old(disk), x), pos, e)
      ensures ok && added ==> RoomIn(old(disk), x.block, l, Needed(|e.name|))
      ensures !ok ==> faulty && OthersSame(geo, old(disk), x.block, disk)
    {
      ok, added, pos := true, false, 0;
      NotBroken(geo, disk, x.block);
      var b := ResolveBlock(x.block, l);
      if b.None? { return false, false, 0; }
      if b.value == 0 { return; }
      assert DirBlockOk(disk, x.block, l);
      var data := ReadBlock(b.value);
      if data.None? { return false, false, 0; }
      ghost var rs, at;
      var r;
      r, at, rs := AddInBlock(data.value, e, Records(data.value));
      if r.None? { return; }
      RewriteExtends(geo, disk, x.block, l, r.value);
      pos := AddToListing(disk, x, disk[b.value := r.value], l, r.value, at, rs, e);
      DataInTree(geo, disk, x.block, l);
      ok := WriteBlock(b.value, r.value);
      if !ok { FailedStore(geo, old(disk), x.block, old(disk), disk, b.value); }
      added := true;
    }

    /** add_dir_entry: into the first record with room, or into a new block behind the last one. */
    method AddDirEntry(x: Inode, num: nat, e: DirEntry) returns (ok: bool, x': Inode, ghost pos: nat)
      requires DiskOk(geo, disk) && TreeOk(geo, disk, x.block) && DirOk(disk, x) && SlotsTile(geo)
      requires e.ino != 0 && |e.name| <= 255
      requires x.Size() + 1024 < U32_LIMIT && Ptr(disk, x.block, PathOf(x.Size() / 1024)) == 0
      modifies this`disk
      ensures ok ==> DirOk(disk, x') && pos <= |Listing(old(disk), x)|
      ensures ok ==> Listing(disk, x') == InsertAt(Listing(old(disk), x), pos, e)
      ensures ok && x' == x ==> Extended(geo, old(disk), x.block, disk, x.block)
      ensures ok && x' != x ==> DirGrown(geo, old(disk), x, disk, num, x')
      ensures ok ==> (x' == x <==> HasRoom(old(disk), x, Needed(|e.name|)))
      ensures !ok ==> StoreFailed(geo, faulty, old(disk), x.block, disk, num, 4)
      ensures !ok && !faulty && HasSlot(geo, num) ==> DirSurvived(geo, old(disk), x, disk)
    {
      x' := x;
      var added;
      ok, added, pos := ScanForRoom(x, e);
      if !ok || added { return; }
      pos := |Listing(disk, x)|;
      ok, x' := GrowDirectory(x, num, e);
    }

    /** add_dir_entry's scan over the existing blocks. */
    method ScanForRoom(x: Inode, e: DirEntry) returns (ok: bool, added: bool, ghost pos: nat)
      requires DiskOk(geo, disk) && TreeOk(geo, disk, x.block) && DirOk(disk, x)
      requires e.ino != 0 && |e.name| <= 255
      modifies this`disk
      ensures ok && !added ==> disk == old(disk)
      ensures ok ==> (added <==> HasRoom(old(disk), x, Needed(|e.name|)))
      ensures ok && added ==> DirOk(disk, x) && Extended(geo, old(disk), x.block, disk, x.block)
      ensures ok && added ==>
        pos <= |Listing(old(disk), x)| && Listing(disk, x) == InsertAt(Listing(old(disk), x), pos, e)
      ensures !ok ==> faulty && OthersSame(geo, old(disk), x.block, disk)
    {
      var bytesScanned, l := 0, 0;
      while bytesScanned < x.Size()
        invariant bytesScanned == 1024 * l && l <= x.Size() / 1024 && disk == old(disk)
        invariant forall m :: 0 <= m < l ==> !RoomIn(disk, x.block, m, Needed(|e.name|))
      {
        ok, added, pos := TryAddInBlock(x, l, e);
        if !ok || added { return; }
        bytesScanned := bytesScanned + 1024;
        l := l + 1;
      }
      return true, false, 0;
    }

    /** The tail of add_dir_entry: a new block that holds just the entry. */
    method GrowDirectory(x: Inode, num: nat, e: DirEntry) returns (ok: bool, x': Inode)
      requires DiskOk(geo, disk) && TreeOk(geo, disk, x.block) && DirOk(disk, x) && SlotsTile(geo)
      requires e.ino != 0 && |e.name| <= 255
      requires x.Size() + 1024 < U32_LIMIT && Ptr(disk, x.block, PathOf(x.Size() / 1024)) == 0
      modifies this`disk
      ensures ok ==> x' != x && DirOk(disk, x') && Listing(disk, x') == Listing(old(disk), x) + [e]
      ensures ok ==> DirGrown(geo, old(disk), x, disk, num, x')
      ensures !ok ==> StoreFailed(geo, faulty, old(disk), x.block, disk, num, 4)
      ensures !ok && !faulty && HasSlot(geo, num) ==> DirSurvived(geo, old(disk), x, disk)
    {
      x' := x;
      var n := (x.Size() + 1023) / 1024;
      WholeBlocks(x.Size(), n);
      var ptrs;
      ok, ptrs := LinkDirBlock(x.block, n, e);
      if !ok {
        if !faulty { StuckListing(geo, old(disk), x, disk); }
        return;
      }
      x' := x.(block := ptrs, sizeLow := 1024 * (n + 1), blocks := 2 * (n + 1));
      ok := StoreDirInode(x, num, x', n + 1, old(disk));
    }

    /** Store the inode of a directory that has grown to `n` blocks. */
    method StoreDirInode(ghost x: Inode, num: nat, x': Inode, ghost n: nat, ghost d0: Disk) returns (ok: bool)
      requires TreeOk(geo, d0, x.block) && Extended(geo, d0, x.block, disk, x'.block) && SlotsTile(geo)
      requires DirBlocksOk(disk, x'.block, n) && x'.IsDir() && x'.Size() == 1024 * n
      modifies this`disk
      ensures ok ==> DirOk(disk, x') && Listing(disk, x') == DirList(old(disk), x'.block, 0, n)
      ensures ok ==> DirGrown(geo, d0, x, disk, num, x')
      ensures !ok ==> (faulty || !HasSlot(geo, num)) && StoreFailed(geo, faulty, d0, x.block, disk, num, 4)
    {
      if HasSlot(geo, num) { SlotPresent(geo, disk, num); }
      ok := WriteInode(num, x');
      if ok {
        StoredDir(geo, d0, x, old(disk), num, x');
        SlotInTable(geo, num);
        StoredDirListing(geo, old(disk), x', n, SlotBlock(geo, num), disk[SlotBlock(geo, num)]);
      } else {
        FailedInode(geo, faulty, d0, x.block, old(disk), disk, num, 4);
      }
    }

    /** Allocate a block, fill it with the entry, and link it as logical block `n`. */
    method LinkDirBlock(ptrs: Pointers, n: nat, e: DirEntry) returns (ok: bool, ptrs': Pointers)
      requires DiskOk(geo, disk) && TreeOk(geo, disk, ptrs) && n < MAX_BLOCKS && DirBlocksOk(disk, ptrs, n)
      requires e.ino != 0 && |e.name| <= 255 && Ptr(disk, ptrs, PathOf(n)) == 0
      modifies this`disk
      ensures ok ==> Extended(geo, old(disk), ptrs, disk, ptrs')
      ensures ok ==>
        DirBlocksOk(disk, ptrs', n + 1) && DirList(disk, ptrs', 0, n + 1) == DirList(old(disk), ptrs, 0, n) + [e]
      ensures !ok ==> GaveUp(geo, faulty, old(disk), ptrs, disk, 4)
    {
      ptrs' := ptrs;
      var v := AllocForTable(ptrs);
      if v.None? {
        FailedMore(geo, faulty, old(disk), ptrs, disk, 1, 4);
        return false, ptrs;
      }
      PreparedByFill(geo, old(disk), ptrs, disk, v.value, NewDirBlock(e));
      ghost var d2 := disk;
      ok := WriteBlock(v.value, NewDirBlock(e));
      if !ok {
        FailedStore(geo, old(disk), ptrs, d2, disk, v.value);
        return;
      }
      ghost var news, d1 := {}, disk;
      ok, ptrs', news := SetBlockPointer(ptrs, n, v.value);
      if !ok {
        FailedAfterTake(geo, faulty, old(disk), ptrs, d1, v.value, disk, 3, 4);
      } else {
        PathOfLeaf(n);
        ExtendedRefl(geo, old(disk), ptrs);
        ExtendByMap(geo, old(disk), ptrs, old(disk), ptrs, d1, disk, ptrs', PathOf(n), v.value, news);
        GrowListing(geo, old(disk), ptrs, d1, disk, ptrs', n, v.value, news, e);
      }
    }

    /** Any sequence of writes to one file. */
    method WriteAll(x: Inode, num: nat, writes: seq<(nat, seq<byte>)>) returns (ok: bool, y: Inode)
      requires DiskOk(geo, disk) && TreeOk(geo, disk, x.block) && SlotsTile(geo) && !x.IsDir()
      requires forall i :: 0 <= i < |writes| ==> writes[i].0 + |writes[i].1| <= MAX_BYTES
      modifies this`disk
      ensures ok ==> FileExtended(geo, old(disk), x.block, disk, y.block)
      ensures !ok ==> faulty || !HasSlot(geo, num) || ShortBy(geo, old(disk), Needs(writes, |writes|))
    {
      y := x;
      ghost var news: set<nat> := {};
      ExtendedRefl(geo, disk, x.block);
      TookNone(geo, disk);
      for i := 0 to |writes|
        invariant FileExtended(geo, old(disk), x.block, disk, y.block) && !y.IsDir()
        invariant TookUp(geo, old(disk), disk, news) && |news| <= Needs(writes, i)
      {
        ghost var d1, p1, more := disk, y.block, {};
        ok, y, more := WriteInodeData(y, num, writes[i].0, writes[i].1);
        if !ok {
          NeedsGrow(writes, i + 1, |writes|);
          if !faulty && HasSlot(geo, num) {
            ShortLater(geo, old(disk), d1, news, 4 * Touched(writes[i].0, |writes[i].1|), Needs(writes, |writes|));
          }
          return;
        }
        TookMore(geo, old(disk), d1, disk, news, more);
        news := news + more;
        if writes[i].1 != [] { FileExtendedTrans(geo, old(disk), x.block, d1, p1, disk, y.block); }
      }
      ok := true;
    }

    /** A file's life: any sequence of successful writes, then free_inode_blocks. */
    method WriteAllThenFree(x: Inode, num: nat, writes: seq<(nat, seq<byte>)>) returns (ok: bool)
      requires DiskOk(geo, disk) && TreeOk(geo, disk, x.block) && SlotsTile(geo) && !x.IsDir()
      requires forall i :: 0 <= i < |writes| ==> writes[i].0 + |writes[i].1| <= MAX_BYTES
      modifies this
      ensures ok ==> doubleFree == old(doubleFree)
      ensures ok ==> forall b: nat :: Used(geo, disk, b) <==> Used(geo, old(disk), b) && !InTree(old(disk), x.block, b)
      ensures ok && x.block == seq(15, i => 0) ==> forall g :: 0 <= g < |geo.groups| ==>
        geo.groups[g].blockBitmap in disk && geo.groups[g].blockBitmap in old(disk)
        && disk[geo.groups[g].blockBitmap] == old(disk)[geo.groups[g].blockBitmap]
      ensures !ok ==> faulty || !HasSlot(geo, num) || ShortBy(geo, old(disk), Needs(writes, |writes|))
    {
      var y;
      ok, y := WriteAll(x, num, writes);
      if !ok { return; }
      ghost var d1 := disk;
      ok := FreeInodeBlocks(y.block);
      if ok { FreeUndoesGrowth(geo, old(disk), x.block, d1, y.block, disk); }
    }
  }

  /** How many blocks of a file the bytes from `offset` to `offset + n` lie in. */
  function Touched(offset: nat, n: nat): nat {
    if n == 0 then 0 else (offset + n - 1) / 1024 - offset / 1024 + 1
  }

  /** A chunk ends at the end of the data or at the end of a block. */
  lemma ChunkEnd(offset: nat, n: nat, n': nat, total: nat)
    requires n < total && offset + total <= MAX_BYTES
    requires n' == n + if total - n < 1024 - (offset + n) % 1024 then total - n else 1024 - (offset + n) % 1024
    ensures n < n' <= total && BlockEdge(offset, n', total)
    ensures (offset + n) / 1024 < MAX_BLOCKS && (offset + n) % 1024 + n' - n <= 1024
  {
  }

  /** Byte `n` of the data is the first of a block, or all `total` bytes are done. */
  predicate BlockEdge(offset: nat, n: nat, total: nat) {
    n == total || (offset + n) % 1024 == 0
  }

  /** `k` blocks are at most four for each block that the first `n` bytes touch. */
  predicate InBudget(k: nat, offset: nat, n: nat) {
    k <= 4 * Touched(offset, n)
  }

  /** Bytes that start a block touch one block more. */
  lemma BudgetStep(k: nat, k': nat, offset: nat, n: nat, n': nat)
    requires InBudget(k, offset, n) && k' <= k + 4 && n < n' && (n == 0 || BlockEdge(offset, n, n'))
    ensures InBudget(k', offset, n')
  {
    if n > 0 {
      var q := (offset + n) / 1024;
      assert offset + n == 1024 * q;
      assert (offset + n - 1) / 1024 == q - 1 && (offset + n' - 1) / 1024 >= q;
    }
  }

  /** The first `n` bytes from `offset` took the free blocks in `news`. */
  ghost predicate Spent(geo: Geometry, d0: Disk, d: Disk, news: set<nat>, offset: nat, n: nat) {
    TookUp(geo, d0, d, news) && InBudget(|news|, offset, n)
  }

  lemma SpendMore(geo: Geometry, d0: Disk, d1: Disk, d: Disk, news: set<nat>, more: set<nat>, offset: nat, n: nat,
                  n': nat)
    requires Spent(geo, d0, d1, news, offset, n) && TookUp(geo, d1, d, more) && |more| <= 4
    requires n < n' && (n == 0 || BlockEdge(offset, n, n'))
    ensures Spent(geo, d0, d, news + more, offset, n')
  {
    TookMore(geo, d0, d1, d, news, more);
    BudgetStep(|news|, |news + more|, offset, n, n');
  }

  lemma SpentAll(geo: Geometry, faulty: bool, d0: Disk, p0: Pointers, d1: Disk, p1: Pointers, d: Disk, news: set<nat>,
                 offset: nat, data: seq<byte>, n: nat)
    requires Spent(geo, d0, d1, news, offset, n) && n < |data| && (n == 0 || BlockEdge(offset, n, |data|))
    requires Extended(geo, d0, p0, d1, p1) && Written(d0, p0, d1, p1, offset, data, n) && OthersSame(geo, d0, p0, d)
    requires faulty || (ShortBy(geo, d1, 4) && Stuck(geo, d1, p1, d, 4))
    ensures CopyFailed(geo, faulty, d0, p0, d, offset, data, 4 * Touched(offset, |data|))
  {
    var m := 4 * Touched(offset, |data|);
    BudgetStep(|news|, |news| + 4, offset, n, |data|);
    if !faulty {
      ShortLater(geo, d0, d1, news, 4, m);
      SurvivedStuck(geo, d0, p0, d1, p1, news, d, offset, data, n, 4, m);
    }
  }

  /**
   * The blocks that the first `k` writes may take: a data block and up to three pointer blocks for each block
   * touched.
   */
  function Needs(writes: seq<(nat, seq<byte>)>, k: nat): nat
    requires k <= |writes|
  {
    if k == 0 then 0 else Needs(writes, k - 1) + 4 * Touched(writes[k - 1].0, |writes[k - 1].1|)
  }

  lemma {:induction false} NeedsGrow(writes: seq<(nat, seq<byte>)>, j: nat, k: nat)
    requires j <= k <= |writes|
    ensures Needs(writes, j) <= Needs(writes, k)
  {
    if j < k { NeedsGrow(writes, j, k - 1); }
  }

  lemma TookData(geo: Geometry, d: Disk, d': Disk, b: nat)
    requires DiskOk(geo, d) && SameBut(d, d', b) && !geo.IsBlockBitmap(b)
    ensures TookUp(geo, d, d', {})
  {
    UsedFrame(geo, d, d');
  }

  lemma TableInTree(geo: Geometry, d: Disk, ptrs: Pointers, p: Path)
    requires DiskOk(geo, d) && TreeOk(geo, d, ptrs) && Valid(p) && Ptr(d, ptrs, p) != 0
    ensures InTree(d, ptrs, Ptr(d, ptrs, p)) && Ptr(d, ptrs, p) in d && !geo.IsBlockBitmap(Ptr(d, ptrs, p))
  {
    assert Owned(geo, d, Ptr(d, ptrs, p));
  }

  lemma DataInTree(geo: Geometry, d: Disk, ptrs: Pointers, l: nat)
    requires DiskOk(geo, d) && TreeOk(geo, d, ptrs) && l < MAX_BLOCKS && Ptr(d, ptrs, PathOf(l)) != 0
    ensures InTree(d, ptrs, Ptr(d, ptrs, PathOf(l)))
  {
    PathOfLeaf(l);
    TableInTree(geo, d, ptrs, PathOf(l));
  }

  lemma NewTable(geo: Geometry, d: Disk, ptrs: Pointers, d1: Disk, ptrs1: Pointers, c: Path, n: u32)
    requires Grew(geo, d, ptrs, d1, ptrs1, c, n, {n as nat}) && Valid(c) && n != 0
    ensures !Foreign(geo, d, ptrs, n) && n in d1
  {
    assert n as nat in {n as nat};
    assert Ptr(d1, ptrs1, c) == n;
  }

  /** Mapping an entry of a level-1 pointer block that is already in the tree. */
  lemma MapThroughTable(geo: Geometry, d: Disk, ptrs: Pointers, q: Path, i: nat, v: u32)
    requires DiskOk(geo, d) && TreeOk(geo, d, ptrs) && Owned(geo, d, v) && !InTree(d, ptrs, v)
    requires Interior(q) && Level(q) == 1 && i < ENTRIES && Ptr(d, ptrs, q) != 0
    ensures Ptr(d, ptrs, q) in d
    ensures Mapped(geo, d, ptrs, WithEntry(d, Ptr(d, ptrs, q), i, v), ptrs, Child(q, i), v, {})
  {
    GrewLeafEntry(geo, d, ptrs, q, i, v);
    MappedLast(geo, d, ptrs, WithEntry(d, Ptr(d, ptrs, q), i, v), ptrs, Child(q, i), v);
  }

  /** An owned block outside the tree stays so when the tree grows by another block. */
  lemma StaysOutside(geo: Geometry, d: Disk, ptrs: Pointers, d': Disk, ptrs': Pointers, c: Path, n: u32, v: nat)
    requires Grew(geo, d, ptrs, d', ptrs', c, n, {n})
    requires Owned(geo, d, v) && !InTree(d, ptrs, v)
    ensures Owned(geo, d', v) && !InTree(d', ptrs', v)
  {
  }

  /** Mapping an entry of a level-1 pointer block that was linked just before. */
  lemma MapBelowNewTable(geo: Geometry, d: Disk, ptrs: Pointers, d1: Disk, ptrs1: Pointers, q: Path, n: u32, j: nat,
                         v: u32)
    requires TreeOk(geo, d, ptrs) && Owned(geo, d, v) && !InTree(d, ptrs, v)
    requires Interior(q) && Level(q) == 1 && Ptr(d, ptrs, q) == 0 && n != 0 && j < ENTRIES
    requires Grew(geo, d, ptrs, d1, ptrs1, q, n, {n as nat})
    ensures n in d1 && Mapped(geo, d, ptrs, WithEntry(d1, n, j, v), ptrs1, Child(q, j), v, {n as nat})
  {
    StaysOutside(geo, d, ptrs, d1, ptrs1, q, n, v);
    assert Ptr(d1, ptrs1, q) == n;
    MapThroughTable(geo, d1, ptrs1, q, j, v);
    MappedStep(geo, d, ptrs, d1, ptrs1, WithEntry(d1, n, j, v), ptrs1, q, n, Child(q, j), v, {});
    assert {} + {n as nat} == {n as nat};
  }

  lemma WholeBlocks(size: nat, n: nat)
    requires size % 1024 == 0 && n == (size + 1023) / 1024
    ensures size / 1024 == n && size == 1024 * n
  {
  }

  lemma PathBelowRoot(l: nat)
    requires 12 <= l < MAX_BLOCKS
    ensures Above(Root(if l < 268 then 12 else if l < 65804 then 13 else 14), PathOf(l))
  {
    if 65804 <= l { assert Above(Root(14), PathOf(l).parent.parent); }
  }

  /** The position that read_inode_data looks at: the block number cut to 32 bits. */
  lemma CutPosition(k: nat)
    ensures k % MAX_FILE / 1024 == k / 1024 % U32_LIMIT && k % MAX_FILE % 1024 == k % 1024
  {
    var q, r := k / MAX_FILE, k % MAX_FILE;
    assert k == 1024 * (U32_LIMIT * q) + r;
    assert k / 1024 == U32_LIMIT * q + r / 1024 && k % 1024 == r % 1024;
    ModOfSum(U32_LIMIT, q, r / 1024);
  }

  lemma ModOfSum(n: nat, q: nat, r: nat)
    requires r < n
    ensures (n * q + r) % n == r
  {
    DivModUnique(n * q + r, n, q, r);
  }

  /** The bytes read_inode_data takes from one block. */
  lemma ChunkRead(d: Disk, ptrs: Pointers, k: nat, n: nat, t: seq<byte>)
    requires k % 1024 + n <= 1024 && |t| == n && n > 0
    requires k % MAX_FILE >= MAX_BYTES ==> t == Zeros(n)
    requires k % MAX_FILE < MAX_BYTES ==>
             var b := Ptr(d, ptrs, PathOf(k % MAX_FILE / 1024));
             (b == 0 && t == Zeros(n)) || (b != 0 && b in d && t == d[b][k % 1024..k % 1024 + n])
    ensures forall i :: 0 <= i < n ==> t[i] == FileByte(d, ptrs, (k + i) % MAX_FILE)
  {
    forall i | 0 <= i < n ensures t[i] == FileByte(d, ptrs, (k + i) % MAX_FILE) {
      SameBlockPosition(k, i);
    }
  }

  lemma SameBlockPosition(k: nat, i: nat)
    requires k % 1024 + i < 1024
    ensures (k + i) % MAX_FILE == k % MAX_FILE + i && (k + i) % MAX_FILE / 1024 == k % MAX_FILE / 1024
    ensures (k + i) % MAX_FILE % 1024 == k % 1024 + i
  {
    assert (k + i) / 1024 == k / 1024 && (k + i) % 1024 == k % 1024 + i;
    CutPosition(k);
    CutPosition(k + i);
    var p, q := k % MAX_FILE, (k + i) % MAX_FILE;
    assert p == 1024 * (p / 1024) + p % 1024 && q == 1024 * (q / 1024) + q % 1024;
  }

  /** Inode `num` reads as `x`; all other inodes read as before. */
  ghost predicate InodesSameBut(geo: Geometry, d0: Disk, d: Disk, num: nat, x: Inode) {
    SlotsTile(geo) && forall m: nat :: HasSlot(geo, m) ==> InodeReadsAs(geo, d0, d, m, num, x)
  }

  predicate InodeReadsAs(geo: Geometry, d0: Disk, d: Disk, m: nat, num: nat, x: Inode)
    requires SlotsTile(geo) && HasSlot(geo, m)
  {
    && SlotBlock(geo, m) in d0 && SlotBlock(geo, m) in d
    && InodeAt(geo, d, m) == if m == num then x else InodeAt(geo, d0, m)
  }

  /** A finished write: the bytes are in the file, the file only grew, the inode is stored, and nothing else changed. */
  ghost predicate WriteStored(geo: Geometry, d0: Disk, p0: Pointers, d: Disk, num: nat, x: Inode, offset: nat,
                              data: seq<byte>) {
    && Written(d0, p0, d, x.block, offset, data, |data|)
    && FileExtended(geo, d0, p0, d, x.block)
    && HasSlot(geo, num) && OthersSameBut(geo, d0, p0, d, SlotBlock(geo, num))
    && InodesSameBut(geo, d0, d, num, x)
  }

  /** Storing the inode of an extended file. */
  lemma StoredInode(geo: Geometry, d0: Disk, p0: Pointers, d: Disk, num: nat, x: Inode, offset: nat, data: seq<byte>)
    requires TreeOk(geo, d0, p0) && Extended(geo, d0, p0, d, x.block)
    requires Written(d0, p0, d, x.block, offset, data, |data|)
    requires SlotsTile(geo) && HasSlot(geo, num) && SlotBlock(geo, num) in d
    ensures WriteStored(geo, d0, p0, WithInode(geo, d, num, x), num, x, offset, data)
  {
    SlotInTable(geo, num);
    var sb := SlotBlock(geo, num);
    var d' := WithInode(geo, d, num, x);
    ExtendByInodeArea(geo, d0, p0, d, x.block, sb, d'[sb]);
    WrittenByInodeArea(geo, d0, p0, d, x.block, sb, d'[sb], offset, data, |data|);
    StoredInodeSlots(geo, d0, p0, d, num, x);
  }

  lemma StoredInodeSlots(geo: Geometry, d0: Disk, p0: Pointers, d: Disk, num: nat, x: Inode)
    requires DiskOk(geo, d0) && TreeOk(geo, d0, p0) && OthersSame(geo, d0, p0, d)
    requires SlotsTile(geo) && HasSlot(geo, num) && SlotBlock(geo, num) in d
    ensures InodesSameBut(geo, d0, WithInode(geo, d, num, x), num, x)
  {
    var d' := WithInode(geo, d, num, x);
    forall m: nat | HasSlot(geo, m) ensures InodeReadsAs(geo, d0, d', m, num, x) {
      SlotInTable(geo, m);
      InodeAreaForeign(geo, d0, p0, SlotBlock(geo, m));
      InodeAtWithInode(geo, d, num, x, m);
    }
  }

  /** The listing lost exactly the entry at `pos`: the first one called `name`, which had inode `ino`. */
  ghost predicate RemovedFrom(d: Disk, d': Disk, x: Inode, name: seq<byte>, ino: u32, pos: nat) {
    && FirstCalled(Listing(d, x), pos, name) && Listing(d, x)[pos].ino == ino
    && Listing(d', x) == RemoveAt(Listing(d, x), pos)
  }

  /** The directory gained a block: its tree only grew, its inode is stored, and nothing else changed. */
  ghost predicate DirGrown(geo: Geometry, d0: Disk, x: Inode, d: Disk, num: nat, x': Inode) {
    && FileExtended(geo, d0, x.block, d, x'.block)
    && HasSlot(geo, num) && OthersSameBut(geo, d0, x.block, d, SlotBlock(geo, num))
    && InodesSameBut(geo, d0, d, num, x')
  }

  /** Storing the inode of a grown directory. */
  lemma StoredDir(geo: Geometry, d0: Disk, x: Inode, d: Disk, num: nat, x': Inode)
    requires TreeOk(geo, d0, x.block) && Extended(geo, d0, x.block, d, x'.block)
    requires SlotsTile(geo) && HasSlot(geo, num) && SlotBlock(geo, num) in d
    ensures DirGrown(geo, d0, x, WithInode(geo, d, num, x'), num, x')
  {
    SlotInTable(geo, num);
    ExtendByInodeArea(geo, d0, x.block, d, x'.block, SlotBlock(geo, num), WithInode(geo, d, num, x')[SlotBlock(geo,
                      num)]);
    StoredInodeSlots(geo, d0, x.block, d, num, x');
  }

  lemma StoredDirListing(geo: Geometry, d: Disk, x: Inode, n: nat, sb: nat, data: Block)
    requires TreeOk(geo, d, x.block) && DirBlocksOk(d, x.block, n) && x.IsDir() && x.Size() == 1024 * n
    requires geo.IsInodeArea(sb) && sb in d
    ensures DirOk(d[sb := data], x) && Listing(d[sb := data], x) == DirList(d, x.block, 0, n)
  {
    ListingAfterInode(geo, d, x.block, n, sb, data);
    assert x.Size() / 1024 == n;
  }

  /** A directory that could not grow for lack of space: it lists the same entries, and nothing else changed. */
  ghost predicate DirSurvived(geo: Geometry, d0: Disk, x: Inode, d: Disk) {
    && OthersSame(geo, d0, x.block, d) && Stuck(geo, d0, x.block, d, 4)
    && DirOk(d, x) && Listing(d, x) == Listing(d0, x)
  }

  lemma StuckListing(geo: Geometry, d0: Disk, x: Inode, d: Disk)
    requires DiskOk(geo, d0) && TreeOk(geo, d0, x.block) && DirOk(d0, x) && x.Size() < U32_LIMIT
    requires Stuck(geo, d0, x.block, d, 4)
    ensures DirOk(d, x) && Listing(d, x) == Listing(d0, x)
  {
    var n := x.Size() / 1024;
    forall l | 0 <= l < n ensures BlockSame(d0, x.block, d, x.block, l) && DirBlockOk(d, x.block, l) {
      assert DirBlockOk(d0, x.block, l);
      PathOfLeaf(l);
      if Ptr(d0, x.block, PathOf(l)) != 0 { DataBlockKept(geo, d0, x.block, PathOf(l)); }
    }
    DirListFrame(d0, x.block, d, x.block, 0, n);
  }

  /** Inserting at `at` of block `l` inserts one entry into the listing. */
  lemma AddToListing(d: Disk, x: Inode, d': Disk, l: nat, data: Block, at: nat, rs: seq<Rec>, e: DirEntry)
    returns (pos: nat)
    requires Ext2Tree.Distinct(d, x.block) && DirOk(d, x) && l < x.Size() / 1024
    requires Ptr(d, x.block, PathOf(l)) != 0 && Laid(data, 0, rs, 1024)
    requires d' == d[Ptr(d, x.block, PathOf(l)) := data]
    requires forall p :: Valid(p) ==> Ptr(d', x.block, p) == Ptr(d, x.block, p)
    requires at <= |BlockList(d, x.block, l)| && Live(rs) == InsertAt(BlockList(d, x.block, l), at, e)
    ensures DirOk(d', x) && pos <= |Listing(d, x)| && Listing(d', x) == InsertAt(Listing(d, x), pos, e)
  {
    var n := x.Size() / 1024;
    RecordsAre(data, rs);
    RewriteListing(d, x.block, d', l, n, data);
    var xs, ys, zs := DirList(d, x.block, 0, l), BlockList(d, x.block, l), DirList(d, x.block, l + 1, n);
    pos := |xs| + at;
    InsertInMiddle(xs, ys, zs, at, e);
  }

  lemma NotInNextBlock(d: Disk, ptrs: Pointers, l: nat, name: seq<byte>)
    requires forall e :: e in DirList(d, ptrs, 0, l) ==> e.name != name
    requires forall e :: e in BlockList(d, ptrs, l) ==> e.name != name
    ensures forall e :: e in DirList(d, ptrs, 0, l + 1) ==> e.name != name
  {
    DirListSplit(d, ptrs, 0, l, l + 1);
    assert DirList(d, ptrs, l, l + 1) == BlockList(d, ptrs, l);
  }

  /** Removing entry `at` of block `l` removes one entry of the listing. */
  lemma RemoveFromListing(d: Disk, x: Inode, d': Disk, l: nat, name: seq<byte>, data: Block, at: nat, rs: seq<Rec>)
    returns (pos: nat)
    requires Ext2Tree.Distinct(d, x.block) && DirOk(d, x) && l < x.Size() / 1024
    requires Ptr(d, x.block, PathOf(l)) != 0 && Laid(data, 0, rs, 1024)
    requires d' == d[Ptr(d, x.block, PathOf(l)) := data]
    requires forall p :: Valid(p) ==> Ptr(d', x.block, p) == Ptr(d, x.block, p)
    requires FirstCalled(BlockList(d, x.block, l), at, name) && Live(rs) == RemoveAt(BlockList(d, x.block, l), at)
    requires forall e :: e in DirList(d, x.block, 0, l) ==> e.name != name
    ensures DirOk(d', x) && RemovedFrom(d, d', x, name, BlockList(d, x.block, l)[at].ino, pos)
  {
    var n := x.Size() / 1024;
    RecordsAre(data, rs);
    RewriteListing(d, x.block, d', l, n, data);
    var xs, ys, zs := DirList(d, x.block, 0, l), BlockList(d, x.block, l), DirList(d, x.block, l + 1, n);
    pos := RemovedMiddle(d, d', x, name, xs, ys, zs, at);
  }

  lemma RemovedMiddle(d: Disk, d': Disk, x: Inode, name: seq<byte>,
                      xs: seq<DirEntry>, ys: seq<DirEntry>, zs: seq<DirEntry>, at: nat)
    returns (pos: nat)
    requires Listing(d, x) == xs + ys + zs && FirstCalled(ys, at, name) && forall e :: e in xs ==> e.name != name
    requires Listing(d', x) == xs + RemoveAt(ys, at) + zs
    ensures RemovedFrom(d, d', x, name, ys[at].ino, pos)
  {
    pos := |xs| + at;
    RemoveInMiddle(xs, ys, zs, at);
    FirstInMiddle(xs, ys, zs, at, name);
  }
}
