/** Inodes and their 128-byte on-disk form, stored in fixed slots of the inode tables. */
module Ext2Inode {
  import opened Bytes
  import opened Ext2Layout
  import opened Ext2Tree

  const S_IFDIR: nat := 0x4

  datatype Inode = Inode(
    mode: u16, uid: u16, sizeLow: u32, atime: u32, ctime: u32, mtime: u32, dtime: u32,
    gid: u16, nlink: u16, blocks: u32, block: Pointers, sizeHigh: u32)
  {
    /** The file type is the top four bits of the mode. */
    predicate IsDir() { mode / 0x1000 == S_IFDIR }

    function Size(): nat {
      if IsDir() then sizeLow else sizeHigh * 0x1_0000_0000 + sizeLow
    }
  }

  /**
   * The inode after a write that ends at `end`: new pointers, a size that never shrinks, and the 512-byte block
   * count.
   */
  function AfterWrite(x: Inode, ptrs: Pointers, end: nat): (r: Inode)
    requires !x.IsDir() && end < 0x1_0000_0000_0000_0000
    ensures r == x.(block := ptrs, sizeLow := r.sizeLow, sizeHigh := r.sizeHigh, blocks := r.blocks)
    ensures r.Size() == if end > x.Size() then end else x.Size()
    ensures r.blocks == (r.Size() + 511) / 512 % U32_LIMIT
  {
    var y := x.(block := ptrs);
    var z := if end > y.Size() then y.(sizeLow := end % U32_LIMIT, sizeHigh := end / U32_LIMIT) else y;
    z.(blocks := (z.Size() + 511) / 512 % U32_LIMIT)
  }

  function PointerBytes(ptrs: seq<u32>): (r: seq<byte>)
    ensures |r| == 4 * |ptrs|
  {
    if ptrs == [] then [] else U32Bytes(ptrs[0]) + PointerBytes(ptrs[1..])
  }

  /** The first 32 bytes: mode, uid, size_low, atime, ctime, mtime, dtime, gid, nlink, blocks. */
  function HeadBytes(x: Inode): (r: seq<byte>)
    ensures |r| == 32
  {
    U16Bytes(x.mode) + U16Bytes(x.uid) + U32Bytes(x.sizeLow) + U32Bytes(x.atime) + U32Bytes(x.ctime)
    + U32Bytes(x.mtime) + U32Bytes(x.dtime) + U16Bytes(x.gid) + U16Bytes(x.nlink) + U32Bytes(x.blocks)
  }

  /** to_bytes: fields at their offsets, zero elsewhere. */
  function ToBytes(x: Inode): (r: seq<byte>)
    ensures |r| == 128
  {
    HeadBytes(x) + Zeros(8) + PointerBytes(x.block) + Zeros(8) + U32Bytes(x.sizeHigh) + Zeros(16)
  }

  function FromBytes(s: seq<byte>): Inode
    requires |s| == 128
  {
    Inode(GetU16(s, 0), GetU16(s, 2), GetU32(s, 4), GetU32(s, 8), GetU32(s, 12), GetU32(s, 16), GetU32(s, 20),
          GetU16(s, 24), GetU16(s, 26), GetU32(s, 28), seq(15, i requires 0 <= i < 15 => GetU32(s, 40 + 4 * i)),
          GetU32(s, 108))
  }

  lemma {:induction false} PointerBytesAt(ptrs: seq<u32>, i: nat)
    requires i < |ptrs|
    ensures GetU32(PointerBytes(ptrs), 4 * i) == ptrs[i]
  {
    var r := PointerBytes(ptrs);
    if i == 0 {
      U32RoundTrip(ptrs[0]);
      assert r[0..4] == U32Bytes(ptrs[0])[0..4];
      GetU32Same(r, 0, U32Bytes(ptrs[0]), 0);
    } else {
      var t := PointerBytes(ptrs[1..]);
      PointerBytesAt(ptrs[1..], i - 1);
      assert r[4 * i..4 * i + 4] == t[4 * (i - 1)..4 * (i - 1) + 4];
      GetU32Same(r, 4 * i, t, 4 * (i - 1));
    }
  }

  lemma Field16(s: seq<byte>, o: nat, v: u16)
    requires o + 2 <= |s| && s[o..o + 2] == U16Bytes(v)
    ensures GetU16(s, o) == v
  {
    U16RoundTrip(v);
    assert U16Bytes(v)[0..2] == U16Bytes(v);
    GetU16Same(s, o, U16Bytes(v), 0);
  }

  lemma HeadFields(x: Inode, s: seq<byte>)
    requires |s| >= 32 && s[..32] == HeadBytes(x)
    ensures GetU16(s, 0) == x.mode && GetU16(s, 2) == x.uid && GetU32(s, 4) == x.sizeLow && GetU32(s, 8) == x.atime
    ensures GetU32(s, 12) == x.ctime && GetU32(s, 16) == x.mtime && GetU32(s, 20) == x.dtime
    ensures GetU16(s, 24) == x.gid && GetU16(s, 26) == x.nlink && GetU32(s, 28) == x.blocks
  {
    var h := s[..32];
    assert s[0..2] == h[0..2] == U16Bytes(x.mode);
    assert s[2..4] == h[2..4] == U16Bytes(x.uid);
    assert s[4..8] == h[4..8] == U32Bytes(x.sizeLow);
    assert s[8..12] == h[8..12] == U32Bytes(x.atime);
    assert s[12..16] == h[12..16] == U32Bytes(x.ctime);
    assert s[16..20] == h[16..20] == U32Bytes(x.mtime);
    assert s[20..24] == h[20..24] == U32Bytes(x.dtime);
    assert s[24..26] == h[24..26] == U16Bytes(x.gid);
    assert s[26..28] == h[26..28] == U16Bytes(x.nlink);
    assert s[28..32] == h[28..32] == U32Bytes(x.blocks);
    Field16(s, 0, x.mode); Field16(s, 2, x.uid); GetU32At(s, 4, x.sizeLow); GetU32At(s, 8, x.atime);
    GetU32At(s, 12, x.ctime); GetU32At(s, 16, x.mtime); GetU32At(s, 20, x.dtime);
    Field16(s, 24, x.gid); Field16(s, 26, x.nlink); GetU32At(s, 28, x.blocks);
  }

  /** Where the parts of a serialized inode lie. */
  lemma InodeParts(x: Inode)
    ensures var s := ToBytes(x);
            s[..32] == HeadBytes(x) && s[40..100] == PointerBytes(x.block) && s[108..112] == U32Bytes(x.sizeHigh)
  {
  }

  lemma InodePointers(s: seq<byte>, ptrs: Pointers, i: nat)
    requires |s| == 128 && s[40..100] == PointerBytes(ptrs) && i < 15
    ensures GetU32(s, 40 + 4 * i) == ptrs[i]
  {
    PointerBytesAt(ptrs, i);
    SubSlice(s, 40, 60, 4 * i, 4 * i + 4);
    GetU32Same(s, 40 + 4 * i, PointerBytes(ptrs), 4 * i);
  }

  /** Reading back a serialized inode gives the inode. */
  lemma InodeRoundTrip(x: Inode)
    ensures FromBytes(ToBytes(x)) == x
  {
    var s := ToBytes(x);
    InodeParts(x);
    HeadFields(x, s);
    forall i | 0 <= i < 15 ensures GetU32(s, 40 + 4 * i) == x.block[i] {
      InodePointers(s, x.block, i);
    }
    GetU32At(s, 108, x.sizeHigh);
    assert FromBytes(s).block == x.block;
  }

  /** The bytes of a slot that no field of `Inode` covers. */
  predicate UnmodelledZero(s: seq<byte>)
    requires |s| == 128
  {
    s[32..40] == Zeros(8) && s[100..108] == Zeros(8) && s[112..128] == Zeros(16)
  }

  lemma U32BytesOfGet(s: seq<byte>, o: nat)
    requires o + 4 <= |s|
    ensures U32Bytes(GetU32(s, o)) == s[o..o + 4]
  {
    BytesOfSum(s[o], s[o + 1], s[o + 2], s[o + 3]);
  }

  lemma BytesOfSum(b0: byte, b1: byte, b2: byte, b3: byte)
    ensures U32Bytes(b0 + 0x100 * b1 + 0x1_0000 * b2 + 0x100_0000 * b3) == [b0, b1, b2, b3]
  {
    var v := b0 + 0x100 * b1 + 0x1_0000 * b2 + 0x100_0000 * b3;
    assert v / 0x100 == b1 + 0x100 * b2 + 0x1_0000 * b3 && v % 0x100 == b0;
    assert v / 0x1_0000 == b2 + 0x100 * b3 && v / 0x100_0000 == b3;
    assert v / 0x100 % 0x100 == b1 && v / 0x1_0000 % 0x100 == b2;
  }

  lemma U16BytesOfGet(s: seq<byte>, o: nat)
    requires o + 2 <= |s|
    ensures U16Bytes(GetU16(s, o)) == s[o..o + 2]
  {
  }

  lemma {:induction false} PointerBytesOfGet(s: seq<byte>, o: nat, ptrs: seq<u32>)
    requires o + 4 * |ptrs| <= |s|
    requires forall i :: 0 <= i < |ptrs| ==> ptrs[i] == GetU32(s, o + 4 * i)
    ensures PointerBytes(ptrs) == s[o..o + 4 * |ptrs|]
    decreases |ptrs|
  {
    if ptrs != [] {
      U32BytesOfGet(s, o);
      assert ptrs[0] == GetU32(s, o + 4 * 0);
      forall i | 0 <= i < |ptrs[1..]| ensures ptrs[1..][i] == GetU32(s, o + 4 + 4 * i) {
        assert ptrs[i + 1] == GetU32(s, o + 4 * (i + 1));
      }
      PointerBytesOfGet(s, o + 4, ptrs[1..]);
    }
  }

  lemma HeadBytesOfGet(s: seq<byte>)
    requires |s| == 128
    ensures HeadBytes(FromBytes(s)) == s[..32]
  {
    U16BytesOfGet(s, 0); U16BytesOfGet(s, 2); U32BytesOfGet(s, 4); U32BytesOfGet(s, 8); U32BytesOfGet(s, 12);
    U32BytesOfGet(s, 16); U32BytesOfGet(s, 20); U16BytesOfGet(s, 24); U16BytesOfGet(s, 26); U32BytesOfGet(s, 28);
    assert s[..32] ==
      s[0..2] + s[2..4] + s[4..8] + s[8..12] + s[12..16] + s[16..20] + s[20..24] + s[24..26] + s[26..28] + s[28..32];
  }

  /** Rewriting an inode loses the bytes no field covers: the slot is unchanged exactly when they were zero. */
  lemma RewriteLossless(s: seq<byte>)
    requires |s| == 128
    ensures ToBytes(FromBytes(s)) == s <==> UnmodelledZero(s)
  {
    var r := ToBytes(FromBytes(s));
    RewriteFields(s);
    RewriteGaps(FromBytes(s));
    if UnmodelledZero(s) { SixChunks(r, s); }
  }

  lemma RewriteFields(s: seq<byte>)
    requires |s| == 128
    ensures var r := ToBytes(FromBytes(s));
            r[..32] == s[..32] && r[40..100] == s[40..100] && r[108..112] == s[108..112]
  {
    var x := FromBytes(s);
    var r := ToBytes(x);
    HeadBytesOfGet(s);
    assert r[..32] == HeadBytes(x);
    PointerBytesOfGet(s, 40, x.block);
    assert r[40..100] == PointerBytes(x.block);
    U32BytesOfGet(s, 108);
    assert r[108..112] == U32Bytes(x.sizeHigh);
  }

  lemma RewriteGaps(x: Inode)
    ensures UnmodelledZero(ToBytes(x))
  {
  }

  lemma SixChunks(r: seq<byte>, s: seq<byte>)
    requires |r| == |s| == 128
    requires r[..32] == s[..32] && r[32..40] == s[32..40] && r[40..100] == s[40..100]
    requires r[100..108] == s[100..108] && r[108..112] == s[108..112] && r[112..128] == s[112..128]
    ensures r == s
  {
    assert r == r[..32] + r[32..40] + r[40..100] + r[100..108] + r[108..112] + r[112..128];
    assert s == s[..32] + s[32..40] + s[40..100] + s[100..108] + s[108..112] + s[112..128];
  }

  // ---- Inode slots -------------------------------------------------------

  /** Inode slots tile the blocks of the inode table. */
  predicate SlotsTile(geo: Geometry) {
    geo.SlotSize() in {128, 256, 512, 1024}
  }

  /** Inode numbers that some group's table covers. */
  predicate HasSlot(geo: Geometry, num: nat) {
    num != 0 && (num - 1) / geo.inodesPerGroup < |geo.groups|
  }

  function SlotGroup(geo: Geometry, num: nat): nat
    requires HasSlot(geo, num)
  {
    (num - 1) / geo.inodesPerGroup
  }

  function TableOffset(geo: Geometry, num: nat): nat
    requires HasSlot(geo, num)
  {
    (num - 1) % geo.inodesPerGroup * geo.SlotSize()
  }

  function SlotBlock(geo: Geometry, num: nat): nat
    requires HasSlot(geo, num)
  {
    geo.groups[SlotGroup(geo, num)].inodeTable + TableOffset(geo, num) / 1024
  }

  function SlotOffset(geo: Geometry, num: nat): nat
    requires HasSlot(geo, num)
  {
    TableOffset(geo, num) % 1024
  }

  /** A slot lies inside one block of its group's inode table. */
  lemma SlotInTable(geo: Geometry, num: nat)
    requires HasSlot(geo, num) && SlotsTile(geo)
    ensures SlotOffset(geo, num) + 128 <= 1024
    ensures geo.InGroupInodeArea(SlotGroup(geo, num), SlotBlock(geo, num))
    ensures geo.IsInodeArea(SlotBlock(geo, num))
  {
    SlotFits((num - 1) % geo.inodesPerGroup, geo.inodesPerGroup, geo.SlotSize());
    assert geo.InGroupInodeArea(SlotGroup(geo, num), SlotBlock(geo, num));
  }

  lemma SlotFits(i: nat, n: nat, size: nat)
    requires i < n && size in {128, 256, 512, 1024}
    ensures i * size % 1024 + 128 <= 1024 && i * size / 1024 < (n * size + 1023) / 1024
  {
    if size == 128 {
    } else if size == 256 {
    } else if size == 512 {
    } else {
    }
  }

  function InodeAt(geo: Geometry, d: Disk, num: nat): Inode
    requires HasSlot(geo, num) && SlotsTile(geo) && SlotBlock(geo, num) in d
  {
    SlotInTable(geo, num);
    FromBytes(d[SlotBlock(geo, num)][SlotOffset(geo, num)..SlotOffset(geo, num) + 128])
  }

  function WithInode(geo: Geometry, d: Disk, num: nat, x: Inode): Disk
    requires HasSlot(geo, num) && SlotsTile(geo) && SlotBlock(geo, num) in d
  {
    SlotInTable(geo, num);
    d[SlotBlock(geo, num) := Splice(d[SlotBlock(geo, num)], SlotOffset(geo, num), ToBytes(x))]
  }

  /** Different inode numbers have slots that do not overlap. */
  lemma SlotsDisjoint(geo: Geometry, n: nat, m: nat)
    requires geo.Distinct() && SlotsTile(geo) && HasSlot(geo, n) && HasSlot(geo, m) && n != m
    ensures SlotBlock(geo, n) != SlotBlock(geo, m)
            || SlotOffset(geo, n) + 128 <= SlotOffset(geo, m) || SlotOffset(geo, m) + 128 <= SlotOffset(geo, n)
  {
    SlotInTable(geo, n);
    SlotInTable(geo, m);
    if SlotBlock(geo, n) == SlotBlock(geo, m) {
      assert SlotGroup(geo, n) == SlotGroup(geo, m);
      SameQuotient(n - 1, m - 1, geo.inodesPerGroup);
      SlotArith((n - 1) % geo.inodesPerGroup, (m - 1) % geo.inodesPerGroup, geo.SlotSize());
    }
  }

  lemma SameQuotient(x: nat, y: nat, k: nat)
    requires k > 0 && x != y && x / k == y / k
    ensures x % k != y % k
  {
    assert x == x / k * k + x % k && y == y / k * k + y % k;
  }

  lemma SlotArith(i: nat, j: nat, size: nat)
    requires i != j && size in {128, 256, 512, 1024} && i * size / 1024 == j * size / 1024
    ensures i * size % 1024 + 128 <= j * size % 1024 || j * size % 1024 + 128 <= i * size % 1024
  {
    if size == 128 {
    } else if size == 256 {
    } else if size == 512 {
    } else {
    }
  }

  /** write_inode then read_inode: the written inode comes back, every other inode is unchanged. */
  lemma InodeAtWithInode(geo: Geometry, d: Disk, num: nat, x: Inode, m: nat)
    requires geo.Distinct() && SlotsTile(geo) && HasSlot(geo, num) && HasSlot(geo, m)
    requires SlotBlock(geo, num) in d && SlotBlock(geo, m) in d
    ensures InodeAt(geo, WithInode(geo, d, num, x), m) == if m == num then x else InodeAt(geo, d, m)
  {
    SlotInTable(geo, num);
    SlotInTable(geo, m);
    var o := SlotOffset(geo, num);
    var data := d[SlotBlock(geo, num)];
    if m == num {
      SpliceInside(data, o, ToBytes(x));
      InodeRoundTrip(x);
    } else {
      SlotsDisjoint(geo, num, m);
      if SlotBlock(geo, m) == SlotBlock(geo, num) {
        SpliceOutside(data, o, ToBytes(x), SlotOffset(geo, m), SlotOffset(geo, m) + 128);
      }
    }
  }
}
