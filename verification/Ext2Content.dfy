/** A file as a flat array of bytes, and what a growing tree does to it. */
module Ext2Content {
  import opened Bytes
  import opened Ext2Layout
  import opened Ext2Tree
  import opened Ext2Growth

  /** Bytes that the tree can address. */
  const MAX_BYTES: nat := 1024 * MAX_BLOCKS

  /** Position `k` of the file lies in a mapped block. */
  predicate MappedAt(d: Disk, ptrs: Pointers, k: nat) {
    k < MAX_BYTES && Ptr(d, ptrs, PathOf(k / 1024)) != 0
  }

  /** Byte `k` of the file; unmapped blocks read as zeros. */
  function FileByte(d: Disk, ptrs: Pointers, k: nat): byte {
    if !MappedAt(d, ptrs, k) || Ptr(d, ptrs, PathOf(k / 1024)) !in d then 0
    else d[Ptr(d, ptrs, PathOf(k / 1024))][k % 1024]
  }

  lemma {:induction false} LeafNotAbove(p: Path, c: Path)
    requires Leaf(p) && Valid(c)
    ensures !Above(p, c)
  {
    if c.Child? { LeafNotAbove(p, c.parent); }
  }

  /** As resolve_block sees it, a successful set_block_pointer is a map update at one logical block. */
  lemma MappedIsMapUpdate(geo: Geometry, d: Disk, ptrs: Pointers, d': Disk, ptrs': Pointers, l: nat, v: u32,
                          news: set<nat>, m: nat)
    requires l < MAX_BLOCKS && m < MAX_BLOCKS
    requires Mapped(geo, d, ptrs, d', ptrs', PathOf(l), v, news)
    ensures Ptr(d', ptrs', PathOf(m)) == if m == l then v else Ptr(d, ptrs, PathOf(m))
  {
    PathOfLeaf(l);
    PathOfLeaf(m);
    if m != l {
      if PathOf(l) == PathOf(m) { PathOfInjective(l, m); }
      LeafNotAbove(PathOf(m), PathOf(l));
    }
  }

  /**
   * (d, ptrs) is reached from (d0, p0) by growing the file: mapped positions stay, new blocks come from the free
   * blocks, the used blocks are those used before plus the tree, and blocks outside the file are untouched.
   */
  ghost predicate Extended(geo: Geometry, d0: Disk, p0: Pointers, d: Disk, ptrs: Pointers) {
    FileExtended(geo, d0, p0, d, ptrs) && OthersSame(geo, d0, p0, d)
  }

  ghost predicate FileExtended(geo: Geometry, d0: Disk, p0: Pointers, d: Disk, ptrs: Pointers) {
    && DiskOk(geo, d0) && DiskOk(geo, d) && TreeOk(geo, d, ptrs)
    && PaddingSame(geo, d0, d)
    && TreeGrows(d0, p0, d, ptrs)
    && NewFromFree(geo, d0, p0, d, ptrs)
    && UsedIsTree(geo, d0, d, ptrs)
  }

  ghost predicate TreeGrows(d0: Disk, p0: Pointers, d: Disk, ptrs: Pointers) {
    forall p :: Valid(p) && Ptr(d0, p0, p) != 0 ==> Ptr(d, ptrs, p) == Ptr(d0, p0, p)
  }

  ghost predicate NewFromFree(geo: Geometry, d0: Disk, p0: Pointers, d: Disk, ptrs: Pointers) {
    forall p :: Valid(p) && Ptr(d, ptrs, p) != 0 && Ptr(d0, p0, p) == 0 ==> Free(geo, d0, Ptr(d, ptrs, p))
  }

  ghost predicate UsedIsTree(geo: Geometry, d0: Disk, d: Disk, ptrs: Pointers) {
    forall b: nat :: Used(geo, d, b) <==> Used(geo, d0, b) || InTree(d, ptrs, b)
  }

  /** A block that belongs to something else: neither free, nor in the tree, nor a block bitmap. */
  ghost predicate Foreign(geo: Geometry, d: Disk, ptrs: Pointers, b: nat) {
    b in d && !Free(geo, d, b) && !InTree(d, ptrs, b) && !geo.IsBlockBitmap(b)
  }

  ghost predicate OthersSame(geo: Geometry, d0: Disk, p0: Pointers, d: Disk) {
    d.Keys == d0.Keys && forall b :: Foreign(geo, d0, p0, b) ==> d[b] == d0[b]
  }

  /** Like OthersSame, except for block `x`. */
  ghost predicate OthersSameBut(geo: Geometry, d0: Disk, p0: Pointers, d: Disk, x: nat) {
    d.Keys == d0.Keys && forall b :: Foreign(geo, d0, p0, b) && b != x ==> d[b] == d0[b]
  }

  lemma ExtendedRefl(geo: Geometry, d: Disk, ptrs: Pointers)
    requires DiskOk(geo, d) && TreeOk(geo, d, ptrs)
    ensures Extended(geo, d, ptrs, d, ptrs)
  {
    UsedFrame(geo, d, d);
  }

  /** The tree of (d2, p2) after mapping `c` is the old tree, `v`, and the new pointer blocks. */
  lemma TreeAfterMapped(geo: Geometry, d: Disk, ptrs: Pointers, d2: Disk, p2: Pointers, c: Path, v: u32,
                        news: set<nat>, b: nat)
    requires Valid(c) && v != 0 && Ptr(d, ptrs, c) == 0
    requires Mapped(geo, d, ptrs, d2, p2, c, v, news)
    ensures InTree(d2, p2, b) <==> InTree(d, ptrs, b) || b == v || b in news
  {
    if InTree(d2, p2, b) {
      var q :| Valid(q) && Ptr(d2, p2, q) == b;
      if Ptr(d, ptrs, q) == b { assert InTree(d, ptrs, b); }
    }
    if InTree(d, ptrs, b) {
      var q :| Valid(q) && Ptr(d, ptrs, q) == b;
      assert Ptr(d2, p2, q) == b;
    }
    if b in news { assert FillsGap(d, ptrs, d2, p2, c, b); NewsNonzero(geo, d, news, d2, b); }
  }

  lemma NewsNonzero(geo: Geometry, d: Disk, news: set<nat>, d2: Disk, b: nat)
    requires UsedPlus(geo, d, d2, news) && b in news
    ensures b != 0
  {
    assert geo.Addressable(b);
  }

  /** `d1` is `d` with the free block `v` marked used, and possibly filled, but not yet linked. */
  ghost predicate Prepared(geo: Geometry, d: Disk, ptrs: Pointers, d1: Disk, v: nat) {
    && DiskOk(geo, d) && DiskOk(geo, d1) && d1.Keys == d.Keys
    && PaddingSame(geo, d, d1)
    && Free(geo, d, v) && UsedPlus(geo, d, d1, {v}) && Owned(geo, d1, v)
    && (forall p :: Valid(p) ==> Ptr(d1, ptrs, p) == Ptr(d, ptrs, p))
    && TreeOk(geo, d1, ptrs) && !InTree(d1, ptrs, v)
    && (forall b :: b in d && !geo.IsBlockBitmap(b) && b != v ==> d1[b] == d[b])
  }

  lemma PreparedByMark(geo: Geometry, d: Disk, ptrs: Pointers, v: nat)
    requires DiskOk(geo, d) && Free(geo, d, v) && TreeOk(geo, d, ptrs)
    ensures geo.groups[geo.GroupOf(v)].blockBitmap in d && Prepared(geo, d, ptrs, MarkUsed(geo, d, v), v)
  {
    MarkFacts(geo, d, v);
    TreeAfterMark(geo, d, ptrs, v);
  }

  lemma PreparedByFill(geo: Geometry, d: Disk, ptrs: Pointers, d1: Disk, v: nat, data: Block)
    requires Prepared(geo, d, ptrs, d1, v)
    ensures Prepared(geo, d, ptrs, d1[v := data], v)
  {
    var d' := d1[v := data];
    assert d'.Keys == d1.Keys;
    UsedFrame(geo, d1, d');
    TreeFrame(geo, d1, ptrs, d');
    PaddingTrans(geo, d, d1, d');
  }

  /** Allocating a data block and mapping it extends the file. */
  lemma ExtendByMap(geo: Geometry, d0: Disk, p0: Pointers, d: Disk, ptrs: Pointers, d1: Disk, d2: Disk, p2: Pointers,
                    c: Path, v: u32, news: set<nat>)
    requires Extended(geo, d0, p0, d, ptrs)
    requires Leaf(c) && Ptr(d, ptrs, c) == 0 && Prepared(geo, d, ptrs, d1, v)
    requires Mapped(geo, d1, ptrs, d2, p2, c, v, news)
    ensures Extended(geo, d0, p0, d2, p2)
  {
    PaddingTrans(geo, d0, d, d1);
    PaddingTrans(geo, d0, d1, d2);
    ExtendTree(geo, d0, p0, d, ptrs, d1, d2, p2, c, v, news);
    ExtendUsed(geo, d0, d, ptrs, d1, d2, p2, c, v, news);
    ExtendOthers(geo, d0, p0, d, ptrs, d1, d2, v);
  }

  lemma ExtendTree(geo: Geometry, d0: Disk, p0: Pointers, d: Disk, ptrs: Pointers, d1: Disk, d2: Disk, p2: Pointers,
                   c: Path, v: u32, news: set<nat>)
    requires TreeGrows(d0, p0, d, ptrs) && NewFromFree(geo, d0, p0, d, ptrs) && UsedIsTree(geo, d0, d, ptrs)
    requires Valid(c) && Ptr(d, ptrs, c) == 0 && Free(geo, d, v)
    requires forall p :: Valid(p) ==> Ptr(d1, ptrs, p) == Ptr(d, ptrs, p)
    requires UsedPlus(geo, d, d1, {v as nat}) && UsedPlus(geo, d1, d2, news)
    requires Ptr(d2, p2, c) == v && SameElsewhere(d1, ptrs, d2, p2, c) && WayFilled(d1, ptrs, d2, p2, c, news)
    ensures TreeGrows(d0, p0, d2, p2) && NewFromFree(geo, d0, p0, d2, p2)
  {
    forall p | Valid(p) && Ptr(d2, p2, p) != 0 && Ptr(d0, p0, p) == 0 ensures Free(geo, d0, Ptr(d2, p2, p)) {
      if Ptr(d, ptrs, p) == 0 && p != c {
        assert Ptr(d1, ptrs, p) == 0;
        assert Above(p, c);
        assert Ptr(d2, p2, p) in news;
      }
    }
  }

  lemma ExtendUsed(geo: Geometry, d0: Disk, d: Disk, ptrs: Pointers, d1: Disk, d2: Disk, p2: Pointers, c: Path, v: u32,
                   news: set<nat>)
    requires UsedIsTree(geo, d0, d, ptrs) && UsedPlus(geo, d, d1, {v as nat})
    requires forall p :: Valid(p) ==> Ptr(d1, ptrs, p) == Ptr(d, ptrs, p)
    requires Valid(c) && Ptr(d, ptrs, c) == 0 && Free(geo, d, v)
    requires Mapped(geo, d1, ptrs, d2, p2, c, v, news)
    ensures UsedIsTree(geo, d0, d2, p2)
  {
    forall b: nat ensures Used(geo, d2, b) <==> Used(geo, d0, b) || InTree(d2, p2, b) {
      TreeAfterMapped(geo, d1, ptrs, d2, p2, c, v, news, b);
      assert InTree(d1, ptrs, b) <==> InTree(d, ptrs, b);
    }
  }

  lemma ExtendOthers(geo: Geometry, d0: Disk, p0: Pointers, d: Disk, ptrs: Pointers, d1: Disk, d2: Disk, v: nat)
    requires OthersSame(geo, d0, p0, d) && UsedIsTree(geo, d0, d, ptrs)
    requires TreeGrows(d0, p0, d, ptrs) && NewFromFree(geo, d0, p0, d, ptrs)
    requires d1.Keys == d.Keys && (forall b :: b in d && !geo.IsBlockBitmap(b) && b != v ==> d1[b] == d[b])
    requires Free(geo, d, v)
    requires forall p :: Valid(p) ==> Ptr(d1, ptrs, p) == Ptr(d, ptrs, p)
    requires UsedPlus(geo, d, d1, {v}) && KeptSame(geo, d1, ptrs, d2)
    ensures OthersSame(geo, d0, p0, d2)
  {
    forall b | Foreign(geo, d0, p0, b) ensures d2[b] == d0[b] {
      ForeignStays(geo, d0, p0, d, ptrs, b);
      assert Kept(geo, d1, ptrs, b);
    }
  }

  /** What belongs to something else never enters the file. */
  lemma ForeignStays(geo: Geometry, d0: Disk, p0: Pointers, d: Disk, ptrs: Pointers, b: nat)
    requires Foreign(geo, d0, p0, b)
    requires TreeGrows(d0, p0, d, ptrs) && NewFromFree(geo, d0, p0, d, ptrs)
    ensures !InTree(d, ptrs, b)
  {
  }

  /** Rewriting a data block of the file. */
  lemma ExtendByData(geo: Geometry, d0: Disk, p0: Pointers, d: Disk, ptrs: Pointers, c: Path, data: Block)
    requires Extended(geo, d0, p0, d, ptrs)
    requires Leaf(c) && Ptr(d, ptrs, c) != 0
    ensures Extended(geo, d0, p0, d[Ptr(d, ptrs, c) := data], ptrs)
    ensures forall p :: Valid(p) ==> Ptr(d[Ptr(d, ptrs, c) := data], ptrs, p) == Ptr(d, ptrs, p)
  {
    var b := Ptr(d, ptrs, c);
    var d' := d[b := data];
    assert Owned(geo, d, b) && InTree(d, ptrs, b);
    assert d'.Keys == d.Keys;
    UsedFrame(geo, d, d');
    TreeFrame(geo, d, ptrs, d');
    PaddingTrans(geo, d0, d, d');
    forall x | Foreign(geo, d0, p0, x) ensures d'[x] == d0[x] {
      ForeignStays(geo, d0, p0, d, ptrs, x);
    }
    forall x: nat ensures Used(geo, d', x) <==> Used(geo, d0, x) || InTree(d', ptrs, x) {
      assert InTree(d', ptrs, x) <==> InTree(d, ptrs, x);
    }
  }

  // ---- Bytes -------------------------------------------------------------

  /**
   * After `n` bytes: the written range holds `data`, and elsewhere bytes of old or still unmapped blocks are as
   * before.
   */
  ghost predicate Written(d0: Disk, p0: Pointers, d: Disk, ptrs: Pointers, offset: nat, data: seq<byte>, n: nat)
    requires n <= |data|
  {
    forall k: nat :: k < MAX_BYTES ==> ByteWritten(d0, p0, d, ptrs, offset, data, n, k)
  }

  predicate ByteWritten(d0: Disk, p0: Pointers, d: Disk, ptrs: Pointers, offset: nat, data: seq<byte>, n: nat, k: nat)
    requires n <= |data|
  {
    if offset <= k < offset + n then
      MappedAt(d, ptrs, k) && FileByte(d, ptrs, k) == data[k - offset]
    else
      MappedAt(d0, p0, k) || !MappedAt(d, ptrs, k) ==> FileByte(d, ptrs, k) == FileByte(d0, p0, k)
  }

  /** Mapping block `l` leaves every other block of the file where it is, with its contents. */
  lemma BlockElsewhere(geo: Geometry, d: Disk, ptrs: Pointers, d1: Disk, d2: Disk, p2: Pointers, l: nat, v: u32,
                       news: set<nat>, m: nat)
    requires TreeOk(geo, d, ptrs) && l < MAX_BLOCKS && Prepared(geo, d, ptrs, d1, v)
    requires Mapped(geo, d1, ptrs, d2, p2, PathOf(l), v, news)
    requires m < MAX_BLOCKS && m != l
    ensures var b := Ptr(d, ptrs, PathOf(m));
            Ptr(d2, p2, PathOf(m)) == b && (b != 0 ==> b in d && b in d2 && d2[b] == d[b])
  {
    var q := PathOf(m);
    MappedIsMapUpdate(geo, d1, ptrs, d2, p2, l, v, news, m);
    PathOfLeaf(m);
    var b := Ptr(d, ptrs, q);
    assert Ptr(d1, ptrs, q) == b;
    if b != 0 {
      DataBlockKept(geo, d1, ptrs, q);
      assert InTree(d1, ptrs, b);
    }
  }

  lemma DataBlockKept(geo: Geometry, d: Disk, ptrs: Pointers, q: Path)
    requires DiskOk(geo, d) && TreeOk(geo, d, ptrs) && Leaf(q) && Ptr(d, ptrs, q) != 0
    ensures Kept(geo, d, ptrs, Ptr(d, ptrs, q))
  {
    assert Owned(geo, d, Ptr(d, ptrs, q));
  }

  /** Mapping a block that no written byte lies in keeps what is written. */
  lemma WrittenByMap(geo: Geometry, d0: Disk, p0: Pointers, d: Disk, ptrs: Pointers, d1: Disk, d2: Disk, p2: Pointers,
                     l: nat, v: u32, news: set<nat>, offset: nat, data: seq<byte>, n: nat)
    requires TreeOk(geo, d, ptrs) && TreeGrows(d0, p0, d, ptrs) && l < MAX_BLOCKS && Prepared(geo, d, ptrs, d1, v)
    requires Mapped(geo, d1, ptrs, d2, p2, PathOf(l), v, news) && Ptr(d, ptrs, PathOf(l)) == 0
    requires n <= |data| && Written(d0, p0, d, ptrs, offset, data, n)
    ensures Written(d0, p0, d2, p2, offset, data, n)
  {
    forall k: nat | k < MAX_BYTES ensures ByteWritten(d0, p0, d2, p2, offset, data, n, k) {
      assert ByteWritten(d0, p0, d, ptrs, offset, data, n, k);
      if k / 1024 != l {
        BlockElsewhere(geo, d, ptrs, d1, d2, p2, l, v, news, k / 1024);
      } else {
        PathOfLeaf(l);
      }
    }
  }

  /** The disk after copying `t` into block `b` at offset `o`. */
  function WithChunk(d: Disk, b: nat, o: nat, t: seq<byte>): Disk
    requires b in d && o + |t| <= 1024
  {
    d[b := Splice(d[b], o, t)]
  }

  /** Copying the bytes up to `m` into their block, which is mapped. */
  lemma WrittenByData(geo: Geometry, d0: Disk, p0: Pointers, d: Disk, ptrs: Pointers, l: nat,
                      offset: nat, data: seq<byte>, n: nat, m: nat, d': Disk)
    requires TreeOk(geo, d, ptrs) && l < MAX_BLOCKS && Ptr(d, ptrs, PathOf(l)) != 0 && Ptr(d, ptrs, PathOf(l)) in d
    requires n <= m <= |data| && Written(d0, p0, d, ptrs, offset, data, n)
    requires (offset + n) / 1024 == l && (offset + n) % 1024 + (m - n) <= 1024
    requires d' == WithChunk(d, Ptr(d, ptrs, PathOf(l)), (offset + n) % 1024, data[n..m])
    requires forall p :: Valid(p) ==> Ptr(d', ptrs, p) == Ptr(d, ptrs, p)
    ensures Written(d0, p0, d', ptrs, offset, data, m)
  {
    var b := Ptr(d, ptrs, PathOf(l));
    PathOfLeaf(l);
    forall k: nat | k < MAX_BYTES ensures ByteWritten(d0, p0, d', ptrs, offset, data, m, k) {
      assert ByteWritten(d0, p0, d, ptrs, offset, data, n, k);
      PathOfLeaf(k / 1024);
      if k / 1024 != l {
        if PathOf(k / 1024) == PathOf(l) { PathOfInjective(k / 1024, l); }
        assert FileByte(d', ptrs, k) == FileByte(d, ptrs, k);
      }
    }
  }

  /** Rewriting a block of the inode tables does not touch the file's blocks. */
  lemma ExtendByInodeArea(geo: Geometry, d0: Disk, p0: Pointers, d: Disk, ptrs: Pointers, x: nat, data: Block)
    requires Extended(geo, d0, p0, d, ptrs) && x in d && geo.IsInodeArea(x)
    ensures FileExtended(geo, d0, p0, d[x := data], ptrs) && OthersSameBut(geo, d0, p0, d[x := data], x)
    ensures forall p :: Valid(p) ==> Ptr(d[x := data], ptrs, p) == Ptr(d, ptrs, p)
  {
    var d' := d[x := data];
    assert d'.Keys == d.Keys;
    UsedFrame(geo, d, d');
    TreeFrame(geo, d, ptrs, d');
    PaddingTrans(geo, d0, d, d');
    forall b: nat ensures Used(geo, d', b) <==> Used(geo, d0, b) || InTree(d', ptrs, b) {
      assert InTree(d', ptrs, b) <==> InTree(d, ptrs, b);
    }
  }

  lemma WrittenByInodeArea(geo: Geometry, d0: Disk, p0: Pointers, d: Disk, ptrs: Pointers, x: nat, data: Block,
                           offset: nat, bytes: seq<byte>, n: nat)
    requires Extended(geo, d0, p0, d, ptrs) && x in d && geo.IsInodeArea(x)
    requires n <= |bytes| && Written(d0, p0, d, ptrs, offset, bytes, n)
    ensures Written(d0, p0, d[x := data], ptrs, offset, bytes, n)
  {
    var d' := d[x := data];
    ExtendByInodeArea(geo, d0, p0, d, ptrs, x, data);
    forall k: nat | k < MAX_BYTES ensures ByteWritten(d0, p0, d', ptrs, offset, bytes, n, k) {
      assert ByteWritten(d0, p0, d, ptrs, offset, bytes, n, k);
      PathOfLeaf(k / 1024);
      var b := Ptr(d, ptrs, PathOf(k / 1024));
      assert b != 0 ==> Owned(geo, d, b);
    }
  }

  /** Blocks of the inode tables belong to no file. */
  lemma InodeAreaForeign(geo: Geometry, d: Disk, ptrs: Pointers, x: nat)
    requires DiskOk(geo, d) && TreeOk(geo, d, ptrs) && geo.IsInodeArea(x)
    ensures Foreign(geo, d, ptrs, x)
  {
    assert geo.IsMeta(x);
  }
}
