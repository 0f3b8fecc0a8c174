/** How the pointer tree grows: one freshly allocated pointer block, or one stored data pointer, at a time. */
module Ext2Growth {
  import opened Bytes
  import opened Ext2Layout
  import opened Ext2Tree

  predicate Free(geo: Geometry, d: Disk, b: nat) {
    geo.Addressable(b) && !Used(geo, d, b)
  }

  /** Blocks that a growing tree leaves alone: all but free blocks, the tree's pointer blocks and the block bitmaps. */
  ghost predicate Kept(geo: Geometry, d: Disk, ptrs: Pointers, b: nat) {
    b in d && !Free(geo, d, b) && !IsPointerBlock(d, ptrs, b) && !geo.IsBlockBitmap(b)
  }

  ghost predicate KeptSame(geo: Geometry, d: Disk, ptrs: Pointers, d': Disk) {
    d'.Keys == d.Keys && forall b :: Kept(geo, d, ptrs, b) ==> d'[b] == d[b]
  }

  /** Bits past the last block of a group never change. */
  ghost predicate PaddingSame(geo: Geometry, d: Disk, d': Disk)
    requires geo.Distinct() && Present(geo, d) && Present(geo, d')
  {
    forall g, i :: 0 <= g < |geo.groups| && geo.blocksPerGroup <= i < BITS_PER_BLOCK ==>
      (BitmapPresent(geo, d, g); BitmapPresent(geo, d', g); GroupBit(geo, d', g, i) == GroupBit(geo, d, g, i))
  }

  ghost predicate UsedPlus(geo: Geometry, d: Disk, d': Disk, news: set<nat>) {
    && (forall b: nat :: Used(geo, d', b) <==> Used(geo, d, b) || b in news)
    && (forall b: nat :: b in news ==> Free(geo, d, b))
  }

  /** One step of growth: the tree gains `n` at `c`, and exactly the blocks in `news` become used. */
  ghost predicate Grew(geo: Geometry, d: Disk, ptrs: Pointers, d': Disk, ptrs': Pointers, c: Path, n: u32,
                       news: set<nat>) {
    && KeptSame(geo, d, ptrs, d')
    && Linked(d, ptrs, d', ptrs', c, n)
    && UsedPlus(geo, d, d', news)
    && DiskOk(geo, d) && DiskOk(geo, d')
    && PaddingSame(geo, d, d')
    && TreeOk(geo, d', ptrs')
  }

  /** The bitmaps decide what is used. */
  lemma UsedFrame(geo: Geometry, d: Disk, d': Disk)
    requires DiskOk(geo, d) && d'.Keys == d.Keys
    requires forall b :: geo.IsBlockBitmap(b) && b in d ==> d'[b] == d[b]
    ensures forall b: nat :: Used(geo, d', b) == Used(geo, d, b)
    ensures DiskOk(geo, d') && PaddingSame(geo, d, d')
  {
    forall b: nat ensures Used(geo, d', b) == Used(geo, d, b) {
      if geo.Addressable(b) { BitmapPresent(geo, d, geo.GroupOf(b)); }
    }
    forall g, i | 0 <= g < |geo.groups| && geo.blocksPerGroup <= i < BITS_PER_BLOCK
      ensures (BitmapPresent(geo, d, g); BitmapPresent(geo, d', g); GroupBit(geo, d', g, i) == GroupBit(geo, d, g, i))
    {
      BitmapPresent(geo, d, g);
    }
  }

  /** Marking a free block used. */
  lemma MarkFacts(geo: Geometry, d: Disk, n: nat)
    requires DiskOk(geo, d) && Free(geo, d, n)
    ensures geo.groups[geo.GroupOf(n)].blockBitmap in d
    ensures var d' := MarkUsed(geo, d, n);
            && DiskOk(geo, d') && d'.Keys == d.Keys && PaddingSame(geo, d, d')
            && UsedPlus(geo, d, d', {n}) && Owned(geo, d', n) && n in d'
            && (forall b :: b in d && !geo.IsBlockBitmap(b) ==> d'[b] == d[b])
  {
    BitmapPresent(geo, d, geo.GroupOf(n));
    var d' := MarkUsed(geo, d, n);
    forall b: nat ensures Used(geo, d', b) == (b == n || Used(geo, d, b)) {
      UsedAfterMark(geo, d, n, b);
    }
    forall g, i | 0 <= g < |geo.groups| && geo.blocksPerGroup <= i < BITS_PER_BLOCK
      ensures (BitmapPresent(geo, d, g); BitmapPresent(geo, d', g); GroupBit(geo, d', g, i) == GroupBit(geo, d, g, i))
    {
      GroupBitOfMark(geo, d, n, g, i);
    }
  }

  /** Marking leaves every owned tree as it was. */
  lemma TreeAfterMark(geo: Geometry, d: Disk, ptrs: Pointers, n: nat)
    requires DiskOk(geo, d) && Free(geo, d, n) && TreeOk(geo, d, ptrs)
    ensures geo.groups[geo.GroupOf(n)].blockBitmap in d
    ensures var d' := MarkUsed(geo, d, n);
            && (forall p :: Valid(p) ==> Ptr(d', ptrs, p) == Ptr(d, ptrs, p))
            && TreeOk(geo, d', ptrs) && !InTree(d', ptrs, n) && !InTree(d, ptrs, n)
  {
    MarkFacts(geo, d, n);
    var d' := MarkUsed(geo, d, n);
    TreeFrame(geo, d, ptrs, d');
  }

  /** A tree survives any change of blocks that are not its pointer blocks, as long as its blocks stay used. */
  lemma TreeFrame(geo: Geometry, d: Disk, ptrs: Pointers, d': Disk)
    requires TreeOk(geo, d, ptrs)
    requires d'.Keys == d.Keys
    requires forall b :: IsPointerBlock(d, ptrs, b) && b in d ==> d'[b] == d[b]
    requires forall b: nat :: Owned(geo, d, b) ==> Owned(geo, d', b)
    ensures forall p :: Valid(p) ==> Ptr(d', ptrs, p) == Ptr(d, ptrs, p)
    ensures TreeOk(geo, d', ptrs)
  {
    forall p | Valid(p) ensures Ptr(d', ptrs, p) == Ptr(d, ptrs, p) {
      PtrFrame(d, ptrs, d', p);
    }
  }

  /** Linking an owned block that is not in the tree keeps the tree invariant. */
  lemma TreeAfterLink(geo: Geometry, d: Disk, ptrs: Pointers, d': Disk, ptrs': Pointers, c: Path, n: u32)
    requires TreeOk(geo, d, ptrs) && Linked(d, ptrs, d', ptrs', c, n) && Valid(c)
    requires !InTree(d, ptrs, n) && Owned(geo, d', n)
    requires forall b: nat :: Used(geo, d, b) ==> Used(geo, d', b)
    ensures TreeOk(geo, d', ptrs')
  {
    forall p | Valid(p) && Ptr(d', ptrs', p) != 0 ensures Owned(geo, d', Ptr(d', ptrs', p)) {
    }
    forall p, q | Valid(p) && Valid(q) && Ptr(d', ptrs', p) != 0 && Ptr(d', ptrs', p) == Ptr(d', ptrs', q)
      ensures p == q
    {
    }
  }

  /** Disk after storing `v` in entry `i` of pointer block `b`. */
  function WithEntry(d: Disk, b: nat, i: nat, v: u32): Disk
    requires b in d && i < ENTRIES
  {
    d[b := SetEntry(d[b], i, v)]
  }

  /** Storing a data pointer in a level-1 pointer block. */
  lemma GrewLeafEntry(geo: Geometry, d: Disk, ptrs: Pointers, q: Path, i: nat, v: u32)
    requires DiskOk(geo, d) && TreeOk(geo, d, ptrs)
    requires Interior(q) && Level(q) == 1 && i < ENTRIES && Ptr(d, ptrs, q) != 0
    requires Owned(geo, d, v) && !InTree(d, ptrs, v)
    ensures Ptr(d, ptrs, q) in d
    ensures Grew(geo, d, ptrs, WithEntry(d, Ptr(d, ptrs, q), i, v), ptrs, Child(q, i), v, {})
  {
    var b := Ptr(d, ptrs, q);
    assert Owned(geo, d, b) && IsPointerBlock(d, ptrs, b);
    var d' := WithEntry(d, b, i, v);
    forall p | Valid(p) ensures Ptr(d', ptrs, p) == if p == Child(q, i) then v else Ptr(d, ptrs, p) {
      LinkLeafEntry(d, ptrs, q, i, v, p);
    }
    UsedFrame(geo, d, d');
    TreeAfterLink(geo, d, ptrs, d', ptrs, Child(q, i), v);
  }

  /** Storing a data pointer in a direct slot. */
  lemma GrewDirect(geo: Geometry, d: Disk, ptrs: Pointers, s: nat, v: u32)
    requires DiskOk(geo, d) && TreeOk(geo, d, ptrs) && s < 12
    requires Owned(geo, d, v) && !InTree(d, ptrs, v)
    ensures Grew(geo, d, ptrs, d, ptrs[s := v], Root(s), v, {})
  {
    forall p | Valid(p) ensures Ptr(d, ptrs[s := v], p) == if p == Root(s) then v else Ptr(d, ptrs, p) {
      LinkDirect(d, ptrs, s, v, p);
    }
    UsedFrame(geo, d, d);
    TreeAfterLink(geo, d, ptrs, d, ptrs[s := v], Root(s), v);
  }

  /** Allocating `n`, zeroing it and linking it at entry `i` of a higher pointer block. */
  lemma GrewTableEntry(geo: Geometry, d: Disk, ptrs: Pointers, q: Path, i: nat, n: u32)
    requires DiskOk(geo, d) && TreeOk(geo, d, ptrs)
    requires Interior(q) && Level(q) > 1 && i < ENTRIES && Ptr(d, ptrs, q) != 0 && Ptr(d, ptrs, Child(q, i)) == 0
    requires Free(geo, d, n)
    ensures geo.groups[geo.GroupOf(n)].blockBitmap in d && Ptr(d, ptrs, q) in d
    ensures Grew(geo, d, ptrs, WithEntry(MarkUsed(geo, d, n), Ptr(d, ptrs, q), i, n)[n := ZeroBlock()], ptrs,
                 Child(q, i), n, {n})
  {
    MarkFacts(geo, d, n);
    TreeAfterMark(geo, d, ptrs, n);
    var d1 := MarkUsed(geo, d, n);
    var b := Ptr(d, ptrs, q);
    assert Owned(geo, d, b) && IsPointerBlock(d, ptrs, b);
    var d' := WithEntry(d1, b, i, n)[n := ZeroBlock()];
    assert Ptr(d1, ptrs, q) == b && Ptr(d1, ptrs, Child(q, i)) == 0;
    forall p | Valid(p) ensures Ptr(d', ptrs, p) == if p == Child(q, i) then n else Ptr(d, ptrs, p) {
      LinkTableEntry(d1, ptrs, q, i, n, p);
    }
    UsedFrame(geo, d1, d');
    TreeAfterLink(geo, d, ptrs, d', ptrs, Child(q, i), n);
    PaddingTrans(geo, d, d1, d');
  }

  /** Allocating `n`, zeroing it and linking it at an indirect slot of the inode. */
  lemma GrewTableRoot(geo: Geometry, d: Disk, ptrs: Pointers, s: nat, n: u32)
    requires DiskOk(geo, d) && TreeOk(geo, d, ptrs)
    requires 12 <= s < 15 && ptrs[s] == 0
    requires Free(geo, d, n)
    ensures geo.groups[geo.GroupOf(n)].blockBitmap in d
    ensures Grew(geo, d, ptrs, MarkUsed(geo, d, n)[n := ZeroBlock()], ptrs[s := n], Root(s), n, {n})
  {
    MarkFacts(geo, d, n);
    TreeAfterMark(geo, d, ptrs, n);
    var d1 := MarkUsed(geo, d, n);
    var d' := d1[n := ZeroBlock()];
    forall p | Valid(p) ensures Ptr(d', ptrs[s := n], p) == if p == Root(s) then n else Ptr(d, ptrs, p) {
      LinkTableRoot(d1, ptrs, s, n, p);
    }
    UsedFrame(geo, d1, d');
    TreeAfterLink(geo, d, ptrs, d', ptrs[s := n], Root(s), n);
    PaddingTrans(geo, d, d1, d');
  }

  lemma PaddingTrans(geo: Geometry, d: Disk, d1: Disk, d2: Disk)
    requires geo.Distinct() && Present(geo, d) && Present(geo, d1) && Present(geo, d2)
    requires PaddingSame(geo, d, d1) && PaddingSame(geo, d1, d2)
    ensures PaddingSame(geo, d, d2)
  {
    forall g, i | 0 <= g < |geo.groups| && geo.blocksPerGroup <= i < BITS_PER_BLOCK
      ensures (BitmapPresent(geo, d, g); BitmapPresent(geo, d2, g); GroupBit(geo, d2, g, i) == GroupBit(geo, d, g, i))
    {
      BitmapPresent(geo, d, g);
      BitmapPresent(geo, d1, g);
      BitmapPresent(geo, d2, g);
      assert GroupBit(geo, d1, g, i) == GroupBit(geo, d, g, i);
      assert GroupBit(geo, d2, g, i) == GroupBit(geo, d1, g, i);
    }
  }

  /**
   * What a successful set_block_pointer does: position `c` holds `v`; every other mapped position, and every
   * position that is not on the way to `c`, is unchanged; the pointer blocks missing on the way to `c` are
   * exactly `news`, taken from the free blocks.
   */
  ghost predicate Mapped(geo: Geometry, d: Disk, ptrs: Pointers, d': Disk, ptrs': Pointers, c: Path, v: u32,
                         news: set<nat>) {
    && KeptSame(geo, d, ptrs, d')
    && UsedPlus(geo, d, d', news)
    && DiskOk(geo, d) && DiskOk(geo, d')
    && PaddingSame(geo, d, d')
    && TreeOk(geo, d', ptrs')
    && Ptr(d', ptrs', c) == v
    && SameElsewhere(d, ptrs, d', ptrs', c)
    && WayFilled(d, ptrs, d', ptrs', c, news)
  }

  /** Positions off the way to `c`, and mapped ones, keep their pointer. */
  ghost predicate SameElsewhere(d: Disk, ptrs: Pointers, d': Disk, ptrs': Pointers, c: Path) {
    forall p :: Valid(p) && p != c && (Ptr(d, ptrs, p) != 0 || !Above(p, c)) ==> Ptr(d', ptrs', p) == Ptr(d, ptrs, p)
  }

  /** `b` was put where a pointer block was missing on the way to `c`. */
  ghost predicate FillsGap(d: Disk, ptrs: Pointers, d': Disk, ptrs': Pointers, c: Path, b: nat) {
    exists p :: Valid(p) && Above(p, c) && Ptr(d, ptrs, p) == 0 && Ptr(d', ptrs', p) == b
  }

  ghost predicate WayFilled(d: Disk, ptrs: Pointers, d': Disk, ptrs': Pointers, c: Path, news: set<nat>) {
    && (forall p :: Valid(p) && Above(p, c) && Ptr(d, ptrs, p) == 0 ==> Ptr(d', ptrs', p) in news)
    && (forall b :: b in news ==> FillsGap(d, ptrs, d', ptrs', c, b))
  }

  /** An unmapped ancestor leaves nothing mapped below it. */
  lemma {:induction false} UnmappedBelow(d: Disk, ptrs: Pointers, a: Path, p: Path)
    requires Above(a, p) && Ptr(d, ptrs, a) == 0
    ensures Ptr(d, ptrs, p) == 0
  {
    if a != p.parent { UnmappedBelow(d, ptrs, a, p.parent); }
  }

  /** Storing the data pointer itself, when its parent is mapped. */
  lemma MappedLast(geo: Geometry, d: Disk, ptrs: Pointers, d': Disk, ptrs': Pointers, c: Path, v: u32)
    requires Grew(geo, d, ptrs, d', ptrs', c, v, {}) && Valid(c)
    requires c.Child? ==> Ptr(d, ptrs, c.parent) != 0
    ensures Mapped(geo, d, ptrs, d', ptrs', c, v, {})
  {
    forall p | Valid(p) && Above(p, c) ensures Ptr(d, ptrs, p) != 0 {
      if Ptr(d, ptrs, p) == 0 && p != c.parent { UnmappedBelow(d, ptrs, p, c.parent); }
    }
  }

  /** Growing one missing pointer block on the way to `c`, then mapping `c`. */
  lemma MappedStep(geo: Geometry, d: Disk, ptrs: Pointers, d1: Disk, ptrs1: Pointers, d2: Disk, ptrs2: Pointers,
                   a: Path, n: u32, c: Path, v: u32, news: set<nat>)
    requires TreeOk(geo, d, ptrs)
    requires Interior(a) && Above(a, c) && Ptr(d, ptrs, a) == 0 && n != 0
    requires Grew(geo, d, ptrs, d1, ptrs1, a, n, {n})
    requires Mapped(geo, d1, ptrs1, d2, ptrs2, c, v, news)
    ensures Mapped(geo, d, ptrs, d2, ptrs2, c, v, news + {n})
  {
    MappedStepKept(geo, d, ptrs, d1, ptrs1, d2, a, n);
    PaddingTrans(geo, d, d1, d2);
    UsedPlusTrans(geo, d, d1, d2, {n}, news);
    AboveProper(a, c);
    MappedStepSame(d, ptrs, d1, ptrs1, d2, ptrs2, a, n, c);
    MappedStepPath(d, ptrs, d1, ptrs1, d2, ptrs2, a, n, c, news, news + {n});
  }

  lemma UsedPlusTrans(geo: Geometry, d: Disk, d1: Disk, d2: Disk, s: set<nat>, t: set<nat>)
    requires UsedPlus(geo, d, d1, s) && UsedPlus(geo, d1, d2, t)
    ensures UsedPlus(geo, d, d2, t + s)
  {
  }

  lemma MappedStepSame(d: Disk, ptrs: Pointers, d1: Disk, ptrs1: Pointers, d2: Disk, ptrs2: Pointers, a: Path, n: u32,
                       c: Path)
    requires Above(a, c) && Ptr(d, ptrs, a) == 0
    requires Linked(d, ptrs, d1, ptrs1, a, n)
    requires SameElsewhere(d1, ptrs1, d2, ptrs2, c)
    ensures SameElsewhere(d, ptrs, d2, ptrs2, c)
  {
  }

  lemma MappedStepPath(d: Disk, ptrs: Pointers, d1: Disk, ptrs1: Pointers, d2: Disk, ptrs2: Pointers,
                       a: Path, n: u32, c: Path, news: set<nat>, news': set<nat>)
    requires Interior(a) && Above(a, c) && a != c && Ptr(d, ptrs, a) == 0 && n != 0 && news' == news + {n}
    requires Linked(d, ptrs, d1, ptrs1, a, n)
    requires SameElsewhere(d1, ptrs1, d2, ptrs2, c) && WayFilled(d1, ptrs1, d2, ptrs2, c, news)
    ensures WayFilled(d, ptrs, d2, ptrs2, c, news')
  {
    assert Ptr(d1, ptrs1, a) == n && Ptr(d2, ptrs2, a) == n;
    forall b | b in news' ensures FillsGap(d, ptrs, d2, ptrs2, c, b) {
      if b in news {
        assert FillsGap(d1, ptrs1, d2, ptrs2, c, b);
        var p :| Valid(p) && Above(p, c) && Ptr(d1, ptrs1, p) == 0 && Ptr(d2, ptrs2, p) == b;
        assert p != a && Ptr(d, ptrs, p) == 0;
      }
    }
  }

  lemma {:induction false} AboveProper(a: Path, p: Path)
    requires Above(a, p)
    ensures a != p && a < p
  {
    if a != p.parent { AboveProper(a, p.parent); }
  }

  lemma MappedStepKept(geo: Geometry, d: Disk, ptrs: Pointers, d1: Disk, ptrs1: Pointers, d2: Disk, a: Path, n: u32)
    requires Grew(geo, d, ptrs, d1, ptrs1, a, n, {n})
    requires KeptSame(geo, d1, ptrs1, d2)
    ensures KeptSame(geo, d, ptrs, d2)
  {
    forall b | Kept(geo, d, ptrs, b) ensures d2[b] == d[b] {
      assert Kept(geo, d1, ptrs1, b);
    }
  }
}
