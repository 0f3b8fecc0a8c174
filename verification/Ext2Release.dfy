/** Giving back the blocks of a file: which bits free_inode_blocks clears. */
module Ext2Release {
  import opened Bytes
  import opened Bits
  import opened Ext2Layout
  import opened Ext2Tree
  import opened Ext2Growth
  import opened Ext2Content

  predicate Within(a: Path, p: Path) {
    a == p || Above(a, p)
  }

  /** Block `b` is at or below position `a` of the tree. */
  ghost predicate InSubtree(d: Disk, ptrs: Pointers, a: Path, b: nat) {
    b != 0 && exists p :: Valid(p) && Within(a, p) && Ptr(d, ptrs, p) == b
  }

  /** Block `b` is below one of the first `n` entries of the pointer block at `a`. */
  ghost predicate InChildren(d: Disk, ptrs: Pointers, a: Path, n: nat, b: nat) {
    exists j :: 0 <= j < n && InSubtree(d, ptrs, Child(a, j), b)
  }

  /** Block `b` is at or below one of the first `n` slots of the inode. */
  ghost predicate InSlots(d: Disk, ptrs: Pointers, n: nat, b: nat) {
    exists s :: 0 <= s < n && InSubtree(d, ptrs, Root(s), b)
  }

  lemma {:induction false} WithinChild(a: Path, p: Path)
    requires Above(a, p) && Valid(p)
    ensures exists j :: 0 <= j < ENTRIES && Within(Child(a, j), p)
  {
    if a != p.parent {
      WithinChild(a, p.parent);
      var j :| 0 <= j < ENTRIES && Within(Child(a, j), p.parent);
      assert Within(Child(a, j), p);
    } else {
      assert Within(Child(a, p.idx), p);
    }
  }

  lemma {:induction false} ChildWithin(a: Path, j: nat, p: Path)
    requires Within(Child(a, j), p)
    ensures Above(a, p)
  {
    if p != Child(a, j) { ChildWithin(a, j, p.parent); }
  }

  lemma {:induction false} WithinRoot(p: Path)
    requires Valid(p)
    ensures exists s :: 0 <= s < 15 && Within(Root(s), p)
  {
    if p.Root? {
      assert Within(Root(p.slot), p);
    } else {
      WithinRoot(p.parent);
      var s :| 0 <= s < 15 && Within(Root(s), p.parent);
      assert Within(Root(s), p);
    }
  }

  /** Positions under different entries of one pointer block, or under different slots, are different. */
  lemma {:induction false} BranchesDiffer(a: Path, i: nat, j: nat, p: Path)
    requires i != j && Within(Child(a, i), p) && Within(Child(a, j), p)
    ensures false
  {
    match p
    case Root(_) => assert false;
    case Child(q, k) =>
      if p == Child(a, i) {
        ChildWithin(a, j, q);
        AboveProper(a, q);
      } else if p == Child(a, j) {
        ChildWithin(a, i, q);
        AboveProper(a, q);
      } else {
        BranchesDiffer(a, i, j, q);
      }
  }

  lemma {:induction false} SlotsDiffer(s: nat, t: nat, p: Path)
    requires s != t && Within(Root(s), p) && Within(Root(t), p)
    ensures false
  {
    if p.Child? { SlotsDiffer(s, t, p.parent); }
  }

  /** A subtree is its root block and the subtrees of its entries. */
  lemma SubtreeSplit(d: Disk, ptrs: Pointers, a: Path, b: nat)
    requires Interior(a) && Ptr(d, ptrs, a) != 0
    ensures InSubtree(d, ptrs, a, b) <==> b == Ptr(d, ptrs, a) || InChildren(d, ptrs, a, ENTRIES, b)
  {
    if InSubtree(d, ptrs, a, b) {
      var p :| Valid(p) && Within(a, p) && Ptr(d, ptrs, p) == b;
      if a != p {
        WithinChild(a, p);
        var j :| 0 <= j < ENTRIES && Within(Child(a, j), p);
        assert InSubtree(d, ptrs, Child(a, j), b);
      }
    }
    if InChildren(d, ptrs, a, ENTRIES, b) {
      var j :| 0 <= j < ENTRIES && InSubtree(d, ptrs, Child(a, j), b);
      var p :| Valid(p) && Within(Child(a, j), p) && Ptr(d, ptrs, p) == b;
      ChildWithin(a, j, p);
    }
  }

  lemma TreeIsSlots(d: Disk, ptrs: Pointers, b: nat)
    ensures InTree(d, ptrs, b) <==> InSlots(d, ptrs, 15, b)
  {
    if InTree(d, ptrs, b) {
      var p :| Valid(p) && Ptr(d, ptrs, p) == b;
      WithinRoot(p);
      var s :| 0 <= s < 15 && Within(Root(s), p);
      assert InSubtree(d, ptrs, Root(s), b);
    }
  }

  /** In a tree without sharing, a block lies under one entry only. */
  lemma ChildrenDisjoint(d: Disk, ptrs: Pointers, a: Path, i: nat, b: nat)
    requires Ext2Tree.Distinct(d, ptrs) && InSubtree(d, ptrs, Child(a, i), b)
    ensures !InChildren(d, ptrs, a, i, b)
  {
    var p :| Valid(p) && Within(Child(a, i), p) && Ptr(d, ptrs, p) == b;
    forall j | 0 <= j < i ensures !InSubtree(d, ptrs, Child(a, j), b) {
      forall q | Valid(q) && Within(Child(a, j), q) ensures Ptr(d, ptrs, q) != b {
        if q == p { BranchesDiffer(a, i, j, p); }
      }
    }
  }

  lemma SlotsDisjoint(d: Disk, ptrs: Pointers, s: nat, b: nat)
    requires Ext2Tree.Distinct(d, ptrs) && InSubtree(d, ptrs, Root(s), b)
    ensures !InSlots(d, ptrs, s, b)
  {
    var p :| Valid(p) && Within(Root(s), p) && Ptr(d, ptrs, p) == b;
    forall t | 0 <= t < s ensures !InSubtree(d, ptrs, Root(t), b) {
      forall q | Valid(q) && Within(Root(t), q) ensures Ptr(d, ptrs, q) != b {
        if q == p { SlotsDiffer(s, t, p); }
      }
    }
  }

  lemma RootNotInChildren(d: Disk, ptrs: Pointers, a: Path)
    requires Ext2Tree.Distinct(d, ptrs) && Valid(a) && Ptr(d, ptrs, a) != 0
    ensures !InChildren(d, ptrs, a, ENTRIES, Ptr(d, ptrs, a))
  {
    forall j | 0 <= j < ENTRIES ensures !InSubtree(d, ptrs, Child(a, j), Ptr(d, ptrs, a)) {
      forall q | Valid(q) && Within(Child(a, j), q) ensures Ptr(d, ptrs, q) != Ptr(d, ptrs, a) {
        ChildWithin(a, j, q);
        AboveProper(a, q);
      }
    }
  }

  /** Only block bitmaps differ, and their padding bits do not. */
  ghost predicate BitmapsOnly(geo: Geometry, d0: Disk, d: Disk) {
    && geo.Distinct() && Present(geo, d0)
    && d.Keys == d0.Keys && (forall b :: b in d0 && !geo.IsBlockBitmap(b) ==> d[b] == d0[b])
    && PaddingSame(geo, d0, d)
  }

  lemma BitmapsOnlyRefl(geo: Geometry, d: Disk)
    requires geo.Distinct() && Present(geo, d)
    ensures BitmapsOnly(geo, d, d)
  {
  }

  /** Clearing one bit. */
  lemma FreeFacts(geo: Geometry, d0: Disk, d: Disk, b: nat)
    requires BitmapsOnly(geo, d0, d) && geo.Addressable(b)
    ensures geo.groups[geo.GroupOf(b)].blockBitmap in d
    ensures BitmapsOnly(geo, d0, MarkFree(geo, d, b))
    ensures forall c: nat :: Used(geo, MarkFree(geo, d, b), c) <==> Used(geo, d, c) && c != b
  {
    BitmapPresent(geo, d, geo.GroupOf(b));
    var d' := MarkFree(geo, d, b);
    forall c: nat ensures Used(geo, d', c) <==> Used(geo, d, c) && c != b {
      UsedAfterMark(geo, d, b, c);
    }
    assert d'.Keys == d.Keys;
    forall g, i | 0 <= g < |geo.groups| && geo.blocksPerGroup <= i < BITS_PER_BLOCK
      ensures (BitmapPresent(geo, d, g); BitmapPresent(geo, d', g); GroupBit(geo, d', g, i) == GroupBit(geo, d, g, i))
    {
      GroupBitOfMark(geo, d, b, g, i);
    }
    PaddingTrans(geo, d0, d, d');
  }

  /** The same blocks used and the same padding means the same bitmaps. */
  lemma SameUsedSameBitmap(geo: Geometry, d: Disk, d': Disk, g: nat)
    requires geo.Distinct() && Present(geo, d) && Present(geo, d') && PaddingSame(geo, d, d')
    requires forall b: nat :: Used(geo, d', b) <==> Used(geo, d, b)
    requires g < |geo.groups|
    ensures geo.groups[g].blockBitmap in d && geo.groups[g].blockBitmap in d'
    ensures d'[geo.groups[g].blockBitmap] == d[geo.groups[g].blockBitmap]
  {
    BitmapPresent(geo, d, g);
    BitmapPresent(geo, d', g);
    var bm := geo.groups[g].blockBitmap;
    forall i | 0 <= i < BITS_PER_BLOCK ensures BitAt(d'[bm], i) == BitAt(d[bm], i) {
      if i < geo.blocksPerGroup {
        BlockAtInverse(geo, g, i);
        assert Used(geo, d', geo.BlockAt(g, i)) == Used(geo, d, geo.BlockAt(g, i));
      } else {
        assert GroupBit(geo, d', g, i) == GroupBit(geo, d, g, i);
      }
    }
    BitmapsEqual(d'[bm], d[bm]);
  }

  lemma EmptySubtree(d: Disk, ptrs: Pointers, a: Path)
    requires Valid(a) && Ptr(d, ptrs, a) == 0
    ensures forall b: nat :: !InSubtree(d, ptrs, a, b)
  {
    forall p | Valid(p) && Within(a, p) ensures Ptr(d, ptrs, p) == 0 {
      if a != p { UnmappedBelow(d, ptrs, a, p); }
    }
  }

  lemma LeafSubtree(d: Disk, ptrs: Pointers, a: Path)
    requires Leaf(a) && Ptr(d, ptrs, a) != 0
    ensures forall b: nat :: InSubtree(d, ptrs, a, b) <==> b == Ptr(d, ptrs, a)
  {
    forall p | Valid(p) && Within(a, p) ensures p == a {
      if p != a { LeafNotAbove(a, p); }
    }
  }

  /** Every block at or below `a` is still marked used. */
  ghost predicate SubtreeUsed(geo: Geometry, d0: Disk, ptrs: Pointers, a: Path, d: Disk) {
    forall c: nat :: InSubtree(d0, ptrs, a, c) ==> Used(geo, d, c)
  }

  /** From `start` to `d`, exactly the blocks at or below `a` were freed. */
  ghost predicate UsedLessSubtree(geo: Geometry, d0: Disk, ptrs: Pointers, a: Path, start: Disk, d: Disk) {
    forall c: nat :: Used(geo, d, c) <==> Used(geo, start, c) && !InSubtree(d0, ptrs, a, c)
  }

  ghost predicate UsedLessChildren(geo: Geometry, d0: Disk, ptrs: Pointers, a: Path, n: nat, start: Disk, d: Disk) {
    forall c: nat :: Used(geo, d, c) <==> Used(geo, start, c) && !InChildren(d0, ptrs, a, n, c)
  }

  ghost predicate UsedLessSlots(geo: Geometry, d0: Disk, ptrs: Pointers, n: nat, d: Disk) {
    forall c: nat :: Used(geo, d, c) <==> Used(geo, d0, c) && !InSlots(d0, ptrs, n, c)
  }

  lemma ChildStillUsed(geo: Geometry, d0: Disk, ptrs: Pointers, a: Path, i: nat, start: Disk, d: Disk)
    requires Ext2Tree.Distinct(d0, ptrs) && Interior(a) && i < ENTRIES
    requires SubtreeUsed(geo, d0, ptrs, a, start) && UsedLessChildren(geo, d0, ptrs, a, i, start, d)
    ensures SubtreeUsed(geo, d0, ptrs, Child(a, i), d)
  {
    forall c: nat | InSubtree(d0, ptrs, Child(a, i), c) ensures Used(geo, d, c) {
      ChildrenDisjoint(d0, ptrs, a, i, c);
      var p :| Valid(p) && Within(Child(a, i), p) && Ptr(d0, ptrs, p) == c;
      ChildWithin(a, i, p);
    }
  }

  lemma SlotStillUsed(geo: Geometry, d0: Disk, ptrs: Pointers, s: nat, d: Disk)
    requires TreeOk(geo, d0, ptrs) && s < 15 && UsedLessSlots(geo, d0, ptrs, s, d)
    ensures SubtreeUsed(geo, d0, ptrs, Root(s), d)
  {
    forall c: nat | InSubtree(d0, ptrs, Root(s), c) ensures Used(geo, d, c) {
      SlotsDisjoint(d0, ptrs, s, c);
      var p :| Valid(p) && Within(Root(s), p) && Ptr(d0, ptrs, p) == c;
      assert Owned(geo, d0, c);
    }
  }

  /** Used blocks after one more entry has been freed. */
  lemma ChildrenNext(geo: Geometry, d0: Disk, ptrs: Pointers, a: Path, i: nat, start: Disk, before: Disk, after: Disk)
    requires UsedLessChildren(geo, d0, ptrs, a, i, start, before)
    requires UsedLessSubtree(geo, d0, ptrs, Child(a, i), before, after)
    ensures UsedLessChildren(geo, d0, ptrs, a, i + 1, start, after)
  {
    forall c: nat
      ensures InChildren(d0, ptrs, a, i + 1, c) <==>
        InChildren(d0, ptrs, a, i, c) || InSubtree(d0, ptrs, Child(a, i), c)
    {
    }
  }

  lemma SlotsNext(geo: Geometry, d0: Disk, ptrs: Pointers, s: nat, before: Disk, after: Disk)
    requires UsedLessSlots(geo, d0, ptrs, s, before) && UsedLessSubtree(geo, d0, ptrs, Root(s), before, after)
    ensures UsedLessSlots(geo, d0, ptrs, s + 1, after)
  {
    forall c: nat ensures InSlots(d0, ptrs, s + 1, c) <==> InSlots(d0, ptrs, s, c) || InSubtree(d0, ptrs, Root(s), c) {
    }
  }

  /** Once its entries are freed, freeing the pointer block itself completes the subtree. */
  lemma RootAfterChildren(geo: Geometry, d0: Disk, ptrs: Pointers, a: Path, start: Disk, d: Disk)
    requires TreeOk(geo, d0, ptrs) && Interior(a) && Ptr(d0, ptrs, a) != 0 && BitmapsOnly(geo, d0, d)
    requires SubtreeUsed(geo, d0, ptrs, a, start) && UsedLessChildren(geo, d0, ptrs, a, ENTRIES, start, d)
    ensures geo.Addressable(Ptr(d0, ptrs, a)) && geo.groups[geo.GroupOf(Ptr(d0, ptrs, a))].blockBitmap in d
    ensures Used(geo, d, Ptr(d0, ptrs, a))
    ensures BitmapsOnly(geo, d0, MarkFree(geo, d, Ptr(d0, ptrs, a)))
    ensures UsedLessSubtree(geo, d0, ptrs, a, start, MarkFree(geo, d, Ptr(d0, ptrs, a)))
  {
    var b := Ptr(d0, ptrs, a);
    RootNotInChildren(d0, ptrs, a);
    assert InSubtree(d0, ptrs, a, b);
    FreeFacts(geo, d0, d, b);
    forall c: nat ensures InSubtree(d0, ptrs, a, c) <==> c == b || InChildren(d0, ptrs, a, ENTRIES, c) {
      SubtreeSplit(d0, ptrs, a, c);
    }
  }

  lemma FileExtendedTrans(geo: Geometry, d0: Disk, p0: Pointers, d1: Disk, p1: Pointers, d2: Disk, p2: Pointers)
    requires FileExtended(geo, d0, p0, d1, p1) && FileExtended(geo, d1, p1, d2, p2)
    ensures FileExtended(geo, d0, p0, d2, p2)
  {
    PaddingTrans(geo, d0, d1, d2);
    assert NewFromFree(geo, d0, p0, d2, p2) by {
      forall p | Valid(p) && Ptr(d2, p2, p) != 0 && Ptr(d0, p0, p) == 0 ensures Free(geo, d0, Ptr(d2, p2, p)) {
        if Ptr(d1, p1, p) == 0 { assert Free(geo, d1, Ptr(d2, p2, p)); }
      }
    }
    forall b: nat | InTree(d1, p1, b) ensures InTree(d2, p2, b) {
      var p :| Valid(p) && Ptr(d1, p1, p) == b;
      assert Ptr(d2, p2, p) == b;
    }
  }

  lemma {:induction false} EmptyTree(d: Disk, ptrs: Pointers, p: Path)
    requires ptrs == seq(15, i => 0)
    ensures Ptr(d, ptrs, p) == 0
  {
    if p.Child? { EmptyTree(d, ptrs, p.parent); }
  }

  /** Growing a file and freeing it leaves used what was used before, less the blocks the file had at the start. */
  lemma FreeUndoesGrowth(geo: Geometry, d0: Disk, p0: Pointers, d: Disk, ptrs: Pointers, d': Disk)
    requires TreeOk(geo, d0, p0) && FileExtended(geo, d0, p0, d, ptrs) && BitmapsOnly(geo, d, d')
    requires forall b: nat :: Used(geo, d', b) <==> Used(geo, d, b) && !InTree(d, ptrs, b)
    ensures forall b: nat :: Used(geo, d', b) <==> Used(geo, d0, b) && !InTree(d0, p0, b)
    ensures p0 == seq(15, i => 0) ==> forall g :: 0 <= g < |geo.groups| ==>
      geo.groups[g].blockBitmap in d' && geo.groups[g].blockBitmap in d0
      && d'[geo.groups[g].blockBitmap] == d0[geo.groups[g].blockBitmap]
  {
    forall b: nat ensures Used(geo, d', b) <==> Used(geo, d0, b) && !InTree(d0, p0, b) {
      GrowthInTree(geo, d0, p0, d, ptrs, b);
    }
    if p0 == seq(15, i => 0) {
      forall p ensures Ptr(d0, p0, p) == 0 { EmptyTree(d0, p0, p); }
      PaddingTrans(geo, d0, d, d');
      forall g | 0 <= g < |geo.groups|
        ensures geo.groups[g].blockBitmap in d' && geo.groups[g].blockBitmap in d0
        ensures d'[geo.groups[g].blockBitmap] == d0[geo.groups[g].blockBitmap]
      {
        SameUsedSameBitmap(geo, d0, d', g);
      }
    }
  }

  /** A block that was used before is in the grown tree exactly if it was in the original tree. */
  lemma GrowthInTree(geo: Geometry, d0: Disk, p0: Pointers, d: Disk, ptrs: Pointers, b: nat)
    requires TreeGrows(d0, p0, d, ptrs) && NewFromFree(geo, d0, p0, d, ptrs)
    ensures Used(geo, d0, b) ==> (InTree(d, ptrs, b) <==> InTree(d0, p0, b))
  {
    if InTree(d0, p0, b) {
      var p :| Valid(p) && Ptr(d0, p0, p) == b;
      assert Ptr(d, ptrs, p) == b;
    }
  }
}
