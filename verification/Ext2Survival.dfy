/** What is left of a file when a write to it runs out of space: the file as its stored inode shows it. */
module Ext2Survival {
  import opened Bytes
  import opened Ext2Layout
  import opened Ext2Tree
  import opened Ext2Growth
  import opened Ext2Content
  import opened Ext2Space

  // ---- Growth that stopped half-way ----------------------------------------

  /** The disk took fewer than `n` blocks. */
  ghost predicate TookFewer(geo: Geometry, d0: Disk, d: Disk, n: nat) {
    exists news: set<nat> :: TookUp(geo, d0, d, news) && |news| < n
  }

  ghost predicate LeavesSame(d0: Disk, ptrs: Pointers, d: Disk) {
    forall p :: Leaf(p) ==> Ptr(d, ptrs, p) == Ptr(d0, ptrs, p)
  }

  /** Pointer blocks may have been added to the tree, but no data block; all data is where it was. */
  ghost predicate Stuck(geo: Geometry, d0: Disk, ptrs: Pointers, d: Disk, n: nat) {
    && DiskOk(geo, d) && TreeOk(geo, d, ptrs) && KeptSame(geo, d0, ptrs, d)
    && TreeGrows(d0, ptrs, d, ptrs) && LeavesSame(d0, ptrs, d) && TookFewer(geo, d0, d, n)
  }

  lemma StuckRefl(geo: Geometry, d: Disk, ptrs: Pointers, n: nat)
    requires DiskOk(geo, d) && TreeOk(geo, d, ptrs) && n > 0
    ensures Stuck(geo, d, ptrs, d, n)
  {
    TookNone(geo, d);
  }

  lemma TookFewerMore(geo: Geometry, d0: Disk, d1: Disk, news: set<nat>, d: Disk, n: nat, m: nat)
    requires TookUp(geo, d0, d1, news) && TookFewer(geo, d1, d, n) && |news| + n <= m
    ensures TookFewer(geo, d0, d, m)
  {
    var more: set<nat> :| TookUp(geo, d1, d, more) && |more| < n;
    TookMore(geo, d0, d1, d, news, more);
    TookFewerAt(geo, d0, d, news + more, m);
  }

  lemma TookFewerAt(geo: Geometry, d0: Disk, d: Disk, news: set<nat>, n: nat)
    requires TookUp(geo, d0, d, news) && |news| < n
    ensures TookFewer(geo, d0, d, n)
  {
  }

  lemma StuckMore(geo: Geometry, d0: Disk, ptrs: Pointers, d: Disk, n: nat, m: nat)
    requires Stuck(geo, d0, ptrs, d, n) && n <= m
    ensures Stuck(geo, d0, ptrs, d, m)
  {
  }

  /** A pointer block was added at `a`, and the rest got stuck. */
  lemma StuckBelow(geo: Geometry, d0: Disk, ptrs: Pointers, d1: Disk, a: Path, n: u32, d: Disk, k: nat, m: nat)
    requires Grew(geo, d0, ptrs, d1, ptrs, a, n, {n as nat}) && Interior(a) && Ptr(d0, ptrs, a) == 0
    requires Stuck(geo, d1, ptrs, d, k) && k + 1 <= m
    ensures Stuck(geo, d0, ptrs, d, m)
  {
    MappedStepKept(geo, d0, ptrs, d1, ptrs, d, a, n);
    TookFewerMore(geo, d0, d1, {n as nat}, d, k, m);
  }

  /** A block was taken, and the rest got stuck. */
  lemma StuckAfterTake(geo: Geometry, d0: Disk, ptrs: Pointers, d1: Disk, v: nat, d: Disk, k: nat, m: nat)
    requires Prepared(geo, d0, ptrs, d1, v) && Stuck(geo, d1, ptrs, d, k) && k + 1 <= m
    ensures Stuck(geo, d0, ptrs, d, m)
  {
    TookFewerMore(geo, d0, d1, {v}, d, k, m);
    forall b | Kept(geo, d0, ptrs, b) ensures d[b] == d0[b] {
      assert Kept(geo, d1, ptrs, b);
    }
  }

  // ---- A tree seen through fewer pointers -----------------------------------

  function SlotOf(p: Path): nat {
    match p
    case Root(s) => s
    case Child(q, _) => SlotOf(q)
  }

  /** `p0` shows the slots of `p1`, or hides them. */
  ghost predicate Hides(p0: Pointers, p1: Pointers) {
    forall s :: 0 <= s < 15 ==> p0[s] == 0 || p0[s] == p1[s]
  }

  lemma {:induction false} HiddenPtr(d: Disk, p0: Pointers, p1: Pointers, p: Path)
    requires Valid(p) && Hides(p0, p1)
    ensures SlotOf(p) < 15 && Ptr(d, p0, p) == if p0[SlotOf(p)] == 0 then 0 else Ptr(d, p1, p)
  {
    if p.Child? { HiddenPtr(d, p0, p1, p.parent); }
  }

  lemma HiddenTree(geo: Geometry, d: Disk, p0: Pointers, p1: Pointers)
    requires TreeOk(geo, d, p1) && Hides(p0, p1)
    ensures TreeOk(geo, d, p0)
    ensures forall p :: Valid(p) && Ptr(d, p0, p) != 0 ==> Ptr(d, p0, p) == Ptr(d, p1, p)
  {
    forall p | Valid(p) && Ptr(d, p0, p) != 0 ensures Ptr(d, p0, p) == Ptr(d, p1, p) {
      HiddenPtr(d, p0, p1, p);
    }
  }

  /** An indirect slot was filled in memory, and the rest got stuck: on disk the slot is still empty. */
  lemma StuckBelowRoot(geo: Geometry, d0: Disk, ptrs: Pointers, d1: Disk, s: nat, n: u32, d: Disk, k: nat, m: nat)
    requires 12 <= s < 15 && ptrs[s] == 0 && Grew(geo, d0, ptrs, d1, ptrs[s := n], Root(s), n, {n as nat})
    requires Stuck(geo, d1, ptrs[s := n], d, k) && k + 1 <= m
    ensures Stuck(geo, d0, ptrs, d, m)
  {
    var p1 := ptrs[s := n];
    MappedStepKept(geo, d0, ptrs, d1, p1, d, Root(s), n);
    TookFewerMore(geo, d0, d1, {n as nat}, d, k, m);
    HiddenTree(geo, d, ptrs, p1);
    forall p | Valid(p) && (Leaf(p) || Ptr(d0, ptrs, p) != 0) ensures Ptr(d, ptrs, p) == Ptr(d0, ptrs, p) {
      HiddenPtr(d, ptrs, p1, p);
      HiddenPtr(d0, ptrs, p1, p);
    }
  }

  // ---- The file after a write that ran short --------------------------------

  /** The bytes of the file are the same. */
  lemma StuckByte(geo: Geometry, d0: Disk, ptrs: Pointers, d: Disk, n: nat, k: nat)
    requires Stuck(geo, d0, ptrs, d, n) && DiskOk(geo, d0) && TreeOk(geo, d0, ptrs) && k < MAX_BYTES
    ensures MappedAt(d, ptrs, k) == MappedAt(d0, ptrs, k) && FileByte(d, ptrs, k) == FileByte(d0, ptrs, k)
  {
    PathOfLeaf(k / 1024);
    if MappedAt(d0, ptrs, k) { DataBlockKept(geo, d0, ptrs, PathOf(k / 1024)); }
  }

  /** Bytes that the stored pointers `p0` lead to: the first `n` bytes of the write are done. */
  ghost predicate WrittenWhereMapped(d0: Disk, p0: Pointers, d: Disk, offset: nat, data: seq<byte>, n: nat)
    requires n <= |data|
  {
    forall k: nat :: k < MAX_BYTES && MappedAt(d, p0, k) ==> ByteWritten(d0, p0, d, p0, offset, data, n, k)
  }

  ghost predicate SomeWritten(d0: Disk, p0: Pointers, d: Disk, offset: nat, data: seq<byte>) {
    exists n: nat :: n <= |data| && WrittenWhereMapped(d0, p0, d, offset, data, n)
  }

  /**
   * A write of `data` that ran short, seen through the pointers `p0` of the stored inode: the tree is well formed and
   * only grew, some prefix of the data is written where it is mapped, and fewer than `n` blocks were taken. Those of
   * them that are not in the tree of `p0` are lost.
   */
  ghost predicate Survived(geo: Geometry, d0: Disk, p0: Pointers, d: Disk, offset: nat, data: seq<byte>, n: nat) {
    && DiskOk(geo, d) && TreeOk(geo, d, p0) && TreeGrows(d0, p0, d, p0) && TookFewer(geo, d0, d, n)
    && SomeWritten(d0, p0, d, offset, data)
  }

  /** The write had extended the file to (d1, p1) and `n` bytes when it got stuck. */
  lemma SurvivedStuck(geo: Geometry, d0: Disk, p0: Pointers, d1: Disk, p1: Pointers, news: set<nat>, d: Disk,
                      offset: nat, data: seq<byte>, n: nat, k: nat, m: nat)
    requires Extended(geo, d0, p0, d1, p1) && n <= |data| && Written(d0, p0, d1, p1, offset, data, n)
    requires TookUp(geo, d0, d1, news) && Stuck(geo, d1, p1, d, k) && |news| + k <= m
    ensures Survived(geo, d0, p0, d, offset, data, m)
  {
    TookFewerMore(geo, d0, d1, news, d, k, m);
    HidesGrown(d0, p0, d1, p1);
    HiddenTree(geo, d, p0, p1);
    forall p | Valid(p) && Ptr(d0, p0, p) != 0 ensures Ptr(d, p0, p) == Ptr(d0, p0, p) {
      HiddenPtr(d0, p0, p0, p);
      HiddenPtr(d, p0, p1, p);
    }
    forall i: nat | i < MAX_BYTES && MappedAt(d, p0, i) ensures ByteWritten(d0, p0, d, p0, offset, data, n, i) {
      SurvivedByte(geo, d0, p0, d1, p1, d, offset, data, n, k, i);
    }
    assert WrittenWhereMapped(d0, p0, d, offset, data, n);
  }

  lemma HidesGrown(d0: Disk, p0: Pointers, d1: Disk, p1: Pointers)
    requires TreeGrows(d0, p0, d1, p1)
    ensures Hides(p0, p1)
  {
    forall s | 0 <= s < 15 ensures p0[s] == 0 || p0[s] == p1[s] {
      assert Valid(Root(s)) && Ptr(d0, p0, Root(s)) == p0[s];
      assert Ptr(d1, p1, Root(s)) == p1[s];
    }
  }

  lemma SurvivedByte(geo: Geometry, d0: Disk, p0: Pointers, d1: Disk, p1: Pointers, d: Disk, offset: nat,
                     data: seq<byte>, n: nat, m: nat, k: nat)
    requires Extended(geo, d0, p0, d1, p1) && n <= |data| && Written(d0, p0, d1, p1, offset, data, n)
    requires Stuck(geo, d1, p1, d, m) && Hides(p0, p1) && k < MAX_BYTES && MappedAt(d, p0, k)
    ensures ByteWritten(d0, p0, d, p0, offset, data, n, k)
  {
    PathOfLeaf(k / 1024);
    HiddenPtr(d, p0, p1, PathOf(k / 1024));
    StuckByte(geo, d1, p1, d, m, k);
    assert ByteWritten(d0, p0, d1, p1, offset, data, n, k);
  }

  /** Outside the range of the write, bytes of blocks that were mapped, and of blocks still unmapped, are as before. */
  lemma SurvivedOutside(geo: Geometry, d0: Disk, p0: Pointers, d: Disk, offset: nat, data: seq<byte>, n: nat, k: nat)
    requires Survived(geo, d0, p0, d, offset, data, n) && k < MAX_BYTES && !(offset <= k < offset + |data|)
    requires MappedAt(d0, p0, k) || !MappedAt(d, p0, k)
    ensures FileByte(d, p0, k) == FileByte(d0, p0, k)
  {
    PathOfLeaf(k / 1024);
    var i: nat :| i <= |data| && WrittenWhereMapped(d0, p0, d, offset, data, i);
    if MappedAt(d, p0, k) { assert ByteWritten(d0, p0, d, p0, offset, data, i, k); }
  }
}
