/** What a write that fails half-way can have changed, and what a write means for the other files of the volume. */
module Ext2Failure {
  import opened Bytes
  import opened Ext2Layout
  import opened Ext2Tree
  import opened Ext2Growth
  import opened Ext2Inode
  import opened Ext2Content
  import opened Ext2Space
  import opened Ext2Survival

  /** `d` differs from `d1` in block `x` at most. */
  ghost predicate SameBut(d1: Disk, d: Disk, x: nat) {
    d.Keys == d1.Keys && forall b :: b in d && b != x ==> d[b] == d1[b]
  }

  /**
   * Growing the tree by up to `n` blocks failed: the store did, or space ran short and then at most pointer blocks were
   * added; what is not the file's is untouched.
   */
  ghost predicate GaveUp(geo: Geometry, faulty: bool, d0: Disk, p0: Pointers, d: Disk, n: nat) {
    OthersSame(geo, d0, p0, d) && (faulty || (ShortBy(geo, d0, n) && Stuck(geo, d0, p0, d, n)))
  }

  /** Copying `data` into the file failed: the store did, or space ran short and then the file survived. */
  ghost predicate CopyFailed(geo: Geometry, faulty: bool, d0: Disk, p0: Pointers, d: Disk, offset: nat,
                             data: seq<byte>, n: nat)
  {
    && OthersSame(geo, d0, p0, d)
    && (faulty || (ShortBy(geo, d0, n) && Survived(geo, d0, p0, d, offset, data, n)))
  }

  /** Like GaveUp for an operation that also stores inode `num`, in whose block the slot may be half written. */
  ghost predicate StoreFailed(geo: Geometry, faulty: bool, d0: Disk, p0: Pointers, d: Disk, num: nat, n: nat) {
    && (faulty || !HasSlot(geo, num) || ShortBy(geo, d0, n))
    && if HasSlot(geo, num) then OthersSameBut(geo, d0, p0, d, SlotBlock(geo, num)) else OthersSame(geo, d0, p0, d)
  }

  /** What is not the file's before is not the file's after. */
  ghost predicate StaysForeign(geo: Geometry, d0: Disk, p0: Pointers, d1: Disk, p1: Pointers) {
    forall b :: Foreign(geo, d0, p0, b) ==> Foreign(geo, d1, p1, b)
  }

  lemma FailedStore(geo: Geometry, d0: Disk, p0: Pointers, d1: Disk, d: Disk, x: nat)
    requires OthersSame(geo, d0, p0, d1) && SameBut(d1, d, x) && !Foreign(geo, d0, p0, x)
    ensures OthersSame(geo, d0, p0, d)
  {
  }

  lemma FailedInode(geo: Geometry, faulty: bool, d0: Disk, p0: Pointers, d1: Disk, d: Disk, num: nat, n: nat)
    requires OthersSame(geo, d0, p0, d1) && (faulty || !HasSlot(geo, num))
    requires if HasSlot(geo, num) then SameBut(d1, d, SlotBlock(geo, num)) else d == d1
    ensures StoreFailed(geo, faulty, d0, p0, d, num, n)
  {
  }

  lemma FailedTwice(geo: Geometry, d0: Disk, p0: Pointers, d1: Disk, x: nat, d2: Disk, y: nat, d: Disk)
    requires OthersSame(geo, d0, p0, d1) && x in d1 && x in d2 && d2 == d1[x := d2[x]] && SameBut(d2, d, y)
    requires !Foreign(geo, d0, p0, x) && !Foreign(geo, d0, p0, y)
    ensures OthersSame(geo, d0, p0, d)
  {
  }

  lemma FailedMore(geo: Geometry, faulty: bool, d0: Disk, p0: Pointers, d: Disk, n: nat, m: nat)
    requires GaveUp(geo, faulty, d0, p0, d, n) && n <= m && DiskOk(geo, d0)
    ensures GaveUp(geo, faulty, d0, p0, d, m)
  {
    TookNone(geo, d0);
    if !faulty {
      ShortLater(geo, d0, d0, {}, n, m);
      StuckMore(geo, d0, p0, d, n, m);
    }
  }

  /** A pointer block was added at `a`, and the rest failed. */
  lemma FailedBelow(geo: Geometry, faulty: bool, d0: Disk, ptrs: Pointers, d1: Disk, a: Path, v: u32, d: Disk, n: nat,
                    m: nat)
    requires Grew(geo, d0, ptrs, d1, ptrs, a, v, {v as nat}) && Interior(a) && Ptr(d0, ptrs, a) == 0
    requires GaveUp(geo, faulty, d1, ptrs, d, n) && n + 1 <= m
    ensures GaveUp(geo, faulty, d0, ptrs, d, m)
  {
    GrewLeaves(geo, d0, ptrs, d1, ptrs, a, v);
    OthersLater(geo, d0, ptrs, d1, ptrs, d);
    if !faulty {
      ShortLater(geo, d0, d1, {v as nat}, n, m);
      StuckBelow(geo, d0, ptrs, d1, a, v, d, n, m);
    }
  }

  /** A pointer block was added for slot `s` of the inode, and the rest failed. */
  lemma FailedBelowRoot(geo: Geometry, faulty: bool, d0: Disk, ptrs: Pointers, d1: Disk, s: nat, v: u32, d: Disk,
                        n: nat, m: nat)
    requires 12 <= s < 15 && ptrs[s] == 0 && Grew(geo, d0, ptrs, d1, ptrs[s := v], Root(s), v, {v as nat})
    requires GaveUp(geo, faulty, d1, ptrs[s := v], d, n) && n + 1 <= m
    ensures GaveUp(geo, faulty, d0, ptrs, d, m)
  {
    GrewLeaves(geo, d0, ptrs, d1, ptrs[s := v], Root(s), v);
    OthersLater(geo, d0, ptrs, d1, ptrs[s := v], d);
    if !faulty {
      ShortLater(geo, d0, d1, {v as nat}, n, m);
      StuckBelowRoot(geo, d0, ptrs, d1, s, v, d, n, m);
    }
  }

  /** A block was taken, and the rest failed. */
  lemma FailedAfterTake(geo: Geometry, faulty: bool, d0: Disk, ptrs: Pointers, d1: Disk, v: nat, d: Disk, n: nat,
                        m: nat)
    requires Prepared(geo, d0, ptrs, d1, v) && GaveUp(geo, faulty, d1, ptrs, d, n) && n + 1 <= m
    ensures GaveUp(geo, faulty, d0, ptrs, d, m)
  {
    PreparedLeaves(geo, d0, ptrs, d1, v);
    OthersLater(geo, d0, ptrs, d1, ptrs, d);
    if !faulty {
      ShortLater(geo, d0, d1, {v}, n, m);
      StuckAfterTake(geo, d0, ptrs, d1, v, d, n, m);
    }
  }

  lemma OthersLater(geo: Geometry, d0: Disk, p0: Pointers, d1: Disk, p1: Pointers, d: Disk)
    requires OthersSame(geo, d0, p0, d1) && StaysForeign(geo, d0, p0, d1, p1) && OthersSame(geo, d1, p1, d)
    ensures OthersSame(geo, d0, p0, d)
  {
    forall b | Foreign(geo, d0, p0, b) ensures d[b] == d0[b] {
      assert Foreign(geo, d1, p1, b);
    }
  }

  lemma GrewLeaves(geo: Geometry, d: Disk, ptrs: Pointers, d1: Disk, ptrs1: Pointers, c: Path, n: u32)
    requires Grew(geo, d, ptrs, d1, ptrs1, c, n, {n as nat})
    ensures OthersSame(geo, d, ptrs, d1) && StaysForeign(geo, d, ptrs, d1, ptrs1) && TookUp(geo, d, d1, {n as nat})
    ensures |{n as nat}| == 1
  {
    forall b | Foreign(geo, d, ptrs, b) ensures Foreign(geo, d1, ptrs1, b) && d1[b] == d[b] {
      assert Kept(geo, d, ptrs, b);
      assert n in {n};
    }
  }

  lemma PreparedLeaves(geo: Geometry, d: Disk, ptrs: Pointers, d1: Disk, v: nat)
    requires Prepared(geo, d, ptrs, d1, v)
    ensures OthersSame(geo, d, ptrs, d1) && StaysForeign(geo, d, ptrs, d1, ptrs) && TookUp(geo, d, d1, {v})
    ensures |{v}| == 1
  {
  }

  lemma ExtendedLeaves(geo: Geometry, d0: Disk, p0: Pointers, d: Disk, ptrs: Pointers)
    requires Extended(geo, d0, p0, d, ptrs)
    ensures StaysForeign(geo, d0, p0, d, ptrs)
  {
    forall b | Foreign(geo, d0, p0, b) ensures Foreign(geo, d, ptrs, b) {
      ForeignStays(geo, d0, p0, d, ptrs, b);
    }
  }

  // ---- The other files ---------------------------------------------------

  ghost predicate Apart(d: Disk, p: Pointers, q: Pointers) {
    forall b: nat :: InTree(d, p, b) ==> !InTree(d, q, b)
  }

  /** A block of another file is foreign. */
  lemma OtherIsForeign(geo: Geometry, d: Disk, p: Pointers, q: Pointers, b: nat)
    requires DiskOk(geo, d) && TreeOk(geo, d, q) && Apart(d, p, q) && InTree(d, q, b)
    ensures Foreign(geo, d, p, b) && !geo.IsMeta(b)
  {
    assert Owned(geo, d, b);
  }

  /** Whether the write succeeded or not: every other file keeps its tree and its bytes. */
  lemma OtherContentKept(geo: Geometry, d0: Disk, p0: Pointers, d: Disk, x: nat, q: Pointers)
    requires DiskOk(geo, d0) && OthersSameBut(geo, d0, p0, d, x) && geo.IsInodeArea(x)
    requires TreeOk(geo, d0, q) && Apart(d0, p0, q)
    ensures forall p :: Valid(p) ==> Ptr(d, q, p) == Ptr(d0, q, p)
    ensures forall k: nat :: FileByte(d, q, k) == FileByte(d0, q, k)
  {
    forall b: nat | InTree(d0, q, b) ensures b in d && d[b] == d0[b] {
      OtherIsForeign(geo, d0, p0, q, b);
    }
    forall p | Valid(p) ensures Ptr(d, q, p) == Ptr(d0, q, p) {
      PtrFrame(d0, q, d, p);
    }
    forall k: nat ensures FileByte(d, q, k) == FileByte(d0, q, k) {
      if k < MAX_BYTES { OtherByteKept(d0, d, q, k); }
    }
  }

  lemma OtherByteKept(d0: Disk, d: Disk, q: Pointers, k: nat)
    requires k < MAX_BYTES && d.Keys == d0.Keys
    requires forall p :: Valid(p) ==> Ptr(d, q, p) == Ptr(d0, q, p)
    requires forall b: nat :: InTree(d0, q, b) ==> b in d && d[b] == d0[b]
    ensures FileByte(d, q, k) == FileByte(d0, q, k)
  {
    PathOfLeaf(k / 1024);
    var b := Ptr(d0, q, PathOf(k / 1024));
    assert b != 0 ==> InTree(d0, q, b);
  }

  /**
   * After a write that succeeded, every other file's tree is still well formed and shares no block with the grown
   * file.
   */
  lemma OtherTreeKept(geo: Geometry, d0: Disk, p0: Pointers, d: Disk, ptrs: Pointers, x: nat, q: Pointers)
    requires FileExtended(geo, d0, p0, d, ptrs) && OthersSameBut(geo, d0, p0, d, x) && geo.IsInodeArea(x)
    requires TreeOk(geo, d0, q) && Apart(d0, p0, q)
    ensures TreeOk(geo, d, q) && Apart(d, ptrs, q)
  {
    OtherContentKept(geo, d0, p0, d, x, q);
    forall b: nat | InTree(d, q, b) ensures Owned(geo, d, b) && !InTree(d, ptrs, b) {
      assert InTree(d0, q, b);
      OtherIsForeign(geo, d0, p0, q, b);
      ForeignStays(geo, d0, p0, d, ptrs, b);
      assert Owned(geo, d0, b);
    }
  }
}
