/** The direct / single / double / triple indirect pointer tree of an inode, as a map from paths to block numbers. */
module Ext2Tree {
  import opened Bytes
  import opened Ext2Layout

  /** The `block: [u32; 15]` array of an inode. */
  type Pointers = s: seq<u32> | |s| == 15 witness seq(15, i => 0)

  /** A position in the tree: a slot of the inode, or entry `idx` of the pointer block at `parent`. */
  datatype Path = Root(slot: nat) | Child(parent: Path, idx: nat)

  /** How many pointer levels lie below a path; leaves (level 0) hold data blocks. */
  function Level(p: Path): int {
    match p
    case Root(s) => if s < 12 then 0 else s - 11
    case Child(q, _) => Level(q) - 1
  }

  predicate Valid(p: Path) {
    match p
    case Root(s) => s < 15
    case Child(q, i) => Valid(q) && Level(q) > 0 && i < ENTRIES
  }

  predicate Leaf(p: Path) {
    Valid(p) && Level(p) == 0
  }

  predicate Interior(p: Path) {
    Valid(p) && Level(p) > 0
  }

  /** `a` is a proper ancestor of `p`. */
  predicate Above(a: Path, p: Path) {
    match p
    case Root(_) => false
    case Child(q, _) => a == q || Above(a, q)
  }

  /** The block number stored at a path; 0 when the path is not mapped. */
  function Ptr(d: Disk, ptrs: Pointers, p: Path): u32 {
    match p
    case Root(s) => if s < 15 then ptrs[s] else 0
    case Child(q, i) =>
      var b := Ptr(d, ptrs, q);
      if b == 0 || b !in d || i >= ENTRIES then 0 else Entry(d[b], i)
  }

  /** Number of logical blocks a file can have: 12 + e + e^2 + e^3. */
  const MAX_BLOCKS: nat := 12 + 256 + 65536 + 16777216

  /** The tree position of logical block `l`. */
  function PathOf(l: nat): Path
    requires l < MAX_BLOCKS
  {
    if l < 12 then
      Root(l)
    else if l < 268 then
      Child(Root(12), l - 12)
    else if l < 65804 then
      Child(Child(Root(13), (l - 268) / 256), (l - 268) % 256)
    else
      Child(Child(Child(Root(14), (l - 65804) / 65536), (l - 65804) % 65536 / 256), (l - 65804) % 65536 % 256)
  }

  lemma PathOfLeaf(l: nat)
    requires l < MAX_BLOCKS
    ensures Leaf(PathOf(l))
  {
    var p := PathOf(l);
    if 65804 <= l {
      assert Interior(Root(14)) && Level(Root(14)) == 3;
      assert Interior(p.parent.parent) && Level(p.parent.parent) == 2;
      assert Interior(p.parent) && Level(p.parent) == 1;
    } else if 268 <= l {
      assert Interior(Root(13)) && Level(Root(13)) == 2;
      assert Interior(p.parent) && Level(p.parent) == 1;
    }
  }

  /** Different logical blocks have different paths, and every leaf is some logical block. */
  lemma PathOfInjective(l: nat, m: nat)
    requires l < MAX_BLOCKS && m < MAX_BLOCKS && PathOf(l) == PathOf(m)
    ensures l == m
  {
  }

  /** The logical block of a leaf. */
  function LogicalOf(p: Path): nat
    requires Leaf(p)
  {
    match p
    case Root(s) => s
    case Child(Root(_), i) => 12 + i
    case Child(Child(Root(_), i), j) => 268 + 256 * i + j
    case Child(Child(Child(Root(_), i), j), k) => 65804 + 65536 * i + 256 * j + k
    case Child(Child(Child(Child(_, _), _), _), _) => 0
  }

  lemma PathOfSurjective(p: Path)
    requires Leaf(p)
    ensures LogicalOf(p) < MAX_BLOCKS && PathOf(LogicalOf(p)) == p
  {
    match p
    case Root(s) =>
    case Child(q1, i) =>
      assert Interior(q1) && Level(q1) == 1;
      match q1
      case Root(s) =>
      case Child(q2, j) =>
        assert Interior(q2) && Level(q2) == 2;
        match q2
        case Root(s) =>
        case Child(q3, k) =>
          LevelBound(q3);
          assert q3 == Root(14) by { assert q3.Child? ==> Valid(q3.parent); if q3.Child? { LevelBound(q3.parent); } }
  }

  lemma LevelBound(p: Path)
    requires Valid(p)
    ensures 0 <= Level(p) <= 3
  {
  }

  /** A block owned by a file: inside the volume, marked used, and not metadata. */
  predicate Owned(geo: Geometry, d: Disk, b: nat) {
    b < geo.blocksCount && Used(geo, d, b) && !geo.IsMeta(b)
  }

  ghost predicate Distinct(d: Disk, ptrs: Pointers) {
    forall p, q :: Valid(p) && Valid(q) && Ptr(d, ptrs, p) != 0 && Ptr(d, ptrs, p) == Ptr(d, ptrs, q) ==> p == q
  }

  /** The tree invariant: every block of the tree is owned, and no block occurs at two places. */
  ghost predicate TreeOk(geo: Geometry, d: Disk, ptrs: Pointers) {
    && (forall p :: Valid(p) && Ptr(d, ptrs, p) != 0 ==> Owned(geo, d, Ptr(d, ptrs, p)))
    && Distinct(d, ptrs)
  }

  /** Block `b` is one of the tree's pointer blocks or data blocks. */
  ghost predicate InTree(d: Disk, ptrs: Pointers, b: nat) {
    b != 0 && exists p :: Valid(p) && Ptr(d, ptrs, p) == b
  }

  ghost predicate IsPointerBlock(d: Disk, ptrs: Pointers, b: nat) {
    b != 0 && exists p :: Interior(p) && Ptr(d, ptrs, p) == b
  }

  /** The tree of (d', ptrs') is the tree of (d, ptrs) with `n` stored at `c`. */
  ghost predicate Linked(d: Disk, ptrs: Pointers, d': Disk, ptrs': Pointers, c: Path, n: u32) {
    forall p :: Valid(p) ==> Ptr(d', ptrs', p) == if p == c then n else Ptr(d, ptrs, p)
  }

  /** Writes outside the pointer blocks do not change the tree. */
  lemma {:induction false} PtrFrame(d: Disk, ptrs: Pointers, d': Disk, p: Path)
    requires Valid(p)
    requires forall b :: IsPointerBlock(d, ptrs, b) && b in d ==> b in d' && d'[b] == d[b]
    requires forall b :: IsPointerBlock(d, ptrs, b) && b in d' ==> b in d
    ensures Ptr(d', ptrs, p) == Ptr(d, ptrs, p)
  {
    match p
    case Root(_) =>
    case Child(q, i) =>
      PtrFrame(d, ptrs, d', q);
      var b := Ptr(d, ptrs, q);
      assert b != 0 ==> IsPointerBlock(d, ptrs, b);
  }

  /** Storing a value in an entry of a pointer block changes the tree at that entry only (leaf entries). */
  lemma {:induction false} LinkLeafEntry(d: Disk, ptrs: Pointers, q: Path, i: nat, v: u32, p: Path)
    requires Distinct(d, ptrs) && Valid(p)
    requires Interior(q) && Level(q) == 1 && i < ENTRIES
    requires Ptr(d, ptrs, q) != 0 && Ptr(d, ptrs, q) in d
    ensures var b := Ptr(d, ptrs, q);
            Ptr(d[b := SetEntry(d[b], i, v)], ptrs, p) == if p == Child(q, i) then v else Ptr(d, ptrs, p)
  {
    var b := Ptr(d, ptrs, q);
    match p
    case Root(_) =>
    case Child(p0, j) =>
      LinkLeafEntry(d, ptrs, q, i, v, p0);
      EntryOfSetEntry(d[b], i, v, j);
  }

  /** Linking a zeroed block below a pointer block adds one empty pointer block to the tree. */
  lemma {:induction false} LinkTableEntry(d: Disk, ptrs: Pointers, q: Path, i: nat, n: u32, p: Path)
    requires Distinct(d, ptrs) && Valid(p)
    requires Interior(q) && Level(q) > 1 && i < ENTRIES
    requires Ptr(d, ptrs, q) != 0 && Ptr(d, ptrs, q) in d && Ptr(d, ptrs, Child(q, i)) == 0
    requires n != 0 && n in d && !InTree(d, ptrs, n)
    ensures var b := Ptr(d, ptrs, q);
            Ptr(d[b := SetEntry(d[b], i, n)][n := ZeroBlock()], ptrs, p) ==
              if p == Child(q, i) then n else Ptr(d, ptrs, p)
  {
    var b := Ptr(d, ptrs, q);
    assert b != n by { assert InTree(d, ptrs, b); }
    match p
    case Root(_) =>
    case Child(p0, j) =>
      LinkTableEntry(d, ptrs, q, i, n, p0);
      EntryOfSetEntry(d[b], i, n, j);
      EntryOfZeroBlock(j);
      var x := Ptr(d, ptrs, p0);
      assert x != 0 ==> InTree(d, ptrs, x);
  }

  /** Linking a zeroed block at an empty indirect slot of the inode. */
  lemma {:induction false} LinkTableRoot(d: Disk, ptrs: Pointers, s: nat, n: u32, p: Path)
    requires Valid(p)
    requires 12 <= s < 15 && ptrs[s] == 0
    requires n != 0 && n in d && !InTree(d, ptrs, n)
    ensures Ptr(d[n := ZeroBlock()], ptrs[s := n], p) == if p == Root(s) then n else Ptr(d, ptrs, p)
  {
    match p
    case Root(_) =>
    case Child(p0, j) =>
      LinkTableRoot(d, ptrs, s, n, p0);
      EntryOfZeroBlock(j);
      var x := Ptr(d, ptrs, p0);
      assert x != 0 ==> InTree(d, ptrs, x);
  }

  /** Storing a data block in a direct slot. */
  lemma {:induction false} LinkDirect(d: Disk, ptrs: Pointers, s: nat, v: u32, p: Path)
    requires Valid(p) && s < 12
    ensures Ptr(d, ptrs[s := v], p) == if p == Root(s) then v else Ptr(d, ptrs, p)
  {
    match p
    case Root(_) =>
    case Child(p0, j) => LinkDirect(d, ptrs, s, v, p0);
  }
}
