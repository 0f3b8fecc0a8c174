/** A directory as the list of its entries, block after block. */
module Ext2Directory {
  import opened Bytes
  import opened Ext2Layout
  import opened Ext2Tree
  import opened Ext2Growth
  import opened Ext2Content
  import opened Ext2Inode
  import opened Ext2Dir

  /** Logical block `l` of the directory is unmapped or a well-formed directory block. */
  ghost predicate DirBlockOk(d: Disk, ptrs: Pointers, l: nat)
    requires l < MAX_BLOCKS
  {
    var b := Ptr(d, ptrs, PathOf(l));
    b == 0 || (b in d && Tiles(d[b]))
  }

  /** The first `n` blocks of the directory are well formed. */
  ghost predicate DirBlocksOk(d: Disk, ptrs: Pointers, n: nat) {
    n <= MAX_BLOCKS && forall l :: 0 <= l < n ==> DirBlockOk(d, ptrs, l)
  }

  /** The used entries of logical block `l`; none if it is unmapped. */
  ghost function BlockList(d: Disk, ptrs: Pointers, l: nat): seq<DirEntry> {
    if l >= MAX_BLOCKS then []
    else
      var b := Ptr(d, ptrs, PathOf(l));
      if b == 0 || b !in d || !Tiles(d[b]) then [] else Live(Records(d[b]))
  }

  /** Some record of logical block `l` can take `needed` more bytes. */
  ghost predicate RoomIn(d: Disk, ptrs: Pointers, l: nat, needed: nat) {
    && l < MAX_BLOCKS && DirBlockOk(d, ptrs, l) && Ptr(d, ptrs, PathOf(l)) != 0
    && exists r :: r in Records(d[Ptr(d, ptrs, PathOf(l))]) && Fits(r, needed)
  }

  /** Some block of the directory has such a record. */
  ghost predicate HasRoom(d: Disk, x: Inode, needed: nat) {
    exists l :: 0 <= l < x.Size() / 1024 && RoomIn(d, x.block, l, needed)
  }

  /** The used entries of blocks `l` to `n`. */
  ghost function DirList(d: Disk, ptrs: Pointers, l: nat, n: nat): seq<DirEntry>
    requires l <= n
    decreases n - l
  {
    if l == n then [] else BlockList(d, ptrs, l) + DirList(d, ptrs, l + 1, n)
  }

  /** A directory: whole blocks, all well formed. */
  ghost predicate DirOk(d: Disk, x: Inode) {
    x.IsDir() && x.Size() % 1024 == 0 && DirBlocksOk(d, x.block, x.Size() / 1024)
  }

  ghost function Listing(d: Disk, x: Inode): seq<DirEntry> {
    DirList(d, x.block, 0, x.Size() / 1024)
  }

  /** read_dir_entries leaves out entries with an empty name. */
  function Visible(es: seq<DirEntry>): seq<DirEntry> {
    if es == [] then [] else (if es[0].name != [] then [es[0]] else []) + Visible(es[1..])
  }

  lemma {:induction false} VisibleJoin(xs: seq<DirEntry>, ys: seq<DirEntry>)
    ensures Visible(xs + ys) == Visible(xs) + Visible(ys)
  {
    if xs == [] {
      assert xs + ys == ys;
    } else {
      assert (xs + ys)[1..] == xs[1..] + ys;
      VisibleJoin(xs[1..], ys);
    }
  }

  /** When all names are non-empty, nothing is left out. */
  lemma {:induction false} VisibleAll(es: seq<DirEntry>)
    requires forall e :: e in es ==> e.name != []
    ensures Visible(es) == es
  {
    if es != [] { VisibleAll(es[1..]); }
  }

  lemma {:induction false} DirListSplit(d: Disk, ptrs: Pointers, l: nat, m: nat, n: nat)
    requires l <= m <= n
    ensures DirList(d, ptrs, l, n) == DirList(d, ptrs, l, m) + DirList(d, ptrs, m, n)
    decreases m - l
  {
    if l < m { DirListSplit(d, ptrs, l + 1, m, n); }
  }

  /** Blocks `l` to `n` of the directory are the same in both states. */
  ghost predicate BlocksSame(d: Disk, ptrs: Pointers, d': Disk, ptrs': Pointers, l: nat, n: nat)
    requires n <= MAX_BLOCKS
  {
    forall m :: l <= m < n ==> BlockSame(d, ptrs, d', ptrs', m)
  }

  predicate BlockSame(d: Disk, ptrs: Pointers, d': Disk, ptrs': Pointers, m: nat)
    requires m < MAX_BLOCKS
  {
    var b := Ptr(d, ptrs, PathOf(m));
    Ptr(d', ptrs', PathOf(m)) == b && (b != 0 ==> (b in d <==> b in d') && (b in d ==> d'[b] == d[b]))
  }

  lemma {:induction false} DirListFrame(d: Disk, ptrs: Pointers, d': Disk, ptrs': Pointers, l: nat, n: nat)
    requires l <= n <= MAX_BLOCKS && BlocksSame(d, ptrs, d', ptrs', l, n)
    ensures DirList(d', ptrs', l, n) == DirList(d, ptrs, l, n)
    decreases n - l
  {
    if l < n {
      assert BlockSame(d, ptrs, d', ptrs', l);
      DirListFrame(d, ptrs, d', ptrs', l + 1, n);
    }
  }

  /** Only block `l` differs between the two states of a directory of `n` blocks. */
  ghost predicate OneBlockDiffers(d: Disk, ptrs: Pointers, d': Disk, ptrs': Pointers, l: nat, n: nat)
    requires n <= MAX_BLOCKS
  {
    forall m :: 0 <= m < n && m != l ==> BlockSame(d, ptrs, d', ptrs', m)
  }

  lemma DirListParts(d: Disk, ptrs: Pointers, l: nat, n: nat)
    requires l < n
    ensures DirList(d, ptrs, 0, n) == DirList(d, ptrs, 0, l) + BlockList(d, ptrs, l) + DirList(d, ptrs, l + 1, n)
  {
    DirListSplit(d, ptrs, 0, l, n);
  }

  lemma DirBlocksAfter(d: Disk, ptrs: Pointers, d': Disk, ptrs': Pointers, l: nat, n: nat)
    requires l < n && DirBlocksOk(d, ptrs, n) && OneBlockDiffers(d, ptrs, d', ptrs', l, n) && DirBlockOk(d', ptrs', l)
    ensures DirBlocksOk(d', ptrs', n)
  {
    forall m | 0 <= m < n ensures DirBlockOk(d', ptrs', m) {
      if m != l { assert BlockSame(d, ptrs, d', ptrs', m) && DirBlockOk(d, ptrs, m); }
    }
  }

  /** The listing when one block changes. */
  lemma DirListAfter(d: Disk, ptrs: Pointers, d': Disk, ptrs': Pointers, l: nat, n: nat)
    requires l < n <= MAX_BLOCKS && OneBlockDiffers(d, ptrs, d', ptrs', l, n)
    ensures DirList(d', ptrs', 0, n) == DirList(d, ptrs, 0, l) + BlockList(d', ptrs', l) + DirList(d, ptrs, l + 1, n)
  {
    DirListParts(d', ptrs', l, n);
    DirListFrame(d, ptrs, d', ptrs', 0, l);
    DirListFrame(d, ptrs, d', ptrs', l + 1, n);
  }

  /** Inserting into one block inserts into the listing. */
  lemma InsertInMiddle(xs: seq<DirEntry>, ys: seq<DirEntry>, zs: seq<DirEntry>, pos: nat, e: DirEntry)
    requires pos <= |ys|
    ensures xs + InsertAt(ys, pos, e) + zs == InsertAt(xs + ys + zs, |xs| + pos, e)
  {
  }

  lemma RemoveInMiddle(xs: seq<DirEntry>, ys: seq<DirEntry>, zs: seq<DirEntry>, pos: nat)
    requires pos < |ys|
    ensures xs + RemoveAt(ys, pos) + zs == RemoveAt(xs + ys + zs, |xs| + pos) && (xs + ys + zs)[|xs| + pos] == ys[pos]
  {
  }

  /** Entry `i` is the first one called `name`. */
  predicate FirstCalled(es: seq<DirEntry>, i: nat, name: seq<byte>) {
    i < |es| && es[i].name == name && forall j :: 0 <= j < i ==> es[j].name != name
  }

  /** The first entry of that name in the middle part is the first in the whole, if the front part has none. */
  lemma FirstInMiddle(xs: seq<DirEntry>, ys: seq<DirEntry>, zs: seq<DirEntry>, at: nat, name: seq<byte>)
    requires FirstCalled(ys, at, name) && forall e :: e in xs ==> e.name != name
    ensures FirstCalled(xs + ys + zs, |xs| + at, name)
  {
    forall j | 0 <= j < |xs| + at ensures (xs + ys + zs)[j].name != name {
      if j < |xs| { assert (xs + ys + zs)[j] == xs[j]; } else { assert (xs + ys + zs)[j] == ys[j - |xs|]; }
    }
  }

  /** Rewriting the contents of the mapped block `l`: how the listing changes. */
  lemma RewriteListing(d: Disk, ptrs: Pointers, d': Disk, l: nat, n: nat, data: Block)
    requires Ext2Tree.Distinct(d, ptrs) && l < n && DirBlocksOk(d, ptrs, n) && Ptr(d, ptrs, PathOf(l)) != 0
    requires Tiles(data)
    requires d' == d[Ptr(d, ptrs, PathOf(l)) := data] && forall p :: Valid(p) ==> Ptr(d', ptrs, p) == Ptr(d, ptrs, p)
    ensures DirBlocksOk(d', ptrs, n)
    ensures DirList(d, ptrs, 0, n) == DirList(d, ptrs, 0, l) + BlockList(d, ptrs, l) + DirList(d, ptrs, l + 1, n)
    ensures DirList(d', ptrs, 0, n) == DirList(d, ptrs, 0, l) + Live(Records(data)) + DirList(d, ptrs, l + 1, n)
  {
    PathOfLeaf(l);
    forall m | 0 <= m < n && m != l ensures BlockSame(d, ptrs, d', ptrs, m) {
      PathOfLeaf(m);
      if PathOf(m) == PathOf(l) { PathOfInjective(m, l); }
      assert DirBlockOk(d, ptrs, m);
    }
    DirBlocksAfter(d, ptrs, d', ptrs, l, n);
    DirListParts(d, ptrs, l, n);
    DirListAfter(d, ptrs, d', ptrs, l, n);
  }

  /** Rewriting a data block of the directory touches nothing else. */
  lemma RewriteExtends(geo: Geometry, d: Disk, ptrs: Pointers, l: nat, data: Block)
    requires DiskOk(geo, d) && TreeOk(geo, d, ptrs) && l < MAX_BLOCKS && Ptr(d, ptrs, PathOf(l)) != 0
    ensures Extended(geo, d, ptrs, d[Ptr(d, ptrs, PathOf(l)) := data], ptrs)
    ensures forall p :: Valid(p) ==> Ptr(d[Ptr(d, ptrs, PathOf(l)) := data], ptrs, p) == Ptr(d, ptrs, p)
  {
    PathOfLeaf(l);
    ExtendedRefl(geo, d, ptrs);
    ExtendByData(geo, d, ptrs, d, ptrs, PathOf(l), data);
  }

  /** The inner loop of read_dir_entries over one block. */
  method ParseBlock(b: Block, start: nat, fileSize: nat, ghost rs: seq<Rec>) returns (es: seq<DirEntry>, bytesRead: nat)
    requires Laid(b, 0, rs, 1024) && start + 1024 <= fileSize
    ensures es == Visible(Live(rs)) && bytesRead == start + 1024
  {
    var o := 0;
    bytesRead, es := start, [];
    ghost var pre, post := [], rs;
    while o + 8 <= 1024 && bytesRead < fileSize
      invariant At(b, pre, o, post) && rs == pre + post
      invariant bytesRead == start + o && es == Visible(Live(pre))
      decreases 1024 - o
    {
      var e, recLen := ParseRecord(b, o, post);
      if recLen == 0 { break; }
      VisibleNext(pre, post[0]);
      es := es + e;
      StepPast(b, pre, o, post);
      o, bytesRead := o + recLen, bytesRead + recLen;
      pre, post := pre + [post[0]], post[1..];
    }
    EndOfBlock(b, o, post);
    assert pre + post == pre;
  }

  /** The entry of the record at `o`, if it is in use and has a name. */
  method ParseRecord(b: Block, o: nat, ghost post: seq<Rec>) returns (e: seq<DirEntry>, recLen: u16)
    requires Laid(b, o, post, 1024) && o + 8 <= 1024
    ensures post != [] && RecAt(b, o, post[0]) && recLen == post[0].len >= 8
    ensures e == Visible(Live([post[0]]))
  {
    RecordHere(b, o, post);
    var ino, n := GetU32(b, o), b[o + 6];
    recLen, e := GetU16(b, o + 4), [];
    if ino != 0 && n > 0 {
      if o + 8 + n <= 1024 { e := [DirEntry(ino, b[o + 7], b[o + 8..o + 8 + n])]; }
    }
  }

  lemma VisibleNext(rs: seq<Rec>, r: Rec)
    ensures Visible(Live(rs + [r])) == Visible(Live(rs)) + Visible(Live([r]))
  {
    LiveJoin(rs, [r]);
    VisibleJoin(Live(rs), Live([r]));
  }

  // ---- Growing by a block -------------------------------------------------

  /** The contents of a new directory block: one record for the whole block. */
  function NewDirBlock(e: DirEntry): Block
    requires |e.name| <= 255
  {
    PutRecord(ZeroBlock(), 0, Rec(e.ino, 1024, e.fileType, e.name))
  }

  lemma NewDirBlockList(e: DirEntry)
    requires |e.name| <= 255 && e.ino != 0
    ensures Tiles(NewDirBlock(e)) && Live(Records(NewDirBlock(e))) == [e]
  {
    var r := Rec(e.ino, 1024, e.fileType, e.name);
    PutRecordAt(ZeroBlock(), 0, r);
    LaidOne(NewDirBlock(e), 0, r);
    RecordsAre(NewDirBlock(e), [r]);
  }

  /** Linking a filled block behind the last one appends its entry to the listing. */
  lemma GrowListing(geo: Geometry, d: Disk, ptrs: Pointers, d1: Disk, d2: Disk, p2: Pointers, n: nat, v: u32,
                    news: set<nat>, e: DirEntry)
    requires TreeOk(geo, d, ptrs) && n < MAX_BLOCKS && DirBlocksOk(d, ptrs, n) && |e.name| <= 255 && e.ino != 0
    requires Prepared(geo, d, ptrs, d1, v) && v in d1 && d1[v] == NewDirBlock(e)
    requires Mapped(geo, d1, ptrs, d2, p2, PathOf(n), v, news)
    ensures DirBlocksOk(d2, p2, n + 1) && DirList(d2, p2, 0, n + 1) == DirList(d, ptrs, 0, n) + [e]
  {
    GrowBlocksSame(geo, d, ptrs, d1, d2, p2, n, v, news);
    NewBlockKept(geo, d1, ptrs, d2, v);
    NewDirBlockList(e);
    assert Ptr(d2, p2, PathOf(n)) == v && v != 0;
    GrowList(d, ptrs, d2, p2, n, e);
  }

  lemma GrowList(d: Disk, ptrs: Pointers, d2: Disk, p2: Pointers, n: nat, e: DirEntry)
    requires n < MAX_BLOCKS && DirBlocksOk(d, ptrs, n) && BlocksSame(d, ptrs, d2, p2, 0, n)
    requires DirBlockOk(d2, p2, n) && BlockList(d2, p2, n) == [e]
    ensures DirBlocksOk(d2, p2, n + 1) && DirList(d2, p2, 0, n + 1) == DirList(d, ptrs, 0, n) + [e]
  {
    forall m | 0 <= m < n + 1 ensures DirBlockOk(d2, p2, m) {
      if m < n { assert BlockSame(d, ptrs, d2, p2, m) && DirBlockOk(d, ptrs, m); }
    }
    DirListSplit(d2, p2, 0, n, n + 1);
    DirListFrame(d, ptrs, d2, p2, 0, n);
    assert DirList(d2, p2, n, n + 1) == BlockList(d2, p2, n);
  }

  lemma GrowBlocksSame(geo: Geometry, d: Disk, ptrs: Pointers, d1: Disk, d2: Disk, p2: Pointers, n: nat, v: u32,
                       news: set<nat>)
    requires TreeOk(geo, d, ptrs) && n < MAX_BLOCKS && Prepared(geo, d, ptrs, d1, v)
    requires Mapped(geo, d1, ptrs, d2, p2, PathOf(n), v, news)
    ensures BlocksSame(d, ptrs, d2, p2, 0, n)
  {
    forall m | 0 <= m < n ensures BlockSame(d, ptrs, d2, p2, m) {
      BlockElsewhere(geo, d, ptrs, d1, d2, p2, n, v, news, m);
    }
  }

  /** Linking a block keeps what was written into it before. */
  lemma NewBlockKept(geo: Geometry, d1: Disk, ptrs: Pointers, d2: Disk, v: nat)
    requires Owned(geo, d1, v) && !InTree(d1, ptrs, v) && v in d1 && KeptSame(geo, d1, ptrs, d2)
    ensures v != 0 && v in d2 && d2[v] == d1[v]
  {
    assert geo.Addressable(v);
    assert Kept(geo, d1, ptrs, v);
  }

  /** Rewriting a block of the inode tables leaves the listing alone. */
  lemma ListingAfterInode(geo: Geometry, d: Disk, ptrs: Pointers, n: nat, x: nat, data: Block)
    requires TreeOk(geo, d, ptrs) && DirBlocksOk(d, ptrs, n) && geo.IsInodeArea(x) && x in d
    ensures DirBlocksOk(d[x := data], ptrs, n) && DirList(d[x := data], ptrs, 0, n) == DirList(d, ptrs, 0, n)
  {
    var d' := d[x := data];
    forall m | 0 <= m < n ensures BlockSame(d, ptrs, d', ptrs, m) && DirBlockOk(d', ptrs, m) {
      PathOfLeaf(m);
      PtrFrame(d, ptrs, d', PathOf(m));
      assert DirBlockOk(d, ptrs, m);
      var b := Ptr(d, ptrs, PathOf(m));
      assert b != 0 ==> Owned(geo, d, b);
    }
    DirListFrame(d, ptrs, d', ptrs, 0, n);
  }
}
