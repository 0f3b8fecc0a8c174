/** Mapping, unmapping and protecting pages in place, with reclaim of empty tables (kernel/src/memory/pagetable.rs). */
module PageTables {
  import opened Bytes
  import opened PageTree
  import opened FrameAlloc

  const USER_SPACE_MAX: nat := 0x8000_0000_0000

  datatype Outcome = Done | OutOfMemory | NotMapped | AlreadyMapped | InvalidAddress

  /** The flags of a mapping: PRESENT, HUGE_PAGE and the other bits. */
  datatype Flags = Flags(present: bool, huge: bool, bits: nat)

  /** PRESENT | WRITABLE | USER_ACCESSIBLE, the flags of intermediate tables. */
  const TABLE_BITS: nat := 0x6

  /** Frame `j` of the allocator's region holds a table of the tree. */
  ghost predicate IsTableFrame(t: Tables, root: nat, start: nat, frames: nat, j: nat) {
    j < frames && InTree(t, root, start + 0x1000 * j)
  }

  /** The allocated frames are the table frames and `others`, which do not overlap. */
  ghost predicate Accounted(t: Tables, root: nat, start: nat, frames: nat, used: set<nat>, others: set<nat>) {
    forall j: nat ::
      (j in used <==> j in others || IsTableFrame(t, root, start, frames, j))
      && !(j in others && IsTableFrame(t, root, start, frames, j))
  }

  ghost predicate Aligned(t: Tables, root: nat) {
    forall p :: IsTable(p) && TableAt(t, root, p).Some? ==> TableAt(t, root, p).value % 0x1000 == 0
  }

  /** Bit 7 is reserved in P4 entries. */
  ghost predicate TopNotHuge(t: Tables, root: nat) {
    forall j: nat :: j < PT_ENTRIES ==> !(EntryAt(t, root, Top, j).present && EntryAt(t, root, Top, j).huge)
  }

  /** A frame that is not in use holds no table. */
  lemma FreshFrame(t: Tables, root: nat, start: nat, frames: nat, used: set<nat>, others: set<nat>, i: nat)
    requires Accounted(t, root, start, frames, used, others) && i < frames && i !in used
    ensures !InTree(t, root, start + 0x1000 * i)
  {
    assert !IsTableFrame(t, root, start, frames, i);
  }

  lemma AccountedLink(t: Tables, t': Tables, root: nat, start: nat, frames: nat, used: set<nat>, others: set<nat>,
                      c: Path, i: nat)
    requires Accounted(t, root, start, frames, used, others) && i < frames && i !in used && IsTable(c)
    requires SameTablesBut(t, t', root, c) && TableAt(t, root, c) == None
    requires TableAt(t', root, c) == Some(start + 0x1000 * i)
    ensures Accounted(t', root, start, frames, used + {i}, others)
  {
    forall f: nat ensures InTree(t', root, f) <==> InTree(t, root, f) || f == start + 0x1000 * i {
      if InTree(t, root, f) {
        var p :| IsTable(p) && TableAt(t, root, p) == Some(f);
        assert TableAt(t', root, p) == Some(f);
      }
    }
    forall j: nat
      ensures IsTableFrame(t', root, start, frames, j) <==> IsTableFrame(t, root, start, frames, j) || j == i
    {
    }
  }

  lemma AccountedUnlink(t: Tables, t': Tables, root: nat, start: nat, frames: nat, used: set<nat>, used': set<nat>,
                        others: set<nat>, c: Path)
    requires TreeOk(t, root) && Accounted(t, root, start, frames, used, others) && IsTable(c)
    requires SameTablesBut(t, t', root, c) && TableAt(t, root, c).Some? && TableAt(t', root, c) == None
    requires forall j: nat :: j in used' <==>
      j in used && !(j < frames && start + 0x1000 * j == TableAt(t, root, c).value)
    ensures Accounted(t', root, start, frames, used', others)
  {
    var f0 := TableAt(t, root, c).value;
    forall f: nat ensures InTree(t', root, f) <==> InTree(t, root, f) && f != f0 {
      if InTree(t, root, f) && f != f0 {
        var p :| IsTable(p) && TableAt(t, root, p) == Some(f);
        assert TableAt(t', root, p) == Some(f);
      }
      if InTree(t', root, f) {
        var p :| IsTable(p) && TableAt(t', root, p) == Some(f);
        assert p != c && TableAt(t, root, p) == Some(f);
      }
    }
    assert InTree(t, root, f0);
    forall j: nat
      ensures IsTableFrame(t', root, start, frames, j) <==>
        IsTableFrame(t, root, start, frames, j) && start + 0x1000 * j != f0
    {
    }
  }

  class PageTable {
    const root: nat
    const fa: FrameAllocator
    var tables: Tables
    /** Allocated frames that hold no table of this tree. */
    ghost var others: set<nat>

    ghost predicate Valid()
      reads this, fa, fa.bitmap
    {
      && TreeOk(tables, root) && Aligned(tables, root) && TopNotHuge(tables, root)
      && fa.Valid() && fa.initialized
      && Accounted(tables, root, fa.start, fa.Frames(), fa.Used(), others)
    }

    constructor (root: nat, fa: FrameAllocator, tables: Tables, ghost others: set<nat>)
      requires TreeOk(tables, root) && Aligned(tables, root) && TopNotHuge(tables, root) && fa.Valid() && fa.initialized
      requires Accounted(tables, root, fa.start, fa.Frames(), fa.Used(), others)
      ensures Valid() && this.root == root && this.fa == fa && this.tables == tables && this.others == others
    {
      this.root, this.fa, this.tables, this.others := root, fa, tables, others;
    }

    /** "Walk or create": the table behind entry `i` of the table at `q`, which lies in frame `f`. */
    method WalkOrCreate(f: nat, i: nat, ghost q: Path) returns (r: Option<nat>)
      requires Valid() && IsTable(q) && Level(q) >= 2 && i < PT_ENTRIES && TableAt(tables, root, q) == Some(f)
      requires !(EntryAt(tables, root, q, i).present && EntryAt(tables, root, q, i).huge)
      modifies this`tables, fa.bitmap
      ensures Valid() && KeepsEntries(old(tables), tables, root) && MapsAlike(old(tables), tables, root)
      ensures SameTablesBut(old(tables), tables, root, Sub(q, i)) && SameEntriesBut(old(tables), tables, root, q, i)
      ensures r.Some? ==> TableAt(tables, root, Sub(q, i)) == r && EntryAt(tables, root, q, i).present
      ensures r.None? ==> tables == old(tables) && !EntryAt(tables, root, q, i).present
      ensures r.None? <==> old(TableAt(tables, root, Sub(q, i))).None? && |old(fa.Used())| == fa.Frames()
      ensures Stepped(old(tables), tables, root, Sub(q, i), |old(fa.Used())|, |fa.Used()|)
      ensures tables == old(tables) ==> fa.bitmap[..] == old(fa.bitmap[..])
    {
      var e := tables[f][i];
      if e.present {
        AlikeRefl(tables, root);
        return Some(e.addr);
      }
      r := CreateTable(f, i, q);
    }

    /** Allocate, link and clear a table at the absent entry `i` of the table at `q`. */
    method CreateTable(f: nat, i: nat, ghost q: Path) returns (r: Option<nat>)
      requires Valid() && IsTable(q) && Level(q) >= 2 && i < PT_ENTRIES && TableAt(tables, root, q) == Some(f)
      requires !EntryAt(tables, root, q, i).present
      modifies this`tables, fa.bitmap
      ensures Valid() && Linked(old(tables), tables, root, q, i, r)
      ensures r.None? <==> |old(fa.Used())| == fa.Frames()
      ensures r.None? ==> fa.bitmap[..] == old(fa.bitmap[..])
      ensures r.Some? ==> |fa.Used()| == |old(fa.Used())| + 1
    {
      AlikeRefl(tables, root);
      ghost var k;
      r, k := TakeTableFrame();
      if r.None? { return; }
      var n := r.value;
      tables := WithEntry(tables, f, i, Entry(n, true, false, TABLE_BITS))[n := EmptyTable()];
      NewLinked(old(tables), tables, root, q, i, f, n);
      AccountedLink(old(tables), tables, root, fa.start, fa.Frames(), old(fa.Used()), others, Sub(q, i), k);
    }

    /** A frame for a new table, which is not a table of the tree. */
    method TakeTableFrame() returns (r: Option<nat>, ghost k: nat)
      requires Valid()
      modifies fa.bitmap
      ensures r.None? <==> |old(fa.Used())| == fa.Frames()
      ensures r.None? ==> fa.bitmap[..] == old(fa.bitmap[..])
      ensures r.Some? ==>
        k < fa.Frames() && k !in old(fa.Used()) && r.value == fa.start + 0x1000 * k && r.value % 0x1000 == 0
      ensures r.Some? ==>
        fa.Used() == old(fa.Used()) + {k} && |fa.Used()| == |old(fa.Used())| + 1 && !InTree(tables, root, r.value)
    {
      k := 0;
      r := fa.AllocFrame();
      if r.Some? {
        k := fa.IndexOf(r.value);
        FreshFrame(tables, root, fa.start, fa.Frames(), old(fa.Used()), others, k);
      }
    }

    /** One level of map_page's walk, relative to the tables `t0` and the `n0` allocated frames at its start. */
    method WalkDown(f: nat, i: nat, ghost q: Path, ghost t0: Tables, ghost n0: nat) returns (r: Option<nat>)
      requires Valid() && IsTable(q) && Level(q) >= 2 && i < PT_ENTRIES && TableAt(tables, root, q) == Some(f)
      requires !(EntryAt(tables, root, q, i).present && EntryAt(tables, root, q, i).huge) && Grown(t0, tables, root, q)
      requires Made(t0, tables, root, q, n0, |fa.Used()|)
      modifies this`tables, fa.bitmap
      ensures Valid() && Grown(t0, tables, root, Sub(q, i))
      ensures (tables == old(tables) ==> fa.bitmap[..] == old(fa.bitmap[..]))
      ensures r.Some? ==> TableAt(tables, root, Sub(q, i)) == r && Made(t0, tables, root, Sub(q, i), n0, |fa.Used()|)
      ensures r.None? ==> TableAt(t0, root, Sub(q, i)) == None && Stuck(t0, tables, root, n0, fa.Frames())
      ensures r.None? ==> |fa.Used()| == fa.Frames() == n0 + MissingTo(t0, root, q)
    {
      ghost var t := tables;
      r := WalkOrCreate(f, i, q);
      AlikeTrans(t0, t, tables, root);
      KeptTrans(t0, t, tables, root);
      if NoEmpty(t0, root) && r.Some? { LinkKeepsFull(t, tables, root, q, i); }
      if r.None? {
        NotYetThere(t0, t, root, q, i);
        MadeStuck(t0, t, root, q, n0, fa.Frames());
      } else {
        MadeStep(t0, t, tables, root, q, i, n0, |old(fa.Used())|, |fa.Used()|);
      }
    }

    /** The walk of map_page down to the P1 table, creating missing tables. */
    method WalkToP1(virt: nat) returns (o: Outcome, l1: nat)
      requires Valid()
      requires !(EntryAt(tables, root, P3(virt), I3(virt)).present && EntryAt(tables, root, P3(virt), I3(virt)).huge)
      modifies this`tables, fa.bitmap
      ensures Valid() && KeepsEntries(old(tables), tables, root) && MapsAlike(old(tables), tables, root)
      ensures o in {Done, OutOfMemory, InvalidAddress} && (o == Done ==> TableAt(tables, root, P1(virt)) == Some(l1))
      ensures o == Done && NoEmpty(old(tables), root) ==> NoEmptyBut(tables, root, P1(virt))
      ensures o == Done && MissingTo(old(tables), root, P1(virt)) > 0 ==> EmptyAt(tables, root, P1(virt))
      ensures o == InvalidAddress <==>
        old(EntryAt(tables, root, P2(virt), I2(virt))).present && old(EntryAt(tables, root, P2(virt), I2(virt))).huge
      ensures o == OutOfMemory <==>
        o != InvalidAddress && |old(fa.Used())| + MissingTo(old(tables), root, P1(virt)) > fa.Frames()
      ensures o == OutOfMemory ==>
        |fa.Used()| == fa.Frames() && Stuck(old(tables), tables, root, |old(fa.Used())|, fa.Frames())
      ensures o == InvalidAddress || MissingTo(old(tables), root, P1(virt)) == 0 ==>
        tables == old(tables) && fa.bitmap[..] == old(fa.bitmap[..])
    {
      PathsValid(virt);
      ghost var t0, n0 := tables, |fa.Used()|;
      UsedCount();
      var l3 := WalkDown(root, I4(virt), Top, t0, n0);
      if l3.None? {
        MissingP3(t0, root, virt);
        MissingCount(t0, root, virt);
        return OutOfMemory, 0;
      }
      HugeAgrees(t0, tables, root, P3(virt), I3(virt));
      var l2 := WalkDown(l3.value, I3(virt), P3(virt), t0, n0);
      if l2.None? {
        MissingP2(t0, root, virt);
        MissingCount(t0, root, virt);
        return OutOfMemory, 0;
      }
      HugeAgrees(t0, tables, root, P2(virt), I2(virt));
      MissingCount(t0, root, virt);
      if tables[l2.value][I2(virt)].present && tables[l2.value][I2(virt)].huge {
        HugeIsThere(t0, root, virt);
        return InvalidAddress, 0;
      }
      var t := WalkDown(l2.value, I2(virt), P2(virt), t0, n0);
      if t.None? { return OutOfMemory, 0; }
      UsedCount();
      return Done, t.value;
    }

    lemma UsedCount()
      requires Valid()
      ensures |fa.Used()| <= fa.Frames()
    {
      FullCount(fa.Used(), fa.Frames());
    }

    /**
     * map_page: on success exactly that page translates anew, if the flags include PRESENT; on every error all
     * translations are as before.
     */
    method MapPage(virt: nat, phys: nat, flags: Flags) returns (o: Outcome)
      requires Valid()
      requires !(EntryAt(tables, root, P3(virt), I3(virt)).present && EntryAt(tables, root, P3(virt), I3(virt)).huge)
      modifies this`tables, fa.bitmap
      ensures Valid() && KeepsEntries(old(tables), tables, root)
      ensures o == Done ==> MapsAlikeBut(old(tables), tables, root, P1(virt), I1(virt))
      ensures o == Done ==> !old(EntryAt(tables, root, P1(virt), I1(virt))).present
      ensures o == Done ==> virt % 0x1000 == 0
      ensures o == Done ==>
        EntryAt(tables, root, P1(virt), I1(virt)) == Entry(phys, flags.present, flags.huge, flags.bits)
      ensures o == Done ==> forall w: nat ::
        Translate(tables, root, w) ==
          if SamePage(virt, w) && flags.present then Some(phys + w % 0x1000) else Translate(old(tables), root, w)
      ensures o != Done ==> MapsAlike(old(tables), tables, root)
      ensures o != Done ==> forall w: nat :: Translate(tables, root, w) == Translate(old(tables), root, w)
      ensures o == Done && NoEmpty(old(tables), root) ==>
        (NoEmpty(tables, root) <==> flags.present || MissingTo(old(tables), root, P1(virt)) == 0)
      ensures o != NotMapped
      ensures (o == InvalidAddress <==> virt % 0x1000 != 0 || phys % 0x1000 != 0 || old(HugeOnWay(tables, root, virt)))
      ensures o == AlreadyMapped <==> o != InvalidAddress && old(EntryAt(tables, root, P1(virt), I1(virt))).present
      ensures o == OutOfMemory <==>
        o != InvalidAddress && |old(fa.Used())| + MissingTo(old(tables), root, P1(virt)) > fa.Frames()
      ensures o in {AlreadyMapped, InvalidAddress} ==> tables == old(tables) && fa.bitmap[..] == old(fa.bitmap[..])
      ensures o == OutOfMemory ==> forall j: nat :: j in fa.Used() <==> j < fa.Frames()
      ensures o == OutOfMemory ==>
        (tables == old(tables) <==> forall j: nat :: j in old(fa.Used()) <==> j < fa.Frames())
      ensures o == OutOfMemory && NoEmpty(old(tables), root) ==>
        (NoEmpty(tables, root) <==> forall j: nat :: j in old(fa.Used()) <==> j < fa.Frames())
    {
      PathsValid(virt);
      AlikeRefl(tables, root);
      AllAlike(tables, tables, root);
      FullCount(fa.Used(), fa.Frames());
      if virt % 0x1000 != 0 || phys % 0x1000 != 0 { return InvalidAddress; }
      var l1;
      o, l1 := WalkToP1(virt);
      ghost var t := tables;
      AllAlike(old(tables), t, root);
      FullCount(fa.Used(), fa.Frames());
      if EntryAt(old(tables), root, P1(virt), I1(virt)).present { PresentIsThere(old(tables), root, virt); }
      if o != Done { return; }
      PageAgrees(old(tables), t, root, virt);
      if tables[l1][I1(virt)].present { return AlreadyMapped; }
      StorePage(virt, l1, Entry(phys, flags.present, flags.huge, flags.bits), old(tables));
      KeptTrans(old(tables), t, tables, root);
      StoredPage(old(tables), t, tables, root, virt, phys);
      StoredEmpty(old(tables), t, tables, root, virt);
    }

    /** Write the P1 entry of `virt`; `t0` are the tables before the walk. */
    method StorePage(virt: nat, l1: nat, e: Entry, ghost t0: Tables)
      requires Valid() && MapsAlike(t0, tables, root) && TableAt(tables, root, P1(virt)) == Some(l1) && l1 in tables
      modifies this`tables
      ensures Valid() && tables == WithEntry(old(tables), l1, I1(virt), e)
      ensures forall p :: IsTable(p) ==> TableAt(tables, root, p) == TableAt(old(tables), root, p)
      ensures EntryAt(tables, root, P1(virt), I1(virt)) == e && MapsAlikeBut(t0, tables, root, P1(virt), I1(virt))
      ensures NoEmptyBut(old(tables), root, P1(virt)) && e.present ==> NoEmpty(tables, root)
      ensures !old(EntryAt(tables, root, P1(virt), I1(virt))).present ==> KeepsEntries(old(tables), tables, root)
      ensures SameEntriesBut(old(tables), tables, root, P1(virt), I1(virt))
    {
      PathsValid(virt);
      tables := WithEntry(tables, l1, I1(virt), e);
      PageSet(t0, old(tables), root, virt, e, tables, l1);
      AccountedSame(old(tables), tables, root, fa.start, fa.Frames(), fa.Used(), others);
    }

    /** The walk shared by unmap_page and protect_page: the tables on the way to a mapped page. */
    method WalkExisting(virt: nat) returns (o: Outcome, l3: nat, l2: nat, l1: nat)
      requires Valid()
      ensures o in {Done, NotMapped, InvalidAddress}
      ensures o == Done ==> TableAt(tables, root, P3(virt)) == Some(l3) && TableAt(tables, root, P2(virt)) == Some(l2)
      ensures o == Done ==>
        TableAt(tables, root, P1(virt)) == Some(l1) && EntryAt(tables, root, P1(virt), I1(virt)).present
      ensures o == NotMapped ==> Translate(tables, root, virt) == None
      ensures o == InvalidAddress <==> HugeOnWay(tables, root, virt)
      ensures o != Done ==> !EntryAt(tables, root, P1(virt), I1(virt)).present
    {
      PathsValid(virt);
      l3, l2, l1 := 0, 0, 0;
      assert TableAt(tables, root, Top) == Some(root);
      if !tables[root][I4(virt)].present {
        MissingP3(tables, root, virt);
        return NotMapped, 0, 0, 0;
      }
      l3 := tables[root][I4(virt)].addr;
      assert TableAt(tables, root, P3(virt)) == Some(l3);
      if !tables[l3][I3(virt)].present {
        MissingP2(tables, root, virt);
        return NotMapped, 0, 0, 0;
      }
      if tables[l3][I3(virt)].huge {
        MissingP2(tables, root, virt);
        return InvalidAddress, 0, 0, 0;
      }
      l2 := tables[l3][I3(virt)].addr;
      assert TableAt(tables, root, P2(virt)) == Some(l2);
      if !tables[l2][I2(virt)].present { return NotMapped, 0, 0, 0; }
      if tables[l2][I2(virt)].huge { return InvalidAddress, 0, 0, 0; }
      l1 := tables[l2][I2(virt)].addr;
      assert TableAt(tables, root, P1(virt)) == Some(l1);
      if !tables[l1][I1(virt)].present { return NotMapped, 0, 0, 0; }
      o := Done;
    }

    /** table_is_empty */
    static method TableIsEmpty(t: Table) returns (empty: bool)
      ensures empty <==> forall j :: 0 <= j < PT_ENTRIES ==> !t[j].present
    {
      for j := 0 to PT_ENTRIES
        invariant forall k :: 0 <= k < j ==> !t[k].present
      {
        if t[j].present { return false; }
      }
      empty := true;
    }

    /** If the table at entry `i` of `q` is empty, clear that entry and free its frame. */
    method Reclaim(parent: nat, i: nat, f: nat, ghost q: Path) returns (freed: bool)
      requires Valid() && IsTable(q) && Level(q) >= 2 && i < PT_ENTRIES
      requires TableAt(tables, root, q) == Some(parent) && TableAt(tables, root, Sub(q, i)) == Some(f)
      modifies this`tables, fa.bitmap
      ensures Valid() && KeepsEntries(tables, old(tables), root) && MapsAlike(old(tables), tables, root)
      ensures SameTablesBut(old(tables), tables, root, Sub(q, i))
      ensures freed <==> !NonEmpty(old(tables), root, Sub(q, i))
      ensures !freed ==> tables == old(tables)
      ensures freed && NoEmptyBut(old(tables), root, Sub(q, i)) ==> NoEmptyBut(tables, root, q)
    {
      AlikeRefl(tables, root);
      freed := TableIsEmpty(tables[f]);
      if !freed {
        var j: nat :| j < PT_ENTRIES && tables[f][j].present;
        assert EntryAt(tables, root, Sub(q, i), j).present;
        return;
      }
      assert forall j: nat :: j < PT_ENTRIES ==> EntryAt(tables, root, Sub(q, i), j) == tables[f][j];
      ghost var t, used := tables, fa.Used();
      tables := WithEntry(tables, parent, i, EMPTY);
      Unlinked(t, tables, root, q, i, parent);
      TableFrameUsed(t, root, fa.start, fa.end, used, others, Sub(q, i));
      fa.FreeFrame(f);
      AccountedFree(t, tables, root, fa.start, fa.end, used, fa.Used(), others, Sub(q, i), f);
    }

    /** unmap_page's way back up: free the P1 table if it is empty, then P2, then P3. */
    method ReclaimUp(virt: nat, l3: nat, l2: nat, l1: nat)
      requires Valid() && TableAt(tables, root, P3(virt)) == Some(l3)
      requires TableAt(tables, root, P2(virt)) == Some(l2) && TableAt(tables, root, P1(virt)) == Some(l1)
      modifies this`tables, fa.bitmap
      ensures Valid() && KeepsEntries(tables, old(tables), root) && MapsAlike(old(tables), tables, root)
      ensures NoEmptyBut(old(tables), root, P1(virt)) ==> NoEmpty(tables, root)
    {
      PathsValid(virt);
      ghost var t0 := tables;
      var freed := Reclaim(l2, I2(virt), l1, P2(virt));
      if !freed { return; }
      ghost var t1 := tables;
      freed := Reclaim(l3, I3(virt), l2, P3(virt));
      KeptTrans(tables, t1, t0, root);
      AlikeTrans(t0, t1, tables, root);
      if !freed { return; }
      ghost var t2 := tables;
      freed := Reclaim(root, I4(virt), l3, Top);
      KeptTrans(tables, t2, t0, root);
      AlikeTrans(t0, t2, tables, root);
    }

    /**
     * unmap_page: exactly that page stops translating; every error changes nothing. No empty table is left behind,
     * and each frame that is freed was in use.
     */
    method UnmapPage(virt: nat) returns (o: Outcome, phys: nat)
      requires Valid()
      modifies this`tables, fa.bitmap
      ensures Valid() && KeepsEntries(tables, old(tables), root)
      ensures o == Done <==> virt % 0x1000 == 0 && old(EntryAt(tables, root, P1(virt), I1(virt))).present
      ensures o == Done ==> phys == old(EntryAt(tables, root, P1(virt), I1(virt))).addr
      ensures o == Done ==> MapsAlikeBut(old(tables), tables, root, P1(virt), I1(virt))
      ensures o == Done ==> !EntryAt(tables, root, P1(virt), I1(virt)).present
      ensures o == Done ==> forall w: nat ::
        Translate(tables, root, w) == if SamePage(virt, w) then None else Translate(old(tables), root, w)
      ensures o == NotMapped ==> Translate(tables, root, virt) == None
      ensures o in {Done, NotMapped, InvalidAddress}
      ensures (o == InvalidAddress <==> virt % 0x1000 != 0 || old(HugeOnWay(tables, root, virt)))
      ensures o != Done ==> tables == old(tables) && fa.bitmap[..] == old(fa.bitmap[..])
      ensures NoEmpty(old(tables), root) ==> NoEmpty(tables, root)
    {
      phys := 0;
      if virt % 0x1000 != 0 { return InvalidAddress, 0; }
      var l3, l2, l1;
      o, l3, l2, l1 := WalkExisting(virt);
      if o != Done { return; }
      PathsValid(virt);
      phys := tables[l1][I1(virt)].addr;
      ghost var t0 := tables;
      AlikeRefl(t0, root);
      StorePage(virt, l1, EMPTY, t0);
      ghost var t1 := tables;
      PageCleared(t0, t1, root, virt, l1);
      ReclaimUp(virt, l3, l2, l1);
      KeptTrans(tables, t1, t0, root);
      AlikeButTrans(t0, t1, tables, root, P1(virt), I1(virt));
      PageAgrees(t1, tables, root, virt);
      UnmappedPage(t0, tables, root, virt);
    }

    /**
     * protect_page: the page keeps its frame and gets exactly the new flags. No translation changes if they include
     * PRESENT; otherwise the page stops translating, and its table may be left empty.
     */
    method ProtectPage(virt: nat, flags: Flags) returns (o: Outcome)
      requires Valid() && !HugeOnWay(tables, root, virt)
      modifies this`tables
      ensures Valid() && (o == Done <==> virt % 0x1000 == 0 && old(Translate(tables, root, virt)).Some?)
      ensures o == Done ==> forall w: nat ::
        Translate(tables, root, w) ==
          if SamePage(virt, w) && !flags.present then None else Translate(old(tables), root, w)
      ensures o == Done ==> MapsAlikeBut(old(tables), tables, root, P1(virt), I1(virt))
      ensures o == Done ==>
        EntryAt(tables, root, P1(virt), I1(virt)) == WithFlags(old(EntryAt(tables, root, P1(virt), I1(virt))), flags)
      ensures o != Done ==> tables == old(tables) && o == if virt % 0x1000 != 0 then InvalidAddress else NotMapped
      ensures o == Done && NoEmpty(old(tables), root) ==>
        (NoEmpty(tables, root) <==> flags.present || OtherPresent(old(tables), root, P1(virt), I1(virt)))
    {
      if virt % 0x1000 != 0 { return InvalidAddress; }
      var l3, l2, l1;
      o, l3, l2, l1 := WalkExisting(virt);
      if o != Done { return; }
      PathsValid(virt);
      ghost var t0 := tables;
      AlikeRefl(t0, root);
      var e := tables[l1][I1(virt)];
      StorePage(virt, l1, WithFlags(e, flags), t0);
      EmptiedBy(t0, tables, root, virt);
      Reflagged(t0, tables, root, virt, flags);
    }

    /** translate: the walk computes Translate. */
    method TranslateWalk(virt: nat) returns (r: Option<nat>)
      requires Valid()
      ensures r == Translate(tables, root, virt)
    {
      PathsValid(virt);
      assert TableAt(tables, root, Top) == Some(root);
      if !tables[root][I4(virt)].present {
        MissingP3(tables, root, virt);
        return None;
      }
      var l3 := tables[root][I4(virt)].addr;
      assert TableAt(tables, root, P3(virt)) == Some(l3);
      var e3 := tables[l3][I3(virt)];
      if !e3.present {
        MissingP2(tables, root, virt);
        return None;
      }
      if e3.huge { return Some(e3.addr + virt % 0x4000_0000); }
      assert TableAt(tables, root, P2(virt)) == Some(e3.addr);
      var e2 := tables[e3.addr][I2(virt)];
      if !e2.present { return None; }
      if e2.huge { return Some(e2.addr + virt % 0x20_0000); }
      assert TableAt(tables, root, P1(virt)) == Some(e2.addr);
      var e1 := tables[e2.addr][I1(virt)];
      if !e1.present { return None; }
      return Some(e1.addr + virt % 0x1000);
    }

    /** find_free_range: the lowest run of unmapped pages at or above the hint, if there is one below USER_SPACE_MAX. */
    method FindFreeRange(hint: nat, count: nat) returns (r: Option<nat>)
      requires Valid() && hint + 0xFFF < 0x1_0000_0000_0000_0000
      ensures r.Some? ==> FreeRun(tables, root, PageUp(hint) / 0x1000, r.value / 0x1000, count) && r.value % 0x1000 == 0
      ensures r.Some? ==>
        forall s: nat :: FreeRun(tables, root, PageUp(hint) / 0x1000, s, count) ==> r.value / 0x1000 <= s
      ensures r.None? ==> forall s: nat :: !FreeRun(tables, root, PageUp(hint) / 0x1000, s, count)
    {
      ghost var lo := PageUp(hint) / 0x1000;
      var addr := (hint + PAGE_SIZE - 1) / PAGE_SIZE * PAGE_SIZE;
      var runStart, runLen := addr, 0;
      ghost var n, a := lo, lo;
      while addr < USER_SPACE_MAX
        invariant addr == 0x1000 * a && runLen == a - n && lo <= n <= a && (runLen > 0 ==> runStart == 0x1000 * n)
        invariant runLen > 0 ==> runLen < count
        invariant forall k: nat :: n <= k < a ==> FreePage(tables, root, k)
        invariant forall s: nat :: FreeRun(tables, root, lo, s, count) ==> s >= n
        decreases USER_SPACE_MAX - addr
      {
        var phys := TranslateWalk(addr);
        if phys.Some? {
          NoRunThrough(tables, root, lo, n, a, count);
          runLen := 0;
          addr := addr + PAGE_SIZE;
          runStart := addr;
          n, a := a + 1, a + 1;
        } else {
          if runLen == 0 { runStart := addr; }
          runLen := runLen + 1;
          assert FreePage(tables, root, a);
          if runLen >= count { return Some(runStart); }
          addr := addr + PAGE_SIZE;
          a := a + 1;
        }
      }
      NoRunAbove(tables, root, lo, n, a, count);
      return None;
    }

    /**
     * From a tree without empty tables, mapping a page and unmapping it again gives back the frame and restores
     * the whole tree and the set of allocated frames.
     */
    method MapThenUnmap(virt: nat, phys: nat, flags: Flags) returns (o: Outcome, back: nat)
      requires Valid() && flags.present && NoEmpty(tables, root)
      requires !(EntryAt(tables, root, P3(virt), I3(virt)).present && EntryAt(tables, root, P3(virt), I3(virt)).huge)
      modifies this`tables, fa.bitmap
      ensures Valid()
      ensures o == Done ==> back == phys && NoEmpty(tables, root) && fa.Used() == old(fa.Used())
      ensures o == Done ==> forall p, j: nat :: IsTable(p) && j < PT_ENTRIES ==>
        Same(EntryAt(old(tables), root, p, j), EntryAt(tables, root, p, j))
      ensures o == Done ==> forall p :: IsTable(p) ==> TableAt(tables, root, p) == TableAt(old(tables), root, p)
    {
      ghost var t0, used := tables, fa.Used();
      back := 0;
      o := MapPage(virt, phys, flags);
      if o != Done { return; }
      ghost var t1 := tables;
      var u;
      u, back := UnmapPage(virt);
      BackAgain(t0, t1, tables, root, virt);
      SameEntries(t0, tables, t1, root);
      SameUsed(t0, tables, root, fa.start, fa.Frames(), used, fa.Used(), others);
    }
  }

  /** Removing an empty table: what the trees before and after have in common. */
  lemma Unlinked(t: Tables, t': Tables, root: nat, q: Path, i: nat, parent: nat)
    requires TreeOk(t, root) && Aligned(t, root) && TopNotHuge(t, root) && IsTable(q) && Level(q) >= 2 && i < PT_ENTRIES
    requires TableAt(t, root, q) == Some(parent) && TableAt(t, root, Sub(q, i)).Some? && parent in t
    requires t' == WithEntry(t, parent, i, EMPTY)
    requires forall j: nat :: j < PT_ENTRIES ==> !EntryAt(t, root, Sub(q, i), j).present
    ensures TreeOk(t', root) && Aligned(t', root) && TopNotHuge(t', root)
    ensures SameTablesBut(t, t', root, Sub(q, i)) && TableAt(t', root, Sub(q, i)) == None
    ensures KeepsEntries(t', t, root) && MapsAlike(t, t', root)
    ensures NoEmptyBut(t, root, Sub(q, i)) ==> NoEmptyBut(t', root, q)
  {
    UnlinkTable(t, root, q, i);
    StepAlike(t, t', root, q, i);
    MeaningSym(t, t', root, q, i);
    KeptByStep(t', t, root, q, i);
    forall j: nat | j < PT_ENTRIES ensures !(EntryAt(t', root, Top, j).present && EntryAt(t', root, Top, j).huge) {
      if !(q == Top && j == i) { assert Same(EntryAt(t, root, Top, j), EntryAt(t', root, Top, j)); }
    }
    if NoEmptyBut(t, root, Sub(q, i)) { ClearLeavesOne(t, t', root, Sub(q, i), q, i); }
  }

  lemma MeaningSym(t: Tables, t': Tables, root: nat, q: Path, i: nat)
    requires SameMeaningBut(t, t', root, q, i)
    ensures SameMeaningBut(t', t, root, q, i)
  {
    forall p, j: nat | IsTable(p) && j < PT_ENTRIES && !(p == q && j == i)
      ensures Same(EntryAt(t', root, p, j), EntryAt(t, root, p, j))
    {
      assert Same(EntryAt(t, root, p, j), EntryAt(t', root, p, j));
    }
  }

  /** A huge entry on the walk to `v`; the source unwraps a table frame there, which fails. */
  predicate HugeOnWay(t: Tables, root: nat, v: nat) {
    || (EntryAt(t, root, P3(v), I3(v)).present && EntryAt(t, root, P3(v), I3(v)).huge)
    || (EntryAt(t, root, P2(v), I2(v)).present && EntryAt(t, root, P2(v), I2(v)).huge)
  }

  ghost predicate FreePage(t: Tables, root: nat, k: nat) {
    Translate(t, root, 0x1000 * k) == None
  }

  /** Pages s .. s + max(count, 1) are unmapped, from page `lo` on, and end below USER_SPACE_MAX. */
  ghost predicate FreeRun(t: Tables, root: nat, lo: nat, s: nat, count: nat) {
    && lo <= s && 0x1000 * s < USER_SPACE_MAX && 0x1000 * (s + count) <= USER_SPACE_MAX
    && forall k: nat :: s <= k < s + count || k == s ==> FreePage(t, root, k)
  }

  lemma NoRunThrough(t: Tables, root: nat, lo: nat, n: nat, a: nat, count: nat)
    requires n <= a && (n < a ==> a - n < count) && !FreePage(t, root, a)
    requires forall s: nat :: FreeRun(t, root, lo, s, count) ==> s >= n
    ensures forall s: nat :: FreeRun(t, root, lo, s, count) ==> s >= a + 1
  {
    forall s: nat | FreeRun(t, root, lo, s, count) ensures s >= a + 1 {
      assert s >= n;
    }
  }

  lemma NoRunAbove(t: Tables, root: nat, lo: nat, n: nat, a: nat, count: nat)
    requires n <= a && (n < a ==> a - n < count) && 0x1000 * a >= USER_SPACE_MAX
    requires forall s: nat :: FreeRun(t, root, lo, s, count) ==> s >= n
    ensures forall s: nat :: !FreeRun(t, root, lo, s, count)
  {
    forall s: nat ensures !FreeRun(t, root, lo, s, count) {
      assert FreeRun(t, root, lo, s, count) ==> s >= n;
    }
  }

  /** The page entry of `v` was cleared: its P1 table may now be empty, no other. */
  lemma PageCleared(t: Tables, t': Tables, root: nat, v: nat, l1: nat)
    requires TreeOk(t, root) && TableAt(t, root, P1(v)) == Some(l1) && l1 in t && t' == WithEntry(t, l1, I1(v), EMPTY)
    ensures KeepsEntries(t', t, root) && (NoEmpty(t, root) ==> NoEmptyBut(t', root, P1(v)))
  {
    PathsValid(v);
    SetPageEntry(t, root, P1(v), I1(v), EMPTY);
    assert SameMeaningBut(t', t, root, P1(v), I1(v));
    KeptByStep(t', t, root, P1(v), I1(v));
    if NoEmpty(t, root) {
      forall p | IsTable(p) && p != Top && p != P1(v) && TableAt(t', root, p).Some? ensures NonEmpty(t', root, p) {
        assert NonEmpty(t, root, p);
        var j: nat :| j < PT_ENTRIES && EntryAt(t, root, p, j).present;
        assert EntryAt(t', root, p, j) == EntryAt(t, root, p, j);
      }
    }
  }

  /** Another entry of the table at `c` than entry `i` is present. */
  ghost predicate OtherPresent(t: Tables, root: nat, c: Path, i: nat) {
    exists j: nat :: j < PT_ENTRIES && j != i && EntryAt(t, root, c, j).present
  }

  /** Rewriting a page entry leaves no empty table exactly when the entry is present or another one of its table is. */
  lemma EmptiedBy(t: Tables, t': Tables, root: nat, v: nat)
    requires (forall p :: IsTable(p) ==> TableAt(t', root, p) == TableAt(t, root, p)) && TableAt(t, root, P1(v)).Some?
    requires SameEntriesBut(t, t', root, P1(v), I1(v))
    ensures NoEmptyBut(t, root, P1(v)) ==>
      (NoEmpty(t', root) <==> EntryAt(t', root, P1(v), I1(v)).present || OtherPresent(t, root, P1(v), I1(v)))
  {
    PathsValid(v);
    if NoEmptyBut(t, root, P1(v)) {
      forall p | IsTable(p) && p != Top && p != P1(v) && TableAt(t', root, p).Some? ensures NonEmpty(t', root, p) {
        assert NonEmpty(t, root, p);
        var j: nat :| j < PT_ENTRIES && EntryAt(t, root, p, j).present;
        assert EntryAt(t', root, p, j) == EntryAt(t, root, p, j);
      }
      OneEntryLeft(t, t', root, P1(v), I1(v));
      assert P1(v) != Top;
    }
  }

  lemma OneEntryLeft(t: Tables, t': Tables, root: nat, c: Path, i: nat)
    requires IsTable(c) && i < PT_ENTRIES && SameEntriesBut(t, t', root, c, i)
    ensures NonEmpty(t', root, c) <==> EntryAt(t', root, c, i).present || OtherPresent(t, root, c, i)
  {
    if OtherPresent(t, root, c, i) {
      var j: nat :| j < PT_ENTRIES && j != i && EntryAt(t, root, c, j).present;
      assert EntryAt(t', root, c, j) == EntryAt(t, root, c, j);
    }
    if NonEmpty(t', root, c) && !EntryAt(t', root, c, i).present {
      var j: nat :| j < PT_ENTRIES && EntryAt(t', root, c, j).present;
      assert EntryAt(t', root, c, j) == EntryAt(t, root, c, j);
    }
  }

  /** set_flags: the same frame with other flags. */
  function WithFlags(e: Entry, flags: Flags): Entry {
    Entry(e.addr, flags.present, flags.huge, flags.bits)
  }

  lemma Reflagged(t: Tables, t': Tables, root: nat, v: nat, flags: Flags)
    requires MapsAlikeBut(t, t', root, P1(v), I1(v)) && TableAt(t, root, P1(v)).Some? && TableAt(t', root, P1(v)).Some?
    requires EntryAt(t, root, P1(v), I1(v)).present
    requires EntryAt(t', root, P1(v), I1(v)) == WithFlags(EntryAt(t, root, P1(v), I1(v)), flags)
    ensures forall w: nat ::
      Translate(t', root, w) == if SamePage(v, w) && !flags.present then None else Translate(t, root, w)
  {
    if flags.present {
      MappedPage(t, t', root, v, EntryAt(t, root, P1(v), I1(v)).addr);
      Retranslated(t, t', root, v);
    } else {
      UnmappedPage(t, t', root, v);
    }
  }

  /** New flags leave the translation of the page's own addresses as it was. */
  lemma Retranslated(t: Tables, t': Tables, root: nat, v: nat)
    requires TableAt(t, root, P1(v)).Some? && EntryAt(t, root, P1(v), I1(v)).present
    requires forall w: nat ::
      Translate(t', root, w) ==
        if SamePage(v, w) then Some(EntryAt(t, root, P1(v), I1(v)).addr + w % 0x1000) else Translate(t, root, w)
    ensures forall w: nat :: Translate(t', root, w) == Translate(t, root, w)
  {
    forall w: nat ensures Translate(t', root, w) == Translate(t, root, w) {
      if SamePage(v, w) { PageTranslate(t, root, v, w); }
    }
  }

  /** Mapping and unmapping one page that was absent: all pages are as before. */
  lemma BackAgain(t0: Tables, t1: Tables, t2: Tables, root: nat, v: nat)
    requires MapsAlikeBut(t0, t1, root, P1(v), I1(v)) && MapsAlikeBut(t1, t2, root, P1(v), I1(v))
    requires !EntryAt(t0, root, P1(v), I1(v)).present && !EntryAt(t2, root, P1(v), I1(v)).present
    ensures MapsAlike(t0, t2, root)
  {
    PathsValid(v);
    forall p, j: nat | IsTable(p) && j < PT_ENTRIES
      ensures SameMapping(Level(p), EntryAt(t0, root, p, j), EntryAt(t2, root, p, j))
    {
      if !(p == P1(v) && j == I1(v)) {
        assert SameMapping(Level(p), EntryAt(t0, root, p, j), EntryAt(t1, root, p, j));
        assert SameMapping(Level(p), EntryAt(t1, root, p, j), EntryAt(t2, root, p, j));
      }
    }
  }

  /** The same tables and other frames account for the same allocated frames. */
  lemma SameUsed(t: Tables, t': Tables, root: nat, start: nat, frames: nat, used: set<nat>, used': set<nat>,
                 others: set<nat>)
    requires Accounted(t, root, start, frames, used, others) && Accounted(t', root, start, frames, used', others)
    requires forall p :: IsTable(p) ==> TableAt(t', root, p) == TableAt(t, root, p)
    ensures used' == used
  {
    AccountedSame(t, t', root, start, frames, used, others);
    forall j: nat ensures j in used' <==> j in used {
      assert j in used' <==> j in others || IsTableFrame(t', root, start, frames, j);
    }
  }

  /** Aligned addresses inside the region are frame addresses; the others are not. */
  lemma FrameOf(start: nat, end: nat, f: nat)
    requires start % 0x1000 == 0 && f % 0x1000 == 0 && start <= end && (end - start) % 0x8000 == 0
    ensures start <= f < end ==>
      (f - start) / 0x1000 < 8 * ((end - start) / 0x8000) && f == start + 0x1000 * ((f - start) / 0x1000)
    ensures !(start <= f < end) ==> forall j: nat :: j < 8 * ((end - start) / 0x8000) ==> start + 0x1000 * j != f
  {
  }

  /** A table frame inside the region is in use, under its own index. */
  lemma TableFrameUsed(t: Tables, root: nat, start: nat, end: nat, used: set<nat>, others: set<nat>, c: Path)
    requires start % 0x1000 == 0 && start <= end && (end - start) % 0x8000 == 0 && Aligned(t, root) && IsTable(c)
    requires TableAt(t, root, c).Some?
    requires Accounted(t, root, start, 8 * ((end - start) / 0x8000), used, others)
    ensures start <= TableAt(t, root, c).value < end ==> (TableAt(t, root, c).value - start) / 0x1000 in used
  {
    var f := TableAt(t, root, c).value;
    FrameOf(start, end, f);
    if start <= f < end {
      assert InTree(t, root, f);
      assert IsTableFrame(t, root, start, 8 * ((end - start) / 0x8000), (f - start) / 0x1000);
    }
  }

  /** Freeing the frame of a removed table keeps the frames accounted for. */
  lemma AccountedFree(t: Tables, t': Tables, root: nat, start: nat, end: nat, used: set<nat>, used': set<nat>,
                      others: set<nat>, c: Path, f: nat)
    requires start % 0x1000 == 0 && start <= end && (end - start) % 0x8000 == 0 && TreeOk(t, root) && Aligned(t, root)
    requires IsTable(c)
    requires Accounted(t, root, start, 8 * ((end - start) / 0x8000), used, others)
    requires SameTablesBut(t, t', root, c) && TableAt(t, root, c) == Some(f) && TableAt(t', root, c) == None
    requires used' == if start <= f < end then used - {(f - start) / 0x1000} else used
    ensures Accounted(t', root, start, 8 * ((end - start) / 0x8000), used', others)
  {
    FrameOf(start, end, f);
    AccountedUnlink(t, t', root, start, 8 * ((end - start) / 0x8000), used, used', others, c);
  }

  lemma AlikeRefl(t: Tables, root: nat)
    ensures MapsAlike(t, t, root)
  {
  }

  lemma AllAlike(t: Tables, t': Tables, root: nat)
    requires MapsAlike(t, t', root)
    ensures forall w: nat :: Translate(t', root, w) == Translate(t, root, w)
  {
    forall w: nat ensures Translate(t', root, w) == Translate(t, root, w) { AlikeTranslate(t, t', root, w); }
  }

  lemma PageAgrees(t: Tables, t': Tables, root: nat, v: nat)
    requires MapsAlike(t, t', root)
    ensures EntryAt(t', root, P1(v), I1(v)).present == EntryAt(t, root, P1(v), I1(v)).present
  {
    PathsValid(v);
    assert SameMapping(Level(P1(v)), EntryAt(t, root, P1(v), I1(v)), EntryAt(t', root, P1(v), I1(v)));
  }

  /** The translation after mapping one page. */
  lemma MappedPage(t: Tables, t': Tables, root: nat, v: nat, phys: nat)
    requires MapsAlikeBut(t, t', root, P1(v), I1(v)) && TableAt(t', root, P1(v)).Some?
    requires EntryAt(t', root, P1(v), I1(v)).present && EntryAt(t', root, P1(v), I1(v)).addr == phys
    ensures forall w: nat ::
      Translate(t', root, w) == if SamePage(v, w) then Some(phys + w % 0x1000) else Translate(t, root, w)
  {
    forall w: nat
      ensures Translate(t', root, w) == if SamePage(v, w) then Some(phys + w % 0x1000) else Translate(t, root, w)
    {
      if SamePage(v, w) { PageTranslate(t', root, v, w); } else { OnePageTranslate(t, t', root, v, w); }
    }
  }

  /** The translation after storing an entry where none was present; `t` are the tables after the walk from `t0`. */
  lemma StoredPage(t0: Tables, t: Tables, t': Tables, root: nat, v: nat, phys: nat)
    requires MapsAlikeBut(t0, t', root, P1(v), I1(v)) && TableAt(t, root, P1(v)).Some? && TableAt(t', root, P1(v)).Some?
    requires !EntryAt(t, root, P1(v), I1(v)).present && EntryAt(t', root, P1(v), I1(v)).addr == phys
    requires forall w: nat :: Translate(t, root, w) == Translate(t0, root, w)
    ensures forall w: nat ::
      Translate(t', root, w) ==
        if SamePage(v, w) && EntryAt(t', root, P1(v), I1(v)).present then Some(phys + w % 0x1000)
        else Translate(t0, root, w)
  {
    if EntryAt(t', root, P1(v), I1(v)).present {
      MappedPage(t0, t', root, v, phys);
    } else {
      forall w: nat ensures Translate(t', root, w) == Translate(t0, root, w) {
        if SamePage(v, w) {
          PageTranslate(t, root, v, w);
          PageTranslate(t', root, v, w);
        } else {
          OnePageTranslate(t0, t', root, v, w);
        }
      }
    }
  }

  /** Storing an entry leaves no empty table exactly when the entry is present or its table was there before. */
  lemma StoredEmpty(t0: Tables, t: Tables, t': Tables, root: nat, v: nat)
    requires (forall p :: IsTable(p) ==> TableAt(t', root, p) == TableAt(t, root, p)) && TableAt(t, root, P1(v)).Some?
    requires SameEntriesBut(t, t', root, P1(v), I1(v)) && !EntryAt(t, root, P1(v), I1(v)).present
    requires NoEmpty(t0, root) ==> NoEmptyBut(t, root, P1(v))
    requires if MissingTo(t0, root, P1(v)) == 0 then t == t0 else EmptyAt(t, root, P1(v))
    ensures NoEmpty(t0, root) ==>
      (NoEmpty(t', root) <==> EntryAt(t', root, P1(v), I1(v)).present || MissingTo(t0, root, P1(v)) == 0)
  {
    PathsValid(v);
    EmptiedBy(t, t', root, v);
    if NoEmpty(t0, root) && t == t0 {
      assert NonEmpty(t, root, P1(v));
      var j: nat :| j < PT_ENTRIES && EntryAt(t, root, P1(v), j).present;
      assert OtherPresent(t, root, P1(v), I1(v));
    }
  }

  /** The translation after unmapping one page. */
  lemma UnmappedPage(t: Tables, t': Tables, root: nat, v: nat)
    requires MapsAlikeBut(t, t', root, P1(v), I1(v)) && !EntryAt(t', root, P1(v), I1(v)).present
    requires TableAt(t, root, P1(v)).Some?
    ensures forall w: nat :: Translate(t', root, w) == if SamePage(v, w) then None else Translate(t, root, w)
  {
    forall w: nat ensures Translate(t', root, w) == if SamePage(v, w) then None else Translate(t, root, w) {
      if SamePage(v, w) { UnmappedWalk(t, t', root, v, w); } else { OnePageTranslate(t, t', root, v, w); }
    }
  }

  lemma UnmappedWalk(t: Tables, t': Tables, root: nat, v: nat, w: nat)
    requires MapsAlikeBut(t, t', root, P1(v), I1(v)) && !EntryAt(t', root, P1(v), I1(v)).present
    requires TableAt(t, root, P1(v)).Some?
    requires SamePage(v, w)
    ensures Translate(t', root, w) == None
  {
    SamePageSameWalk(v, w);
    PathsValid(v);
    assert TableAt(t, root, P2(v)).Some?;
    assert SameMapping(Level(P3(v)), EntryAt(t, root, P3(v), I3(v)), EntryAt(t', root, P3(v), I3(v)));
    assert SameMapping(Level(P2(v)), EntryAt(t, root, P2(v), I2(v)), EntryAt(t', root, P2(v), I2(v)));
  }

  /** Writing page entry of `v` into trees reached from `t0` by growth. */
  lemma PageSet(t0: Tables, t: Tables, root: nat, v: nat, e: Entry, t': Tables, l1: nat)
    requires TreeOk(t, root) && Aligned(t, root) && TopNotHuge(t, root) && MapsAlike(t0, t, root)
    requires TableAt(t, root, P1(v)) == Some(l1) && l1 in t && t' == WithEntry(t, l1, I1(v), e)
    ensures TreeOk(t', root) && Aligned(t', root) && TopNotHuge(t', root)
    ensures forall p :: IsTable(p) ==> TableAt(t', root, p) == TableAt(t, root, p)
    ensures EntryAt(t', root, P1(v), I1(v)) == e && MapsAlikeBut(t0, t', root, P1(v), I1(v))
    ensures NoEmptyBut(t, root, P1(v)) && e.present ==> NoEmpty(t', root)
    ensures !EntryAt(t, root, P1(v), I1(v)).present ==> KeepsEntries(t, t', root)
    ensures SameEntriesBut(t, t', root, P1(v), I1(v))
  {
    PathsValid(v);
    SetPageEntry(t, root, P1(v), I1(v), e);
    forall p, j: nat | IsTable(p) && j < PT_ENTRIES && !(p == P1(v) && j == I1(v))
      ensures SameMapping(Level(p), EntryAt(t, root, p, j), EntryAt(t', root, p, j))
    {
      assert EntryAt(t', root, p, j) == EntryAt(t, root, p, j);
    }
    AlikeButTrans(t0, t, t', root, P1(v), I1(v));
    if NoEmptyBut(t, root, P1(v)) && e.present { PageSetFull(t, t', root, v); }
  }

  lemma PageSetFull(t: Tables, t': Tables, root: nat, v: nat)
    requires NoEmptyBut(t, root, P1(v)) && EntryAt(t', root, P1(v), I1(v)).present
    requires SameEntriesBut(t, t', root, P1(v), I1(v))
    requires forall p :: IsTable(p) ==> TableAt(t', root, p) == TableAt(t, root, p)
    ensures NoEmpty(t', root)
  {
    forall p | IsTable(p) && p != Top && TableAt(t', root, p).Some? ensures NonEmpty(t', root, p) {
      if p != P1(v) {
        var j: nat :| j < PT_ENTRIES && EntryAt(t, root, p, j).present;
        assert EntryAt(t', root, p, j) == EntryAt(t, root, p, j);
      }
    }
  }

  lemma AccountedSame(t: Tables, t': Tables, root: nat, start: nat, frames: nat, used: set<nat>, others: set<nat>)
    requires Accounted(t, root, start, frames, used, others)
    requires forall p :: IsTable(p) ==> TableAt(t', root, p) == TableAt(t, root, p)
    ensures Accounted(t', root, start, frames, used, others)
  {
    forall j: nat ensures IsTableFrame(t', root, start, frames, j) <==> IsTableFrame(t, root, start, frames, j) {
    }
  }

  /** (t0 to t): no table moved, all pages are mapped alike, and only the table at `c` may have become empty. */
  ghost predicate Grown(t0: Tables, t: Tables, root: nat, c: Path) {
    && KeepsEntries(t0, t, root) && MapsAlike(t0, t, root)
    && (NoEmpty(t0, root) && TableAt(t, root, c).Some? ==> NoEmptyBut(t, root, c))
  }

  // ---- The tables that a walk creates -------------------------------------

  /** The number of tables missing on the way from the root to the table at `c`. */
  ghost function MissingTo(t: Tables, root: nat, c: Path): nat {
    match c
    case Top => 0
    case Sub(q, _) => MissingTo(t, root, q) + if TableAt(t, root, c).Some? then 0 else 1
  }

  /** There is a table at `c`, and it is empty. */
  ghost predicate EmptyAt(t: Tables, root: nat, c: Path) {
    TableAt(t, root, c).Some? && forall j: nat :: j < PT_ENTRIES ==> !EntryAt(t, root, c, j).present
  }

  /** One step of the walk, to the table at `c`: nothing if it is there, else one frame and an empty table. */
  ghost predicate Stepped(t: Tables, t': Tables, root: nat, c: Path, n: nat, n': nat) {
    && (TableAt(t, root, c).Some? ==> t' == t && n' == n)
    && (TableAt(t, root, c).None? && TableAt(t', root, c).Some? ==> EmptyAt(t', root, c) && n' == n + 1)
  }

  /** The walk from (t0, n0) has reached the table at `c`, creating just the missing tables. */
  ghost predicate Made(t0: Tables, t: Tables, root: nat, c: Path, n0: nat, n: nat) {
    && n == n0 + MissingTo(t0, root, c)
    && (MissingTo(t0, root, c) == 0 ==> t == t0)
    && (MissingTo(t0, root, c) > 0 ==> c != Top && TableAt(t0, root, c) == None && EmptyAt(t, root, c))
  }

  /** The walk ran out of frames: it left nothing behind exactly when no frame was free at its start. */
  ghost predicate Stuck(t0: Tables, t: Tables, root: nat, n0: nat, frames: nat) {
    (t == t0 <==> n0 == frames) && (n0 != frames ==> !NoEmpty(t, root))
  }

  /** (t to t'): an empty table was linked at entry `i` of the table at `q`, or nothing changed. */
  ghost predicate Linked(t: Tables, t': Tables, root: nat, q: Path, i: nat, r: Option<nat>) {
    && KeepsEntries(t, t', root) && MapsAlike(t, t', root)
    && SameTablesBut(t, t', root, Sub(q, i)) && SameEntriesBut(t, t', root, q, i)
    && (r.None? ==> t' == t)
    && (r.Some? ==>
        TableAt(t', root, Sub(q, i)) == r && EntryAt(t', root, q, i).present && EmptyAt(t', root, Sub(q, i)))
  }

  lemma NewLinked(t: Tables, t': Tables, root: nat, q: Path, i: nat, f: nat, n: nat)
    requires TreeOk(t, root) && Aligned(t, root) && TopNotHuge(t, root) && IsTable(q) && Level(q) >= 2 && i < PT_ENTRIES
    requires TableAt(t, root, q) == Some(f) && f in t && !EntryAt(t, root, q, i).present && !InTree(t, root, n)
    requires n % 0x1000 == 0
    requires t' == WithEntry(t, f, i, Entry(n, true, false, TABLE_BITS))[n := EmptyTable()]
    ensures TreeOk(t', root) && Aligned(t', root) && TopNotHuge(t', root) && Linked(t, t', root, q, i, Some(n))
  {
    LinkTable(t, root, q, i, Entry(n, true, false, TABLE_BITS));
    StepAlike(t, t', root, q, i);
    KeptByStep(t, t', root, q, i);
    NewIsEmpty(t', root, Sub(q, i), n);
  }

  lemma NewIsEmpty(t: Tables, root: nat, c: Path, n: nat)
    requires TableAt(t, root, c) == Some(n) && n in t && t[n] == EmptyTable()
    ensures EmptyAt(t, root, c)
  {
  }

  lemma {:induction false} MissingNone(t: Tables, root: nat, c: Path)
    ensures MissingTo(t, root, c) > 0 <==> TableAt(t, root, c) == None
  {
    if c.Sub? { MissingNone(t, root, c.parent); }
  }

  lemma MadeStep(t0: Tables, t: Tables, t': Tables, root: nat, q: Path, i: nat, n0: nat, n: nat, n': nat)
    requires Made(t0, t, root, q, n0, n) && Stepped(t, t', root, Sub(q, i), n, n') && TableAt(t', root, Sub(q, i)).Some?
    requires i < PT_ENTRIES
    ensures Made(t0, t', root, Sub(q, i), n0, n')
  {
    MissingNone(t0, root, q);
    if MissingTo(t0, root, q) > 0 {
      assert EntryAt(t0, root, q, i) == EMPTY && !EntryAt(t, root, q, i).present;
    }
  }

  lemma MadeStuck(t0: Tables, t: Tables, root: nat, q: Path, n0: nat, frames: nat)
    requires Made(t0, t, root, q, n0, frames) && IsTable(q)
    ensures Stuck(t0, t, root, n0, frames)
  {
    if MissingTo(t0, root, q) > 0 { assert !NonEmpty(t, root, q); }
  }

  lemma MissingCount(t: Tables, root: nat, v: nat)
    ensures MissingTo(t, root, P1(v)) >= MissingTo(t, root, P2(v)) >= MissingTo(t, root, P3(v)) >= 0
    ensures TableAt(t, root, P1(v)) == None ==> MissingTo(t, root, P1(v)) == MissingTo(t, root, P2(v)) + 1
    ensures TableAt(t, root, P2(v)) == None ==> MissingTo(t, root, P2(v)) == MissingTo(t, root, P3(v)) + 1
    ensures TableAt(t, root, P3(v)) == None ==> MissingTo(t, root, P3(v)) == 1
    ensures MissingTo(t, root, P1(v)) == 0 ==> MissingTo(t, root, P2(v)) == 0 && MissingTo(t, root, P3(v)) == 0
  {
    assert MissingTo(t, root, Top) == 0;
  }

  /** A huge P2 entry means that its table is there. */
  lemma HugeIsThere(t: Tables, root: nat, v: nat)
    requires EntryAt(t, root, P2(v), I2(v)).present
    ensures MissingTo(t, root, P2(v)) == 0
  {
    MissingNone(t, root, P2(v));
  }

  /** A page entry that is present means that all its tables are there. */
  lemma PresentIsThere(t: Tables, root: nat, v: nat)
    requires EntryAt(t, root, P1(v), I1(v)).present
    ensures MissingTo(t, root, P1(v)) == 0
  {
    MissingNone(t, root, P1(v));
  }

  /** Mapping below an absent P3 table with one frame free: out of memory, and an empty P3 table is left behind. */
  method OutOfMemoryExample(p: PageTable, virt: nat, phys: nat, flags: Flags) returns (o: Outcome)
    requires p.Valid() && NoEmpty(p.tables, p.root) && virt % 0x1000 == 0 && phys % 0x1000 == 0
    requires TableAt(p.tables, p.root, P3(virt)) == None && |p.fa.Used()| + 1 == p.fa.Frames()
    modifies p`tables, p.fa.bitmap
    ensures o == OutOfMemory && p.Valid() && !NoEmpty(p.tables, p.root)
    ensures forall w: nat :: Translate(p.tables, p.root, w) == Translate(old(p.tables), p.root, w)
  {
    MissingP3(p.tables, p.root, virt);
    MissingCount(p.tables, p.root, virt);
    FullCount(p.fa.Used(), p.fa.Frames());
    o := p.MapPage(virt, phys, flags);
  }

  lemma NotYetThere(t0: Tables, t: Tables, root: nat, q: Path, i: nat)
    requires KeepsEntries(t0, t, root) && IsTable(Sub(q, i)) && TableAt(t, root, Sub(q, i)) == None
    ensures TableAt(t0, root, Sub(q, i)) == None
  {
    EntriesKeepTables(t0, t, root);
  }

  lemma HugeAgrees(t0: Tables, t: Tables, root: nat, q: Path, i: nat)
    requires MapsAlike(t0, t, root) && IsTable(q) && Level(q) >= 2 && i < PT_ENTRIES
    ensures EntryAt(t, root, q, i).present && EntryAt(t, root, q, i).huge <==>
      EntryAt(t0, root, q, i).present && EntryAt(t0, root, q, i).huge
  {
    assert SameMapping(Level(q), EntryAt(t0, root, q, i), EntryAt(t, root, q, i));
  }

  lemma MissingP2(t: Tables, root: nat, v: nat)
    requires TableAt(t, root, P2(v)) == None
    ensures EntryAt(t, root, P2(v), I2(v)) == EMPTY && TableAt(t, root, P1(v)) == None
  {
  }

  lemma MissingP3(t: Tables, root: nat, v: nat)
    requires TableAt(t, root, P3(v)) == None
    ensures EntryAt(t, root, P2(v), I2(v)) == EMPTY && TableAt(t, root, P1(v)) == None
  {
    assert EntryAt(t, root, P3(v), I3(v)) == EMPTY;
    MissingP2(t, root, v);
  }
}
