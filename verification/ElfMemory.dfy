/** Physical memory while load_elf runs: loaded pages, page tables, and what lies outside the frames it takes. */
module ElfMemory {
  import opened Bytes
  import opened Elf
  import opened ElfPage
  import opened FrameAlloc

  // ---- Memory -------------------------------------------------------------

  /** Physical memory holds, in the frame of each call, the bytes of its page. */
  ghost predicate Content(data: seq<byte>, phs: seq<ProgramHeader>, mem: Memory, maps: seq<MapCall>, pages: seq<Page>) {
    |pages| == |maps| && forall c :: 0 <= c < |maps| ==> Holds(data, phs, mem, maps[c], pages[c])
  }

  ghost predicate Holds(data: seq<byte>, phs: seq<ProgramHeader>, mem: Memory, call: MapCall, p: Page) {
    && p.seg < |phs|
    && forall b: nat :: b < 0x1000 ==> ByteIn(mem, call.phys, b) == PageByte(data, phs[p.seg], call.virt, b)
  }

  function ByteIn(mem: Memory, frame: nat, b: nat): byte {
    mem(frame + b)
  }

  /**
   * Each call has a frame of its own, allocated from the region; every lower frame is in use too, since frames are
   * handed out lowest first and the load frees none.
   */
  ghost predicate OwnFrames(maps: seq<MapCall>, frames: seq<nat>, start: nat, used: set<nat>) {
    && |frames| == |maps|
    && (forall c :: 0 <= c < |maps| ==> maps[c].phys == start + 0x1000 * frames[c] && frames[c] in used)
    && (forall c, j: nat :: 0 <= c < |maps| && j <= frames[c] ==> j in used)
    && (forall c, d :: 0 <= c < d < |maps| ==> frames[c] != frames[d])
  }

  lemma OwnMore(maps: seq<MapCall>, frames: seq<nat>, start: nat, used: set<nat>, k: nat, call: MapCall)
    requires OwnFrames(maps, frames, start, used) && k !in used && call.phys == start + 0x1000 * k
    requires forall j :: 0 <= j < k ==> j in used
    ensures OwnFrames(maps, frames, start, used + {k}) && OwnFrames(maps + [call], frames + [k], start, used + {k})
  {
  }

  function Poke(mem: Memory, at: nat, bytes: seq<byte>): Memory {
    (a: nat) => if at <= a < at + |bytes| then bytes[a - at] else mem(a)
  }

  function Zeroed(mem: Memory, at: nat): Memory {
    (a: nat) => if at <= a < at + 0x1000 then 0 else mem(a)
  }

  /** (mem to mem') is the loading of the page at `virt` into the frame at `phys`. */
  ghost predicate PageLoaded(data: seq<byte>, ph: ProgramHeader, virt: nat, phys: nat, mem: Memory, mem': Memory) {
    forall a: nat :: mem'(a) == AfterCopy(mem, data, ph, virt, phys, a)
  }

  lemma ZeroLoaded(data: seq<byte>, ph: ProgramHeader, virt: nat, phys: nat, mem: Memory)
    requires !Copied(data, ph, virt)
    ensures PageLoaded(data, ph, virt, phys, mem, Zeroed(mem, phys))
  {
  }

  lemma CopyLoaded(data: seq<byte>, ph: ProgramHeader, virt: nat, phys: nat, mem: Memory)
    requires Copied(data, ph, virt)
    ensures var o := ph.offset + SegOffset(ph, virt);
            PageLoaded(data, ph, virt, phys, mem,
                       Poke(Zeroed(mem, phys), phys + InPage(ph, virt), data[o..o + CopyLen(ph, virt)]))
  {
  }

  // ---- Page tables --------------------------------------------------------

  /** Address `a` lies in one of the frames at the addresses `tables`. */
  predicate InTable(tables: set<nat>, a: nat) {
    exists t :: t in tables && t <= a < t + 0x1000
  }

  /** The page frames at `p` and `q` do not overlap. */
  predicate Apart(p: nat, q: nat) {
    p + 0x1000 <= q || q + 0x1000 <= p
  }

  /** No free frame of the region and no loaded page is a page table. */
  ghost predicate TablesApart(tables: set<nat>, maps: seq<MapCall>, start: nat, frames: nat, used: set<nat>) {
    && (forall t, i: nat :: t in tables && i < frames && i !in used ==> Apart(t, start + 0x1000 * i))
    && (forall t, c :: t in tables && 0 <= c < |maps| ==> Apart(t, maps[c].phys))
  }

  /** Loaded pages, page tables and free frames do not overlap. */
  ghost predicate Owning(tables: set<nat>, maps: seq<MapCall>, frames: seq<nat>, start: nat, total: nat, used: set<nat>)
  {
    OwnFrames(maps, frames, start, used) && TablesApart(tables, maps, start, total, used)
  }

  /** What the callback leaves: its own bytes in the page tables, and all else as it was. */
  function WithTables(mem: Memory, tables: set<nat>, writes: Memory): Memory {
    (a: nat) => if InTable(tables, a) then writes(a) else mem(a)
  }

  lemma OwningPage(tables: set<nat>, maps: seq<MapCall>, frames: seq<nat>, start: nat, total: nat, used: set<nat>,
                   k: nat, call: MapCall)
    requires Owning(tables, maps, frames, start, total, used) && k < total && k !in used
    requires (forall j :: 0 <= j < k ==> j in used) && call.phys == start + 0x1000 * k
    ensures Owning(tables, maps, frames, start, total, used + {k})
    ensures Owning(tables, maps + [call], frames + [k], start, total, used + {k})
  {
    OwnMore(maps, frames, start, used, k, call);
    assert forall t :: t in tables ==> Apart(t, call.phys);
  }

  lemma OwningTable(tables: set<nat>, tables': set<nat>, maps: seq<MapCall>, frames: seq<nat>, start: nat, total: nat,
                    used: set<nat>, used': set<nat>, k: nat, t: nat)
    requires Owning(tables, maps, frames, start, total, used) && k !in used
    requires t == start + 0x1000 * k && tables' == tables + {t} && used' == used + {k}
    ensures Owning(tables', maps, frames, start, total, used')
  {
    assert forall i: nat :: i != k ==> Apart(t, start + 0x1000 * i);
    forall c | 0 <= c < |maps| ensures Apart(t, maps[c].phys) { assert frames[c] != k; }
  }

  // ---- Memory outside the load's frames -----------------------------------

  /** What a load begins with: the input, memory, and the page tables that the callback may write from the beginning. */
  datatype Origin = Origin(data: seq<byte>, phs: seq<ProgramHeader>, mem: Memory, start: nat, used: set<nat>, free: int,
                           tables: set<nat>)

  /** Address `a` lies in frame `f` of the region. */
  predicate InFrame(start: nat, f: nat, a: nat) {
    start + 0x1000 * f <= a < start + 0x1000 * f + 0x1000
  }

  /** Address `a` lies in a frame that was allocated since the load began. */
  ghost predicate InNew(o: Origin, used: set<nat>, a: nat) {
    exists f :: f in used && f !in o.used && InFrame(o.start, f, a)
  }

  /** Address `a` is the load's or the callback's to write. */
  ghost predicate Inside(o: Origin, used: set<nat>, a: nat) {
    InTable(o.tables, a) || InNew(o, used, a)
  }

  /** The copy of a call wrote address `a`, past its own frame. */
  ghost predicate SpillAt(o: Origin, call: MapCall, p: Page, a: nat) {
    p.seg < |o.phs| && call.phys <= a && Spills(o.data, o.phs[p.seg], call.virt, a - call.phys)
  }

  ghost predicate NoSpill(o: Origin, maps: seq<MapCall>, pages: seq<Page>, a: nat)
    requires |pages| == |maps|
  {
    forall c :: 0 <= c < |maps| ==> !SpillAt(o, maps[c], pages[c], a)
  }

  /** Outside, memory is as before except where a copy ran past its frame. */
  ghost predicate OutsideOk(o: Origin, mem: Memory, maps: seq<MapCall>, pages: seq<Page>, used: set<nat>) {
    |pages| == |maps| && UnspilledSame(o, mem, maps, pages, used) && SpilledHeld(o, mem, maps, pages, used)
  }

  ghost predicate UnspilledSame(o: Origin, mem: Memory, maps: seq<MapCall>, pages: seq<Page>, used: set<nat>)
    requires |pages| == |maps|
  {
    forall a: nat :: !Inside(o, used, a) && NoSpill(o, maps, pages, a) ==> mem(a) == o.mem(a)
  }

  ghost predicate SpilledHeld(o: Origin, mem: Memory, maps: seq<MapCall>, pages: seq<Page>, used: set<nat>)
    requires |pages| == |maps|
  {
    forall a: nat, c :: 0 <= c < |maps| && !Inside(o, used, a) && SpillAt(o, maps[c], pages[c], a) ==>
      mem(a) == PageByte(o.data, o.phs[pages[c].seg], maps[c].virt, a - maps[c].phys)
  }

  /** A copy runs at most into the next frame. */
  lemma SpillNext(o: Origin, call: MapCall, p: Page, a: nat, f: nat)
    requires SpillAt(o, call, p, a) && call.phys == o.start + 0x1000 * f
    ensures InFrame(o.start, f + 1, a)
  {
  }

  lemma FrameOnce(start: nat, f: nat, g: nat, a: nat)
    requires InFrame(start, f, a) && InFrame(start, g, a)
    ensures f == g
  {
  }

  /** What loading one more page does to an address outside its frame. */
  lemma OutsideByte(data: seq<byte>, ph: ProgramHeader, virt: nat, mem: Memory, mem': Memory, start: nat, k: nat,
                    a: nat)
    requires PageLoaded(data, ph, virt, start + 0x1000 * k, mem, mem') && !InFrame(start, k, a)
    ensures mem'(a) == mem(a) || InFrame(start, k + 1, a)
    ensures !(start + 0x1000 * k <= a && Spills(data, ph, virt, a - (start + 0x1000 * k))) ==> mem'(a) == mem(a)
    ensures start + 0x1000 * k <= a && Spills(data, ph, virt, a - (start + 0x1000 * k)) ==>
      mem'(a) == PageByte(data, ph, virt, a - (start + 0x1000 * k))
  {
    assert mem'(a) == AfterCopy(mem, data, ph, virt, start + 0x1000 * k, a);
  }

  lemma InsideGrows(o: Origin, used: set<nat>, used': set<nat>, a: nat)
    requires used <= used'
    ensures Inside(o, used, a) ==> Inside(o, used', a)
    ensures forall k :: k in used' && k !in o.used && InFrame(o.start, k, a) ==> Inside(o, used', a)
  {
    if InNew(o, used, a) {
      var f :| f in used && f !in o.used && InFrame(o.start, f, a);
      assert f in used';
    }
  }

  /** A page that was skipped: only its frame changed. */
  lemma OutsideSkipped(o: Origin, ph: ProgramHeader, virt: nat, mem: Memory, mem': Memory, maps: seq<MapCall>,
                       pages: seq<Page>, used: set<nat>, k: nat)
    requires OutsideOk(o, mem, maps, pages, used) && k !in o.used
    requires PageLoaded(o.data, ph, virt, o.start + 0x1000 * k, mem, mem') && !Copied(o.data, ph, virt)
    ensures OutsideOk(o, mem', maps, pages, used + {k})
  {
    forall a: nat | !Inside(o, used + {k}, a) ensures mem'(a) == mem(a) && !Inside(o, used, a) {
      InsideGrows(o, used, used + {k}, a);
      OutsideByte(o.data, ph, virt, mem, mem', o.start, k, a);
    }
  }

  /** A page that was mapped: an address that no copy wrote past a frame is as before. */
  lemma OutsideUntouched(o: Origin, mem: Memory, mem': Memory, maps: seq<MapCall>, pages: seq<Page>, used: set<nat>,
                         k: nat, call: MapCall, p: Page, a: nat)
    requires OutsideOk(o, mem, maps, pages, used) && k !in o.used
    requires call.phys == o.start + 0x1000 * k && p.seg < |o.phs|
    requires PageLoaded(o.data, o.phs[p.seg], call.virt, call.phys, mem, mem')
    requires !Inside(o, used + {k}, a) && NoSpill(o, maps + [call], pages + [p], a)
    ensures mem'(a) == o.mem(a)
  {
    var maps', pages' := maps + [call], pages + [p];
    InsideGrows(o, used, used + {k}, a);
    OutsideByte(o.data, o.phs[p.seg], call.virt, mem, mem', o.start, k, a);
    assert !SpillAt(o, maps'[|maps|], pages'[|maps|], a);
    forall c | 0 <= c < |maps| ensures !SpillAt(o, maps[c], pages[c], a) {
      assert !SpillAt(o, maps'[c], pages'[c], a);
    }
    assert NoSpill(o, maps, pages, a);
  }

  /** An earlier copy past a frame is not overwritten. */
  lemma OutsideSpilled(o: Origin, mem: Memory, mem': Memory, maps: seq<MapCall>, pages: seq<Page>, frames: seq<nat>,
                       used: set<nat>, k: nat, ph: ProgramHeader, virt: nat, a: nat, c: nat)
    requires OutsideOk(o, mem, maps, pages, used) && k !in o.used && k !in used
    requires OwnFrames(maps, frames, o.start, used) && PageLoaded(o.data, ph, virt, o.start + 0x1000 * k, mem, mem')
    requires !Inside(o, used + {k}, a) && c < |maps| && SpillAt(o, maps[c], pages[c], a)
    ensures mem'(a) == PageByte(o.data, o.phs[pages[c].seg], maps[c].virt, a - maps[c].phys)
  {
    InsideGrows(o, used, used + {k}, a);
    OutsideByte(o.data, ph, virt, mem, mem', o.start, k, a);
    SpillNext(o, maps[c], pages[c], a, frames[c]);
    NotThere(o.start, frames[c] + 1, k + 1, a);
  }

  lemma NotThere(start: nat, f: nat, g: nat, a: nat)
    requires InFrame(start, f, a) && f != g
    ensures !InFrame(start, g, a)
  {
  }

  lemma SpilledMapped(o: Origin, mem: Memory, mem': Memory, maps: seq<MapCall>, pages: seq<Page>, frames: seq<nat>,
                      used: set<nat>, k: nat, call: MapCall, p: Page)
    requires OutsideOk(o, mem, maps, pages, used) && k !in o.used && k !in used
    requires OwnFrames(maps, frames, o.start, used) && call.phys == o.start + 0x1000 * k && p.seg < |o.phs|
    requires PageLoaded(o.data, o.phs[p.seg], call.virt, call.phys, mem, mem')
    ensures SpilledHeld(o, mem', maps + [call], pages + [p], used + {k})
  {
    var maps', pages' := maps + [call], pages + [p];
    forall a: nat, c | 0 <= c < |maps'| && !Inside(o, used + {k}, a) && SpillAt(o, maps'[c], pages'[c], a)
      ensures mem'(a) == PageByte(o.data, o.phs[pages'[c].seg], maps'[c].virt, a - maps'[c].phys)
    {
      if c < |maps| {
        OutsideSpilled(o, mem, mem', maps, pages, frames, used, k, o.phs[p.seg], call.virt, a, c);
      } else {
        InsideGrows(o, used, used + {k}, a);
        OutsideByte(o.data, o.phs[p.seg], call.virt, mem, mem', o.start, k, a);
      }
    }
  }

  lemma UnspilledMapped(o: Origin, mem: Memory, mem': Memory, maps: seq<MapCall>, pages: seq<Page>, used: set<nat>,
                        k: nat, call: MapCall, p: Page)
    requires OutsideOk(o, mem, maps, pages, used) && k !in o.used
    requires call.phys == o.start + 0x1000 * k && p.seg < |o.phs|
    requires PageLoaded(o.data, o.phs[p.seg], call.virt, call.phys, mem, mem')
    ensures UnspilledSame(o, mem', maps + [call], pages + [p], used + {k})
  {
    var maps', pages' := maps + [call], pages + [p];
    forall a: nat | !Inside(o, used + {k}, a) && NoSpill(o, maps', pages', a) ensures mem'(a) == o.mem(a) {
      OutsideUntouched(o, mem, mem', maps, pages, used, k, call, p, a);
    }
  }

  // ---- The state of a load ------------------------------------------------

  /** Loaded pages hold their bytes, memory outside is accounted for, and new page tables lie in new frames. */
  ghost predicate Loaded(o: Origin, mem: Memory, maps: seq<MapCall>, pages: seq<Page>, tables: set<nat>, used: set<nat>)
  {
    && Content(o.data, o.phs, mem, maps, pages) && OutsideOk(o, mem, maps, pages, used)
    && Since(o.start, o.used, o.tables, used, tables)
  }

  /** Frames were taken lowest first, some of them for page tables. */
  ghost predicate Since(start: nat, used: set<nat>, tables: set<nat>, used': set<nat>, tables': set<nat>) {
    LowestFirst(used, used') && TablesNew(start, used, tables, used', tables')
  }

  /** Every page table is an earlier one or lies in a frame that was allocated since. */
  ghost predicate TablesNew(start: nat, used: set<nat>, tables: set<nat>, used': set<nat>, tables': set<nat>) {
    tables <= tables' && forall t :: t in tables' && t !in tables ==> IsNewFrame(start, used, used', t)
  }

  ghost predicate IsNewFrame(start: nat, used: set<nat>, used': set<nat>, t: nat) {
    exists f :: f in used' && f !in used && t == start + 0x1000 * f
  }

  /** The frame of each page is known from the origin: so many free frames lie below it. */
  ghost predicate Placed(o: Origin, needs: nat -> nat, pages: seq<Page>, frames: seq<nat>) {
    |frames| == |pages| && forall c :: 0 <= c < |pages| ==> PlacedAt(o, needs, pages[c], frames[c])
  }

  ghost predicate PlacedAt(o: Origin, needs: nat -> nat, p: Page, f: nat) {
    p.seg < |o.phs| && f !in o.used && FreeBelow(o.used, f) == Taken(o.phs, needs, p.seg, p.idx)
  }

  /** The load has come to page `j` of segment `s`. */
  ghost predicate Underway(o: Origin, needs: nat -> nat, mem: Memory, maps: seq<MapCall>, pages: seq<Page>,
                           frames: seq<nat>, tables: set<nat>, used: set<nat>, s: nat, j: nat)
  {
    && s <= |o.phs| && (s == |o.phs| ==> j == 0) && |maps| == Calls(o.phs, s, j)
    && Progress(o.phs, maps, pages, s, j) && Placed(o, needs, pages, frames)
    && Loaded(o, mem, maps, pages, tables, used)
  }

  lemma LoadedMapped(o: Origin, mem: Memory, mem': Memory, maps: seq<MapCall>, pages: seq<Page>, frames: seq<nat>,
                     tables: set<nat>, used: set<nat>, k: nat, call: MapCall, p: Page)
    requires Loaded(o, mem, maps, pages, tables, used) && k !in used && forall j :: 0 <= j < k ==> j in used
    requires OwnFrames(maps, frames, o.start, used) && call.phys == o.start + 0x1000 * k && p.seg < |o.phs|
    requires PageLoaded(o.data, o.phs[p.seg], call.virt, call.phys, mem, mem')
    ensures Loaded(o, mem', maps + [call], pages + [p], tables, used + {k})
  {
    ContentKept(o, o.phs[p.seg], call.virt, mem, mem', maps, pages, frames, used, k);
    ContentMore(o.data, o.phs, mem, mem', maps, pages, call, p);
    UnspilledMapped(o, mem, mem', maps, pages, used, k, call, p);
    SpilledMapped(o, mem, mem', maps, pages, frames, used, k, call, p);
    LowestMore(o.used, used, k);
    TablesStayNew(o, used, used + {k}, tables);
  }

  lemma LoadedSkipped(o: Origin, ph: ProgramHeader, virt: nat, mem: Memory, mem': Memory, maps: seq<MapCall>,
                      pages: seq<Page>, frames: seq<nat>, tables: set<nat>, used: set<nat>, k: nat)
    requires Loaded(o, mem, maps, pages, tables, used) && k !in used && forall j :: 0 <= j < k ==> j in used
    requires OwnFrames(maps, frames, o.start, used) && |o.data| < U64_LIMIT && Skipped(ph, virt)
    requires PageLoaded(o.data, ph, virt, o.start + 0x1000 * k, mem, mem')
    ensures Loaded(o, mem', maps, pages, tables, used + {k})
  {
    NotCopied(o.data, ph, virt);
    ContentKept(o, ph, virt, mem, mem', maps, pages, frames, used, k);
    OutsideSkipped(o, ph, virt, mem, mem', maps, pages, used, k);
    LowestMore(o.used, used, k);
    TablesStayNew(o, used, used + {k}, tables);
  }

  lemma TablesStayNew(o: Origin, used: set<nat>, used': set<nat>, tables: set<nat>)
    requires TablesNew(o.start, o.used, o.tables, used, tables) && used <= used'
    ensures TablesNew(o.start, o.used, o.tables, used', tables)
  {
    forall t | t in tables && t !in o.tables ensures IsNewFrame(o.start, o.used, used', t) {
      assert IsNewFrame(o.start, o.used, used, t);
      var f :| f in used && f !in o.used && t == o.start + 0x1000 * f;
      assert f in used';
    }
  }

  /** The pages loaded before lie in lower frames and keep their content. */
  lemma ContentKept(o: Origin, ph: ProgramHeader, virt: nat, mem: Memory, mem': Memory, maps: seq<MapCall>,
                    pages: seq<Page>, frames: seq<nat>, used: set<nat>, k: nat)
    requires Content(o.data, o.phs, mem, maps, pages) && OwnFrames(maps, frames, o.start, used) && k !in used
    requires PageLoaded(o.data, ph, virt, o.start + 0x1000 * k, mem, mem')
    ensures Content(o.data, o.phs, mem', maps, pages)
  {
    forall c | 0 <= c < |maps| ensures Holds(o.data, o.phs, mem', maps[c], pages[c]) {
      assert Holds(o.data, o.phs, mem, maps[c], pages[c]);
      assert frames[c] < k;
      forall b: nat | b < 0x1000 ensures ByteIn(mem', maps[c].phys, b) == ByteIn(mem, maps[c].phys, b) {
        Lower(o.start, frames[c], k, b);
      }
    }
  }

  lemma Lower(start: nat, i: nat, k: nat, b: nat)
    requires i < k && b < 0x1000
    ensures start + 0x1000 * i + b < start + 0x1000 * k
  {
  }

  lemma NotCopied(data: seq<byte>, ph: ProgramHeader, virt: nat)
    requires |data| < U64_LIMIT && Skipped(ph, virt)
    ensures !Copied(data, ph, virt)
  {
  }

  /** The page just loaded holds its bytes, beside the pages loaded before. */
  lemma ContentMore(data: seq<byte>, phs: seq<ProgramHeader>, mem: Memory, mem': Memory, maps: seq<MapCall>,
                    pages: seq<Page>, call: MapCall, p: Page)
    requires Content(data, phs, mem', maps, pages) && p.seg < |phs|
    requires PageLoaded(data, phs[p.seg], call.virt, call.phys, mem, mem')
    ensures Content(data, phs, mem', maps + [call], pages + [p])
  {
    forall b: nat | b < 0x1000 ensures ByteIn(mem', call.phys, b) == PageByte(data, phs[p.seg], call.virt, b) {
      assert mem'(call.phys + b) == AfterCopy(mem, data, phs[p.seg], call.virt, call.phys, call.phys + b);
    }
    assert Holds(data, phs, mem', call, p);
    var maps', pages' := maps + [call], pages + [p];
    forall c | 0 <= c < |maps'| ensures Holds(data, phs, mem', maps'[c], pages'[c]) {
      if c < |maps| { assert Holds(data, phs, mem', maps[c], pages[c]); }
    }
  }

  /** The callback took more frames and wrote in page tables only. */
  lemma LoadedCalled(o: Origin, mem: Memory, mem': Memory, maps: seq<MapCall>, pages: seq<Page>, tables: set<nat>,
                     tables': set<nat>, frames: nat, used: set<nat>, used': set<nat>)
    requires Loaded(o, mem, maps, pages, tables, used) && Since(o.start, used, tables, used', tables')
    requires TablesApart(tables', maps, o.start, frames, used')
    requires forall a: nat :: !InTable(tables', a) ==> mem'(a) == mem(a)
    ensures Loaded(o, mem', maps, pages, tables', used')
  {
    LowestTrans(o.used, used, used');
    TablesTrans(o, used, tables, used', tables');
    ContentCalled(o, mem, mem', maps, pages, tables', frames, used');
    forall a: nat | !Inside(o, used', a) ensures mem'(a) == mem(a) && !Inside(o, used, a) {
      InsideGrows(o, used, used', a);
      if InTable(tables', a) { TablesInside(o, used', tables', a); }
    }
  }

  lemma TablesTrans(o: Origin, used: set<nat>, tables: set<nat>, used': set<nat>, tables': set<nat>)
    requires TablesNew(o.start, o.used, o.tables, used, tables) && TablesNew(o.start, used, tables, used', tables')
    requires o.used <= used <= used'
    ensures TablesNew(o.start, o.used, o.tables, used', tables')
  {
    TablesStayNew(o, used, used', tables);
    forall t | t in tables' && t !in o.tables ensures IsNewFrame(o.start, o.used, used', t) {
      if t !in tables {
        assert IsNewFrame(o.start, used, used', t);
        var f :| f in used' && f !in used && t == o.start + 0x1000 * f;
        assert f !in o.used;
      }
    }
  }

  lemma TablesInside(o: Origin, used: set<nat>, tables: set<nat>, a: nat)
    requires TablesNew(o.start, o.used, o.tables, used, tables) && InTable(tables, a)
    ensures Inside(o, used, a)
  {
    var t :| t in tables && t <= a < t + 0x1000;
    if t !in o.tables {
      assert IsNewFrame(o.start, o.used, used, t);
      var f :| f in used && f !in o.used && t == o.start + 0x1000 * f;
      assert InFrame(o.start, f, a);
    }
  }

  lemma ContentCalled(o: Origin, mem: Memory, mem': Memory, maps: seq<MapCall>, pages: seq<Page>, tables: set<nat>,
                      frames: nat, used: set<nat>)
    requires Content(o.data, o.phs, mem, maps, pages) && TablesApart(tables, maps, o.start, frames, used)
    requires forall a: nat :: !InTable(tables, a) ==> mem'(a) == mem(a)
    ensures Content(o.data, o.phs, mem', maps, pages)
  {
    forall c | 0 <= c < |maps| ensures Holds(o.data, o.phs, mem', maps[c], pages[c]) {
      assert Holds(o.data, o.phs, mem, maps[c], pages[c]);
      forall b: nat | b < 0x1000 ensures ByteIn(mem', maps[c].phys, b) == ByteIn(mem, maps[c].phys, b) {
        NotInTable(tables, maps[c].phys, b);
      }
    }
  }

  lemma NotInTable(tables: set<nat>, phys: nat, b: nat)
    requires b < 0x1000 && forall t :: t in tables ==> Apart(t, phys)
    ensures !InTable(tables, phys + b)
  {
  }

  /** The page at hand was loaded and map_page is called for it. */
  lemma StepMapped(o: Origin, needs: nat -> nat, mem: Memory, mem': Memory, maps: seq<MapCall>, pages: seq<Page>,
                   frames: seq<nat>, tables: set<nat>, used: set<nat>, s: nat, j: nat, k: nat, call: MapCall)
    requires Underway(o, needs, mem, maps, pages, frames, tables, used, s, j) && IsPage(o.phs, Page(s, j))
    requires |used| == |o.used| + Taken(o.phs, needs, s, j) && OwnFrames(maps, frames, o.start, used)
    requires k !in used && (forall i :: 0 <= i < k ==> i in used) && call.phys == o.start + 0x1000 * k
    requires CallFor(o.phs, Page(s, j), call) && PageLoaded(o.data, o.phs[s], call.virt, call.phys, mem, mem')
    ensures Underway(o, needs, mem', maps + [call], pages + [Page(s, j)], frames + [k], tables, used + {k}, s, j + 1)
  {
    LoadedMapped(o, mem, mem', maps, pages, frames, tables, used, k, call, Page(s, j));
    ProgressMapped(o.phs, maps, pages, s, j, call);
    NextTaken(o.used, used, k);
    PlacedMore(o, needs, pages, frames, Page(s, j), k);
  }

  lemma PlacedMore(o: Origin, needs: nat -> nat, pages: seq<Page>, frames: seq<nat>, p: Page, k: nat)
    requires Placed(o, needs, pages, frames) && PlacedAt(o, needs, p, k)
    ensures Placed(o, needs, pages + [p], frames + [k])
  {
    var pages', frames' := pages + [p], frames + [k];
    forall c | 0 <= c < |pages'| ensures PlacedAt(o, needs, pages'[c], frames'[c]) {
      if c < |pages| { assert PlacedAt(o, needs, pages[c], frames[c]); }
    }
  }

  /** The page at hand was given a frame and skipped. */
  lemma StepSkipped(o: Origin, needs: nat -> nat, mem: Memory, mem': Memory, maps: seq<MapCall>, pages: seq<Page>,
                    frames: seq<nat>, tables: set<nat>, used: set<nat>, s: nat, j: nat, k: nat)
    requires Underway(o, needs, mem, maps, pages, frames, tables, used, s, j) && IsStep(o.phs, s, j)
    requires OwnFrames(maps, frames, o.start, used) && |o.data| < U64_LIMIT && Skipped(o.phs[s], Virt(o.phs[s], j))
    requires k !in used && forall i :: 0 <= i < k ==> i in used
    requires PageLoaded(o.data, o.phs[s], Virt(o.phs[s], j), o.start + 0x1000 * k, mem, mem')
    ensures Underway(o, needs, mem', maps, pages, frames, tables, used + {k}, s, j + 1)
  {
    LoadedSkipped(o, o.phs[s], Virt(o.phs[s], j), mem, mem', maps, pages, frames, tables, used, k);
    ProgressSkipped(o.phs, maps, pages, s, j);
  }

  lemma Begins(o: Origin, needs: nat -> nat, frames: seq<nat>)
    requires frames == []
    ensures Underway(o, needs, o.mem, [], [], frames, o.tables, o.used, 0, 0)
  {
  }

  lemma StepNext(o: Origin, needs: nat -> nat, mem: Memory, maps: seq<MapCall>, pages: seq<Page>, frames: seq<nat>,
                 tables: set<nat>, used: set<nat>, s: nat)
    requires s < |o.phs| && Underway(o, needs, mem, maps, pages, frames, tables, used, s, SegPages(o.phs[s]))
    ensures Underway(o, needs, mem, maps, pages, frames, tables, used, s + 1, 0)
    ensures Taken(o.phs, needs, s + 1, 0) == Taken(o.phs, needs, s, SegPages(o.phs[s]))
  {
    ProgressNext(o.phs, maps, pages, s, SegPages(o.phs[s]));
  }

  // ---- When a load keeps the memory outside its frames ----------------------

  /** Frame `f` is the one that the first page of segment `s` will get. */
  ghost predicate FirstFrame(o: Origin, needs: nat -> nat, s: nat, f: nat) {
    s < |o.phs| && f !in o.used && FreeBelow(o.used, f) == Taken(o.phs, needs, s, 0)
  }

  /** The copy into frame `f` for the first page of segment `s` runs over address `a`. */
  ghost predicate SpilledTo(o: Origin, s: nat, f: nat, a: nat)
    requires s < |o.phs|
  {
    o.start + 0x1000 * f <= a && Spills(o.data, o.phs[s], o.phs[s].StartPage(), a - (o.start + 0x1000 * f))
  }

  /**
   * The copy past frame `f` does no harm: the load takes the next frame too, or what lies there outside the page
   * tables holds the copied bytes already.
   */
  ghost predicate Harmless(o: Origin, needs: nat -> nat, s: nat, f: nat)
    requires s < |o.phs|
  {
    || (f + 1 !in o.used && Taken(o.phs, needs, s, 0) + 1 < Taken(o.phs, needs, |o.phs|, 0))
    || forall a: nat :: SpilledTo(o, s, f, a) && !InTable(o.tables, a) ==>
         o.mem(a) == PageByte(o.data, o.phs[s], o.phs[s].StartPage(), a - (o.start + 0x1000 * f))
  }

  /** Every segment whose first page is copied and does not fit does no harm; all of it is known before the load. */
  ghost predicate AllHarmless(o: Origin, needs: nat -> nat) {
    forall s: nat, f: nat :: FirstFrame(o, needs, s, f) && o.phs[s].Loads() && SpillsOver(o.data, o.phs[s]) ==>
      Harmless(o, needs, s, f)
  }

  ghost predicate OutsideKept(o: Origin, mem: Memory, used: set<nat>) {
    forall a: nat :: !Inside(o, used, a) ==> mem(a) == o.mem(a)
  }

  /** The state after a successful load. */
  ghost predicate Finished(o: Origin, needs: nat -> nat, mem: Memory, maps: seq<MapCall>, pages: seq<Page>,
                           frames: seq<nat>, tables: set<nat>, used: set<nat>)
  {
    && Underway(o, needs, mem, maps, pages, frames, tables, used, |o.phs|, 0) && OwnFrames(maps, frames, o.start, used)
    && |used| == |o.used| + Taken(o.phs, needs, |o.phs|, 0)
  }

  /** A successful load keeps all memory outside its frames and the page tables exactly when no segment does harm. */
  lemma KeepsOutsideIff(o: Origin, needs: nat -> nat, mem: Memory, maps: seq<MapCall>, pages: seq<Page>,
                        frames: seq<nat>, tables: set<nat>, used: set<nat>)
    requires Finished(o, needs, mem, maps, pages, frames, tables, used) && |o.data| < U64_LIMIT
    ensures OutsideKept(o, mem, used) <==> AllHarmless(o, needs)
  {
    if OutsideKept(o, mem, used) {
      forall s: nat, f: nat | FirstFrame(o, needs, s, f) && o.phs[s].Loads() && SpillsOver(o.data, o.phs[s])
        ensures Harmless(o, needs, s, f)
      {
        KeptHarmless(o, needs, mem, maps, pages, frames, tables, used, s, f);
      }
    }
    if AllHarmless(o, needs) {
      forall a: nat | !Inside(o, used, a) ensures mem(a) == o.mem(a) {
        HarmlessKept(o, needs, mem, maps, pages, frames, tables, used, a);
      }
    }
  }

  /** The next frame was taken too exactly when it was free and the load took more frames. */
  lemma NextIsNew(o: Origin, needs: nat -> nat, used: set<nat>, s: nat, f: nat)
    requires FirstFrame(o, needs, s, f) && LowestFirst(o.used, used)
    requires |used| == |o.used| + Taken(o.phs, needs, |o.phs|, 0)
    ensures f + 1 in used && f + 1 !in o.used <==>
      f + 1 !in o.used && Taken(o.phs, needs, s, 0) + 1 < Taken(o.phs, needs, |o.phs|, 0)
  {
    assert FreeBelow(o.used, f + 1) == FreeBelow(o.used, f) + 1;
    if f + 1 !in o.used { TakenIff(o.used, used, f + 1); }
  }

  lemma HarmlessKept(o: Origin, needs: nat -> nat, mem: Memory, maps: seq<MapCall>, pages: seq<Page>, frames: seq<nat>,
                     tables: set<nat>, used: set<nat>, a: nat)
    requires Finished(o, needs, mem, maps, pages, frames, tables, used) && AllHarmless(o, needs)
    requires !Inside(o, used, a)
    ensures mem(a) == o.mem(a)
  {
    if !NoSpill(o, maps, pages, a) {
      var c :| 0 <= c < |maps| && SpillAt(o, maps[c], pages[c], a);
      SpillHarmless(o, needs, maps, pages, frames, used, a, c);
    }
  }

  /** A call whose copy ran over `a`, outside: `a` held that byte before. */
  lemma SpillHarmless(o: Origin, needs: nat -> nat, maps: seq<MapCall>, pages: seq<Page>, frames: seq<nat>,
                      used: set<nat>, a: nat, c: nat)
    requires Progress(o.phs, maps, pages, |o.phs|, 0) && Placed(o, needs, pages, frames)
    requires OwnFrames(maps, frames, o.start, used) && LowestFirst(o.used, used) && AllHarmless(o, needs)
    requires |used| == |o.used| + Taken(o.phs, needs, |o.phs|, 0)
    requires c < |maps| && SpillAt(o, maps[c], pages[c], a) && !Inside(o, used, a)
    ensures o.mem(a) == PageByte(o.data, o.phs[pages[c].seg], maps[c].virt, a - maps[c].phys)
  {
    var s, f := pages[c].seg, frames[c];
    assert CallFor(o.phs, pages[c], maps[c]) && PlacedAt(o, needs, pages[c], f) && IsPage(o.phs, pages[c]);
    SpillsWhere(o.data, o.phs[s], pages[c].idx, a - maps[c].phys);
    assert Virt(o.phs[s], 0) == o.phs[s].StartPage();
    SpillNext(o, maps[c], pages[c], a, f);
    NextIsNew(o, needs, used, s, f);
    assert FirstFrame(o, needs, s, f) && SpilledTo(o, s, f, a);
    assert Harmless(o, needs, s, f);
  }

  lemma KeptHarmless(o: Origin, needs: nat -> nat, mem: Memory, maps: seq<MapCall>, pages: seq<Page>, frames: seq<nat>,
                     tables: set<nat>, used: set<nat>, s: nat, f: nat)
    requires Finished(o, needs, mem, maps, pages, frames, tables, used) && OutsideKept(o, mem, used)
    requires |o.data| < U64_LIMIT
    requires FirstFrame(o, needs, s, f) && o.phs[s].Loads() && SpillsOver(o.data, o.phs[s])
    ensures Harmless(o, needs, s, f)
  {
    NextIsNew(o, needs, used, s, f);
    if !(f + 1 in used && f + 1 !in o.used) {
      var c := FirstCall(o, needs, mem, maps, pages, frames, tables, used, s, f);
      forall a: nat | SpilledTo(o, s, f, a) && !InTable(o.tables, a)
        ensures o.mem(a) == PageByte(o.data, o.phs[s], o.phs[s].StartPage(), a - (o.start + 0x1000 * f))
      {
        assert SpillAt(o, maps[c], pages[c], a);
        SpillNext(o, maps[c], pages[c], a, f);
        OnlyNext(o, used, f, a);
      }
    }
  }

  /** An address in a frame that was not taken. */
  lemma OnlyNext(o: Origin, used: set<nat>, f: nat, a: nat)
    requires InFrame(o.start, f + 1, a) && !(f + 1 in used && f + 1 !in o.used) && !InTable(o.tables, a)
    ensures !Inside(o, used, a)
  {
    forall g | InFrame(o.start, g, a) ensures g == f + 1 { FrameOnce(o.start, g, f + 1, a); }
  }

  /** The call for the first page of a segment that runs over. */
  lemma FirstCall(o: Origin, needs: nat -> nat, mem: Memory, maps: seq<MapCall>, pages: seq<Page>, frames: seq<nat>,
                  tables: set<nat>, used: set<nat>, s: nat, f: nat) returns (c: nat)
    requires Finished(o, needs, mem, maps, pages, frames, tables, used) && |o.data| < U64_LIMIT
    requires FirstFrame(o, needs, s, f) && o.phs[s].Loads() && SpillsOver(o.data, o.phs[s])
    ensures c < |maps| && c < |pages| && pages[c] == Page(s, 0) && maps[c].virt == o.phs[s].StartPage()
    ensures maps[c].phys == o.start + 0x1000 * f
  {
    PagesCover(o.phs[s]);
    assert Virt(o.phs[s], 0) == o.phs[s].StartPage();
    assert IsPage(o.phs, Page(s, 0)) by {
      if Skipped(o.phs[s], Virt(o.phs[s], 0)) { NotCopied(o.data, o.phs[s], Virt(o.phs[s], 0)); }
    }
    c := CallOf(o.phs, maps, pages, Page(s, 0));
    assert PlacedAt(o, needs, pages[c], frames[c]);
    if f < frames[c] { FreeBelowGrows(o.used, f, frames[c]); }
    if frames[c] < f { FreeBelowGrows(o.used, frames[c], f); }
  }

  lemma SinceTable(start: nat, used0: set<nat>, tables0: set<nat>, used: set<nat>, tables: set<nat>, used': set<nat>,
                   tables': set<nat>, k: nat, t: nat)
    requires Since(start, used0, tables0, used, tables) && k !in used && forall j :: 0 <= j < k ==> j in used
    requires t == start + 0x1000 * k && tables' == tables + {t} && used' == used + {k}
    ensures Since(start, used0, tables0, used', tables')
  {
    LowestMore(used0, used, k);
    forall u | u in tables' && u !in tables0 ensures IsNewFrame(start, used0, used', u) {
      if u in tables {
        assert IsNewFrame(start, used0, used, u);
        var f :| f in used && f !in used0 && u == start + 0x1000 * f;
        assert f in used';
      } else {
        assert k in used';
      }
    }
  }

  // ---- The image ----------------------------------------------------------

  /** The byte at virtual address `a` through call `c`. */
  ghost predicate Maps(mem: Memory, call: MapCall, a: nat, v: byte) {
    call.virt <= a < call.virt + 0x1000 && ByteIn(mem, call.phys, a - call.virt) == v
  }

  /**
   * After a successful load every address of a segment is mapped by one call, to the file byte or zero that belongs
   * there.
   */
  lemma ImageCorrect(data: seq<byte>, phs: seq<ProgramHeader>, mem: Memory, maps: seq<MapCall>, pages: seq<Page>,
                     i: nat, a: nat)
    returns (c: nat)
    requires |data| < U64_LIMIT && NoOverlap(phs) && Progress(phs, maps, pages, |phs|, 0)
    requires Content(data, phs, mem, maps, pages)
    requires i < |phs| && phs[i].Loads() && InFile(data, phs[i]) && phs[i].StartPage() <= a < phs[i].EndPage().value
    ensures c < |maps| && Maps(mem, maps[c], a, ImageByte(data, phs[i], a))
    ensures maps[c].writable == phs[i].Writable() && maps[c].executable == phs[i].Executable()
    ensures forall d :: 0 <= d < |maps| && d != c ==> !(maps[d].virt <= a < maps[d].virt + 0x1000)
  {
    var j := PageOfAddress(data, phs[i], a);
    assert IsPage(phs, Page(i, j)) && Before(|phs|, 0, Page(i, j));
    c := CallOf(phs, maps, pages, Page(i, j));
    PageIsImage(data, phs[i], j, a - Virt(phs[i], j));
    assert Holds(data, phs, mem, maps[c], pages[c]);
    assert ByteIn(mem, maps[c].phys, a - maps[c].virt) == PageByte(data, phs[i], maps[c].virt, a - maps[c].virt);
    OnlyCall(phs, maps, pages, c, a);
  }

  lemma PageOfAddress(data: seq<byte>, ph: ProgramHeader, a: nat) returns (j: nat)
    requires |data| < U64_LIMIT && ph.Loads() && InFile(data, ph) && ph.StartPage() <= a < ph.EndPage().value
    ensures j < ph.Pages() && Virt(ph, j) <= a < Virt(ph, j) + 0x1000 && !Skipped(ph, Virt(ph, j))
  {
    PagesCover(ph);
    j := (a - ph.StartPage()) / 0x1000;
    NotSkipped(data, ph, Virt(ph, j));
  }

  lemma CallOf(phs: seq<ProgramHeader>, maps: seq<MapCall>, pages: seq<Page>, p: Page) returns (c: nat)
    requires Progress(phs, maps, pages, |phs|, 0) && IsPage(phs, p)
    ensures c < |maps| && c < |pages| && pages[c] == p && CallFor(phs, p, maps[c])
  {
    assert Before(|phs|, 0, p) && p in pages;
    c :| 0 <= c < |maps| && pages[c] == p;
  }

  /** No other call maps the page of an address. */
  lemma OnlyCall(phs: seq<ProgramHeader>, maps: seq<MapCall>, pages: seq<Page>, c: nat, a: nat)
    requires NoOverlap(phs) && Progress(phs, maps, pages, |phs|, 0) && c < |maps|
    requires maps[c].virt <= a < maps[c].virt + 0x1000
    ensures forall d :: 0 <= d < |maps| && d != c ==> !(maps[d].virt <= a < maps[d].virt + 0x1000)
  {
    PageAligned(phs, pages[c]);
    forall d | 0 <= d < |maps| && d != c ensures !(maps[d].virt <= a < maps[d].virt + 0x1000) {
      assert pages[d] != pages[c];
      PagesApart(phs, pages[c], pages[d]);
      PageAligned(phs, pages[d]);
      SamePageOnly(maps[c].virt, maps[d].virt, a);
    }
  }

  lemma SamePageOnly(v: nat, w: nat, a: nat)
    requires v % 0x1000 == 0 && w % 0x1000 == 0 && v <= a < v + 0x1000 && v != w
    ensures !(w <= a < w + 0x1000)
  {
  }

  lemma PageAligned(phs: seq<ProgramHeader>, p: Page)
    requires IsPage(phs, p)
    ensures Virt(phs[p.seg], p.idx) % 0x1000 == 0
  {
    PagesCover(phs[p.seg]);
  }
}
