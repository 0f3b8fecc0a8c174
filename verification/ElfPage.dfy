/** One page of a PT_LOAD segment, the order in which load_elf takes the pages, and the frames it takes for them. */
module ElfPage {
  import opened Bytes
  import opened Elf

  /** Physical memory, by address. */
  type Memory = nat -> byte

  /** One call of the map_page callback. */
  datatype MapCall = MapCall(virt: nat, phys: nat, writable: bool, executable: bool)

  /** A page of a segment: header index and page index. */
  datatype Page = Page(seg: nat, idx: nat)

  // ---- One page -----------------------------------------------------------

  function Min(a: nat, b: nat): nat { if a < b then a else b }

  /** Where in the segment the page at `virt` starts (saturating at 0). */
  function SegOffset(ph: ProgramHeader, virt: nat): nat {
    if virt < ph.vaddr then 0 else virt - ph.vaddr
  }

  /** The number of file bytes copied into the page at `virt`. */
  function CopyLen(ph: ProgramHeader, virt: nat): nat {
    var o := SegOffset(ph, virt);
    if o < ph.filesz then Min(o + 0x1000, ph.filesz) - o else 0
  }

  /** Where inside the page they go. */
  function InPage(ph: ProgramHeader, virt: nat): nat {
    if virt == ph.StartPage() then ph.vaddr % 0x1000 else 0
  }

  /** The address arithmetic on the file offset overflows: the source then skips the page without mapping it. */
  predicate Skipped(ph: ProgramHeader, virt: nat) {
    CopyLen(ph, virt) > 0 && ph.offset + SegOffset(ph, virt) + CopyLen(ph, virt) >= U64_LIMIT
  }

  /** The copied range lies inside the file; otherwise the page stays zero. */
  predicate Copied(data: seq<byte>, ph: ProgramHeader, virt: nat) {
    CopyLen(ph, virt) > 0 && ph.offset + SegOffset(ph, virt) + CopyLen(ph, virt) <= |data|
  }

  /** Byte `b` of the page at `virt` as the copy leaves it. */
  function PageByte(data: seq<byte>, ph: ProgramHeader, virt: nat, b: nat): byte {
    var i := InPage(ph, virt);
    if Copied(data, ph, virt) && i <= b < i + CopyLen(ph, virt) then data[ph.offset + SegOffset(ph, virt) + b - i]
    else 0
  }

  /** The copy into the first page ends inside it. */
  predicate Fits(ph: ProgramHeader) {
    ph.vaddr % 0x1000 + Min(ph.filesz, 0x1000) <= 0x1000
  }

  function Virt(ph: ProgramHeader, j: nat): nat {
    ph.StartPage() + 0x1000 * j
  }

  /** Byte `b` past the frame of the page at `virt` is written by the copy. */
  predicate Spills(data: seq<byte>, ph: ProgramHeader, virt: nat, b: nat) {
    Copied(data, ph, virt) && 0x1000 <= b < InPage(ph, virt) + CopyLen(ph, virt)
  }

  /** The byte at `a` after zeroing the frame at `phys` and copying the file bytes of the page at `virt` into it. */
  function AfterCopy(mem: Memory, data: seq<byte>, ph: ProgramHeader, virt: nat, phys: nat, a: nat): byte {
    if phys <= a && (a < phys + 0x1000 || Spills(data, ph, virt, a - phys)) then PageByte(data, ph, virt, a - phys)
    else mem(a)
  }

  /** Some byte outside the frame can change. */
  ghost predicate ChangesOutside(data: seq<byte>, ph: ProgramHeader, virt: nat, phys: nat) {
    exists mem: Memory, a: nat :: !(phys <= a < phys + 0x1000) && AfterCopy(mem, data, ph, virt, phys, a) != mem(a)
  }

  /** The first page of the segment is copied and does not fit. */
  predicate SpillsOver(data: seq<byte>, ph: ProgramHeader) {
    Copied(data, ph, ph.StartPage()) && !Fits(ph)
  }

  lemma SpillsWhere(data: seq<byte>, ph: ProgramHeader, j: nat, b: nat)
    requires Spills(data, ph, Virt(ph, j), b)
    ensures j == 0 && SpillsOver(data, ph) && b < 0x2000 && Spills(data, ph, Virt(ph, j), 0x1000)
  {
  }

  lemma SpillsFirst(data: seq<byte>, ph: ProgramHeader)
    requires SpillsOver(data, ph)
    ensures Spills(data, ph, ph.StartPage(), 0x1000)
  {
    assert SegOffset(ph, ph.StartPage()) == 0;
  }

  /**
   * Loading some page of a segment writes outside the frame of that page exactly when the segment's first page is
   * copied and does not fit.
   */
  lemma WritesOutsideIff(data: seq<byte>, ph: ProgramHeader, phys: nat)
    requires ph.Loads()
    ensures (exists j: nat :: j < ph.Pages() && ChangesOutside(data, ph, Virt(ph, j), phys)) <==> SpillsOver(data, ph)
  {
    if exists j: nat :: j < ph.Pages() && ChangesOutside(data, ph, Virt(ph, j), phys) {
      var j: nat :| j < ph.Pages() && ChangesOutside(data, ph, Virt(ph, j), phys);
      var mem: Memory, a: nat :|
        !(phys <= a < phys + 0x1000) && AfterCopy(mem, data, ph, Virt(ph, j), phys, a) != mem(a);
      SpillsWhere(data, ph, j, a - phys);
    }
    if SpillsOver(data, ph) {
      SpillsFirst(data, ph);
      assert Virt(ph, 0) == ph.StartPage();
      SpillChanges(data, ph, phys);
    }
  }

  lemma SpillChanges(data: seq<byte>, ph: ProgramHeader, phys: nat)
    requires Spills(data, ph, Virt(ph, 0), 0x1000)
    ensures ChangesOutside(data, ph, Virt(ph, 0), phys)
  {
    var v := PageByte(data, ph, Virt(ph, 0), 0x1000);
    var mem: Memory := (a: nat) => if v == 0 then 1 else 0;
    assert AfterCopy(mem, data, ph, Virt(ph, 0), phys, phys + 0x1000) == v;
    assert mem(phys + 0x1000) != v;
  }

  /** A segment of 16 bytes at page offset 0xFF8: its copy runs 8 bytes past the frame. */
  lemma CopyLeavesPage(data: seq<byte>, mem: Memory, phys: nat)
    requires |data| >= 16
    ensures var ph := ProgramHeader(PT_LOAD, 4, 0, 0x400FF8, 16, 16);
            && ph.Loads() && SpillsOver(data, ph)
            && forall a: nat :: phys + 0x1000 <= a < phys + 0x1008 ==>
                 AfterCopy(mem, data, ph, ph.StartPage(), phys, a) == data[a - phys - 0xFF8]
  {
  }

  /** A file range that ends at 2^64 or above: the page is never mapped. */
  lemma OverflowSkips()
    ensures var ph := ProgramHeader(PT_LOAD, 4, 0xFFFF_FFFF_FFFF_FFFF, 0x400000, 16, 16);
            ph.Wide() && ph.Loads() && Skipped(ph, ph.StartPage())
  {
  }

  /** The file range of the segment lies inside the input. */
  predicate InFile(data: seq<byte>, ph: ProgramHeader) {
    ph.filesz <= ph.memsz && ph.offset + ph.filesz <= |data|
  }

  lemma NotSkipped(data: seq<byte>, ph: ProgramHeader, virt: nat)
    requires InFile(data, ph) && |data| < U64_LIMIT
    ensures !Skipped(ph, virt) && (CopyLen(ph, virt) > 0 ==> Copied(data, ph, virt))
  {
  }

  /** The image of a segment: file bytes at vaddr, zeros around them up to the page ends. */
  function ImageByte(data: seq<byte>, ph: ProgramHeader, a: nat): byte
    requires InFile(data, ph)
  {
    if ph.vaddr <= a < ph.vaddr + ph.filesz then data[ph.offset + a - ph.vaddr] else 0
  }

  lemma PageIsImage(data: seq<byte>, ph: ProgramHeader, j: nat, b: nat)
    requires InFile(data, ph) && |data| < U64_LIMIT && ph.Loads() && j < ph.Pages() && b < 0x1000
    ensures PageByte(data, ph, Virt(ph, j), b) == ImageByte(data, ph, Virt(ph, j) + b)
  {
    NotSkipped(data, ph, Virt(ph, j));
    if j == 0 {
      assert Virt(ph, 0) == ph.StartPage() && ph.vaddr == ph.StartPage() + ph.vaddr % 0x1000;
    } else {
      assert Virt(ph, j) >= ph.vaddr;
    }
  }

  // ---- Which pages are mapped ---------------------------------------------

  /** A page of a loaded segment that the source does not skip. */
  predicate IsPage(phs: seq<ProgramHeader>, p: Page) {
    p.seg < |phs| && phs[p.seg].Loads() && p.idx < phs[p.seg].Pages() && !Skipped(phs[p.seg], Virt(phs[p.seg], p.idx))
  }

  /** The call that maps a page, with the segment's permissions. */
  predicate CallFor(phs: seq<ProgramHeader>, p: Page, call: MapCall)
    requires p.seg < |phs|
  {
    var ph := phs[p.seg];
    call.virt == Virt(ph, p.idx) && call.writable == ph.Writable() && call.executable == ph.Executable()
  }

  /** The pages before page `j` of segment `s`, in loading order. */
  predicate Before(s: nat, j: nat, p: Page) {
    p.seg < s || (p.seg == s && p.idx < j)
  }

  /** The calls so far map exactly the pages before page `j` of segment `s`, each once. */
  ghost predicate Progress(phs: seq<ProgramHeader>, maps: seq<MapCall>, pages: seq<Page>, s: nat, j: nat) {
    && |pages| == |maps|
    && (forall c :: 0 <= c < |maps| ==>
        IsPage(phs, pages[c]) && Before(s, j, pages[c]) && CallFor(phs, pages[c], maps[c]))
    && (forall c, d :: 0 <= c < d < |maps| ==> pages[c] != pages[d])
    && (forall p :: IsPage(phs, p) && Before(s, j, p) ==> p in pages)
  }

  lemma ProgressMapped(phs: seq<ProgramHeader>, maps: seq<MapCall>, pages: seq<Page>, s: nat, j: nat, call: MapCall)
    requires Progress(phs, maps, pages, s, j) && IsPage(phs, Page(s, j)) && CallFor(phs, Page(s, j), call)
    ensures Progress(phs, maps + [call], pages + [Page(s, j)], s, j + 1)
  {
    var pages' := pages + [Page(s, j)];
    forall p | IsPage(phs, p) && Before(s, j + 1, p) ensures p in pages' {
      if p == Page(s, j) { assert pages'[|pages|] == p; } else { assert Before(s, j, p) && p in pages; }
    }
  }

  lemma ProgressSkipped(phs: seq<ProgramHeader>, maps: seq<MapCall>, pages: seq<Page>, s: nat, j: nat)
    requires Progress(phs, maps, pages, s, j) && !IsPage(phs, Page(s, j))
    ensures Progress(phs, maps, pages, s, j + 1)
  {
    forall p | IsPage(phs, p) && Before(s, j + 1, p) ensures p in pages { assert p != Page(s, j) && Before(s, j, p); }
  }

  lemma ProgressNext(phs: seq<ProgramHeader>, maps: seq<MapCall>, pages: seq<Page>, s: nat, j: nat)
    requires Progress(phs, maps, pages, s, j) && s < |phs| && (phs[s].Loads() ==> j == phs[s].Pages())
    ensures Progress(phs, maps, pages, s + 1, 0)
  {
    forall p | IsPage(phs, p) && Before(s + 1, 0, p) ensures p in pages { assert Before(s, j, p); }
  }

  /** Different pages have different addresses, since the segments do not overlap. */
  lemma PagesApart(phs: seq<ProgramHeader>, p: Page, q: Page)
    requires NoOverlap(phs) && IsPage(phs, p) && IsPage(phs, q) && p != q
    ensures Virt(phs[p.seg], p.idx) != Virt(phs[q.seg], q.idx)
  {
    PagesCover(phs[p.seg]);
    PagesCover(phs[q.seg]);
    assert p.seg < q.seg ==> !Overlap(phs[p.seg], phs[q.seg]);
    assert q.seg < p.seg ==> !Overlap(phs[q.seg], phs[p.seg]);
  }

  // ---- Frames taken -------------------------------------------------------

  /** The pages of a header: none unless it is a segment to load. */
  function SegPages(ph: ProgramHeader): nat {
    if ph.Loads() then ph.Pages() else 0
  }

  /** The calls of map_page before page `j` of segment `s`. */
  function Calls(phs: seq<ProgramHeader>, s: nat, j: nat): nat
    requires s <= |phs| && (s == |phs| ==> j == 0)
    decreases s, j
  {
    if j > 0 then Calls(phs, s, j - 1) + if Skipped(phs[s], Virt(phs[s], j - 1)) then 0 else 1
    else if s == 0 then 0 else Calls(phs, s - 1, SegPages(phs[s - 1]))
  }

  /**
   * The frames taken before page `j` of segment `s`: one for each page, and `needs(c)` for the page tables of call
   * number c.
   */
  function Taken(phs: seq<ProgramHeader>, needs: nat -> nat, s: nat, j: nat): nat
    requires s <= |phs| && (s == |phs| ==> j == 0)
    decreases s, j
  {
    if j > 0 then Taken(phs, needs, s, j - 1) + 1 + CallNeeds(phs, needs, s, j - 1)
    else if s == 0 then 0 else Taken(phs, needs, s - 1, SegPages(phs[s - 1]))
  }

  /** The frames that the call for page `j` of segment `s` takes, if there is one. */
  function CallNeeds(phs: seq<ProgramHeader>, needs: nat -> nat, s: nat, j: nat): nat
    requires s < |phs|
    decreases s, j, 0
  {
    if Skipped(phs[s], Virt(phs[s], j)) then 0 else needs(Calls(phs, s, j))
  }

  predicate IsStep(phs: seq<ProgramHeader>, s: nat, j: nat) {
    s < |phs| && j < SegPages(phs[s])
  }

  lemma {:induction false} TakenInSegment(phs: seq<ProgramHeader>, needs: nat -> nat, s: nat, i: nat, j: nat)
    requires s < |phs| && i <= j
    ensures Taken(phs, needs, s, i) <= Taken(phs, needs, s, j)
  {
    if i < j { TakenInSegment(phs, needs, s, i, j - 1); }
  }

  lemma {:induction false} TakenSegments(phs: seq<ProgramHeader>, needs: nat -> nat, s: nat, t: nat)
    requires s <= t <= |phs|
    ensures Taken(phs, needs, s, 0) <= Taken(phs, needs, t, 0)
  {
    if s < t {
      TakenSegments(phs, needs, s, t - 1);
      TakenInSegment(phs, needs, t - 1, 0, SegPages(phs[t - 1]));
    }
  }

  /** Frames are taken in loading order. */
  lemma TakenInOrder(phs: seq<ProgramHeader>, needs: nat -> nat, s: nat, j: nat, t: nat, k: nat)
    requires IsStep(phs, s, j) && t <= |phs| && (t == |phs| ==> k == 0) && (s < t || (s == t && j < k))
    ensures Taken(phs, needs, s, j + 1) <= Taken(phs, needs, t, k)
  {
    if s < t {
      TakenInSegment(phs, needs, s, j + 1, SegPages(phs[s]));
      TakenSegments(phs, needs, s + 1, t);
      if t < |phs| { TakenInSegment(phs, needs, t, 0, k); }
    } else {
      TakenInSegment(phs, needs, s, j + 1, k);
    }
  }

  /** With `free` frames, page `j` of segment `s` is the one that cannot be loaded and mapped any more. */
  predicate FailsAt(phs: seq<ProgramHeader>, needs: nat -> nat, free: int, s: nat, j: nat) {
    IsStep(phs, s, j) && Taken(phs, needs, s, j) <= free < Taken(phs, needs, s, j + 1)
  }

  lemma FailsOnce(phs: seq<ProgramHeader>, needs: nat -> nat, free: int, s: nat, j: nat, t: nat, k: nat)
    requires FailsAt(phs, needs, free, s, j) && FailsAt(phs, needs, free, t, k)
    ensures s == t && j == k
  {
    if s < t || (s == t && j < k) {
      TakenInOrder(phs, needs, s, j, t, k);
    } else if t < s || (t == s && k < j) {
      TakenInOrder(phs, needs, t, k, s, j);
    }
  }

  /** The frames run out at the frame of a page. */
  ghost predicate OutAtPage(phs: seq<ProgramHeader>, needs: nat -> nat, free: int) {
    exists s: nat, j: nat :: FailsAt(phs, needs, free, s, j) && Taken(phs, needs, s, j) == free
  }

  /** The frames run out inside the callback. */
  ghost predicate OutAtCall(phs: seq<ProgramHeader>, needs: nat -> nat, free: int) {
    exists s: nat, j: nat :: FailsAt(phs, needs, free, s, j) && Taken(phs, needs, s, j) < free
  }

  /** Which of the two, and not enough frames for the whole load. */
  lemma FailsHow(phs: seq<ProgramHeader>, needs: nat -> nat, free: int, s: nat, j: nat)
    requires FailsAt(phs, needs, free, s, j)
    ensures free < Taken(phs, needs, |phs|, 0)
    ensures OutAtPage(phs, needs, free) <==> Taken(phs, needs, s, j) == free
    ensures OutAtCall(phs, needs, free) <==> Taken(phs, needs, s, j) < free
  {
    TakenInOrder(phs, needs, s, j, |phs|, 0);
    forall t: nat, k: nat | FailsAt(phs, needs, free, t, k) ensures t == s && k == j {
      FailsOnce(phs, needs, free, s, j, t, k);
    }
  }

  lemma FailsNowhere(phs: seq<ProgramHeader>, needs: nat -> nat, free: int)
    requires Taken(phs, needs, |phs|, 0) <= free
    ensures !OutAtPage(phs, needs, free) && !OutAtCall(phs, needs, free)
  {
    forall s: nat, j: nat | IsStep(phs, s, j) ensures Taken(phs, needs, s, j + 1) <= free {
      TakenInOrder(phs, needs, s, j, |phs|, 0);
    }
  }

  /** Stopped: the callback found no frame for a page table, where every caller's callback panics. */
  datatype Outcome = Done | Failed(error: ElfError) | Stopped

  /** The load ended without success at page `j` of segment `s`. */
  predicate Ends(phs: seq<ProgramHeader>, needs: nat -> nat, free: int, s: nat, j: nat, r: Outcome) {
    && FailsAt(phs, needs, free, s, j) && !r.Done?
    && r == if Taken(phs, needs, s, j) == free then Failed(OutOfMemory) else Stopped
  }

  ghost predicate EndsIn(phs: seq<ProgramHeader>, needs: nat -> nat, free: int, s: nat, r: Outcome) {
    exists j: nat :: Ends(phs, needs, free, s, j, r)
  }

  lemma EndsHow(phs: seq<ProgramHeader>, needs: nat -> nat, free: int, s: nat, r: Outcome)
    requires EndsIn(phs, needs, free, s, r)
    ensures r == Failed(OutOfMemory) || r == Stopped
    ensures r == Failed(OutOfMemory) <==> OutAtPage(phs, needs, free)
    ensures r == Stopped <==> OutAtCall(phs, needs, free)
  {
    var j: nat :| Ends(phs, needs, free, s, j, r);
    FailsHow(phs, needs, free, s, j);
  }
}
