/**
 * The loading loops of load_elf (kernel/src/elf.rs), with a map_page callback that takes frames for page tables from
 * the same allocator.
 */
module ElfLoader {
  import opened Bytes
  import opened Elf
  import opened ElfMemory
  import opened ElfPage
  import opened FrameAlloc

  class Loader {
    const fa: FrameAllocator
    /** The callback: call c takes `needs(c)` frames for page tables and leaves `writes(c, a)` at table address a. */
    const needs: nat -> nat
    const writes: (nat, nat) -> byte
    /** Physical memory. */
    var mem: Memory
    /** The frames, by address, that hold page tables. */
    var tables: set<nat>
    /** The calls of map_page so far. */
    var maps: seq<MapCall>
    ghost var pages: seq<Page>
    ghost var frames: seq<nat>

    ghost predicate Valid()
      reads this, fa, fa.bitmap
    {
      && fa.Valid() && fa.initialized
      && Owning(tables, maps, frames, fa.start, fa.Frames(), fa.Used())
    }

    /** What a load of `data` with these headers begins with. */
    ghost function Begin(data: seq<byte>, phs: seq<ProgramHeader>): Origin
      reads this, fa, fa.bitmap
      requires fa.Valid()
    {
      Origin(data, phs, mem, fa.start, fa.Used(), fa.Frames() - |fa.Used()|, tables)
    }

    /** The load that began at `o` has come to page `j` of segment `s`. */
    ghost predicate At(o: Origin, s: nat, j: nat)
      reads this, fa, fa.bitmap
    {
      && Valid() && o.start == fa.start && o.free == fa.Frames() - |o.used| && |o.data| < U64_LIMIT
      && Underway(o, needs, mem, maps, pages, frames, tables, fa.Used(), s, j)
    }

    constructor (fa: FrameAllocator, mem: Memory, tables: set<nat>, needs: nat -> nat, writes: (nat, nat) -> byte)
      requires fa.Valid() && fa.initialized && TablesApart(tables, [], fa.start, fa.Frames(), fa.Used())
      ensures Valid() && this.fa == fa && this.mem == mem && this.tables == tables && maps == [] && pages == []
      ensures this.needs == needs && this.writes == writes
    {
      this.fa, this.mem, this.tables, this.needs, this.writes := fa, mem, tables, needs, writes;
      maps, pages, frames := [], [], [];
    }

    /** One round of the page loop up to the call of map_page: allocate, zero, copy. */
    method LoadPage(data: seq<byte>, ph: ProgramHeader, virt: nat) returns (r: Result<bool>, ghost k: nat)
      requires Valid() && ph.Wide() && |data| < U64_LIMIT
      modifies this`mem, this`maps, this`frames, fa.bitmap
      ensures Valid()
      ensures r.Err? <==> |old(fa.Used())| == fa.Frames()
      ensures r.Err? ==> r.error == OutOfMemory && mem == old(mem) && fa.Used() == old(fa.Used())
      ensures r.Err? ==> maps == old(maps) && frames == old(frames)
      ensures r.Ok? ==> k !in old(fa.Used()) && (forall i :: 0 <= i < k ==> i in old(fa.Used()))
      ensures r.Ok? ==> fa.Used() == old(fa.Used()) + {k} && |fa.Used()| == |old(fa.Used())| + 1
      ensures r.Ok? ==> r.value == !Skipped(ph, virt) && PageLoaded(data, ph, virt, fa.Addr(k), old(mem), mem)
      ensures r.Ok? && !r.value ==> maps == old(maps) && frames == old(frames)
      ensures r.Ok? && r.value ==> maps == old(maps) + [MapCall(virt, fa.Addr(k), ph.Writable(), ph.Executable())]
      ensures r.Ok? && r.value ==> frames == old(frames) + [k]
    {
      k := 0;
      var frame := fa.AllocFrame();
      if frame.None? { return Err(OutOfMemory), 0; }
      var phys := frame.value;
      k := fa.IndexOf(phys);
      ghost var call := MapCall(virt, phys, ph.Writable(), ph.Executable());
      OwningPage(tables, maps, frames, fa.start, fa.Frames(), old(fa.Used()), k, call);
      var skip := CopyFile(data, ph, virt, phys);
      if skip { return Ok(false), k; }
      maps := maps + [MapCall(virt, phys, ph.Writable(), ph.Executable())];
      frames := frames + [k];
      return Ok(true), k;
    }

    /** Zero the frame and copy the file bytes of this page; true if the offset arithmetic overflows. */
    method CopyFile(data: seq<byte>, ph: ProgramHeader, virt: nat, phys: nat) returns (skip: bool)
      requires ph.Wide() && |data| < U64_LIMIT
      modifies this`mem
      ensures skip == Skipped(ph, virt) && PageLoaded(data, ph, virt, phys, old(mem), mem)
    {
      ghost var mem0 := mem;
      mem := Zeroed(mem, phys);
      if !Copied(data, ph, virt) { ZeroLoaded(data, ph, virt, phys, mem0); }
      var segOffset := if virt < ph.vaddr then 0 else virt - ph.vaddr;
      if segOffset < ph.filesz {
        var copyTo := if segOffset + 0x1000 < ph.filesz then segOffset + 0x1000 else ph.filesz;
        var copyLen := copyTo - segOffset;
        if ph.offset + segOffset >= U64_LIMIT { return true; }
        var fileStart := ph.offset + segOffset;
        if fileStart + copyLen >= U64_LIMIT { return true; }
        if fileStart + copyLen <= |data| {
          var inPage := if virt == ph.StartPage() then ph.vaddr % 0x1000 else 0;
          CopyLoaded(data, ph, virt, phys, mem0);
          mem := Poke(mem, phys + inPage, data[fileStart..fileStart + copyLen]);
        }
      }
      skip := false;
    }

    /** The callback at call number `c`: it takes its frames, unless they run out, and writes in page tables only. */
    method Callback(c: nat) returns (ok: bool)
      requires Valid()
      modifies this`mem, this`tables, fa.bitmap
      ensures Valid() && Since(fa.start, old(fa.Used()), old(tables), fa.Used(), tables)
      ensures ok <==> |old(fa.Used())| + needs(c) <= fa.Frames()
      ensures ok ==> |fa.Used()| == |old(fa.Used())| + needs(c)
      ensures forall a: nat :: mem(a) == if InTable(tables, a) then writes(c, a) else old(mem)(a)
    {
      ok := true;
      FullCount(fa.Used(), fa.Frames());
      for i := 0 to needs(c)
        invariant Valid() && mem == old(mem) && ok
        invariant Since(fa.start, old(fa.Used()), old(tables), fa.Used(), tables)
        invariant |fa.Used()| == |old(fa.Used())| + i && |fa.Used()| <= fa.Frames()
      {
        ok := TakeTable(old(fa.Used()), old(tables));
        if !ok { break; }
      }
      mem := WithTables(mem, tables, a => writes(c, a));
    }

    /** A frame for one page table. */
    method TakeTable(ghost used0: set<nat>, ghost tables0: set<nat>) returns (ok: bool)
      requires Valid() && Since(fa.start, used0, tables0, fa.Used(), tables)
      modifies this`tables, fa.bitmap
      ensures Valid() && Since(fa.start, used0, tables0, fa.Used(), tables)
      ensures ok <==> |old(fa.Used())| < fa.Frames()
      ensures ok ==> |fa.Used()| == |old(fa.Used())| + 1
      ensures !ok ==> fa.Used() == old(fa.Used())
    {
      FullCount(fa.Used(), fa.Frames());
      var frame := fa.AllocFrame();
      if frame.None? { return false; }
      ghost var k := fa.IndexOf(frame.value);
      tables := tables + {frame.value};
      ghost var used, used' := old(fa.Used()), fa.Used();
      OwningTable(old(tables), tables, maps, frames, fa.start, fa.Frames(), used, used', k, frame.value);
      SinceTable(fa.start, used0, tables0, used, old(tables), used', tables, k, frame.value);
      ok := true;
    }

    /** The page loop for one segment, header number `s` of the load that began at `o`. */
    method LoadSegment(data: seq<byte>, ph: ProgramHeader, ghost o: Origin, ghost s: nat) returns (r: Outcome)
      requires At(o, s, 0) && data == o.data && s < |o.phs| && o.phs[s] == ph && ph.Wide() && ph.Loads()
      requires |fa.Used()| == |o.used| + Taken(o.phs, needs, s, 0)
      modifies this, fa.bitmap
      ensures r.Done? ==> At(o, s, SegPages(ph))
      ensures r.Done? ==> |fa.Used()| == |o.used| + Taken(o.phs, needs, s, SegPages(ph))
      ensures !r.Done? ==> Valid() && Loaded(o, mem, maps, pages, tables, fa.Used())
      ensures !r.Done? ==> EndsIn(o.phs, needs, o.free, s, r)
    {
      var numPages := ph.Pages();
      for j := 0 to numPages
        invariant At(o, s, j) && |fa.Used()| == |o.used| + Taken(o.phs, needs, s, j)
      {
        r := LoadAndMap(data, ph, o, s, j);
        if !r.Done? { return; }
      }
      r := Done;
    }

    /** One round of that loop. */
    method LoadAndMap(data: seq<byte>, ph: ProgramHeader, ghost o: Origin, ghost s: nat, j: nat) returns (r: Outcome)
      requires At(o, s, j) && data == o.data && IsStep(o.phs, s, j) && o.phs[s] == ph && ph.Wide()
      requires |fa.Used()| == |o.used| + Taken(o.phs, needs, s, j)
      modifies this, fa.bitmap
      ensures r.Done? ==> At(o, s, j + 1) && |fa.Used()| == |o.used| + Taken(o.phs, needs, s, j + 1)
      ensures !r.Done? ==> Valid() && Loaded(o, mem, maps, pages, tables, fa.Used())
      ensures !r.Done? ==> Ends(o.phs, needs, o.free, s, j, r)
    {
      FullCount(fa.Used(), fa.Frames());
      var c := |maps|;
      var page := LoadNext(data, ph, o, s, j);
      if page.Err? { return Failed(OutOfMemory); }
      if !page.value { return Done; }
      var ok := CallMap(c, o, s, j + 1);
      r := if ok then Done else Stopped;
    }

    /** The page of that round. */
    method LoadNext(data: seq<byte>, ph: ProgramHeader, ghost o: Origin, ghost s: nat, j: nat) returns (r: Result<bool>)
      requires At(o, s, j) && data == o.data && IsStep(o.phs, s, j) && o.phs[s] == ph && ph.Wide()
      requires |fa.Used()| == |o.used| + Taken(o.phs, needs, s, j)
      modifies this`mem, this`maps, this`pages, this`frames, fa.bitmap
      ensures r.Err? <==> |old(fa.Used())| == fa.Frames()
      ensures r.Err? ==> At(o, s, j)
      ensures r.Ok? ==> At(o, s, j + 1) && r.value == !Skipped(ph, Virt(ph, j))
      ensures r.Ok? ==> |fa.Used()| == |old(fa.Used())| + 1
    {
      ghost var c := |maps|;
      ghost var k;
      r, k := LoadPage(data, ph, Virt(ph, j));
      if r.Err? { return; }
      if r.value {
        StepMapped(o, needs, old(mem), mem, old(maps), pages, old(frames), tables, old(fa.Used()), s, j, k, maps[c]);
        pages := pages + [Page(s, j)];
      } else {
        StepSkipped(o, needs, old(mem), mem, maps, pages, frames, tables, old(fa.Used()), s, j, k);
      }
    }

    /** The call of map_page. */
    method CallMap(c: nat, ghost o: Origin, ghost s: nat, ghost j: nat) returns (ok: bool)
      requires At(o, s, j)
      modifies this`mem, this`tables, fa.bitmap
      ensures At(o, s, j)
      ensures ok <==> |old(fa.Used())| + needs(c) <= fa.Frames()
      ensures ok ==> |fa.Used()| == |old(fa.Used())| + needs(c)
    {
      ok := Callback(c);
      LoadedCalled(o, old(mem), mem, maps, pages, old(tables), tables, fa.Frames(), old(fa.Used()), fa.Used());
    }

    /**
     * load_elf up to the user stack. On success no two segments share a page, exactly the pages of the segments are
     * mapped, each once and with its segment's permissions, and the frames hold the page contents. On every outcome
     * memory outside the allocated frames and the page tables is as before, except where a first page did not fit its
     * frame.
     */
    method LoadElf(data: seq<byte>, phoff: nat, phnum: nat) returns (r: Outcome)
      requires Valid() && maps == [] && pages == [] && |data| < U64_LIMIT
      modifies this, fa.bitmap
      ensures Valid()
      ensures Loaded(old(Begin(data, Headers(data, phoff, phnum))), mem, maps, pages, tables, fa.Used())
      ensures r.Done? ==> NoOverlap(Headers(data, phoff, phnum))
      ensures r.Done? ==>
        Finished(old(Begin(data, Headers(data, phoff, phnum))), needs, mem, maps, pages, frames, tables, fa.Used())
      ensures r == Failed(SegmentOverlap) <==> OverlapFirst(data, phoff, phnum)
      ensures r == Failed(InvalidSegment) <==> InvalidFirst(data, phoff, phnum)
      ensures r == Failed(OutOfMemory) <==>
        PassesTo(data, phoff, phnum) && OutAtPage(Headers(data, phoff, phnum), needs, fa.Frames() - |old(fa.Used())|)
      ensures r == Stopped <==>
        PassesTo(data, phoff, phnum) && OutAtCall(Headers(data, phoff, phnum), needs, fa.Frames() - |old(fa.Used())|)
    {
      ghost var o := Begin(data, Headers(data, phoff, phnum));
      Begins(o, needs, frames);
      var ranges := CheckSegments(data, phoff, phnum);
      if ranges.Err? { return Failed(ranges.error); }
      r := LoadSegments(data, phoff, phnum, o);
    }

    /** The second loop of load_elf, over headers that passed the first. */
    method LoadSegments(data: seq<byte>, phoff: nat, phnum: nat, ghost o: Origin) returns (r: Outcome)
      requires At(o, 0, 0) && data == o.data && o.phs == Headers(data, phoff, phnum) && fa.Used() == o.used
      requires GoodHeaders(data, phoff, phnum)
      modifies this, fa.bitmap
      ensures Valid() && Loaded(o, mem, maps, pages, tables, fa.Used())
      ensures r.Done? ==> Finished(o, needs, mem, maps, pages, frames, tables, fa.Used())
      ensures r in {Done, Failed(OutOfMemory), Stopped}
      ensures r == Failed(OutOfMemory) <==> OutAtPage(o.phs, needs, o.free)
      ensures r == Stopped <==> OutAtCall(o.phs, needs, o.free)
    {
      for i := 0 to phnum
        invariant At(o, i, 0) && |fa.Used()| == |o.used| + Taken(o.phs, needs, i, 0)
      {
        assert GoodHeader(data, phoff, i);
        r := LoadHeader(data, ParseProgramHeader(data, phoff, i).value, o, i);
        if !r.Done? {
          EndsHow(o.phs, needs, o.free, i, r);
          return;
        }
      }
      FullCount(fa.Used(), fa.Frames());
      FailsNowhere(o.phs, needs, o.free);
      r := Done;
    }

    /** One header of that loop. */
    method LoadHeader(data: seq<byte>, ph: ProgramHeader, ghost o: Origin, ghost s: nat) returns (r: Outcome)
      requires At(o, s, 0) && data == o.data && s < |o.phs| && o.phs[s] == ph && ph.Wide()
      requires |fa.Used()| == |o.used| + Taken(o.phs, needs, s, 0)
      modifies this, fa.bitmap
      ensures r.Done? ==> At(o, s + 1, 0) && |fa.Used()| == |o.used| + Taken(o.phs, needs, s + 1, 0)
      ensures !r.Done? ==> Valid() && Loaded(o, mem, maps, pages, tables, fa.Used())
      ensures !r.Done? ==> EndsIn(o.phs, needs, o.free, s, r)
    {
      if ph.Loads() {
        r := LoadSegment(data, ph, o, s);
        if !r.Done? { return; }
      }
      StepNext(o, needs, mem, maps, pages, frames, tables, fa.Used(), s);
      r := Done;
    }
  }
}
