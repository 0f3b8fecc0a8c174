/** One-sector requests of the VirtIO block driver over the virtqueue (kernel/src/drivers/virtio_block.rs). */
module VirtioBlock {
  import opened Bytes
  import opened VirtQueues

  const SECTOR_SIZE: nat := 512
  const T_IN: nat := 0
  const T_OUT: nat := 1
  const S_OK: nat := 0
  const DATA_AT: nat := 16
  const STATUS_AT: nat := 528

  /** What the device reads from a descriptor chain: the header fields and where data and status go. */
  datatype Request = Request(kind: nat, sector: nat, writable: bool, dataAt: nat, statusAt: nat)

  /** The 16-byte request header: type, a reserved zero, and the 64-bit sector number. */
  function Header(kind: u32, sector: nat): (h: seq<byte>)
    requires sector < U64_LIMIT
    ensures |h| == 16
  {
    U32Bytes(kind) + U32Bytes(0) + U64Bytes(sector)
  }

  function HeaderKind(h: seq<byte>): nat
    requires |h| >= 16
  {
    GetU32(h, 0)
  }

  function HeaderSector(h: seq<byte>): nat
    requires |h| >= 16
  {
    GetU64(h, 8)
  }

  lemma HeaderRoundTrip(kind: u32, sector: nat)
    requires sector < U64_LIMIT
    ensures HeaderKind(Header(kind, sector)) == kind && HeaderSector(Header(kind, sector)) == sector
  {
    var h := Header(kind, sector);
    assert h[0..4] == U32Bytes(kind) && h[8..16] == U64Bytes(sector);
    GetU32At(h, 0, kind);
    GetU64At(h, 8, sector);
  }

  lemma HeaderSame(s: seq<byte>, h: seq<byte>)
    requires |s| >= 16 && |h| == 16 && s[..16] == h
    ensures HeaderKind(s) == HeaderKind(h) && HeaderSector(s) == HeaderSector(h)
  {
    SliceSame(s, h, 0, 16, 0, 4);
    SliceSame(s, h, 0, 16, 8, 12);
    SliceSame(s, h, 0, 16, 12, 16);
    GetU32Same(s, 0, h, 0);
    GetU32Same(s, 8, h, 8);
    GetU32Same(s, 12, h, 12);
  }

  /** The device's view of the chain at `head`: header, data and status buffers inside the DMA frame. */
  function Parse(descs: seq<Desc>, bufs: seq<byte>, bufPhys: nat, head: nat): Option<Request>
    requires |descs| == 16 && |bufs| == 4096
  {
    if head >= 16 || descs[head].flags != DESC_F_NEXT || descs[head].len != 16 || descs[head].addr != bufPhys then None
    else if descs[head].next >= 16 || descs[descs[head].next].next >= 16 then None
    else
      var d := descs[descs[head].next];
      var s := descs[d.next];
      if s.flags != DESC_F_WRITE || s.len != 1 || d.len != SECTOR_SIZE then None
      else if s.addr < bufPhys || s.addr >= bufPhys + 4096 then None
      else if d.addr < bufPhys || d.addr + SECTOR_SIZE > bufPhys + 4096 then None
      else if d.flags != DESC_F_NEXT && d.flags != DESC_F_NEXT + DESC_F_WRITE then None
      else Some(Request(HeaderKind(bufs), HeaderSector(bufs), d.flags != DESC_F_NEXT, d.addr - bufPhys,
                        s.addr - bufPhys))
  }

  /** The descriptors as do_sector_io fills them in. */
  function Filled(descs: seq<Desc>, bufPhys: nat, h: nat, d: nat, s: nat, isWrite: bool): seq<Desc>
    requires |descs| == 16 && h < 16 && d < 16 && s < 16
  {
    descs[h := Desc(bufPhys, 16, DESC_F_NEXT, d)]
         [d := Desc(bufPhys + DATA_AT, SECTOR_SIZE, if isWrite then DESC_F_NEXT else DESC_F_NEXT + DESC_F_WRITE, s)]
         [s := Desc(bufPhys + STATUS_AT, 1, DESC_F_WRITE, descs[s].next)]
  }

  /** The device reads back exactly the request that the driver laid out. */
  lemma ParsesBack(descs: seq<Desc>, bufs: seq<byte>, bufPhys: nat, h: nat, d: nat, s: nat, isWrite: bool, lba: nat)
    requires |descs| == 16 && |bufs| == 4096 && h < 16 && d < 16 && s < 16 && h != d && d != s && h != s
    requires lba < U64_LIMIT
    requires bufs[..16] == Header(if isWrite then T_OUT else T_IN, lba)
    ensures Parse(Filled(descs, bufPhys, h, d, s, isWrite), bufs, bufPhys, h)
         == Some(Request(if isWrite then T_OUT else T_IN, lba, !isWrite, DATA_AT, STATUS_AT))
  {
    var kind := if isWrite then T_OUT else T_IN;
    HeaderRoundTrip(kind, lba);
    HeaderSame(bufs, Header(kind, lba));
  }

  lemma PlaceTwice(p: seq<Place>, h: nat, a: Place, b: Place)
    requires h < |p|
    ensures p[h := a][h := b] == p[h := b]
  {
  }

  /** Places agree up to the order of the free list. */
  predicate SamePlaces(p: seq<Place>, q: seq<Place>) {
    |p| == |q| && forall k :: 0 <= k < |p| ==> p[k] == q[k] || (p[k].Free? && q[k].Free?)
  }

  /** The queue's history of submissions and completions. */
  ghost predicate SameRings(q: VirtQueue, submitted: seq<nat>, completed: seq<UsedElem>, taken: nat, consumed: nat)
    reads q
  {
    q.submitted == submitted && q.completed == completed && q.taken == taken && q.consumed == consumed
  }

  class BlockDriver {
    const queue: VirtQueue
    const buffers: array<byte>
    const bufPhys: nat
    /** Whether the device may fail a request it could serve. */
    const faulty: bool
    /** The sectors of the device. */
    var disk: map<nat, seq<byte>>

    ghost predicate Valid()
      reads this, queue, queue.descriptors, queue.availRing, queue.usedRing
    {
      && queue.Valid() && buffers.Length == 4096
      && (forall s :: s in disk ==> |disk[s]| == SECTOR_SIZE)
    }

    /** No request is under way. */
    ghost predicate Quiet()
      reads queue
    {
      && queue.taken == |queue.submitted| && queue.consumed == |queue.completed|
    }

    constructor (queue: VirtQueue, buffers: array<byte>, bufPhys: nat, faulty: bool, disk: map<nat, seq<byte>>)
      requires queue.Valid() && buffers.Length == 4096 && forall s :: s in disk ==> |disk[s]| == SECTOR_SIZE
      ensures Valid() && this.queue == queue && this.buffers == buffers && this.bufPhys == bufPhys
      ensures this.faulty == faulty && this.disk == disk
    {
      this.queue, this.buffers, this.bufPhys, this.faulty, this.disk := queue, buffers, bufPhys, faulty, disk;
    }

    /** Two descriptors, or none: the first is given back when there is no second. */
    method TakeTwo() returns (ok: bool, h: nat, d: nat)
      requires Valid()
      modifies queue, queue.descriptors
      ensures Valid()
      ensures SameRings(queue, old(queue.submitted), old(queue.completed), old(queue.taken), old(queue.consumed))
      ensures ok <==> old(queue.numFree) >= 2
      ensures !ok ==> queue.numFree == old(queue.numFree) && SamePlaces(queue.place, old(queue.place))
      ensures ok ==> h < 16 && d < 16 && h != d && old(queue.numFree) == queue.numFree + 2
      ensures ok ==> queue.place == old(queue.place)[h := Allocated][d := Allocated]
      ensures ok ==> old(queue.place)[h].Free? && old(queue.place)[d].Free?
    {
      ok, h, d := false, 0, 0;
      var r0 := queue.AllocDesc();
      if r0.None? { return; }
      var r1 := queue.AllocDesc();
      if r1.None? {
        queue.FreeDesc(r0.value);
        return;
      }
      ok, h, d := true, r0.value, r1.value;
    }

    method FreeTwo(h: nat, d: nat)
      requires Valid() && h < 16 && d < 16 && h != d && queue.place[h].Allocated? && queue.place[d].Allocated?
      modifies queue, queue.descriptors
      ensures Valid()
      ensures SameRings(queue, old(queue.submitted), old(queue.completed), old(queue.taken), old(queue.consumed))
      ensures queue.numFree == old(queue.numFree) + 2 && queue.place[h].Free? && queue.place[d].Free?
      ensures forall k :: 0 <= k < 16 && k != h && k != d ==> queue.place[k] == old(queue.place)[k]
    {
      queue.FreeDesc(h);
      queue.FreeDesc(d);
    }

    /** The three descriptors of a request, or none: a partial allocation is given back. */
    method TakeThree() returns (ok: bool, h: nat, d: nat, s: nat)
      requires Valid()
      modifies queue, queue.descriptors
      ensures Valid()
      ensures SameRings(queue, old(queue.submitted), old(queue.completed), old(queue.taken), old(queue.consumed))
      ensures ok <==> old(queue.numFree) >= 3
      ensures !ok ==> queue.numFree == old(queue.numFree) && SamePlaces(queue.place, old(queue.place))
      ensures ok ==> h < 16 && d < 16 && s < 16 && h != d && h != s && d != s && old(queue.numFree) == queue.numFree + 3
      ensures ok ==> queue.place == old(queue.place)[h := Allocated][d := Allocated][s := Allocated]
      ensures ok ==> old(queue.place)[h].Free? && old(queue.place)[d].Free? && old(queue.place)[s].Free?
    {
      s := 0;
      ok, h, d := TakeTwo();
      if !ok { return; }
      var r2 := queue.AllocDesc();
      if r2.None? {
        FreeTwo(h, d);
        ok := false;
        return;
      }
      s := r2.value;
    }

    method FreeThree(h: nat, d: nat, s: nat)
      requires Valid() && h < 16 && d < 16 && s < 16 && h != d && h != s && d != s
      requires queue.place[h].Allocated? && queue.place[d].Allocated? && queue.place[s].Allocated?
      modifies queue, queue.descriptors
      ensures Valid()
      ensures SameRings(queue, old(queue.submitted), old(queue.completed), old(queue.taken), old(queue.consumed))
      ensures queue.numFree == old(queue.numFree) + 3
      ensures forall k :: 0 <= k < 16 && k != h && k != d && k != s ==> queue.place[k] == old(queue.place)[k]
      ensures queue.place[h].Free? && queue.place[d].Free? && queue.place[s].Free?
    {
      queue.FreeDesc(h);
      queue.FreeDesc(d);
      queue.FreeDesc(s);
    }

    /** Lay out header, data and status in the DMA frame and fill in the descriptors. */
    method FillRequest(h: nat, d: nat, s: nat, lba: nat, data: array<byte>, isWrite: bool)
      requires Valid() && h < 16 && d < 16 && s < 16 && h != d && h != s && d != s && lba < U64_LIMIT
      requires queue.place[h].Allocated? && queue.place[d].Allocated? && queue.place[s].Allocated?
      requires data.Length == 512 && data != buffers
      modifies queue.descriptors, buffers
      ensures Valid()
      ensures Parse(queue.descriptors[..], buffers[..], bufPhys, h) ==
        Some(Request(if isWrite then T_OUT else T_IN, lba, !isWrite, DATA_AT, STATUS_AT))
      ensures isWrite ==> buffers[DATA_AT..DATA_AT + 512] == data[..]
    {
      ghost var descs := queue.descriptors[..];
      FillBuffers(lba, data, isWrite);
      FillDescriptors(h, d, s, isWrite);
      ParsesBack(descs, buffers[..], bufPhys, h, d, s, isWrite, lba);
    }

    method FillBuffers(lba: nat, data: array<byte>, isWrite: bool)
      requires buffers.Length == 4096 && data.Length == 512 && data != buffers && lba < U64_LIMIT
      modifies buffers
      ensures buffers[..][..16] == Header(if isWrite then T_OUT else T_IN, lba)
      ensures isWrite ==> buffers[DATA_AT..DATA_AT + 512] == data[..]
    {
      var hdr := Header(if isWrite then T_OUT else T_IN, lba);
      forall i | 0 <= i < 16 { buffers[i] := hdr[i]; }
      assert buffers[..16] == hdr;
      if isWrite {
        forall i | 0 <= i < 512 { buffers[DATA_AT + i] := data[i]; }
      }
      buffers[STATUS_AT] := 0;
      assert buffers[..][..16] == hdr;
    }

    method FillDescriptors(h: nat, d: nat, s: nat, isWrite: bool)
      requires Valid() && h < 16 && d < 16 && s < 16 && h != d && h != s && d != s
      requires queue.place[h].Allocated? && queue.place[d].Allocated? && queue.place[s].Allocated?
      modifies queue.descriptors
      ensures Valid() && queue.descriptors[..] == Filled(old(queue.descriptors[..]), bufPhys, h, d, s, isWrite)
    {
      queue.SetDesc(h, Desc(bufPhys, 16, DESC_F_NEXT, d));
      queue.SetDesc(d, Desc(bufPhys + DATA_AT, SECTOR_SIZE,
                    if isWrite then DESC_F_NEXT else DESC_F_NEXT + DESC_F_WRITE, s));
      queue.SetDesc(s, Desc(bufPhys + STATUS_AT, 1, DESC_F_WRITE, queue.descriptors[s].next));
    }

    /**
     * The device serves the pending request at `h`: it may fail, or perform the transfer. It acts on what it reads
     * from the descriptors and the DMA frame.
     */
    method DeviceServe(h: nat) returns (len: nat)
      requires Valid() && queue.taken < |queue.submitted| && queue.submitted[queue.taken] == h
      requires Parse(queue.descriptors[..], buffers[..], bufPhys, h).Some?
      modifies queue, queue.usedRing, buffers, this`disk
      ensures Valid() && queue.submitted == old(queue.submitted) && queue.taken == old(queue.taken) + 1
      ensures queue.consumed == old(queue.consumed)
      ensures queue.completed == old(queue.completed) + [UsedElem(h, len)]
      ensures queue.numFree == old(queue.numFree) && queue.place == old(queue.place)[h := Done(|old(queue.completed)|)]
      ensures Served(old(buffers[..]), buffers[..], old(disk), disk,
                     Parse(old(queue.descriptors[..]), old(buffers[..]), bufPhys, h).value, !faulty)
    {
      var fetched := queue.DeviceTake();
      var req := Parse(queue.descriptors[..], buffers[..], bufPhys, h).value;
      var fails := *;
      len := Transfer(req, !(faulty && fails));
      PlaceTwice(old(queue.place), h, AtDevice, Done(|queue.completed|));
      queue.DeviceComplete(h, len);
    }

    /** The device's transfer, if it can and `willing` lets it. */
    method Transfer(req: Request, willing: bool) returns (len: nat)
      requires Valid() && req.dataAt + 512 <= 4096 && req.statusAt < 4096
      modifies buffers, this`disk
      ensures Valid() && Served(old(buffers[..]), buffers[..], old(disk), disk, req, willing)
    {
      var ok := willing && Servable(req, disk);
      if ok {
        if req.kind == T_OUT {
          disk := disk[req.sector := buffers[req.dataAt..req.dataAt + 512]];
        } else {
          var sector := disk[req.sector];
          forall i | 0 <= i < 512 { buffers[req.dataAt + i] := sector[i]; }
        }
      }
      buffers[req.statusAt] := if ok then S_OK else 1;
      len := if ok && req.kind == T_IN then SECTOR_SIZE + 1 else 1;
    }

    /** The polling loop of do_sector_io; the device serves the request after `polls` unsuccessful polls. */
    method Await(h: nat, polls: nat, ghost req: Request)
      requires Valid() && |queue.submitted| == queue.taken + 1 && queue.submitted[queue.taken] == h
      requires queue.consumed == |queue.completed|
      requires Parse(queue.descriptors[..], buffers[..], bufPhys, h) == Some(req)
      modifies queue, queue.usedRing, buffers, this`disk
      ensures Valid() && Quiet() && queue.numFree == old(queue.numFree)
      ensures queue.place == old(queue.place)[h := Allocated]
      ensures Served(old(buffers[..]), buffers[..], old(disk), disk, req, !faulty)
    {
      var left := polls;
      while true
        invariant Valid()
        invariant SameRings(queue, old(queue.submitted), old(queue.completed), old(queue.taken), old(queue.consumed))
        invariant queue.numFree == old(queue.numFree) && queue.place == old(queue.place)
        invariant buffers[..] == old(buffers[..]) && disk == old(disk)
        decreases left
      {
        if left == 0 {
          PlaceTwice(old(queue.place), h, Done(|queue.completed|), Allocated);
          var len := DeviceServe(h);
        }
        var r := queue.PollUsed();
        if r.Some? { break; }
        left := left - 1;
      }
    }

    /** Fill in, submit and await one request on three allocated descriptors. */
    method Exchange(h: nat, d: nat, s: nat, lba: nat, data: array<byte>, isWrite: bool, polls: nat)
      requires Valid() && Quiet() && h < 16 && d < 16 && s < 16 && h != d && h != s && d != s && lba < U64_LIMIT
      requires queue.place[h].Allocated? && queue.place[d].Allocated? && queue.place[s].Allocated?
      requires data.Length == 512 && data != buffers
      modifies queue, queue.descriptors, queue.availRing, queue.usedRing, buffers, this`disk
      ensures Valid() && Quiet() && queue.numFree == old(queue.numFree) && queue.place == old(queue.place)
      ensures buffers[STATUS_AT] != S_OK ==> disk == old(disk) && (faulty || lba !in disk)
      ensures buffers[STATUS_AT] == S_OK ==> lba in old(disk)
      ensures buffers[STATUS_AT] == S_OK && isWrite ==> disk == old(disk)[lba := data[..]]
      ensures buffers[STATUS_AT] == S_OK && !isWrite ==>
        disk == old(disk) && buffers[DATA_AT..DATA_AT + 512] == old(disk)[lba]
    {
      FillRequest(h, d, s, lba, data, isWrite);
      queue.Submit(h);
      ghost var req := Request(if isWrite then T_OUT else T_IN, lba, !isWrite, DATA_AT, STATUS_AT);
      ghost var bufs := buffers[..];
      Await(h, polls, req);
      ServedHere(bufs, buffers[..], old(disk), disk, req, !faulty);
    }

    /**
     * do_sector_io: on every exit the queue is quiet again with as many free descriptors as before; success means
     * that the device transferred exactly this sector, and failure that neither its sectors nor `data` changed.
     */
    method DoSectorIo(lba: nat, data: array<byte>, isWrite: bool, polls: nat) returns (ok: bool)
      requires Valid() && Quiet() && lba < U64_LIMIT && data.Length == 512 && data != buffers
      modifies queue, queue.descriptors, queue.availRing, queue.usedRing, buffers, this`disk, data
      ensures Valid() && Quiet() && queue.numFree == old(queue.numFree) && SamePlaces(queue.place, old(queue.place))
      ensures old(queue.numFree) < 3 ==> !ok
      ensures !ok ==> faulty || old(queue.numFree) < 3 || lba !in old(disk)
      ensures ok ==> lba in old(disk)
      ensures ok && isWrite ==> disk == old(disk)[lba := old(data[..])]
      ensures ok && !isWrite ==> disk == old(disk) && data[..] == old(disk)[lba]
      ensures !ok ==> disk == old(disk)
      ensures !ok || isWrite ==> data[..] == old(data[..])
    {
      var h, d, s;
      ok, h, d, s := TakeThree();
      if !ok { return; }
      Exchange(h, d, s, lba, data, isWrite, polls);
      FreeThree(h, d, s);
      if buffers[STATUS_AT] != S_OK { return false; }
      if !isWrite {
        forall i | 0 <= i < 512 { data[i] := buffers[DATA_AT + i]; }
      }
    }
  }

  predicate Servable(req: Request, disk: map<nat, seq<byte>>) {
    req.sector in disk && (req.kind == T_OUT || (req.kind == T_IN && req.writable))
  }

  /** The effect of serving a request: with status 0 the transfer is done; otherwise the sectors are as before. */
  ghost predicate Served(bufs: seq<byte>, bufs': seq<byte>, disk: map<nat, seq<byte>>, disk': map<nat, seq<byte>>,
                         req: Request, sure: bool)
  {
    && |bufs| == 4096 && |bufs'| == 4096 && req.dataAt + 512 <= 4096 && req.statusAt < 4096
    && (bufs'[req.statusAt] != S_OK ==> disk' == disk)
    && (sure && Servable(req, disk) ==> bufs'[req.statusAt] == S_OK)
    && (bufs'[req.statusAt] == S_OK ==> req.sector in disk)
    && (bufs'[req.statusAt] == S_OK && req.kind == T_OUT ==>
        disk' == disk[req.sector := bufs[req.dataAt..req.dataAt + 512]])
    && (bufs'[req.statusAt] == S_OK && req.kind == T_IN ==>
        disk' == disk && (NoOverlap(req) ==> bufs'[req.dataAt..req.dataAt + 512] == disk[req.sector]))
  }

  /** Served, for the layout that do_sector_io uses. */
  lemma ServedHere(bufs: seq<byte>, bufs': seq<byte>, disk: map<nat, seq<byte>>, disk': map<nat, seq<byte>>,
                   req: Request, sure: bool)
    requires Served(bufs, bufs', disk, disk', req, sure) && req.dataAt == DATA_AT && req.statusAt == STATUS_AT
    ensures bufs'[STATUS_AT] != S_OK ==> disk' == disk && !(sure && Servable(req, disk))
    ensures bufs'[STATUS_AT] == S_OK ==> req.sector in disk
    ensures bufs'[STATUS_AT] == S_OK && req.kind == T_OUT ==> disk' == disk[req.sector := bufs[DATA_AT..DATA_AT + 512]]
    ensures bufs'[STATUS_AT] == S_OK && req.kind == T_IN ==>
      disk' == disk && bufs'[DATA_AT..DATA_AT + 512] == disk[req.sector]
  {
  }

  /** The status byte lies outside the data. */
  predicate NoOverlap(req: Request) {
    req.statusAt < req.dataAt || req.statusAt >= req.dataAt + 512
  }
}
