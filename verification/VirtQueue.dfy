/**
 * The split virtqueue: descriptor free list and the available and used rings with wrapping 16-bit indices
 * (kernel/src/drivers/virtio.rs; section 2.6 of VirtIO 1.1).
 */
module VirtQueues {
  import opened Bytes

  const VQ_SIZE: nat := 16
  const END: nat := 0xFFFF
  const DESC_F_NEXT: nat := 1
  const DESC_F_WRITE: nat := 2

  datatype Desc = Desc(addr: nat, len: nat, flags: nat, next: nat)
  datatype UsedElem = UsedElem(id: nat, len: nat)

  /**
   * Where a descriptor is: at height `i` of the free list, in the driver's hands, the head of submission `k`
   * that the device has not fetched, at the device, or the head of completion `k` that the driver has not polled.
   */
  datatype Place = Free(i: nat) | Allocated | Queued(k: nat) | AtDevice | Done(k: nat)

  /** idx.wrapping_add(1) on u16. */
  function WrappingInc(i: nat): nat {
    if i + 1 == 0x1_0000 then 0 else i + 1
  }

  /** The low 16 bits of a counter. */
  ghost function Low16(n: nat): nat {
    if n < 0x1_0000 then n else Low16(n - 0x1_0000)
  }

  /** The ring slot of position `k`. */
  ghost function Slot(k: nat): (r: nat)
    ensures r < 16
  {
    if k < 16 then k else Slot(k - 16)
  }

  lemma {:induction false} Low16Mod(n: nat)
    ensures Low16(n) == n % 0x1_0000
  {
    if n >= 0x1_0000 { Low16Mod(n - 0x1_0000); }
  }

  lemma {:induction false} SlotMod(n: nat)
    ensures Slot(n) == n % 16
  {
    if n >= 16 { SlotMod(n - 16); }
  }

  /** Incrementing a wrapped index, and using it modulo 16, agrees with the unbounded counter. */
  lemma WrapMod(n: nat)
    ensures Low16(n + 1) == WrappingInc(Low16(n))
    ensures Low16(n) % 16 == Slot(n) && Slot(n) < 16
  {
    Low16Mod(n);
    Low16Mod(n + 1);
    SlotMod(n);
  }

  /** Counters at most 16 apart are equal exactly when their 16-bit forms are. */
  lemma WrapEqual(a: nat, b: nat)
    requires a <= b <= a + 16
    ensures Low16(a) == Low16(b) <==> a == b
  {
    Low16Mod(a);
    Low16Mod(b);
  }

  /** Ring positions less than 16 apart use different slots. */
  lemma SlotsDiffer(a: nat, b: nat)
    requires a < b < a + 16
    ensures Slot(a) != Slot(b)
  {
    SlotMod(a);
    SlotMod(b);
  }

  /** The free list. */
  datatype Chain = Nil | Cons(d: nat, rest: Chain)

  function Len(c: Chain): nat {
    match c
    case Nil => 0
    case Cons(_, rest) => 1 + Len(rest)
  }

  /** The descriptor at a height of the free list, counted from its end. */
  function At(c: Chain, i: nat): Option<nat> {
    match c
    case Nil => None
    case Cons(d, rest) => if i == Len(rest) then Some(d) else At(rest, i)
  }

  /** From `head`, the descriptors' `next` links visit exactly the chain, and each knows its height, so none twice. */
  predicate Linked(descs: seq<Desc>, place: seq<Place>, c: Chain, head: nat) {
    match c
    case Nil => head == END
    case Cons(d, rest) =>
      && head == d && d < |descs| && d < |place| && place[d] == Free(Len(rest))
      && Linked(descs, place, rest, descs[d].next)
  }

  /** Exactly the descriptors of the chain are free. */
  predicate OnlyFree(place: seq<Place>, c: Chain) {
    forall d :: 0 <= d < |place| && place[d].Free? ==> place[d].i < Len(c) && At(c, place[d].i) == Some(d)
  }

  predicate ChainOk(descs: seq<Desc>, c: Chain, head: nat, place: seq<Place>) {
    |descs| == 16 && |place| == 16 && Linked(descs, place, c, head) && OnlyFree(place, c)
  }

  /** Descriptors that are not in the chain may change. */
  lemma {:induction false} LinkedFrame(descs: seq<Desc>, place: seq<Place>, descs': seq<Desc>, place': seq<Place>,
                                       c: Chain, head: nat)
    requires Linked(descs, place, c, head) && |descs'| == |descs| && |place'| == |place|
    requires forall d :: 0 <= d < |place| && place[d].Free? && place[d].i < Len(c) ==> place'[d] == place[d]
    requires forall d :: 0 <= d < |place| && d < |descs| && place[d].Free? && place[d].i < Len(c) ==>
      descs'[d] == descs[d]
    ensures Linked(descs', place', c, head)
  {
    if c.Cons? { LinkedFrame(descs, place, descs', place', c.rest, descs[c.d].next); }
  }

  /** The available ring still holds every submission that the device has not fetched. */
  ghost predicate AvailOk(ring: seq<nat>, submitted: seq<nat>, taken: nat, place: seq<Place>) {
    && |ring| == 16 && |place| == 16 && taken <= |submitted| <= taken + 16
    && (forall k :: taken <= k < |submitted| ==>
        submitted[k] < 16 && place[submitted[k]] == Queued(k) && ring[Slot(k)] == submitted[k])
    && (forall d :: 0 <= d < 16 && place[d].Queued? ==> taken <= place[d].k < |submitted| && submitted[place[d].k] == d)
  }

  /** The used ring still holds every completion that the driver has not polled. */
  ghost predicate UsedOk(ring: seq<UsedElem>, completed: seq<UsedElem>, consumed: nat, place: seq<Place>) {
    && |ring| == 16 && |place| == 16 && consumed <= |completed| <= consumed + 16
    && (forall k :: consumed <= k < |completed| ==>
        completed[k].id < 16 && place[completed[k].id] == Done(k) && ring[Slot(k)] == completed[k])
    && (forall d :: 0 <= d < 16 && place[d].Done? ==>
        consumed <= place[d].k < |completed| && completed[place[d].k].id == d)
  }

  /** An injection from an interval into the 16 descriptors that misses one of them has fewer than 16 elements. */
  lemma {:induction false} Pigeonhole(ids: seq<nat>, lo: nat, n: nat)
    requires lo + n <= |ids| && forall k :: lo <= k < lo + n ==> ids[k] < 16
    requires forall j, k :: lo <= j < k < lo + n ==> ids[j] != ids[k]
    ensures n <= 16 && (set k | lo <= k < lo + n :: ids[k]) <= Sixteen()
  {
    var s := set k | lo <= k < lo + n :: ids[k];
    assert s <= Sixteen();
    ImageSize(ids, lo, n);
    SubsetSize(s, Sixteen());
  }

  function Sixteen(): set<nat> {
    {0, 1, 2, 3, 4, 5, 6, 7, 8, 9, 10, 11, 12, 13, 14, 15}
  }

  lemma {:induction false} ImageSize(ids: seq<nat>, lo: nat, n: nat)
    requires lo + n <= |ids| && forall j, k :: lo <= j < k < lo + n ==> ids[j] != ids[k]
    ensures |set k | lo <= k < lo + n :: ids[k]| == n
  {
    if n > 0 {
      ImageSize(ids, lo, n - 1);
      var s := set k | lo <= k < lo + n - 1 :: ids[k];
      assert (set k | lo <= k < lo + n :: ids[k]) == s + {ids[lo + n - 1]};
    }
  }

  lemma {:induction false} SubsetSize(a: set<nat>, b: set<nat>)
    requires a <= b
    ensures |a| <= |b|
  {
    if a != {} {
      var x :| x in a;
      SubsetSize(a - {x}, b - {x});
    }
  }

  /** A new submission of an allocated descriptor finds a free ring slot. */
  lemma RoomToSubmit(ring: seq<nat>, submitted: seq<nat>, taken: nat, place: seq<Place>, d: nat)
    requires AvailOk(ring, submitted, taken, place) && d < 16 && place[d].Allocated?
    ensures |submitted| < taken + 16
  {
    var ids := submitted + [d];
    forall j, k | taken <= j < k < |ids| ensures ids[j] != ids[k] {
      assert place[ids[j]] == Queued(j);
    }
    Pigeonhole(ids, taken, |ids| - taken);
  }

  lemma AvailAfterSubmit(ring: seq<nat>, submitted: seq<nat>, taken: nat, place: seq<Place>, d: nat)
    requires AvailOk(ring, submitted, taken, place) && d < 16 && place[d].Allocated?
    ensures AvailOk(ring[Slot(|submitted|) := d], submitted + [d], taken, place[d := Queued(|submitted|)])
  {
    RoomToSubmit(ring, submitted, taken, place, d);
    var ring', sub', place' := ring[Slot(|submitted|) := d], submitted + [d], place[d := Queued(|submitted|)];
    forall k | taken <= k < |sub'| ensures sub'[k] < 16 && place'[sub'[k]] == Queued(k) && ring'[Slot(k)] == sub'[k] {
      SubmitAt(ring, submitted, taken, place, d, k);
    }
  }

  lemma SubmitAt(ring: seq<nat>, submitted: seq<nat>, taken: nat, place: seq<Place>, d: nat, k: nat)
    requires AvailOk(ring, submitted, taken, place) && d < 16 && place[d].Allocated? && |submitted| < taken + 16
    requires taken <= k <= |submitted|
    ensures var id := (submitted + [d])[k];
            id < 16 && place[d := Queued(|submitted|)][id] == Queued(k) && ring[Slot(|submitted|) := d][Slot(k)] == id
  {
    if k < |submitted| { SlotsDiffer(k, |submitted|); }
  }

  lemma RoomToComplete(ring: seq<UsedElem>, completed: seq<UsedElem>, consumed: nat, place: seq<Place>, d: nat)
    requires UsedOk(ring, completed, consumed, place) && d < 16 && place[d].AtDevice?
    ensures |completed| < consumed + 16
  {
    var ids := seq(|completed|, k requires 0 <= k < |completed| => completed[k].id) + [d];
    forall j, k | consumed <= j < k < |ids| ensures ids[j] != ids[k] {
      assert place[ids[j]] == Done(j);
    }
    Pigeonhole(ids, consumed, |ids| - consumed);
  }

  lemma UsedAfterComplete(ring: seq<UsedElem>, completed: seq<UsedElem>, consumed: nat, place: seq<Place>, e: UsedElem)
    requires UsedOk(ring, completed, consumed, place) && e.id < 16 && place[e.id].AtDevice?
    ensures UsedOk(ring[Slot(|completed|) := e], completed + [e], consumed, place[e.id := Done(|completed|)])
  {
    RoomToComplete(ring, completed, consumed, place, e.id);
    var ring', done', place' := ring[Slot(|completed|) := e], completed + [e], place[e.id := Done(|completed|)];
    forall k | consumed <= k < |done'|
      ensures done'[k].id < 16 && place'[done'[k].id] == Done(k) && ring'[Slot(k)] == done'[k]
    {
      CompleteAt(ring, completed, consumed, place, e, k);
    }
  }

  lemma CompleteAt(ring: seq<UsedElem>, completed: seq<UsedElem>, consumed: nat, place: seq<Place>, e: UsedElem, k: nat)
    requires UsedOk(ring, completed, consumed, place) && e.id < 16 && place[e.id].AtDevice?
    requires |completed| < consumed + 16
    requires consumed <= k <= |completed|
    ensures var u := (completed + [e])[k];
            u.id < 16 && place[e.id := Done(|completed|)][u.id] == Done(k) && ring[Slot(|completed|) := e][Slot(k)] == u
  {
    if k < |completed| { SlotsDiffer(k, |completed|); }
  }

  /** The chain i, i + 1, .., 15. */
  ghost function From(i: nat): Chain
    requires i <= 16
    decreases 16 - i
  {
    if i == 16 then Nil else Cons(i, From(i + 1))
  }

  ghost function InitialPlace(): seq<Place> {
    seq(16, d requires 0 <= d < 16 => Free(15 - d))
  }

  lemma {:induction false} InitialFrom(descs: seq<Desc>, i: nat)
    requires i <= 16 && |descs| == 16 && descs[15].next == END && forall j :: 0 <= j < 15 ==> descs[j].next == j + 1
    ensures Linked(descs, InitialPlace(), From(i), if i == 16 then END else i) && Len(From(i)) == 16 - i
    ensures forall d :: i <= d < 16 ==> At(From(i), 15 - d) == Some(d)
    decreases 16 - i
  {
    if i < 16 { InitialFrom(descs, i + 1); }
  }

  lemma ChainAfterAlloc(descs: seq<Desc>, c: Chain, head: nat, place: seq<Place>)
    requires ChainOk(descs, c, head, place) && c.Cons?
    ensures head < 16 && c.d == head && place[head].Free?
    ensures ChainOk(descs[head := descs[head].(next := END)], c.rest, descs[head].next, place[head := Allocated])
  {
    LinkedFrame(descs, place, descs[head := descs[head].(next := END)], place[head := Allocated], c.rest,
                descs[head].next);
  }

  lemma ChainAfterFree(descs: seq<Desc>, c: Chain, head: nat, place: seq<Place>, d: nat)
    requires ChainOk(descs, c, head, place) && d < 16 && place[d].Allocated?
    ensures ChainOk(descs[d := descs[d].(next := head)], Cons(d, c), d, place[d := Free(Len(c))])
  {
    LinkedFrame(descs, place, descs[d := descs[d].(next := head)], place[d := Free(Len(c))], c, head);
  }

  lemma AvailAfterTake(ring: seq<nat>, submitted: seq<nat>, taken: nat, place: seq<Place>)
    requires AvailOk(ring, submitted, taken, place) && taken < |submitted|
    ensures submitted[taken] < 16 && place[submitted[taken]].Queued? && ring[Slot(taken)] == submitted[taken]
    ensures AvailOk(ring, submitted, taken + 1, place[submitted[taken] := AtDevice])
  {
    var d := submitted[taken];
    assert place[d] == Queued(taken);
    forall k | taken < k < |submitted| ensures submitted[k] != d && place[submitted[k]] == Queued(k) {
      assert place[submitted[k]] == Queued(k);
    }
  }

  lemma UsedAfterPoll(ring: seq<UsedElem>, completed: seq<UsedElem>, consumed: nat, place: seq<Place>)
    requires UsedOk(ring, completed, consumed, place) && consumed < |completed|
    ensures completed[consumed].id < 16 && place[completed[consumed].id].Done?
    ensures ring[Slot(consumed)] == completed[consumed]
    ensures UsedOk(ring, completed, consumed + 1, place[completed[consumed].id := Allocated])
  {
    var d := completed[consumed].id;
    assert place[d] == Done(consumed);
    forall k | consumed < k < |completed| ensures completed[k].id != d && place[completed[k].id] == Done(k) {
      assert place[completed[k].id] == Done(k);
    }
  }

  /** Moving a descriptor between places outside a structure leaves that structure as it is. */
  lemma ChainFrame(descs: seq<Desc>, c: Chain, head: nat, place: seq<Place>, d: nat, p: Place)
    requires ChainOk(descs, c, head, place) && d < 16 && !place[d].Free? && !p.Free?
    ensures ChainOk(descs, c, head, place[d := p])
  {
    LinkedFrame(descs, place, descs, place[d := p], c, head);
  }

  lemma ChainSetDesc(descs: seq<Desc>, c: Chain, head: nat, place: seq<Place>, d: nat, desc: Desc)
    requires ChainOk(descs, c, head, place) && d < 16 && !place[d].Free?
    ensures ChainOk(descs[d := desc], c, head, place)
  {
    LinkedFrame(descs, place, descs[d := desc], place, c, head);
  }

  lemma AvailFrame(ring: seq<nat>, submitted: seq<nat>, taken: nat, place: seq<Place>, d: nat, p: Place)
    requires AvailOk(ring, submitted, taken, place) && d < 16 && !place[d].Queued? && !p.Queued?
    ensures AvailOk(ring, submitted, taken, place[d := p])
  {
  }

  lemma UsedFrame(ring: seq<UsedElem>, completed: seq<UsedElem>, consumed: nat, place: seq<Place>, d: nat, p: Place)
    requires UsedOk(ring, completed, consumed, place) && d < 16 && !place[d].Done? && !p.Done?
    ensures UsedOk(ring, completed, consumed, place[d := p])
  {
  }

  /** The state that VirtQueue::new sets up. */
  lemma InitialOk(descs: seq<Desc>, avail: seq<nat>, used: seq<UsedElem>)
    requires |descs| == 16 && descs[15].next == END && forall j :: 0 <= j < 15 ==> descs[j].next == j + 1
    requires |avail| == 16 && |used| == 16
    ensures ChainOk(descs, From(0), 0, InitialPlace()) && Len(From(0)) == 16
    ensures AvailOk(avail, [], 0, InitialPlace()) && UsedOk(used, [], 0, InitialPlace())
    ensures forall d :: 0 <= d < 16 ==> InitialPlace()[d].Free?
  {
    InitialFrom(descs, 0);
  }

  class VirtQueue {
    const descriptors: array<Desc>
    const availRing: array<nat>
    const usedRing: array<UsedElem>
    var availIdx: nat
    var usedIdx: nat
    var freeHead: nat
    var numFree: nat
    var nextUsed: nat
    /** The device's own count of fetched submissions, modulo 2^16. */
    var lastAvail: nat

    /** History: the free list, all submissions and completions so far, how many were fetched and polled. */
    ghost var free: Chain
    ghost var submitted: seq<nat>
    ghost var completed: seq<UsedElem>
    ghost var taken: nat
    ghost var consumed: nat
    ghost var place: seq<Place>

    ghost predicate Valid()
      reads this, descriptors, availRing, usedRing
    {
      && descriptors.Length == 16 && availRing.Length == 16 && usedRing.Length == 16
      && ChainOk(descriptors[..], free, freeHead, place) && numFree == Len(free)
      && AvailOk(availRing[..], submitted, taken, place)
      && UsedOk(usedRing[..], completed, consumed, place)
      && availIdx == Low16(|submitted|) && lastAvail == Low16(taken)
      && usedIdx == Low16(|completed|) && nextUsed == Low16(consumed)
    }

    /** VirtQueue::new: the descriptors are chained 0, 1, .., 15. */
    constructor ()
      ensures Valid() && fresh(descriptors) && fresh(availRing) && fresh(usedRing)
      ensures submitted == [] && completed == [] && numFree == 16 && forall d :: 0 <= d < 16 ==> place[d].Free?
    {
      descriptors := new Desc[16](i => Desc(0, 0, 0, 0));
      availRing := new nat[16](i => 0);
      usedRing := new UsedElem[16](i => UsedElem(0, 0));
      availIdx, usedIdx, freeHead, numFree, nextUsed, lastAvail := 0, 0, 0, 16, 0, 0;
      free, place := From(0), InitialPlace();
      submitted, completed, taken, consumed := [], [], 0, 0;
      new;
      for i := 0 to 15
        invariant forall j :: 0 <= j < i ==> descriptors[j].next == j + 1
        modifies descriptors
      {
        descriptors[i] := descriptors[i].(next := i + 1);
      }
      descriptors[15] := descriptors[15].(next := END);
      InitialOk(descriptors[..], availRing[..], usedRing[..]);
    }

    /** alloc_desc: takes the head of the free list; fails exactly when it is empty. */
    method AllocDesc() returns (r: Option<nat>)
      requires Valid()
      modifies this`freeHead, this`numFree, this`free, this`place, descriptors
      ensures Valid() && (r.None? <==> old(numFree) == 0)
      ensures r.None? ==> free == old(free) && place == old(place) && descriptors[..] == old(descriptors[..])
      ensures r.Some? ==> r.value < 16 && old(place)[r.value].Free? && old(free) == Cons(r.value, free)
      ensures r.Some? ==> place == old(place)[r.value := Allocated]
      ensures r.Some? ==>
        descriptors[..] == old(descriptors[..])[r.value := old(descriptors[..])[r.value].(next := END)]
    {
      if numFree == 0 { return None; }
      var d := PopFree();
      return Some(d);
    }

    method PopFree() returns (idx: nat)
      requires Valid() && numFree > 0
      modifies this`freeHead, this`numFree, this`free, this`place, descriptors
      ensures Valid() && idx < 16 && old(place)[idx].Free? && old(free) == Cons(idx, free)
      ensures place == old(place)[idx := Allocated]
      ensures descriptors[..] == old(descriptors[..])[idx := old(descriptors[..])[idx].(next := END)]
    {
      idx := freeHead;
      ghost var descs := descriptors[..];
      ChainAfterAlloc(descs, free, freeHead, place);
      AvailFrame(availRing[..], submitted, taken, place, idx, Allocated);
      UsedFrame(usedRing[..], completed, consumed, place, idx, Allocated);
      freeHead := descriptors[idx].next;
      numFree := numFree - 1;
      descriptors[idx] := descriptors[idx].(next := END);
      assert descriptors[..] == descs[idx := descs[idx].(next := END)];
      free, place := free.rest, place[idx := Allocated];
    }

    /** free_desc: the descriptor must be allocated, as the source demands. */
    method FreeDesc(idx: nat)
      requires Valid() && idx < 16 && place[idx].Allocated?
      modifies this`freeHead, this`numFree, this`free, this`place, descriptors
      ensures Valid() && free == Cons(idx, old(free)) && place == old(place)[idx := Free(Len(old(free)))]
      ensures forall d :: 0 <= d < 16 && d != idx ==> descriptors[d] == old(descriptors[d])
    {
      ChainAfterFree(descriptors[..], free, freeHead, place, idx);
      AvailFrame(availRing[..], submitted, taken, place, idx, Free(Len(free)));
      UsedFrame(usedRing[..], completed, consumed, place, idx, Free(Len(free)));
      descriptors[idx] := descriptors[idx].(next := freeHead);
      freeHead := idx;
      numFree := numFree + 1;
      assert descriptors[..] == old(descriptors[..])[idx := old(descriptors[..])[idx].(next := old(freeHead))];
      free, place := Cons(idx, free), place[idx := Free(Len(free))];
    }

    /** Filling in an allocated descriptor. */
    method SetDesc(idx: nat, d: Desc)
      requires Valid() && idx < 16 && place[idx].Allocated?
      modifies descriptors
      ensures Valid() && descriptors[..] == old(descriptors[..])[idx := d]
    {
      ChainSetDesc(descriptors[..], free, freeHead, place, idx, d);
      descriptors[idx] := d;
      assert descriptors[..] == old(descriptors[..])[idx := d];
    }

    /** submit_and_notify: no submission that the device has yet to fetch is overwritten. */
    method Submit(idx: nat)
      requires Valid() && idx < 16 && place[idx].Allocated?
      modifies this`availIdx, this`submitted, this`place, availRing
      ensures Valid() && submitted == old(submitted) + [idx] && place == old(place)[idx := Queued(|old(submitted)|)]
    {
      AvailAfterSubmit(availRing[..], submitted, taken, place, idx);
      ChainFrame(descriptors[..], free, freeHead, place, idx, Queued(|submitted|));
      UsedFrame(usedRing[..], completed, consumed, place, idx, Queued(|submitted|));
      WrapMod(|submitted|);
      var slot := availIdx % VQ_SIZE;
      ghost var ring := availRing[..];
      availRing[slot] := idx;
      assert availRing[..] == ring[slot := idx];
      availIdx := WrappingInc(availIdx);
      submitted, place := submitted + [idx], place[idx := Queued(|submitted|)];
    }

    /** poll_used: returns completion number `consumed`, so each completion exactly once and in order. */
    method PollUsed() returns (r: Option<UsedElem>)
      requires Valid()
      modifies this`nextUsed, this`consumed, this`place
      ensures Valid() && (r.None? <==> old(consumed) == |completed|)
      ensures r.None? ==> consumed == old(consumed) && place == old(place)
      ensures r.Some? ==> r.value == completed[old(consumed)] && consumed == old(consumed) + 1
      ensures r.Some? ==> place == old(place)[r.value.id := Allocated]
    {
      WrapEqual(consumed, |completed|);
      if nextUsed == usedIdx { return None; }
      WrapMod(consumed);
      UsedAfterPoll(usedRing[..], completed, consumed, place);
      ChainFrame(descriptors[..], free, freeHead, place, completed[consumed].id, Allocated);
      AvailFrame(availRing[..], submitted, taken, place, completed[consumed].id, Allocated);
      var slot := nextUsed % VQ_SIZE;
      var elem := usedRing[slot];
      nextUsed := WrappingInc(nextUsed);
      consumed, place := consumed + 1, place[elem.id := Allocated];
      return Some(elem);
    }

    /** The device fetches the next submission, if there is one. */
    method DeviceTake() returns (r: Option<nat>)
      requires Valid()
      modifies this`lastAvail, this`taken, this`place
      ensures Valid() && (r.None? <==> old(taken) == |submitted|)
      ensures r.None? ==> taken == old(taken) && place == old(place)
      ensures r.Some? ==>
        r.value == submitted[old(taken)] && taken == old(taken) + 1 && place == old(place)[r.value := AtDevice]
    {
      WrapEqual(taken, |submitted|);
      if lastAvail == availIdx { return None; }
      WrapMod(taken);
      AvailAfterTake(availRing[..], submitted, taken, place);
      ChainFrame(descriptors[..], free, freeHead, place, submitted[taken], AtDevice);
      UsedFrame(usedRing[..], completed, consumed, place, submitted[taken], AtDevice);
      var d := availRing[lastAvail % VQ_SIZE];
      lastAvail := WrappingInc(lastAvail);
      taken, place := taken + 1, place[d := AtDevice];
      return Some(d);
    }

    /** The device completes a chain it has fetched, in any order; no completion yet to be polled is overwritten. */
    method DeviceComplete(d: nat, len: nat)
      requires Valid() && d < 16 && place[d].AtDevice?
      modifies this`usedIdx, this`completed, this`place, usedRing
      ensures Valid() && completed == old(completed) + [UsedElem(d, len)]
      ensures place == old(place)[d := Done(|old(completed)|)]
    {
      var e := UsedElem(d, len);
      UsedAfterComplete(usedRing[..], completed, consumed, place, e);
      ChainFrame(descriptors[..], free, freeHead, place, d, Done(|completed|));
      AvailFrame(availRing[..], submitted, taken, place, d, Done(|completed|));
      WrapMod(|completed|);
      var slot := usedIdx % VQ_SIZE;
      ghost var ring := usedRing[..];
      usedRing[slot] := e;
      assert usedRing[..] == ring[slot := e];
      usedIdx := WrappingInc(usedIdx);
      completed, place := completed + [e], place[d := Done(|completed|)];
    }
  }
}
