/** System V-style shared memory segments: lookup by key, reference counts and frames (kernel/src/ipc/shm.rs). */
module Shm {
  import opened Bytes
  import opened FrameAlloc

  const MIN_SHM_SIZE: nat := 1
  const MAX_SHM_SIZE: nat := 16 * 1024 * 1024

  datatype Segment = Segment(id: nat, key: nat, size: nat, refcount: nat, pages: seq<nat>, marked: bool)

  /** An attachment in the list of its task. */
  datatype Attachment = Attachment(pid: nat, shmid: nat, virt: nat, size: nat)

  datatype Result = Ok(value: nat) | InvalidArgument | AlreadyExists | NotFound | OutOfMemory

  type Table = map<nat, Segment>

  // ---- Reference counts ---------------------------------------------------

  /** The number of live attachments to a segment. */
  function Count(atts: seq<Attachment>, id: nat): nat {
    if atts == [] then 0 else (if atts[0].shmid == id then 1 else 0) + Count(atts[1..], id)
  }

  lemma {:induction false} CountAppend(atts: seq<Attachment>, more: seq<Attachment>, id: nat)
    ensures Count(atts + more, id) == Count(atts, id) + Count(more, id)
  {
    if atts == [] {
      assert atts + more == more;
    } else {
      assert (atts + more)[1..] == atts[1..] + more;
      CountAppend(atts[1..], more, id);
    }
  }

  function Without(atts: seq<Attachment>, i: nat): seq<Attachment>
    requires i < |atts|
  {
    atts[..i] + atts[i + 1..]
  }

  lemma CountWithout(atts: seq<Attachment>, i: nat, id: nat)
    requires i < |atts|
    ensures Count(atts, id) == Count(Without(atts, i), id) + if atts[i].shmid == id then 1 else 0
  {
    assert atts == atts[..i] + [atts[i]] + atts[i + 1..];
    CountAppend(atts[..i], [atts[i]], id);
    CountAppend(atts[..i] + [atts[i]], atts[i + 1..], id);
    CountAppend(atts[..i], atts[i + 1..], id);
  }

  lemma {:induction false} CountMember(atts: seq<Attachment>, i: nat)
    requires i < |atts|
    ensures Count(atts, atts[i].shmid) > 0
  {
    CountWithout(atts, i, atts[i].shmid);
  }

  /** Each segment's reference count is the number of live attachments to it, over all tasks. */
  ghost predicate RefsOk(t: Table, atts: seq<Attachment>) {
    && (forall id :: id in t ==> t[id].refcount == Count(atts, id))
    && (forall i :: 0 <= i < |atts| ==> atts[i].shmid in t)
  }

  /**
   * Segments sit under their id and have pages; nonzero keys are unique among unmarked segments; a marked segment is
   * attached.
   */
  ghost predicate TableOk(t: Table) {
    && (forall id :: id in t ==> t[id].id == id && t[id].pages != [] && (t[id].marked ==> t[id].refcount > 0))
    && (forall i, j :: i in t && j in t && !t[i].marked && !t[j].marked && t[i].key != 0 && t[i].key == t[j].key ==>
        i == j)
  }

  // ---- Frames -------------------------------------------------------------

  function FrameNo(start: nat, p: nat): nat {
    if p < start then 0 else (p - start) / 0x1000
  }

  predicate IsFrame(start: nat, frames: nat, p: nat) {
    FrameNo(start, p) < frames && p == start + 0x1000 * FrameNo(start, p)
  }

  predicate DistinctPages(pages: seq<nat>) {
    forall k, l :: 0 <= k < l < |pages| ==> pages[k] != pages[l]
  }

  ghost predicate Owns(t: Table, id: nat, p: nat) {
    id in t && p in t[id].pages
  }

  ghost predicate Owned(t: Table, p: nat) {
    exists id :: Owns(t, id, p)
  }

  /** No frame belongs to two segments, or twice to one. */
  ghost predicate Disjoint(t: Table) {
    && (forall id :: id in t ==> DistinctPages(t[id].pages))
    && (forall i, j, p :: Owns(t, i, p) && Owns(t, j, p) ==> i == j)
  }

  /** The allocated frames are those of the segments and `others`, which do not overlap. */
  ghost predicate FramesOk(t: Table, start: nat, frames: nat, used: set<nat>, others: set<nat>) {
    && (forall id, p :: Owns(t, id, p) ==> IsFrame(start, frames, p))
    && (forall i: nat ::
        (i in used <==> i in others || Owned(t, start + 0x1000 * i)) && !(i in others && Owned(t, start + 0x1000 * i)))
    && (forall i :: i in used ==> i < frames)
  }

  /** The frame numbers of a list of pages. */
  ghost function Numbers(start: nat, pages: seq<nat>): set<nat> {
    set k | 0 <= k < |pages| :: FrameNo(start, pages[k])
  }

  lemma NumberOf(start: nat, frames: nat, pages: seq<nat>, i: nat)
    requires forall k :: 0 <= k < |pages| ==> IsFrame(start, frames, pages[k])
    ensures i in Numbers(start, pages) <==> start + 0x1000 * i in pages
  {
    if start + 0x1000 * i in pages {
      var k :| 0 <= k < |pages| && pages[k] == start + 0x1000 * i;
      assert FrameNo(start, pages[k]) == i;
    }
  }

  /** A new segment takes over frames that were allocated but not owned. */
  lemma FramesAdd(t: Table, start: nat, frames: nat, used: set<nat>, others: set<nat>, id: nat, seg: Segment)
    requires FramesOk(t, start, frames, used, others) && Disjoint(t) && id !in t && DistinctPages(seg.pages)
    requires forall k :: 0 <= k < |seg.pages| ==> IsFrame(start, frames, seg.pages[k])
    requires Numbers(start, seg.pages) <= others
    ensures FramesOk(t[id := seg], start, frames, used, others - Numbers(start, seg.pages)) && Disjoint(t[id := seg])
  {
    var t' := t[id := seg];
    forall p | p in seg.pages ensures !Owned(t, p) && IsFrame(start, frames, p) {
      var k :| 0 <= k < |seg.pages| && seg.pages[k] == p;
      var i := FrameNo(start, p);
      assert i in Numbers(start, seg.pages) && i in others;
    }
    forall p ensures Owned(t', p) <==> Owned(t, p) || p in seg.pages {
      if Owned(t, p) {
        var j :| Owns(t, j, p);
        assert Owns(t', j, p);
      }
      if p in seg.pages { assert Owns(t', id, p); }
      if Owned(t', p) {
        var j :| Owns(t', j, p);
        assert j == id || Owns(t, j, p);
      }
    }
    forall i: nat
      ensures i in Numbers(start, seg.pages) <==> start + 0x1000 * i in seg.pages
    {
      NumberOf(start, frames, seg.pages, i);
    }
    forall i, j, p | Owns(t', i, p) && Owns(t', j, p) ensures i == j {
      assert i == id || Owns(t, i, p);
      assert j == id || Owns(t, j, p);
    }
  }

  /** The frames of a removed segment are no longer owned. */
  lemma FramesRemove(t: Table, start: nat, frames: nat, used: set<nat>, others: set<nat>, id: nat)
    requires FramesOk(t, start, frames, used, others) && Disjoint(t) && id in t
    ensures FramesOk(t - {id}, start, frames, used, others + Numbers(start, t[id].pages)) && Disjoint(t - {id})
    ensures Numbers(start, t[id].pages) <= used && Numbers(start, t[id].pages) !! others
  {
    var t', pages := t - {id}, t[id].pages;
    forall k | 0 <= k < |pages| ensures IsFrame(start, frames, pages[k]) { assert Owns(t, id, pages[k]); }
    forall p ensures Owned(t', p) <==> Owned(t, p) && p !in pages {
      if Owned(t, p) && p !in pages {
        var j :| Owns(t, j, p);
        assert Owns(t', j, p);
      }
      if Owned(t', p) {
        var j :| Owns(t', j, p);
        assert Owns(t, j, p);
        if p in pages { assert Owns(t, id, p); }
      }
    }
    forall i: nat
      ensures i in Numbers(start, pages) <==> start + 0x1000 * i in pages
    {
      NumberOf(start, frames, pages, i);
    }
    forall i: nat | i in Numbers(start, pages) ensures i in used && i !in others {
      assert Owns(t, id, start + 0x1000 * i);
      assert Owned(t, start + 0x1000 * i);
    }
    forall j, p | Owns(t', j, p) ensures IsFrame(start, frames, p) && Owns(t, j, p) { assert Owns(t, j, p); }
    var rest := others + Numbers(start, pages);
    forall i: nat
      ensures i in used <==> i in rest || Owned(t', start + 0x1000 * i)
      ensures !(i in rest && Owned(t', start + 0x1000 * i))
    {
      assert Owned(t', start + 0x1000 * i) <==> Owned(t, start + 0x1000 * i) && start + 0x1000 * i !in pages;
    }
  }

  /** Changing other fields of a segment leaves the frames alone. */
  lemma FramesSame(t: Table, start: nat, frames: nat, used: set<nat>, others: set<nat>, id: nat, seg: Segment)
    requires FramesOk(t, start, frames, used, others) && Disjoint(t) && id in t && seg.pages == t[id].pages
    ensures FramesOk(t[id := seg], start, frames, used, others) && Disjoint(t[id := seg])
  {
    var t' := t[id := seg];
    assert forall j, p :: Owns(t', j, p) <==> Owns(t, j, p);
    forall p ensures Owned(t', p) <==> Owned(t, p) {
      if Owned(t, p) {
        var j :| Owns(t, j, p);
        assert Owns(t', j, p);
      }
    }
  }

  /**
   * With the other frames unchanged, the allocated frames are determined by the table: removing a segment frees
   * exactly its frames.
   */
  lemma FreedExactly(t: Table, start: nat, frames: nat, used: set<nat>, used': set<nat>, others: set<nat>, id: nat)
    requires FramesOk(t, start, frames, used, others) && Disjoint(t) && id in t
    requires FramesOk(t - {id}, start, frames, used', others)
    ensures used' == used - Numbers(start, t[id].pages)
  {
    FramesRemove(t, start, frames, used, others, id);
    var gone := Numbers(start, t[id].pages);
    forall i: nat ensures i in used' <==> i in used && i !in gone {
      assert i in used <==> i in others + gone || Owned(t - {id}, start + 0x1000 * i);
      assert !(i in others + gone && Owned(t - {id}, start + 0x1000 * i));
    }
  }

  /** Giving back frames that no segment owns. */
  lemma FramesFree(t: Table, start: nat, frames: nat, used: set<nat>, others: set<nat>, n: set<nat>)
    requires FramesOk(t, start, frames, used, others) && n <= others
    ensures FramesOk(t, start, frames, used - n, others - n)
  {
  }

  /** Allocating a frame for no segment yet. */
  lemma FramesTake(t: Table, start: nat, frames: nat, used: set<nat>, others: set<nat>, i: nat)
    requires FramesOk(t, start, frames, used, others) && i < frames && i !in used
    ensures FramesOk(t, start, frames, used + {i}, others + {i})
  {
  }

  /** A page of a segment is an address inside the allocator's region. */
  lemma RegionFrame(start: nat, end: nat, p: nat)
    requires start <= end && (end - start) % 0x8000 == 0 && IsFrame(start, 8 * ((end - start) / 0x8000), p)
    ensures start <= p < end && (p - start) / 0x1000 == FrameNo(start, p)
  {
  }

  // ---- Steps of the table -------------------------------------------------

  /** `id` is the unmarked segment with a nonzero key. */
  predicate Named(t: Table, key: nat, id: nat) {
    key != 0 && id in t && t[id].key == key && !t[id].marked
  }

  /** After one detach: a marked segment goes with its last attachment. */
  function Detached(t: Table, id: nat): Table
    requires id in t
  {
    var n := if t[id].refcount > 0 then t[id].refcount - 1 else 0;
    if t[id].marked && n == 0 then t - {id} else t[id := t[id].(refcount := n)]
  }

  function Marked(t: Table, id: nat): Table
    requires id in t
  {
    if t[id].refcount == 0 then t - {id} else t[id := t[id].(marked := true)]
  }

  lemma DetachedOk(t: Table, atts: seq<Attachment>, i: nat)
    requires TableOk(t) && RefsOk(t, atts) && i < |atts|
    ensures atts[i].shmid in t && t[atts[i].shmid].refcount > 0
    ensures TableOk(Detached(t, atts[i].shmid)) && RefsOk(Detached(t, atts[i].shmid), Without(atts, i))
  {
    var id := atts[i].shmid;
    var t', rest := Detached(t, id), Without(atts, i);
    forall j | j in t ensures Count(atts, j) == Count(rest, j) + if j == id then 1 else 0 { CountWithout(atts, i, j); }
    forall n | 0 <= n < |rest| ensures rest[n].shmid in t' {
      assert rest[n] == if n < i then atts[n] else atts[n + 1];
      CountMember(rest, n);
    }
  }

  lemma MarkedOk(t: Table, atts: seq<Attachment>, id: nat)
    requires TableOk(t) && RefsOk(t, atts) && id in t
    ensures TableOk(Marked(t, id)) && RefsOk(Marked(t, id), atts)
  {
    forall n | 0 <= n < |atts| ensures atts[n].shmid in Marked(t, id) { CountMember(atts, n); }
  }

  lemma AttachedOk(t: Table, atts: seq<Attachment>, a: Attachment)
    requires TableOk(t) && RefsOk(t, atts) && a.shmid in t
    ensures var t' := t[a.shmid := t[a.shmid].(refcount := t[a.shmid].refcount + 1)];
            TableOk(t') && RefsOk(t', atts + [a])
  {
    forall j | j in t
      ensures Count(atts + [a], j) == Count(atts, j) + if j == a.shmid then 1 else 0
    {
      CountAppend(atts, [a], j);
    }
  }

  lemma {:induction false} CountNone(t: Table, atts: seq<Attachment>, id: nat)
    requires id !in t && forall i :: 0 <= i < |atts| ==> atts[i].shmid in t
    ensures Count(atts, id) == 0
  {
    if atts != [] {
      assert atts[0].shmid in t;
      CountNone(t, atts[1..], id);
    }
  }

  lemma CreatedOk(t: Table, atts: seq<Attachment>, seg: Segment)
    requires TableOk(t) && RefsOk(t, atts) && seg.id !in t && seg.refcount == 0 && !seg.marked && seg.pages != []
    requires forall id :: !Named(t, seg.key, id)
    ensures TableOk(t[seg.id := seg]) && RefsOk(t[seg.id := seg], atts)
  {
    CountNone(t, atts, seg.id);
    var t' := t[seg.id := seg];
    forall i, j | i in t' && j in t' && !t'[i].marked && !t'[j].marked && t'[i].key != 0 && t'[i].key == t'[j].key
      ensures i == j
    {
      assert i != seg.id ==> !Named(t, seg.key, i);
      assert j != seg.id ==> !Named(t, seg.key, j);
    }
  }

  /** Creating under an id in use keeps the counts right exactly when nothing is attached to that id. */
  lemma ReusedCounts(t: Table, atts: seq<Attachment>, seg: Segment)
    requires RefsOk(t, atts) && seg.id in t && seg.refcount == 0
    ensures RefsOk(t[seg.id := seg], atts) <==> t[seg.id].refcount == 0
  {
    assert t[seg.id := seg][seg.id].refcount == 0;
  }

  /** Creating under an id in use loses the frames of the segment that was there, attached or not. */
  lemma ReusedFrames(t: Table, start: nat, frames: nat, used: set<nat>, others: set<nat>, seg: Segment)
    requires FramesOk(t, start, frames, used, others) && Disjoint(t) && seg.id in t && t[seg.id].pages != []
    requires forall k :: 0 <= k < |seg.pages| ==> IsFrame(start, frames, seg.pages[k])
    requires Numbers(start, seg.pages) <= others
    ensures !FramesOk(t[seg.id := seg], start, frames, used, others - Numbers(start, seg.pages))
  {
    var p, t' := t[seg.id].pages[0], t[seg.id := seg];
    assert Owns(t, seg.id, p);
    var i := FrameNo(start, p);
    assert Owned(t, start + 0x1000 * i) && i in used && i !in others;
    NumberOf(start, frames, seg.pages, i);
    if Owned(t', p) {
      var j :| Owns(t', j, p);
      assert j == seg.id || Owns(t, j, p);
    }
    assert !Owned(t', start + 0x1000 * i);
  }

  /** A new segment leaves the table consistent exactly when its id was free. */
  lemma ReusedId(t: Table, atts: seq<Attachment>, start: nat, frames: nat, used: set<nat>, others: set<nat>,
                 seg: Segment)
    requires TableOk(t) && RefsOk(t, atts) && FramesOk(t, start, frames, used, others) && Disjoint(t)
    requires seg.refcount == 0 && !seg.marked && seg.pages != [] && forall id :: !Named(t, seg.key, id)
    requires DistinctPages(seg.pages) && forall k :: 0 <= k < |seg.pages| ==> IsFrame(start, frames, seg.pages[k])
    requires Numbers(start, seg.pages) <= others
    ensures var t', others' := t[seg.id := seg], others - Numbers(start, seg.pages);
            TableOk(t') && RefsOk(t', atts) && Disjoint(t') && FramesOk(t', start, frames, used, others') <==>
            seg.id !in t
  {
    if seg.id in t {
      ReusedFrames(t, start, frames, used, others, seg);
    } else {
      CreatedOk(t, atts, seg);
      FramesAdd(t, start, frames, used, others, seg.id, seg);
    }
  }

  /** Ids count up from 1 and wrap at 2^32; the first 2^32 - 1 are new. */
  ghost predicate IdsOk(t: Table, nextId: nat, created: nat) {
    nextId < U32_LIMIT && (created + 1 < U32_LIMIT ==> nextId == created + 1 && forall id :: id in t ==> id <= created)
  }

  // ---- What an exit does --------------------------------------------------

  predicate NoneOf(atts: seq<Attachment>, pid: nat) {
    forall i :: 0 <= i < |atts| ==> atts[i].pid != pid
  }

  /** The exit walks the P4 entry of `virt`: one of the lower half that is not shared with the kernel's page table. */
  predicate Walked(shared: set<nat>, virt: nat) {
    virt / 0x80_0000_0000 % 512 < 256 && virt / 0x80_0000_0000 % 512 !in shared
  }

  /** The exit of `pid` frees page `k` of the segment of attachment `i`. */
  predicate FreesPage(t: Table, atts: seq<Attachment>, pid: nat, shared: set<nat>, i: nat, k: nat) {
    && i < |atts| && atts[i].pid == pid && atts[i].shmid in t && k < |t[atts[i].shmid].pages|
    && Walked(shared, atts[i].virt + 0x1000 * k)
  }

  ghost predicate FreesNone(t: Table, atts: seq<Attachment>, pid: nat, shared: set<nat>) {
    forall i: nat, k: nat :: !FreesPage(t, atts, pid, shared, i, k)
  }

  /** Frame `n` holds such a page. */
  ghost predicate FreedFrame(t: Table, atts: seq<Attachment>, pid: nat, shared: set<nat>, start: nat, n: nat) {
    exists i: nat, k: nat ::
      FreesPage(t, atts, pid, shared, i, k) && n == FrameNo(start, t[atts[i].shmid].pages[k])
  }

  lemma {:induction false} CountOthers(atts: seq<Attachment>, pid: nat, id: nat)
    ensures Count(OfOthers(atts, pid), id) <= Count(atts, id)
    ensures forall i :: 0 <= i < |atts| && atts[i].pid == pid && atts[i].shmid == id ==>
      Count(OfOthers(atts, pid), id) < Count(atts, id)
  {
    if atts != [] {
      CountOthers(atts[1..], pid, id);
      CountAppend(if atts[0].pid == pid then [] else [atts[0]], OfOthers(atts[1..], pid), id);
      forall i | 0 <= i < |atts| && atts[i].pid == pid && atts[i].shmid == id
        ensures Count(OfOthers(atts, pid), id) < Count(atts, id)
      {
        if i > 0 { assert atts[1..][i - 1] == atts[i]; }
      }
    }
  }

  lemma {:induction false} OthersAll(atts: seq<Attachment>, pid: nat)
    requires NoneOf(atts, pid)
    ensures OfOthers(atts, pid) == atts
  {
    if atts != [] { OthersAll(atts[1..], pid); }
  }

  /**
   * A process exit drops the process with its attachments and leaves the segment table alone: the counts stay right
   * exactly when it had no attachment.
   */
  lemma ExitCounts(t: Table, atts: seq<Attachment>, pid: nat)
    requires RefsOk(t, atts)
    ensures RefsOk(t, OfOthers(atts, pid)) <==> NoneOf(atts, pid)
  {
    if NoneOf(atts, pid) {
      OthersAll(atts, pid);
    } else {
      var i :| 0 <= i < |atts| && atts[i].pid == pid;
      CountOthers(atts, pid, atts[i].shmid);
    }
  }

  /**
   * A process exit frees every frame its page table maps, shared segments included, except below the P4 entries that it
   * shares with the kernel, and with `mine` its private pages and the page tables: the segments keep owning allocated
   * frames exactly when none of their pages is among the freed ones. A freed page is free while its segment still owns
   * it, so freeing the segment frees it a second time.
   */
  lemma ExitFrames(t: Table, atts: seq<Attachment>, pid: nat, shared: set<nat>, start: nat, frames: nat,
                   used: set<nat>, used': set<nat>, others: set<nat>, mine: set<nat>)
    requires FramesOk(t, start, frames, used, others) && mine <= others
    requires forall n: nat :: n in used' <==> n in used && n !in mine && !FreedFrame(t, atts, pid, shared, start, n)
    ensures FramesOk(t, start, frames, used', others - mine) <==> FreesNone(t, atts, pid, shared)
    ensures forall i: nat, k: nat :: FreesPage(t, atts, pid, shared, i, k) ==>
      FrameNo(start, t[atts[i].shmid].pages[k]) !in used'
  {
    if FreesNone(t, atts, pid, shared) {
      assert used' == used - mine;
    } else {
      var i: nat, k: nat :| FreesPage(t, atts, pid, shared, i, k);
      FreedWhileOwned(t, atts[i].shmid, k, start, frames, used', others - mine);
    }
  }

  /** If its attachments lie below P4 entries of its own, an exit frees no shared page exactly when it has none. */
  lemma ExitFreesNone(t: Table, atts: seq<Attachment>, pid: nat, shared: set<nat>)
    requires TableOk(t) && RefsOk(t, atts)
    requires forall i :: 0 <= i < |atts| && atts[i].pid == pid ==> Walked(shared, atts[i].virt)
    ensures FreesNone(t, atts, pid, shared) <==> NoneOf(atts, pid)
  {
    if !NoneOf(atts, pid) {
      var i: nat :| i < |atts| && atts[i].pid == pid;
      assert FreesPage(t, atts, pid, shared, i, 0);
    }
  }

  lemma FreedWhileOwned(t: Table, id: nat, k: nat, start: nat, frames: nat, used: set<nat>, others: set<nat>)
    requires id in t && k < |t[id].pages| && FrameNo(start, t[id].pages[k]) !in used
    ensures !FramesOk(t, start, frames, used, others)
  {
    var p := t[id].pages[k];
    assert Owns(t, id, p);
    if IsFrame(start, frames, p) { assert Owned(t, start + 0x1000 * FrameNo(start, p)); }
  }

  class SharedMemory {
    const fa: FrameAllocator
    var table: Table
    var nextId: nat
    /** The attachments of all tasks, each with its owner. */
    var attachments: seq<Attachment>
    /** Allocated frames that belong to no segment. */
    ghost var others: set<nat>
    /** The number of segments created so far. */
    ghost var created: nat

    ghost predicate Valid()
      reads this, fa, fa.bitmap
    {
      && fa.Valid() && fa.initialized
      && TableOk(table) && RefsOk(table, attachments) && Disjoint(table)
      && FramesOk(table, fa.start, fa.Frames(), fa.Used(), others)
      && IdsOk(table, nextId, created)
    }

    /** The number of free frames. */
    ghost function FreeFrames(): int
      reads this, fa, fa.bitmap
      requires fa.Valid()
    {
      fa.Frames() - |fa.Used()|
    }

    constructor (fa: FrameAllocator)
      requires fa.Valid() && fa.initialized
      ensures Valid() && this.fa == fa && table == map[] && attachments == [] && nextId == 1 && others == fa.Used()
      ensures created == 0
    {
      this.fa, table, nextId, attachments, others, created := fa, map[], 1, [], fa.Used(), 0;
    }

    /** The lookup of shmget: the segment with this key that is not marked for removal. */
    method FindKey(key: nat) returns (r: Option<nat>)
      ensures r.Some? ==> r.value in table && table[r.value].key == key && !table[r.value].marked
      ensures r.None? ==> forall id :: id in table ==> !(table[id].key == key && !table[id].marked)
    {
      var ids := table.Keys;
      while ids != {}
        invariant ids <= table.Keys
        invariant forall id :: id in table && id !in ids ==> !(table[id].key == key && !table[id].marked)
        decreases |ids|
      {
        var id :| id in ids;
        if table[id].key == key && !table[id].marked { return Some(id); }
        ids := ids - {id};
      }
      r := None;
    }

    /** The allocation loop of shmget. When it runs out, the frames taken so far stay allocated. */
    method AllocPages(n: nat) returns (ok: bool, pages: seq<nat>)
      requires Valid()
      modifies fa.bitmap, this`others
      ensures Valid() && DistinctPages(pages) && (ok ==> |pages| == n)
      ensures ok <==> n <= old(FreeFrames())
      ensures forall k :: 0 <= k < |pages| ==> IsFrame(fa.start, fa.Frames(), pages[k])
      ensures Numbers(fa.start, pages) !! old(others) && others == old(others) + Numbers(fa.start, pages)
      ensures !ok ==> FreeFrames() == 0 && forall i: nat :: i in fa.Used() <==> i < fa.Frames()
    {
      pages := [];
      while |pages| < n
        invariant Valid() && |pages| <= n && DistinctPages(pages) && FreeFrames() == old(FreeFrames()) - |pages|
        invariant forall k :: 0 <= k < |pages| ==> IsFrame(fa.start, fa.Frames(), pages[k])
        invariant Numbers(fa.start, pages) !! old(others) && others == old(others) + Numbers(fa.start, pages)
      {
        var f := TakeFrame();
        FullCount(fa.Used(), fa.Frames());
        if f.None? { return false, pages; }
        NewPage(fa.start, fa.Frames(), pages, f.value);
        pages := pages + [f.value];
      }
      FullCount(fa.Used(), fa.Frames());
      ok := true;
    }

    method TakeFrame() returns (r: Option<nat>)
      requires Valid()
      modifies fa.bitmap, this`others
      ensures Valid()
      ensures r.Some? ==> IsFrame(fa.start, fa.Frames(), r.value) && FrameNo(fa.start, r.value) !in old(others)
      ensures r.Some? ==> others == old(others) + {FrameNo(fa.start, r.value)} && FreeFrames() == old(FreeFrames()) - 1
      ensures r.None? ==> FreeFrames() == old(FreeFrames()) && others == old(others)
      ensures r.None? ==> forall i: nat :: i in fa.Used() <==> i < fa.Frames()
    {
      ghost var used := fa.Used();
      r := fa.AllocFrame();
      if r.Some? {
        ghost var i := fa.IndexOf(r.value);
        FramesTake(table, fa.start, fa.Frames(), used, others, i);
        others := others + {i};
      }
    }

    /** free_frame for every page: each frame is in use when it is freed. */
    method FreePages(pages: seq<nat>)
      requires Valid() && DistinctPages(pages) && Numbers(fa.start, pages) <= others
      requires forall k :: 0 <= k < |pages| ==> IsFrame(fa.start, fa.Frames(), pages[k])
      modifies fa.bitmap, this`others
      ensures Valid() && others == old(others) - Numbers(fa.start, pages)
    {
      for i := 0 to |pages|
        invariant Valid() && others == old(others) - Numbers(fa.start, pages[..i])
      {
        NextPage(fa.start, fa.Frames(), pages, i);
        GiveFrame(pages[i]);
      }
      assert pages[..|pages|] == pages;
    }

    method GiveFrame(p: nat)
      requires Valid() && IsFrame(fa.start, fa.Frames(), p) && FrameNo(fa.start, p) in others
      modifies fa.bitmap, this`others
      ensures Valid() && others == old(others) - {FrameNo(fa.start, p)}
    {
      ghost var used, i := fa.Used(), FrameNo(fa.start, p);
      RegionFrame(fa.start, fa.end, p);
      FramesFree(table, fa.start, fa.Frames(), used, others, {i});
      fa.FreeFrame(p);
      others := others - {i};
    }

    /**
     * shmget. An existing key yields its segment or AlreadyExists; otherwise a new segment takes over frames that were
     * free. With too few free frames all of them are taken and lost. The new id is one already in use exactly when
     * the state is inconsistent afterwards.
     */
    method ShmGet(key: nat, size: nat, creat: bool, excl: bool) returns (r: Result)
      requires Valid()
      modifies this`table, this`nextId, this`others, this`created, fa.bitmap
      ensures r.InvalidArgument? <==> !GoodSize(size)
      ensures r.AlreadyExists? <==> GoodSize(size) && Exists(old(table), key) && creat && excl
      ensures r.NotFound? <==> GoodSize(size) && !Exists(old(table), key) && key != 0 && !creat
      ensures r.OutOfMemory? <==> Creates(old(table), key, size, creat) && old(FreeFrames()) < PageUp(size) / PAGE_SIZE
      ensures r.Ok? && Exists(old(table), key) ==> Named(old(table), key, r.value)
      ensures r.Ok? && Creates(old(table), key, size, creat) ==>
        && r.value == old(nextId) && NewSegment(old(table), table, old(nextId), key, size)
        && nextId == (old(nextId) + 1) % U32_LIMIT
      ensures !(r.Ok? && Creates(old(table), key, size, creat)) ==> table == old(table) && nextId == old(nextId)
      ensures !r.OutOfMemory? ==> others == old(others)
      ensures r.OutOfMemory? ==> FreeFrames() == 0
      ensures r.OutOfMemory? ==>
        forall i: nat :: i in others <==> i in old(others) || (i < fa.Frames() && i !in old(fa.Used()))
      ensures Valid() <==> !(r.Ok? && Creates(old(table), key, size, creat) && old(nextId) in old(table))
      ensures old(created) + 1 < U32_LIMIT ==> Valid()
    {
      if size < MIN_SHM_SIZE || size > MAX_SHM_SIZE { return InvalidArgument; }
      var create := key == 0 || creat;
      if key != 0 {
        var existing := FindKey(key);
        if existing.Some? {
          assert Named(table, key, existing.value);
          if excl && create { return AlreadyExists; }
          return Ok(table[existing.value].id);
        }
      }
      if !create { return NotFound; }
      r := Create(key, size);
    }

    /** The rest of shmget when there is no segment to return. */
    method Create(key: nat, size: nat) returns (r: Result)
      requires Valid() && GoodSize(size) && !Exists(table, key)
      modifies this`table, this`nextId, this`others, this`created, fa.bitmap
      ensures if old(FreeFrames()) < PageUp(size) / PAGE_SIZE then r == OutOfMemory else r == Ok(old(nextId))
      ensures r.Ok? ==> NewSegment(old(table), table, old(nextId), key, size) && nextId == (old(nextId) + 1) % U32_LIMIT
      ensures r.Ok? ==> others == old(others)
      ensures r.OutOfMemory? ==> table == old(table) && nextId == old(nextId)
      ensures r.OutOfMemory? ==> FreeFrames() == 0
      ensures r.OutOfMemory? ==>
        forall i: nat :: i in others <==> i in old(others) || (i < fa.Frames() && i !in old(fa.Used()))
      ensures Valid() <==> !(r.Ok? && old(nextId) in old(table))
      ensures old(created) + 1 < U32_LIMIT ==> Valid()
    {
      var alignedSize := PageUp(size);
      ghost var used := fa.Used();
      var ok, pages := AllocPages(alignedSize / PAGE_SIZE);
      if !ok {
        Leaked(table, fa.start, fa.Frames(), used, fa.Used(), old(others), others);
        return OutOfMemory;
      }
      var id := StoreSegment(key, alignedSize, pages);
      return Ok(id);
    }

    /** Enter a segment with these pages under the next id. */
    method StoreSegment(key: nat, size: nat, pages: seq<nat>) returns (id: nat)
      requires Valid() && !Exists(table, key) && pages != [] && DistinctPages(pages)
      requires Numbers(fa.start, pages) <= others
      requires forall k :: 0 <= k < |pages| ==> IsFrame(fa.start, fa.Frames(), pages[k])
      modifies this`table, this`nextId, this`others, this`created
      ensures id == old(nextId) && nextId == (old(nextId) + 1) % U32_LIMIT
      ensures others == old(others) - Numbers(fa.start, pages)
      ensures table == old(table)[id := Segment(id, key, size, 0, pages, false)]
      ensures Valid() <==> old(nextId) !in old(table)
      ensures old(created) + 1 < U32_LIMIT ==> Valid()
    {
      id := nextId;
      nextId := (nextId + 1) % U32_LIMIT;
      var seg := Segment(id, key, size, 0, pages, false);
      ReusedId(table, attachments, fa.start, fa.Frames(), fa.Used(), others, seg);
      table := table[id := seg];
      others := others - Numbers(fa.start, pages);
      created := created + 1;
    }

    /** shmat: `virt` is what the search for a free address range yields. */
    method ShmAt(pid: nat, id: nat, virt: Option<nat>) returns (r: Result)
      requires Valid()
      modifies this`table, this`attachments
      ensures Valid()
      ensures r.NotFound? <==> !(id in old(table) && !old(table)[id].marked)
      ensures r.Ok? <==> id in old(table) && !old(table)[id].marked && virt.Some?
      ensures r.Ok? ==> r.value == virt.value
      ensures r.Ok? ==> attachments == old(attachments) + [Attachment(pid, id, virt.value, old(table)[id].size)]
      ensures r.Ok? ==> table == old(table)[id := old(table)[id].(refcount := old(table)[id].refcount + 1)]
      ensures !r.Ok? ==> table == old(table) && attachments == old(attachments)
    {
      if id !in table || table[id].marked { return NotFound; }
      if virt.None? { return OutOfMemory; }
      var seg, a := table[id], Attachment(pid, id, virt.value, table[id].size);
      AttachedOk(table, attachments, a);
      FramesSame(table, fa.start, fa.Frames(), fa.Used(), others, id, seg.(refcount := seg.refcount + 1));
      table := table[id := seg.(refcount := seg.refcount + 1)];
      attachments := attachments + [a];
      return Ok(virt.value);
    }

    /** Take a segment out of the table and free its frames. */
    method Destroy(id: nat)
      requires fa.Valid() && fa.initialized && Disjoint(table)
      requires FramesOk(table, fa.start, fa.Frames(), fa.Used(), others)
      requires id in table && RefsOk(table - {id}, attachments) && TableOk(table - {id})
      requires IdsOk(table, nextId, created)
      modifies this`table, this`others, fa.bitmap
      ensures Valid() && table == old(table) - {id} && others == old(others)
    {
      var pages := table[id].pages;
      FramesRemove(table, fa.start, fa.Frames(), fa.Used(), others, id);
      PagesAreFrames(table, fa.start, fa.Frames(), fa.Used(), others, id);
      table := table - {id};
      others := others + Numbers(fa.start, pages);
      FreePages(pages);
    }

    /**
     * Detaching, in shmdt and in cleanup_task_attachments: the segment is freed with the last attachment if it is
     * marked.
     */
    method Detach(i: nat)
      requires Valid() && i < |attachments|
      modifies this`table, this`attachments, this`others, fa.bitmap
      ensures Valid() && others == old(others) && attachments == Without(old(attachments), i)
      ensures old(attachments)[i].shmid in old(table) && table == Detached(old(table), old(attachments)[i].shmid)
    {
      var id := attachments[i].shmid;
      DetachedOk(table, attachments, i);
      attachments := Without(attachments, i);
      var seg := table[id];
      var refcount := if seg.refcount > 0 then seg.refcount - 1 else 0;
      if seg.marked && refcount == 0 {
        Destroy(id);
      } else {
        FramesSame(table, fa.start, fa.Frames(), fa.Used(), others, id, seg.(refcount := refcount));
        table := table[id := seg.(refcount := refcount)];
      }
    }

    /** shmdt: the caller's first attachment at this address. */
    method ShmDt(pid: nat, virt: nat) returns (r: Result)
      requires Valid()
      modifies this`table, this`attachments, this`others, fa.bitmap
      ensures Valid() && others == old(others)
      ensures r.InvalidArgument? <==> virt == 0 || virt % PAGE_SIZE != 0
      ensures r.NotFound? <==> !r.InvalidArgument? && FirstAt(old(attachments), pid, virt) == |old(attachments)|
      ensures !r.Ok? ==> r in {InvalidArgument, NotFound} && table == old(table) && attachments == old(attachments)
      ensures r.Ok? ==> var i := FirstAt(old(attachments), pid, virt);
                        i < |old(attachments)| && attachments == Without(old(attachments), i)
                        && old(attachments)[i].shmid in old(table)
                        && table == Detached(old(table), old(attachments)[i].shmid)
    {
      if virt == 0 || virt % PAGE_SIZE != 0 { return InvalidArgument; }
      var i := FirstAt(attachments, pid, virt);
      if i == |attachments| { return NotFound; }
      Detach(i);
      return Ok(0);
    }

    /** cleanup_task_attachments, for the attachments of an exiting task, which go with it. */
    method CleanupTask(pid: nat)
      requires Valid()
      modifies this`table, this`attachments, this`others, fa.bitmap
      ensures Valid() && others == old(others) && attachments == OfOthers(old(attachments), pid)
      ensures Shrunk(old(table), table)
    {
      var i := 0;
      while i < |attachments|
        invariant Valid() && others == old(others) && Shrunk(old(table), table)
        invariant i <= |attachments| && OfOthers(attachments, pid) == OfOthers(old(attachments), pid)
        invariant attachments[..i] == OfOthers(attachments[..i], pid)
        decreases |attachments| - i
      {
        if attachments[i].pid == pid {
          OfOthersWithout(attachments, i, pid);
          ghost var t, atts := table, attachments;
          Detach(i);
          assert attachments[..i] == atts[..i];
          ShrunkBy(old(table), t, table, atts[i].shmid);
        } else {
          OfOthersNext(attachments, i, pid);
          i := i + 1;
        }
      }
      assert attachments[..i] == attachments;
    }

    /** shm_mark_removal: an unattached segment is freed at once, an attached one later. */
    method MarkRemoval(id: nat) returns (r: Result)
      requires Valid()
      modifies this`table, this`others, fa.bitmap
      ensures Valid() && others == old(others)
      ensures id in old(table) ==> r == Ok(0) && table == Marked(old(table), id)
      ensures id !in old(table) ==> r == NotFound && table == old(table)
    {
      if id !in table { return NotFound; }
      MarkedOk(table, attachments, id);
      if table[id].refcount == 0 {
        Destroy(id);
      } else {
        FramesSame(table, fa.start, fa.Frames(), fa.Used(), others, id, table[id].(marked := true));
        table := table[id := table[id].(marked := true)];
      }
      return Ok(0);
    }
  }

  /** Two pages asked for with one frame free: the request fails and the frame is gone. */
  method LeakExample(m: SharedMemory) returns (r: Result)
    requires m.Valid() && m.FreeFrames() == 1
    modifies m`table, m`nextId, m`others, m`created, m.fa.bitmap
    ensures r.OutOfMemory? && m.Valid() && m.table == old(m.table) && m.FreeFrames() == 0
  {
    assert forall id :: !Named(m.table, 0, id);
    r := m.ShmGet(0, 0x2000, false, false);
  }

  predicate GoodSize(size: nat) {
    MIN_SHM_SIZE <= size <= MAX_SHM_SIZE
  }

  /** There is an unmarked segment with this nonzero key. */
  ghost predicate Exists(t: Table, key: nat) {
    exists id :: Named(t, key, id)
  }

  /** shmget goes on to create a segment. */
  ghost predicate Creates(t: Table, key: nat, size: nat, creat: bool) {
    GoodSize(size) && !Exists(t, key) && (key == 0 || creat)
  }

  /** The table holds one unattached, unmarked segment of whole pages under `id`, and is otherwise as before. */
  ghost predicate NewSegment(t: Table, t': Table, id: nat, key: nat, size: nat) {
    && id in t' && t' == t[id := t'[id]]
    && t'[id] == Segment(id, key, PageUp(size), 0, t'[id].pages, false) && |t'[id].pages| == PageUp(size) / PAGE_SIZE
  }

  /** When the allocation loop runs out, exactly the frames that were free are allocated and belong to nobody. */
  lemma Leaked(t: Table, start: nat, frames: nat, used: set<nat>, used': set<nat>, others: set<nat>, others': set<nat>)
    requires FramesOk(t, start, frames, used, others) && FramesOk(t, start, frames, used', others')
    requires others <= others' && forall i: nat :: i in used' <==> i < frames
    ensures forall i: nat :: i in others' <==> i in others || (i < frames && i !in used)
  {
    forall i: nat ensures i in others' <==> i in others || (i < frames && i !in used) {
      assert i in used <==> i in others || Owned(t, start + 0x1000 * i);
      assert i in used' <==> i in others' || Owned(t, start + 0x1000 * i);
      assert !(i in others' && Owned(t, start + 0x1000 * i));
    }
  }

  lemma PagesAreFrames(t: Table, start: nat, frames: nat, used: set<nat>, others: set<nat>, id: nat)
    requires FramesOk(t, start, frames, used, others) && Disjoint(t) && id in t
    ensures DistinctPages(t[id].pages) && forall k :: 0 <= k < |t[id].pages| ==> IsFrame(start, frames, t[id].pages[k])
  {
    forall k | 0 <= k < |t[id].pages|
      ensures IsFrame(start, frames, t[id].pages[k])
    {
      assert Owns(t, id, t[id].pages[k]);
    }
  }

  /** The first attachment of a task at an address, or the length. */
  function FirstAt(atts: seq<Attachment>, pid: nat, virt: nat): (i: nat)
    ensures i <= |atts| && (i < |atts| ==> atts[i].pid == pid && atts[i].virt == virt)
    ensures forall j :: 0 <= j < i ==> !(atts[j].pid == pid && atts[j].virt == virt)
  {
    if atts == [] || (atts[0].pid == pid && atts[0].virt == virt) then 0 else 1 + FirstAt(atts[1..], pid, virt)
  }

  /** The attachments of the other tasks, in order. */
  function OfOthers(atts: seq<Attachment>, pid: nat): seq<Attachment> {
    if atts == [] then [] else (if atts[0].pid == pid then [] else [atts[0]]) + OfOthers(atts[1..], pid)
  }

  lemma {:induction false} OfOthersAppend(a: seq<Attachment>, b: seq<Attachment>, pid: nat)
    ensures OfOthers(a + b, pid) == OfOthers(a, pid) + OfOthers(b, pid)
  {
    if a == [] {
      assert a + b == b;
    } else {
      assert (a + b)[1..] == a[1..] + b;
      OfOthersAppend(a[1..], b, pid);
    }
  }

  lemma OfOthersWithout(atts: seq<Attachment>, i: nat, pid: nat)
    requires i < |atts| && atts[i].pid == pid
    ensures OfOthers(Without(atts, i), pid) == OfOthers(atts, pid)
  {
    assert atts == atts[..i] + ([atts[i]] + atts[i + 1..]);
    OfOthersAppend(atts[..i], [atts[i]] + atts[i + 1..], pid);
    OfOthersAppend(atts[..i], atts[i + 1..], pid);
  }

  lemma OfOthersNext(atts: seq<Attachment>, i: nat, pid: nat)
    requires i < |atts| && atts[i].pid != pid && atts[..i] == OfOthers(atts[..i], pid)
    ensures atts[..i + 1] == OfOthers(atts[..i + 1], pid)
  {
    assert atts[..i + 1] == atts[..i] + [atts[i]];
    OfOthersAppend(atts[..i], [atts[i]], pid);
  }

  /** Segments differ in their counts only, and those that went were marked for removal. */
  ghost predicate Shrunk(t: Table, t': Table) {
    && (forall id :: id in t' ==> id in t && t'[id].(refcount := 0) == t[id].(refcount := 0))
    && (forall id :: id in t && id !in t' ==> t[id].marked)
  }

  lemma ShrunkBy(t0: Table, t: Table, t': Table, id: nat)
    requires Shrunk(t0, t) && id in t && t' == Detached(t, id)
    ensures Shrunk(t0, t')
  {
  }

  lemma NewPage(start: nat, frames: nat, pages: seq<nat>, p: nat)
    requires DistinctPages(pages) && IsFrame(start, frames, p) && FrameNo(start, p) !in Numbers(start, pages)
    requires forall k :: 0 <= k < |pages| ==> IsFrame(start, frames, pages[k])
    ensures DistinctPages(pages + [p]) && Numbers(start, pages + [p]) == Numbers(start, pages) + {FrameNo(start, p)}
  {
    var more := pages + [p];
    forall k | 0 <= k < |pages| ensures pages[k] != p { assert FrameNo(start, pages[k]) in Numbers(start, pages); }
    forall x ensures x in Numbers(start, more) <==> x in Numbers(start, pages) || x == FrameNo(start, p) {
      if x in Numbers(start, pages) {
        var k :| 0 <= k < |pages| && FrameNo(start, pages[k]) == x;
        assert FrameNo(start, more[k]) == x;
      }
      if x == FrameNo(start, p) { assert FrameNo(start, more[|pages|]) == x; }
    }
  }

  lemma NextPage(start: nat, frames: nat, pages: seq<nat>, i: nat)
    requires DistinctPages(pages) && i < |pages| && forall k :: 0 <= k < |pages| ==> IsFrame(start, frames, pages[k])
    ensures FrameNo(start, pages[i]) !in Numbers(start, pages[..i]) && FrameNo(start, pages[i]) in Numbers(start, pages)
    ensures Numbers(start, pages[..i + 1]) == Numbers(start, pages[..i]) + {FrameNo(start, pages[i])}
  {
    var a := pages[..i];
    forall k | 0 <= k < i ensures FrameNo(start, a[k]) != FrameNo(start, pages[i]) {
      assert a[k] == pages[k] && pages[k] != pages[i];
    }
    assert pages[..i + 1] == a + [pages[i]];
    NewPage(start, frames, a, pages[i]);
  }
}
