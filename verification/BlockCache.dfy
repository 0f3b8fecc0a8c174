/** The 64-slot write-back LRU sector cache (kernel/src/fs/block_cache.rs). */
module SectorCache {
  import opened Bytes

  const CACHE_SIZE: nat := 64
  const U64_MAX: nat := 0xFFFF_FFFF_FFFF_FFFF

  type Sector = s: seq<byte> | |s| == 512 witness seq(512, i => 0)

  /** A sector is named by its device index and its logical block address. */
  datatype Key = Key(device: nat, lba: nat)

  datatype CacheEntry = CacheEntry(key: Key, data: Sector, dirty: bool, valid: bool, counter: nat)

  /** BlockCache::find: the first valid slot for `k`, or the number of slots. */
  function Find(es: seq<CacheEntry>, k: Key): (i: nat)
    ensures i <= |es|
    ensures i < |es| ==> es[i].valid && es[i].key == k
    ensures forall j :: 0 <= j < i ==> !(es[j].valid && es[j].key == k)
  {
    if es == [] then 0
    else if es[0].valid && es[0].key == k then 0
    else 1 + Find(es[1..], k)
  }

  /** What a reader should see: the cached data if present, else the device's sector. */
  function View(es: seq<CacheEntry>, disk: map<Key, Sector>, k: Key): Option<Sector> {
    var i := Find(es, k);
    if i < |es| then Some(es[i].data) else if k in disk then Some(disk[k]) else None
  }

  /** No sector is cached twice, and clean slots agree with the device. */
  predicate Coherent(es: seq<CacheEntry>, disk: map<Key, Sector>) {
    && |es| == CACHE_SIZE
    && (forall i, j :: 0 <= i < |es| && 0 <= j < |es| && es[i].valid && es[j].valid && es[i].key == es[j].key ==>
        i == j)
    && (forall i :: 0 <= i < |es| && es[i].valid && !es[i].dirty ==> es[i].key in disk && disk[es[i].key] == es[i].data)
  }

  predicate AllDirty(es: seq<CacheEntry>) {
    forall i :: 0 <= i < |es| ==> es[i].valid && es[i].dirty
  }

  /** The sectors of all dirty slots exist on their devices. */
  predicate DirtyOnDisk(es: seq<CacheEntry>, disk: map<Key, Sector>) {
    forall i :: 0 <= i < |es| && es[i].valid && es[i].dirty ==> es[i].key in disk
  }

  /** In a coherent cache the slot of a key is where it is found. */
  lemma FindUnique(es: seq<CacheEntry>, disk: map<Key, Sector>, i: nat)
    requires Coherent(es, disk) && i < |es| && es[i].valid
    ensures Find(es, es[i].key) == i
  {
  }

  /** Replacing a slot: `k` is seen through the new slot, other keys as before. */
  lemma ViewAfterReplace(es: seq<CacheEntry>, disk: map<Key, Sector>, v: nat, e: CacheEntry, k: Key)
    requires Coherent(es, disk) && v < |es| && e.valid
    requires es[v].valid ==> es[v].key == e.key || !es[v].dirty
    requires Find(es, e.key) == v || Find(es, e.key) == |es|
    ensures View(es[v := e], disk, k) == if k == e.key then Some(e.data) else View(es, disk, k)
  {
    var es' := es[v := e];
    var i, i' := Find(es, k), Find(es', k);
    if k == e.key {
      assert es'[v].valid && es'[v].key == k;
      assert i' <= v;
    } else {
      if i' < |es| && i' != v { FindUnique(es, disk, i'); }
      if i < |es| && i != v {
        assert es'[i].valid && es'[i].key == k;
        assert i' < |es| && i' != v;
      }
    }
  }

  lemma CoherentAfterReplace(es: seq<CacheEntry>, disk: map<Key, Sector>, v: nat, e: CacheEntry)
    requires Coherent(es, disk) && v < |es| && e.valid
    requires Find(es, e.key) == v || Find(es, e.key) == |es|
    requires !e.dirty ==> e.key in disk && disk[e.key] == e.data
    ensures Coherent(es[v := e], disk)
  {
    var es' := es[v := e];
    forall i, j | 0 <= i < |es'| && 0 <= j < |es'| && es'[i].valid && es'[j].valid && es'[i].key == es'[j].key
      ensures i == j
    {
      assert i == v || j == v || (es[i].valid && es[j].valid && es[i].key == es[j].key);
    }
  }

  // ---- Access order -------------------------------------------------------

  /** 1 + the position of the last access to `k`; 0 if it was never accessed. */
  function LastAccess(log: seq<Key>, k: Key): (t: nat)
    ensures t <= |log|
    ensures t > 0 ==> log[t - 1] == k
    ensures forall j :: t <= j < |log| ==> log[j] != k
  {
    if log == [] then 0
    else if log[|log| - 1] == k then |log|
    else LastAccess(log[..|log| - 1], k)
  }

  /** Until the counter is exhausted, the stamps are the times of the last accesses. */
  ghost predicate Stamped(es: seq<CacheEntry>, counter: nat, log: seq<Key>) {
    |log| < U64_MAX ==>
      counter == |log| && forall i :: 0 <= i < |es| && es[i].valid ==> es[i].counter == LastAccess(log, es[i].key) > 0
  }

  lemma LastAccessAppend(log: seq<Key>, x: Key, k: Key)
    ensures LastAccess(log + [x], k) == if x == k then |log| + 1 else LastAccess(log, k)
  {
    assert (log + [x])[..|log|] == log;
  }

  /** wrapping_add(1) on the 64-bit counter. */
  function Next(counter: nat): nat {
    if counter == U64_MAX then 0 else counter + 1
  }

  /** Accessing slot `v` under a new stamp keeps all stamps right. */
  lemma StampedAfter(es: seq<CacheEntry>, disk: map<Key, Sector>, counter: nat, log: seq<Key>, v: nat, e: CacheEntry)
    requires Coherent(es, disk) && Stamped(es, counter, log) && v < |es| && e.valid
    requires Find(es, e.key) == v || Find(es, e.key) == |es|
    requires e.counter == Next(counter)
    ensures Stamped(es[v := e], Next(counter), log + [e.key])
  {
    var es' := es[v := e];
    if |log + [e.key]| < U64_MAX {
      forall i | 0 <= i < |es'| && es'[i].valid ensures es'[i].counter == LastAccess(log + [e.key], es'[i].key) > 0 {
        LastAccessAppend(log, e.key, es'[i].key);
        if i != v && es[i].key == e.key { FindUnique(es, disk, i); }
      }
    }
  }

  /** `v` is the clean slot that was accessed least recently. */
  ghost predicate OldestClean(es: seq<CacheEntry>, log: seq<Key>, v: nat) {
    && v < |es| && es[v].valid && !es[v].dirty
    && forall i :: 0 <= i < |es| && i != v && es[i].valid && !es[i].dirty ==>
      LastAccess(log, es[v].key) < LastAccess(log, es[i].key)
  }

  /** The slot that find_lru_victim must choose. */
  ghost predicate Victim(es: seq<CacheEntry>, log: seq<Key>, v: nat) {
    v < |es| && if forall i :: 0 <= i < |es| ==> es[i].valid then OldestClean(es, log, v)
                else !es[v].valid && forall i :: 0 <= i < v ==> es[i].valid
  }

  /** The lowest stamp among the clean slots belongs to the least recently accessed one. */
  lemma LowestStampOldest(es: seq<CacheEntry>, disk: map<Key, Sector>, counter: nat, log: seq<Key>, v: nat)
    requires Coherent(es, disk) && Stamped(es, counter, log) && |log| < U64_MAX
    requires v < |es| && es[v].valid && !es[v].dirty
    requires forall i :: 0 <= i < |es| && es[i].valid && !es[i].dirty ==> es[v].counter <= es[i].counter
    ensures OldestClean(es, log, v)
  {
    forall i | 0 <= i < |es| && i != v && es[i].valid && !es[i].dirty
      ensures LastAccess(log, es[v].key) < LastAccess(log, es[i].key)
    {
    }
  }

  function CountDirty(es: seq<CacheEntry>): nat {
    if es == [] then 0 else (if es[0].valid && es[0].dirty then 1 else 0) + CountDirty(es[1..])
  }

  class BlockCache {
    const entries: array<CacheEntry>
    /** Whether a device can fail. */
    const faulty: bool
    var counter: nat
    /** The sectors of all registered devices. */
    var disk: map<Key, Sector>
    /** The keys accessed so far, in order. */
    ghost var log: seq<Key>

    ghost predicate Valid()
      reads this, entries
    {
      Coherent(entries[..], disk) && Stamped(entries[..], counter, log) && counter <= U64_MAX
    }

    constructor (faulty: bool, disk: map<Key, Sector>)
      ensures Valid() && this.faulty == faulty && this.disk == disk && log == []
      ensures forall k :: View(entries[..], this.disk, k) == if k in disk then Some(disk[k]) else None
    {
      entries := new CacheEntry[CACHE_SIZE](i => CacheEntry(Key(0, 0), seq(512, j => 0), false, false, 0));
      counter := 0;
      this.faulty, this.disk := faulty, disk;
      log := [];
      new;
      assert forall i :: 0 <= i < |entries[..]| ==> !entries[..][i].valid;
    }

    /** read_sector: the device's sector, or a failure. */
    method ReadSector(k: Key) returns (r: Option<Sector>)
      ensures r.Some? ==> k in disk && r.value == disk[k]
      ensures r.None? ==> faulty || k !in disk
    {
      var fails := *;
      if k in disk && !(faulty && fails) { return Some(disk[k]); }
      return None;
    }

    /** write_sector: a failing write changes nothing. */
    method WriteSector(k: Key, data: Sector) returns (ok: bool)
      modifies this`disk
      ensures ok ==> k in old(disk) && disk == old(disk)[k := data]
      ensures !ok ==> disk == old(disk) && (faulty || k !in disk)
    {
      var fails := *;
      ok := k in disk && !(faulty && fails);
      if ok { disk := disk[k := data]; }
    }

    method FindSlot(k: Key) returns (r: Option<nat>)
      requires entries.Length == CACHE_SIZE
      ensures r == if Find(entries[..], k) < CACHE_SIZE then Some(Find(entries[..], k)) else None
    {
      for i := 0 to CACHE_SIZE
        invariant forall j :: 0 <= j < i ==> !(entries[j].valid && entries[j].key == k)
      {
        if entries[i].valid && entries[i].key == k { return Some(i); }
      }
      r := None;
    }

    /** find_lru_victim: an empty slot, else the clean slot with the lowest stamp. */
    method FindLruVictim() returns (r: Option<nat>)
      requires Valid()
      ensures AllDirty(entries[..]) ==> r.None?
      ensures |log| < U64_MAX ==>
        (r.None? <==> AllDirty(entries[..])) && (r.Some? ==> Victim(entries[..], log, r.value))
      ensures r.Some? ==> r.value < CACHE_SIZE && (entries[r.value].valid ==> !entries[r.value].dirty)
    {
      var best: Option<nat> := None;
      var bestCounter := U64_MAX;
      for i := 0 to CACHE_SIZE
        invariant forall j :: 0 <= j < i ==> entries[j].valid
        invariant best.None? ==> bestCounter == U64_MAX
        invariant best.None? && |log| < U64_MAX ==> forall j :: 0 <= j < i ==> entries[j].dirty
        invariant best.Some? ==>
          best.value < i && !entries[best.value].dirty && entries[best.value].counter == bestCounter
        invariant forall j :: 0 <= j < i && !entries[j].dirty ==> bestCounter <= entries[j].counter
      {
        if !entries[i].valid { return Some(i); }
        assert |log| < U64_MAX ==> entries[..][i].counter <= |log|;
        if !entries[i].dirty && entries[i].counter < bestCounter {
          best, bestCounter := Some(i), entries[i].counter;
        }
      }
      r := best;
      if best.Some? && |log| < U64_MAX { LowestStampOldest(entries[..], disk, counter, log, best.value); }
    }

    /** Bump the counter and store `e` in slot `v` under the new stamp. */
    method Touch(v: nat, e: CacheEntry)
      requires Valid() && v < CACHE_SIZE && e.valid
      requires Find(entries[..], e.key) == v || Find(entries[..], e.key) == CACHE_SIZE
      requires !e.dirty ==> e.key in disk && disk[e.key] == e.data
      requires entries[v].valid ==> entries[v].key == e.key || !entries[v].dirty
      modifies this`counter, this`log, entries
      ensures Valid() && counter == Next(old(counter)) && log == old(log) + [e.key]
      ensures entries[..] == old(entries[..])[v := e.(counter := counter)]
      ensures forall k ::
        View(entries[..], disk, k) == if k == e.key then Some(e.data) else View(old(entries[..]), disk, k)
    {
      ghost var es := entries[..];
      counter := Next(counter);
      var e' := e.(counter := counter);
      entries[v] := e';
      log := log + [e.key];
      assert entries[..] == es[v := e'];
      CoherentAfterReplace(es, disk, v, e');
      StampedAfter(es, disk, old(counter), old(log), v, e');
      forall k ensures View(es[v := e'], disk, k) == if k == e.key then Some(e.data) else View(es, disk, k) {
        ViewAfterReplace(es, disk, v, e', k);
      }
    }

    /** read_cached: returned data is the view, and the view never changes. */
    method ReadCached(k: Key) returns (r: Option<Sector>)
      requires Valid()
      modifies this`counter, this`log, entries
      ensures Valid() && disk == old(disk)
      ensures r.Some? ==>
        r == View(old(entries[..]), disk, k) && log == old(log) + [k] && Find(entries[..], k) < CACHE_SIZE
      ensures r.None? ==> Find(entries[..], k) == CACHE_SIZE && log == old(log) && entries[..] == old(entries[..])
      ensures r.None? && |old(log)| < U64_MAX ==> faulty || k !in disk || AllDirty(entries[..])
      ensures forall x :: View(entries[..], disk, x) == View(old(entries[..]), disk, x)
      ensures r.Some? && Find(old(entries[..]), k) == CACHE_SIZE && |old(log)| < U64_MAX ==>
        Victim(old(entries[..]), old(log), Find(entries[..], k))
    {
      var idx := FindSlot(k);
      if idx.Some? {
        Touch(idx.value, entries[idx.value]);
        FindUnique(entries[..], disk, idx.value);
        return Some(entries[idx.value].data);
      }
      var buf := ReadSector(k);
      if buf.None? { return None; }
      var victim := FindLruVictim();
      if victim.None? { return None; }
      Touch(victim.value, CacheEntry(k, buf.value, false, true, 0));
      FindUnique(entries[..], disk, victim.value);
      r := buf;
    }

    /**
     * write_cached: an update of the view at one key; refused exactly when the key is not cached and every slot is
     * dirty.
     */
    method WriteCached(k: Key, data: Sector) returns (ok: bool)
      requires Valid()
      modifies this`counter, this`log, entries
      ensures Valid() && disk == old(disk)
      ensures !ok ==> Find(old(entries[..]), k) == CACHE_SIZE
      ensures |old(log)| < U64_MAX ==>
        (ok <==> !(Find(old(entries[..]), k) == CACHE_SIZE && AllDirty(old(entries[..]))))
      ensures ok ==>
        forall x :: View(entries[..], disk, x) == if x == k then Some(data) else View(old(entries[..]), disk, x)
      ensures ok ==> log == old(log) + [k] && Find(entries[..], k) < CACHE_SIZE && entries[Find(entries[..], k)].dirty
      ensures !ok ==> entries[..] == old(entries[..]) && log == old(log)
      ensures ok && Find(old(entries[..]), k) == CACHE_SIZE && |old(log)| < U64_MAX ==>
        Victim(old(entries[..]), old(log), Find(entries[..], k))
    {
      var idx := FindSlot(k);
      if idx.Some? {
        Touch(idx.value, entries[idx.value].(data := data, dirty := true));
        FindUnique(entries[..], disk, idx.value);
        return true;
      }
      var victim := FindLruVictim();
      if victim.None? { return false; }
      Touch(victim.value, CacheEntry(k, data, true, true, 0));
      FindUnique(entries[..], disk, victim.value);
      ok := true;
    }

    /** flush_all: the view does not change even if writes fail; the result is the number of slots left dirty. */
    method FlushAll() returns (failures: nat)
      requires Valid()
      modifies this`disk, entries
      ensures Valid() && counter == old(counter) && log == old(log)
      ensures failures == CountDirty(entries[..])
      ensures failures > 0 ==> faulty || !DirtyOnDisk(old(entries[..]), old(disk))
      ensures forall k :: View(entries[..], disk, k) == View(old(entries[..]), old(disk), k)
      ensures forall i :: 0 <= i < CACHE_SIZE ==>
        entries[i] == old(entries[i]) || (old(entries[i]).dirty && entries[i] == old(entries[i]).(dirty := false))
    {
      failures := 0;
      for i := 0 to CACHE_SIZE
        invariant Valid() && counter == old(counter) && log == old(log)
        invariant failures == CountDirty(entries[..i])
        invariant disk.Keys == old(disk).Keys && (failures > 0 ==> faulty || !DirtyOnDisk(old(entries[..]), old(disk)))
        invariant forall k :: View(entries[..], disk, k) == View(old(entries[..]), old(disk), k)
        invariant forall j :: 0 <= j < i ==>
          entries[j] == old(entries[j]) || (old(entries[j]).dirty && entries[j] == old(entries[j]).(dirty := false))
        invariant forall j :: i <= j < CACHE_SIZE ==> entries[j] == old(entries[j])
      {
        ghost var es := entries[..];
        if entries[i].valid && entries[i].dirty {
          var ok := FlushSlot(i);
          if !ok {
            failures := failures + 1;
            assert old(entries[..])[i] == entries[i];
          }
        }
        assert entries[..i] == es[..i];
        CountDirtyAppend(entries[..i], entries[i]);
        assert entries[..i + 1] == entries[..i] + [entries[i]];
      }
      assert entries[..CACHE_SIZE] == entries[..];
    }

    /** Write one dirty slot back; on failure it stays dirty. */
    method FlushSlot(i: nat) returns (ok: bool)
      requires Valid() && i < CACHE_SIZE && entries[i].valid && entries[i].dirty
      modifies this`disk, entries
      ensures Valid() && disk.Keys == old(disk).Keys
      ensures entries[..] ==
        if ok then old(entries[..])[i := old(entries[..])[i].(dirty := false)] else old(entries[..])
      ensures forall k :: View(entries[..], disk, k) == View(old(entries[..]), old(disk), k)
      ensures !ok ==> faulty || entries[i].key !in disk
    {
      ghost var es, d := entries[..], disk;
      ok := WriteSector(entries[i].key, entries[i].data);
      if ok {
        entries[i] := entries[i].(dirty := false);
        assert entries[..] == es[i := es[i].(dirty := false)];
        FlushOne(es, d, i);
      }
    }
  }

  /** Writing a dirty slot back changes neither coherence nor the view. */
  lemma FlushOne(es: seq<CacheEntry>, disk: map<Key, Sector>, i: nat)
    requires Coherent(es, disk) && i < |es| && es[i].valid
    ensures var es', disk' := es[i := es[i].(dirty := false)], disk[es[i].key := es[i].data];
            Coherent(es', disk') && forall k :: View(es', disk', k) == View(es, disk, k)
  {
    var es', disk' := es[i := es[i].(dirty := false)], disk[es[i].key := es[i].data];
    forall k ensures View(es', disk', k) == View(es, disk, k) {
      SameSlots(es, es', k);
      if k == es[i].key { FindUnique(es, disk, i); }
    }
  }

  lemma SameSlots(es: seq<CacheEntry>, es': seq<CacheEntry>, k: Key)
    requires |es| == |es'| && forall j :: 0 <= j < |es| ==> es'[j].valid == es[j].valid && es'[j].key == es[j].key
    ensures Find(es', k) == Find(es, k)
  {
  }

  lemma {:induction false} CountDirtyAppend(es: seq<CacheEntry>, e: CacheEntry)
    ensures CountDirty(es + [e]) == CountDirty(es) + if e.valid && e.dirty then 1 else 0
  {
    if es == [] {
      assert es + [e] == [e];
    } else {
      assert (es + [e])[1..] == es[1..] + [e];
      CountDirtyAppend(es[1..], e);
    }
  }
}
