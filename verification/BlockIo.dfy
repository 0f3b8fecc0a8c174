/**
 * read_block and write_block (kernel/src/fs/ext2.rs:434-474) over the sector cache: 1024-byte blocks of two sectors.
 */
module BlockIo {
  import opened Bytes
  import opened Ext2Layout
  import opened SectorCache

  /** Block `b` of the device as seen through the cache. */
  function BlockView(es: seq<CacheEntry>, disk: map<Key, Sector>, device: nat, b: nat): Option<Block> {
    var s0, s1 := View(es, disk, Key(device, 2 * b)), View(es, disk, Key(device, 2 * b + 1));
    if s0.Some? && s1.Some? then Some(s0.value + s1.value) else None
  }

  /** Both caches show all sectors alike. */
  ghost predicate SameViews(es: seq<CacheEntry>, es': seq<CacheEntry>, disk: map<Key, Sector>) {
    forall k :: View(es', disk, k) == View(es, disk, k)
  }

  /** A sector that neither the cache nor the device has. */
  lemma NoSector(es: seq<CacheEntry>, es': seq<CacheEntry>, disk: map<Key, Sector>, device: nat, b: nat, i: nat)
    requires SameViews(es, es', disk) && i < 2 && |es'| == CACHE_SIZE
    requires Find(es', Key(device, 2 * b + i)) == CACHE_SIZE && Key(device, 2 * b + i) !in disk
    ensures BlockView(es, disk, device, b).None?
  {
    assert View(es', disk, Key(device, 2 * b + i)) == None;
  }

  lemma TwoHalves(es: seq<CacheEntry>, disk: map<Key, Sector>, device: nat, b: nat, data: Block)
    requires View(es, disk, Key(device, 2 * b)) == Some(data[..512])
    requires View(es, disk, Key(device, 2 * b + 1)) == Some(data[512..])
    ensures BlockView(es, disk, device, b) == Some(data)
  {
    assert data == data[..512] + data[512..];
  }

  /** write_cached has no slot for `k`. */
  predicate Refused(es: seq<CacheEntry>, k: Key) {
    AllDirty(es) && Find(es, k) == CACHE_SIZE
  }

  function Half(data: Block, i: nat): (r: Sector)
    requires i < 2
  {
    data[512 * i..512 * i + 512]
  }

  /** `k` is one of the first `i` sectors of block `b`. */
  predicate Covered(k: Key, device: nat, b: nat, i: nat) {
    k.device == device && 2 * b <= k.lba < 2 * b + i
  }

  /** The first `i` sectors of block `b` are shown as in `data`, all other sectors as before. */
  ghost predicate HalvesShown(es: seq<CacheEntry>, es': seq<CacheEntry>, disk: map<Key, Sector>, device: nat, b: nat,
                              data: Block, i: nat)
    requires i <= 2
  {
    forall k ::
      View(es', disk, k) == if Covered(k, device, b, i) then Some(Half(data, k.lba - 2 * b)) else View(es, disk, k)
  }

  lemma NextHalf(es: seq<CacheEntry>, es1: seq<CacheEntry>, es2: seq<CacheEntry>, disk: map<Key, Sector>,
                 device: nat, b: nat, data: Block, i: nat)
    requires i < 2 && HalvesShown(es, es1, disk, device, b, data, i)
    requires forall k ::
      View(es2, disk, k) == if k == Key(device, 2 * b + i) then Some(Half(data, i)) else View(es1, disk, k)
    ensures HalvesShown(es, es2, disk, device, b, data, i + 1)
  {
  }

  /** What is shown when the first `i` sectors were written. */
  lemma PartWritten(es: seq<CacheEntry>, es': seq<CacheEntry>, disk: map<Key, Sector>, device: nat, b: nat,
                    data: Block, i: nat)
    requires i <= 2 && HalvesShown(es, es', disk, device, b, data, i)
    ensures forall x :: x != b ==> BlockView(es', disk, device, x) == BlockView(es, disk, device, x)
    ensures i == 0 ==> BlockView(es', disk, device, b) == BlockView(es, disk, device, b)
    ensures i == 1 && BlockView(es, disk, device, b).Some? ==>
      BlockView(es', disk, device, b) == Some(data[..512] + BlockView(es, disk, device, b).value[512..])
    ensures i == 2 ==> BlockView(es', disk, device, b) == Some(data)
  {
    forall x | x != b ensures BlockView(es', disk, device, x) == BlockView(es, disk, device, x) {
      OtherBlock(es, es', disk, device, b, data, i, x);
    }
    if i == 1 {
      TornBlock(es, es', disk, device, b, data);
    } else if i == 2 {
      assert Half(data, 0) + Half(data, 1) == data;
    }
  }

  lemma OtherBlock(es: seq<CacheEntry>, es': seq<CacheEntry>, disk: map<Key, Sector>, device: nat, b: nat, data: Block,
                   i: nat, x: nat)
    requires i <= 2 && HalvesShown(es, es', disk, device, b, data, i) && x != b
    ensures BlockView(es', disk, device, x) == BlockView(es, disk, device, x)
  {
    assert View(es', disk, Key(device, 2 * x)) == View(es, disk, Key(device, 2 * x));
    assert View(es', disk, Key(device, 2 * x + 1)) == View(es, disk, Key(device, 2 * x + 1));
  }

  /** What is left when only the first sector was written. */
  lemma TornBlock(es: seq<CacheEntry>, es': seq<CacheEntry>, disk: map<Key, Sector>, device: nat, b: nat, data: Block)
    requires HalvesShown(es, es', disk, device, b, data, 1)
    ensures BlockView(es, disk, device, b).Some? ==>
      BlockView(es', disk, device, b) == Some(data[..512] + BlockView(es, disk, device, b).value[512..])
  {
    var s0, s1 := View(es, disk, Key(device, 2 * b)), View(es, disk, Key(device, 2 * b + 1));
    if s0.Some? && s1.Some? {
      var t0: seq<byte>, t1: seq<byte> := s0.value, s1.value;
      assert (t0 + t1)[512..] == t1 && Half(data, 0) == data[..512];
    }
  }

  /** A block that was read is the block as the cache shows it; reading never changes what is shown. */
  method ReadBlock(c: BlockCache, device: nat, b: nat) returns (r: Option<Block>)
    requires c.Valid()
    modifies c`counter, c`log, c.entries
    ensures c.Valid() && c.disk == old(c.disk)
    ensures r.Some? ==> r == BlockView(old(c.entries[..]), c.disk, device, b)
    ensures r.None? && |c.log| < U64_MAX ==>
      c.faulty || BlockView(old(c.entries[..]), c.disk, device, b).None? || AllDirty(c.entries[..])
    ensures SameViews(old(c.entries[..]), c.entries[..], c.disk)
  {
    var data: Block := ZeroBlock();
    ghost var es := c.entries[..];
    for i := 0 to 2
      invariant c.Valid() && c.disk == old(c.disk)
      invariant SameViews(es, c.entries[..], c.disk)
      invariant i > 0 ==> View(es, c.disk, Key(device, 2 * b)) == Some(data[..512])
      invariant i > 1 ==> View(es, c.disk, Key(device, 2 * b + 1)) == Some(data[512..])
    {
      var sector := c.ReadCached(Key(device, 2 * b + i));
      if sector.None? {
        if Key(device, 2 * b + i) !in c.disk { NoSector(es, c.entries[..], c.disk, device, b, i); }
        return None;
      }
      ghost var before := data;
      data := Splice(data, 512 * i, sector.value);
      SectorPlaced(before, sector.value, i);
    }
    TwoHalves(es, c.disk, device, b, data);
    r := Some(data);
  }

  lemma SectorPlaced(data: Block, s: Sector, i: nat)
    requires i < 2
    ensures i == 0 ==> Splice(data, 512 * i, s)[..512] == s
    ensures i == 1 ==> Splice(data, 512 * i, s)[..512] == data[..512] && Splice(data, 512 * i, s)[512..] == s
  {
  }

  /** A written block is shown as written; a failure may leave the first half written; other blocks are not affected. */
  method WriteBlock(c: BlockCache, device: nat, b: nat, data: Block) returns (ok: bool)
    requires c.Valid()
    modifies c`counter, c`log, c.entries
    ensures c.Valid() && c.disk == old(c.disk)
    ensures forall x :: x != b ==>
      BlockView(c.entries[..], c.disk, device, x) == BlockView(old(c.entries[..]), c.disk, device, x)
    ensures ok ==> BlockView(c.entries[..], c.disk, device, b) == Some(data)
    ensures !ok && BlockView(old(c.entries[..]), c.disk, device, b).Some? ==>
      BlockView(c.entries[..], c.disk, device, b) == BlockView(old(c.entries[..]), c.disk, device, b)
      || BlockView(c.entries[..], c.disk, device, b) ==
         Some(data[..512] + BlockView(old(c.entries[..]), c.disk, device, b).value[512..])
    ensures !ok && |c.log| < U64_MAX ==> AllDirty(c.entries[..])
    ensures |c.log| < U64_MAX && Refused(old(c.entries[..]), Key(device, 2 * b)) ==> !ok
  {
    ghost var es := c.entries[..];
    ok := true;
    for i := 0 to 2
      invariant ok && c.Valid() && c.disk == old(c.disk) && |old(c.log)| <= |c.log|
      invariant HalvesShown(es, c.entries[..], c.disk, device, b, data, i)
      invariant i == 0 ==> c.entries[..] == es && c.log == old(c.log)
      invariant i > 0 && |old(c.log)| < U64_MAX ==> !Refused(es, Key(device, 2 * b))
    {
      ghost var es1 := c.entries[..];
      ok := c.WriteCached(Key(device, 2 * b + i), Half(data, i));
      if !ok {
        PartWritten(es, es1, c.disk, device, b, data, i);
        return;
      }
      NextHalf(es, es1, c.entries[..], c.disk, device, b, data, i);
    }
    PartWritten(es, c.entries[..], c.disk, device, b, data, 2);
  }
}
