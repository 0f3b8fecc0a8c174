/** Directory blocks: variable-length records that tile a block, and their insertion and removal in place. */
module Ext2Dir {
  import opened Bytes
  import opened Ext2Layout

  /** A directory record: `len` (rec_len) bytes, of which the header and the name use 8 + |name|. */
  datatype Rec = Rec(ino: u32, len: u16, fileType: byte, name: seq<byte>)
  {
    predicate Ok() { |name| <= 255 && 8 + |name| <= len }
  }

  datatype DirEntry = DirEntry(ino: u32, fileType: byte, name: seq<byte>)

  /** (8 + name_len + 3) & !3: the bytes a record needs. */
  function Needed(nameLen: nat): (r: nat)
    ensures 8 + nameLen <= r <= 8 + nameLen + 3 && r % 4 == 0
  {
    (8 + nameLen + 3) / 4 * 4
  }

  /** inode, rec_len, name_len, file type, name. */
  function RecordBytes(r: Rec): (s: seq<byte>)
    requires r.Ok()
    ensures |s| == 8 + |r.name|
  {
    U32Bytes(r.ino) + U16Bytes(r.len) + [|r.name|, r.fileType] + r.name
  }

  /** Record `r` is stored at offset `o`. */
  predicate RecAt(b: Block, o: nat, r: Rec) {
    r.Ok() && o + r.len <= 1024 && b[o..o + 8 + |r.name|] == RecordBytes(r)
  }

  /** Where the records `rs`, stored one after the other from `o`, end; -1 if they are not stored there. */
  function EndOf(b: Block, o: nat, rs: seq<Rec>): int
    decreases |rs|
  {
    if rs == [] then o
    else if RecAt(b, o, rs[0]) then EndOf(b, o + rs[0].len, rs[1..])
    else -1
  }

  /** The records `rs` follow each other from `o` and end exactly at `p`. */
  predicate Laid(b: Block, o: nat, rs: seq<Rec>, p: nat) {
    EndOf(b, o, rs) == p
  }

  /** The records tile the block. */
  ghost predicate Tiles(b: Block) {
    exists rs :: Laid(b, 0, rs, 1024)
  }

  ghost function Records(b: Block): (rs: seq<Rec>)
    requires Tiles(b)
    ensures Laid(b, 0, rs, 1024)
  {
    var rs :| Laid(b, 0, rs, 1024); rs
  }

  /** The entries in use among `rs`: those whose inode is not 0. */
  function Live(rs: seq<Rec>): seq<DirEntry> {
    if rs == [] then []
    else (if rs[0].ino != 0 then [DirEntry(rs[0].ino, rs[0].fileType, rs[0].name)] else []) + Live(rs[1..])
  }

  /** The fields that the driver reads from a stored record. */
  lemma RecFields(b: Block, o: nat, r: Rec)
    requires RecAt(b, o, r)
    ensures o + 8 + |r.name| <= 1024
    ensures GetU32(b, o) == r.ino && GetU16(b, o + 4) == r.len
    ensures b[o + 6] == |r.name| && b[o + 7] == r.fileType && b[o + 8..o + 8 + |r.name|] == r.name
  {
    var n := 8 + |r.name|;
    var t := b[o..o + n];
    SubSlice(b, o, n, 0, 4);
    SubSlice(b, o, n, 4, 6);
    SubSlice(b, o, n, 8, n);
    assert t[0..4] == U32Bytes(r.ino)[0..4] && t[4..6] == U16Bytes(r.len)[0..2] && t[8..n] == r.name;
    GetU32Same(b, o, U32Bytes(r.ino), 0);
    GetU16Same(b, o + 4, U16Bytes(r.len), 0);
    U32RoundTrip(r.ino);
    U16RoundTrip(r.len);
    assert b[o + 6] == t[6] && b[o + 7] == t[7];
  }

  lemma {:induction false} LaidOrder(b: Block, o: nat, rs: seq<Rec>, p: nat)
    requires Laid(b, o, rs, p)
    ensures o <= p
    decreases |rs|
  {
    if rs != [] { LaidOrder(b, o + rs[0].len, rs[1..], p); }
  }

  /** Two blocks agree on the bytes from `o` to `p`. */
  predicate Same(b: Block, b': Block, o: nat, p: nat)
    requires p <= 1024
  {
    forall k :: o <= k < p ==> b[k] == b'[k]
  }

  lemma RecFrame(b: Block, b': Block, o: nat, r: Rec)
    requires RecAt(b, o, r) && Same(b, b', o, o + r.len)
    ensures RecAt(b', o, r)
  {
    assert b[o..o + 8 + |r.name|] == b'[o..o + 8 + |r.name|];
  }

  lemma {:induction false} LaidFrame(b: Block, b': Block, o: nat, rs: seq<Rec>, p: nat)
    requires Laid(b, o, rs, p) && o <= p <= 1024 && Same(b, b', o, p)
    ensures Laid(b', o, rs, p)
    decreases |rs|
  {
    if rs != [] {
      LaidOrder(b, o + rs[0].len, rs[1..], p);
      RecFrame(b, b', o, rs[0]);
      LaidFrame(b, b', o + rs[0].len, rs[1..], p);
    }
  }

  lemma {:induction false} LaidJoin(b: Block, o: nat, rs: seq<Rec>, m: nat, ts: seq<Rec>, p: nat)
    requires Laid(b, o, rs, m) && Laid(b, m, ts, p)
    ensures Laid(b, o, rs + ts, p)
    decreases |rs|
  {
    if rs == [] {
      assert rs + ts == ts;
    } else {
      assert (rs + ts)[1..] == rs[1..] + ts;
      LaidJoin(b, o + rs[0].len, rs[1..], m, ts, p);
    }
  }

  lemma {:induction false} LaidUnique(b: Block, o: nat, rs: seq<Rec>, ts: seq<Rec>, p: nat)
    requires Laid(b, o, rs, p) && Laid(b, o, ts, p)
    ensures rs == ts
    decreases |rs|
  {
    if rs != [] { LaidOrder(b, o + rs[0].len, rs[1..], p); }
    if ts != [] { LaidOrder(b, o + ts[0].len, ts[1..], p); }
    if rs != [] && ts != [] {
      RecFields(b, o, rs[0]);
      RecFields(b, o, ts[0]);
      LaidUnique(b, o + rs[0].len, rs[1..], ts[1..], p);
    }
  }

  /** Any laying of the block is the parse of the block. */
  lemma RecordsAre(b: Block, rs: seq<Rec>)
    requires Laid(b, 0, rs, 1024)
    ensures Tiles(b) && Records(b) == rs
  {
    LaidUnique(b, 0, Records(b), rs, 1024);
  }

  lemma {:induction false} LiveJoin(rs: seq<Rec>, ts: seq<Rec>)
    ensures Live(rs + ts) == Live(rs) + Live(ts)
  {
    if rs == [] {
      assert rs + ts == ts;
    } else {
      assert (rs + ts)[1..] == rs[1..] + ts;
      LiveJoin(rs[1..], ts);
    }
  }

  lemma LaidOne(b: Block, o: nat, r: Rec)
    requires RecAt(b, o, r)
    ensures Laid(b, o, [r], o + r.len)
  {
  }

  function PutRecord(b: Block, o: nat, r: Rec): Block
    requires r.Ok() && o + r.len <= 1024
  {
    Splice(b, o, RecordBytes(r))
  }

  lemma PutRecordAt(b: Block, o: nat, r: Rec)
    requires r.Ok() && o + r.len <= 1024
    ensures RecAt(PutRecord(b, o, r), o, r)
    ensures Same(b, PutRecord(b, o, r), 0, o) && Same(b, PutRecord(b, o, r), o + r.len, 1024)
  {
  }

  /** Replacing the records between `o` and `p` by `mid`. */
  lemma ReplaceMiddle(b: Block, b': Block, pre: seq<Rec>, o: nat, mid: seq<Rec>, p: nat, post: seq<Rec>)
    requires o <= p <= 1024 && Laid(b, 0, pre, o) && Laid(b, p, post, 1024)
    requires Laid(b', o, mid, p) && Same(b, b', 0, o) && Same(b, b', p, 1024)
    ensures Laid(b', 0, pre + mid + post, 1024)
  {
    LaidFrame(b, b', 0, pre, o);
    LaidFrame(b, b', p, post, 1024);
    LaidJoin(b', 0, pre, o, mid, p);
    LaidJoin(b', 0, pre + mid, p, post, 1024);
  }

  // ---- Adding an entry ----------------------------------------------------

  /** A record with room for `needed` more bytes: slack behind a used entry, or an unused record that is big enough. */
  predicate Fits(r: Rec, needed: nat) {
    if r.ino != 0 then Needed(|r.name|) + needed <= r.len else needed <= r.len
  }

  /** What an added entry makes of the record it goes to. */
  function Placed(r: Rec, e: DirEntry): (rs: seq<Rec>)
    requires r.Ok() && |e.name| <= 255 && Fits(r, Needed(|e.name|))
  {
    if r.ino != 0 then
      [r.(len := Needed(|r.name|)), Rec(e.ino, r.len - Needed(|r.name|), e.fileType, e.name)]
    else
      [Rec(e.ino, r.len, e.fileType, e.name)]
  }

  /** The block after placing `e` in the record at `o`, whose length and name length are given. */
  function PlaceInBlock(b: Block, o: nat, used: bool, len: u16, nameLen: nat, e: DirEntry): Block
    requires |e.name| <= 255 && o + len <= 1024 && Needed(|e.name|) <= len
    requires used ==> Needed(nameLen) + Needed(|e.name|) <= len
  {
    if used then
      PutRecord(PutU16(b, o + 4, Needed(nameLen)), o + Needed(nameLen), Rec(e.ino,
                len - Needed(nameLen), e.fileType, e.name))
    else
      PutRecord(b, o, Rec(e.ino, len, e.fileType, e.name))
  }

  /** Rewriting the rec_len field of a stored record. */
  lemma PutLenAt(b: Block, o: nat, r: Rec, len: u16)
    requires RecAt(b, o, r) && 8 + |r.name| <= len && o + len <= 1024
    ensures RecAt(PutU16(b, o + 4, len), o, r.(len := len))
  {
    var n := 8 + |r.name|;
    var t, t' := b[o..o + n], PutU16(b, o + 4, len)[o..o + n];
    assert forall k :: 0 <= k < n ==> t'[k] == if 4 <= k < 6 then U16Bytes(len)[k - 4] else t[k];
    assert t' == RecordBytes(r.(len := len));
  }

  lemma SplitLaid(b: Block, o: nat, r: Rec, m: nat, r2: Rec)
    requires RecAt(b, o, r) && o + 8 + |r.name| <= m && r2.Ok() && m + r2.len <= 1024
    ensures Laid(PutRecord(PutU16(b, o + 4, m - o), m, r2), o, [r.(len := m - o), r2], m + r2.len)
  {
    var b1 := PutU16(b, o + 4, m - o);
    var b' := PutRecord(b1, m, r2);
    PutLenAt(b, o, r, m - o);
    PutRecordAt(b1, m, r2);
    RecFrame(b1, b', o, r.(len := m - o));
    LaidOne(b', o, r.(len := m - o));
    LaidOne(b', m, r2);
    LaidJoin(b', o, [r.(len := m - o)], m, [r2], m + r2.len);
    assert [r.(len := m - o)] + [r2] == [r.(len := m - o), r2];
  }

  lemma PlaceLaid(b: Block, o: nat, r: Rec, e: DirEntry)
    requires RecAt(b, o, r) && |e.name| <= 255 && Fits(r, Needed(|e.name|))
    ensures var b' := PlaceInBlock(b, o, r.ino != 0, r.len, |r.name|, e);
            Laid(b', o, Placed(r, e), o + r.len) && Same(b, b', 0, o) && Same(b, b', o + r.len, 1024)
  {
    if r.ino != 0 {
      SplitLaid(b, o, r, o + Needed(|r.name|), Placed(r, e)[1]);
    } else {
      PutRecordAt(b, o, Placed(r, e)[0]);
      LaidOne(PutRecord(b, o, Placed(r, e)[0]), o, Placed(r, e)[0]);
    }
  }

  /** `xs` with `e` inserted at `pos`. */
  function InsertAt<T>(xs: seq<T>, pos: nat, e: T): seq<T>
    requires pos <= |xs|
  {
    xs[..pos] + [e] + xs[pos..]
  }

  function RemoveAt<T>(xs: seq<T>, pos: nat): seq<T>
    requires pos < |xs|
  {
    xs[..pos] + xs[pos + 1..]
  }

  lemma LiveMiddle(pre: seq<Rec>, mid: seq<Rec>, post: seq<Rec>)
    ensures Live(pre + mid + post) == Live(pre) + Live(mid) + Live(post)
  {
    LiveJoin(pre + mid, post);
    LiveJoin(pre, mid);
  }

  /** Placing an entry in a record inserts it into the list of used entries, right behind the record. */
  lemma PlacedList(pre: seq<Rec>, r: Rec, post: seq<Rec>, e: DirEntry) returns (pos: nat)
    requires r.Ok() && |e.name| <= 255 && Fits(r, Needed(|e.name|)) && e.ino != 0
    ensures pos <= |Live(pre + [r] + post)|
    ensures Live(pre + Placed(r, e) + post) == InsertAt(Live(pre + [r] + post), pos, e)
  {
    LiveMiddle(pre, [r], post);
    LiveMiddle(pre, Placed(r, e), post);
    PlacedLive(r, e);
    pos := |Live(pre)| + |Live([r])|;
    InsertBetween(Live(pre), Live([r]), Live(post), e);
  }

  lemma InsertBetween(xs: seq<DirEntry>, ys: seq<DirEntry>, zs: seq<DirEntry>, e: DirEntry)
    ensures InsertAt(xs + ys + zs, |xs| + |ys|, e) == xs + (ys + [e]) + zs
  {
  }

  lemma PlacedLive(r: Rec, e: DirEntry)
    requires r.Ok() && |e.name| <= 255 && Fits(r, Needed(|e.name|)) && e.ino != 0
    ensures Live(Placed(r, e)) == Live([r]) + [e]
  {
    if r.ino != 0 {
      LiveJoin([Placed(r, e)[0]], [Placed(r, e)[1]]);
      assert [Placed(r, e)[0]] + [Placed(r, e)[1]] == Placed(r, e);
    }
  }

  /** A walk along the records has passed `pre` and stands at `o`, in front of `post`. */
  predicate At(b: Block, pre: seq<Rec>, o: nat, post: seq<Rec>) {
    o <= 1024 && Laid(b, 0, pre, o) && Laid(b, o, post, 1024)
  }

  /** Inside the block there is a record to read. */
  lemma RecordHere(b: Block, o: nat, post: seq<Rec>)
    requires Laid(b, o, post, 1024) && o + 8 <= 1024
    ensures post != [] && RecAt(b, o, post[0]) && post[0].len >= 8 && o + post[0].len <= 1024
    ensures GetU32(b, o) == post[0].ino && GetU16(b, o + 4) == post[0].len
    ensures b[o + 6] == |post[0].name| && b[o + 7] == post[0].fileType
    ensures b[o + 8..o + 8 + |post[0].name|] == post[0].name
  {
    RecFields(b, o, post[0]);
  }

  /** The walk can move past the record it stands at. */
  lemma StepPast(b: Block, pre: seq<Rec>, o: nat, post: seq<Rec>)
    requires At(b, pre, o, post) && post != []
    ensures At(b, pre + [post[0]], o + post[0].len, post[1..])
    ensures pre + post == (pre + [post[0]]) + post[1..]
  {
    LaidOne(b, o, post[0]);
    LaidJoin(b, 0, pre, o, [post[0]], o + post[0].len);
  }

  lemma EndOfBlock(b: Block, o: nat, post: seq<Rec>)
    requires Laid(b, o, post, 1024) && o + 8 > 1024
    ensures post == []
  {
  }

  /** Can the record at `o` take `needed` more bytes? */
  method FitsAt(b: Block, o: nat, needed: nat, ghost post: seq<Rec>) returns (fits: bool, recLen: u16)
    requires Laid(b, o, post, 1024) && o + 8 <= 1024
    ensures post != [] && RecAt(b, o, post[0]) && recLen == post[0].len >= 8 && fits == Fits(post[0], needed)
  {
    RecordHere(b, o, post);
    recLen := GetU16(b, o + 4);
    if GetU32(b, o) != 0 {
      fits := Needed(b[o + 6]) + needed <= recLen;
    } else {
      fits := recLen >= needed;
    }
  }

  /** The scan of add_dir_entry over one block: the first record with room. */
  method FindRoom(b: Block, needed: nat, ghost rs: seq<Rec>)
    returns (r: Option<nat>, ghost pre: seq<Rec>, ghost post: seq<Rec>)
    requires Laid(b, 0, rs, 1024) && needed > 0
    ensures rs == pre + post && forall x :: x in pre ==> !Fits(x, needed)
    ensures r.None? ==> post == []
    ensures r.Some? ==> At(b, pre, r.value, post) && r.value + 8 <= 1024 && post != [] && Fits(post[0], needed)
  {
    var o := 0;
    pre, post := [], rs;
    while o + 8 <= 1024
      invariant At(b, pre, o, post) && rs == pre + post
      invariant forall x :: x in pre ==> !Fits(x, needed)
      decreases 1024 - o
    {
      var fits, recLen := FitsAt(b, o, needed, post);
      if recLen == 0 { break; }
      if fits { return Some(o), pre, post; }
      StepPast(b, pre, o, post);
      o := o + recLen;
      pre, post := pre + [post[0]], post[1..];
    }
    EndOfBlock(b, o, post);
    r := None;
  }

  /** The inner loop of add_dir_entry: put the entry into the first record that has room for it. */
  method AddInBlock(b: Block, e: DirEntry, ghost rs: seq<Rec>)
    returns (r: Option<Block>, ghost pos: nat, ghost rs': seq<Rec>)
    requires Laid(b, 0, rs, 1024) && e.ino != 0 && |e.name| <= 255
    ensures r.Some? <==> exists x :: x in rs && Fits(x, Needed(|e.name|))
    ensures r.Some? ==> Laid(r.value, 0, rs', 1024) && pos <= |Live(rs)| && Live(rs') == InsertAt(Live(rs), pos, e)
  {
    ghost var pre, post;
    var at;
    at, pre, post := FindRoom(b, Needed(|e.name|), rs);
    if at.None? { return None, 0, rs; }
    var o := at.value;
    RecordHere(b, o, post);
    assert post[0] in rs;
    r := Some(PlaceInBlock(b, o, GetU32(b, o) != 0, GetU16(b, o + 4), b[o + 6], e));
    pos, rs' := PlaceAt(b, pre, o, post, e);
  }

  lemma PlaceAt(b: Block, pre: seq<Rec>, o: nat, post: seq<Rec>, e: DirEntry) returns (pos: nat, rs': seq<Rec>)
    requires At(b, pre, o, post) && post != [] && RecAt(b, o, post[0])
    requires |e.name| <= 255 && Fits(post[0], Needed(|e.name|)) && e.ino != 0
    ensures Laid(PlaceInBlock(b, o, post[0].ino != 0, post[0].len, |post[0].name|, e), 0, rs', 1024)
    ensures pos <= |Live(pre + post)| && Live(rs') == InsertAt(Live(pre + post), pos, e)
  {
    var r := post[0];
    PlaceLaid(b, o, r, e);
    rs' := pre + Placed(r, e) + post[1..];
    ReplaceMiddle(b, PlaceInBlock(b, o, r.ino != 0, r.len, |r.name|, e), pre, o, Placed(r, e), o + r.len, post[1..]);
    pos := PlacedList(pre, r, post[1..], e);
    assert pre + post == pre + [r] + post[1..];
  }

  // ---- Removing an entry --------------------------------------------------

  /** Rewriting the inode field of a stored record to 0. */
  lemma PutInoAt(b: Block, o: nat, r: Rec)
    requires RecAt(b, o, r)
    ensures RecAt(PutU32(b, o, 0), o, r.(ino := 0))
  {
    var n := 8 + |r.name|;
    var t, t' := b[o..o + n], PutU32(b, o, 0)[o..o + n];
    assert forall k :: 0 <= k < n ==> t'[k] == if k < 4 then U32Bytes(0)[k] else t[k];
    assert t' == RecordBytes(r.(ino := 0));
  }

  /** Marking the first record of `post` unused. */
  lemma ZeroAt(b: Block, pre: seq<Rec>, o: nat, post: seq<Rec>)
    requires At(b, pre, o, post) && post != [] && RecAt(b, o, post[0])
    ensures Laid(PutU32(b, o, 0), 0, pre + [post[0].(ino := 0)] + post[1..], 1024)
  {
    PutInoAt(b, o, post[0]);
    LaidOne(PutU32(b, o, 0), o, post[0].(ino := 0));
    ReplaceMiddle(b, PutU32(b, o, 0), pre, o, [post[0].(ino := 0)], o + post[0].len, post[1..]);
  }

  /** Merging the unused record `q` at `o0` with the record behind it. */
  lemma MergeAt(b: Block, pre: seq<Rec>, o0: nat, q: Rec, len: u16, post: seq<Rec>)
    requires Laid(b, 0, pre, o0) && RecAt(b, o0, q) && len >= q.len && o0 + len <= 1024 && Laid(b, o0 + len, post, 1024)
    ensures Laid(PutU16(b, o0 + 4, len), 0, pre + [q.(len := len)] + post, 1024)
  {
    PutLenAt(b, o0, q, len);
    LaidOne(PutU16(b, o0 + 4, len), o0, q.(len := len));
    ReplaceMiddle(b, PutU16(b, o0 + 4, len), pre, o0, [q.(len := len)], o0 + len, post);
  }

  /** Dropping a used entry from the records removes it from the list, whether or not its space is merged. */
  lemma RemovedList(pre: seq<Rec>, r: Rec, post: seq<Rec>)
    requires r.ino != 0
    ensures var pos := |Live(pre)|;
            && pos < |Live(pre + [r] + post)| && Live(pre + [r] + post)[pos] == DirEntry(r.ino, r.fileType, r.name)
            && Live(pre + [r.(ino := 0)] + post) == RemoveAt(Live(pre + [r] + post), pos)
            && Live(pre + post) == RemoveAt(Live(pre + [r] + post), pos)
  {
    LiveMiddle(pre, [r], post);
    LiveMiddle(pre, [r.(ino := 0)], post);
    LiveJoin(pre, post);
    assert Live([r]) == [DirEntry(r.ino, r.fileType, r.name)] && Live([r.(ino := 0)]) == [];
    RemoveBetween(Live(pre), DirEntry(r.ino, r.fileType, r.name), Live(post));
  }

  lemma RemoveBetween(xs: seq<DirEntry>, x: DirEntry, ys: seq<DirEntry>)
    ensures RemoveAt(xs + [x] + ys, |xs|) == xs + ys && (xs + [x] + ys)[|xs|] == x
  {
  }

  /** No used record of `rs` carries `name`. */
  predicate NameFree(rs: seq<Rec>, name: seq<byte>) {
    forall x :: x in rs ==> x.ino == 0 || x.name != name
  }

  lemma NameFreeNext(rs: seq<Rec>, r: Rec, name: seq<byte>)
    requires NameFree(rs, name) && (r.ino == 0 || r.name != name)
    ensures NameFree(rs + [r], name)
  {
  }

  lemma {:induction false} NameFreeLive(rs: seq<Rec>, name: seq<byte>)
    requires NameFree(rs, name)
    ensures forall y :: y in Live(rs) ==> y.name != name
  {
    if rs != [] { NameFreeLive(rs[1..], name); }
  }

  /** Is the record at `o` in use under that name? */
  method NameAt(b: Block, o: nat, name: seq<byte>, ghost post: seq<Rec>) returns (matches: bool, recLen: u16)
    requires Laid(b, o, post, 1024) && o + 8 <= 1024
    ensures post != [] && RecAt(b, o, post[0]) && recLen == post[0].len >= 8
    ensures matches == (post[0].ino != 0 && post[0].name == name)
  {
    RecordHere(b, o, post);
    recLen := GetU16(b, o + 4);
    var n := b[o + 6];
    matches := GetU32(b, o) != 0 && b[o + 8..o + 8 + n] == name;
  }

  /** The scan of remove_dir_entry_from_disk over one block: the first used record with that name. */
  method FindName(b: Block, name: seq<byte>, ghost rs: seq<Rec>)
    returns (r: Option<nat>, prev: Option<nat>, ghost pre: seq<Rec>, ghost post: seq<Rec>)
    requires Laid(b, 0, rs, 1024)
    ensures rs == pre + post && NameFree(pre, name)
    ensures r.None? ==> post == []
    ensures r.Some? ==>
      At(b, pre, r.value, post) && r.value + 8 <= 1024 && post != [] && post[0].ino != 0 && post[0].name == name
    ensures r.Some? ==> if prev.Some? then LastAt(b, pre, prev.value) else pre == []
  {
    var o := 0;
    prev := None;
    pre, post := [], rs;
    while o + 8 <= 1024
      invariant At(b, pre, o, post) && rs == pre + post && NameFree(pre, name)
      invariant if prev.Some? then LastAt(b, pre, prev.value) else pre == []
      decreases 1024 - o
    {
      var matches, recLen := NameAt(b, o, name, post);
      if recLen == 0 { break; }
      if matches { return Some(o), prev, pre, post; }
      StepPast(b, pre, o, post);
      LastNext(b, pre, o, post[0]);
      NameFreeNext(pre, post[0], name);
      prev := Some(o);
      o := o + recLen;
      pre, post := pre + [post[0]], post[1..];
    }
    EndOfBlock(b, o, post);
    r := None;
  }

  /** The last record of `pre` is stored at `o0`, behind the others. */
  predicate LastAt(b: Block, pre: seq<Rec>, o0: nat) {
    pre != [] && Laid(b, 0, pre[..|pre| - 1], o0) && RecAt(b, o0, pre[|pre| - 1])
  }

  lemma LastNext(b: Block, pre: seq<Rec>, o: nat, r: Rec)
    requires Laid(b, 0, pre, o) && RecAt(b, o, r)
    ensures LastAt(b, pre + [r], o)
  {
    assert (pre + [r])[..|pre|] == pre;
  }

  /**
   * Zero the inode field at `o`, and merge the `len` bytes into the record at `prev` (its inode and length given) if
   * that is free.
   */
  function ZeroAndMerge(b: Block, o: nat, len: u16, prev: Option<nat>, prevIno: u32, prevLen: u16): Block
    requires o + 8 <= 1024 && (prev.Some? ==> prev.value + 8 <= 1024 && prevLen + len < U16_LIMIT)
  {
    if prev.Some? && prevIno == 0 then PutU16(PutU32(b, o, 0), prev.value + 4, prevLen + len) else PutU32(b, o, 0)
  }

  /**
   * The records after the first one of `post` is freed: merged into the record before it exactly when that one is
   * free.
   */
  function Freed(pre: seq<Rec>, post: seq<Rec>): seq<Rec>
    requires post != [] && (pre != [] ==> pre[|pre| - 1].len + post[0].len < U16_LIMIT)
  {
    if pre != [] && pre[|pre| - 1].ino == 0 then
      pre[..|pre| - 1] + [pre[|pre| - 1].(len := pre[|pre| - 1].len + post[0].len)] + post[1..]
    else
      pre + [post[0].(ino := 0)] + post[1..]
  }

  /** `rs'` is `rs` with its first used record called `name` freed. */
  ghost predicate FreedFrom(rs: seq<Rec>, name: seq<byte>, rs': seq<Rec>) {
    exists pre, post :: rs == pre + post && NameFree(pre, name) && FreedAt(pre, post, name, rs')
  }

  predicate FreedAt(pre: seq<Rec>, post: seq<Rec>, name: seq<byte>, rs': seq<Rec>) {
    && post != [] && post[0].ino != 0 && post[0].name == name
    && (pre != [] ==> pre[|pre| - 1].len + post[0].len < U16_LIMIT)
    && rs' == Freed(pre, post)
  }

  lemma FreedHere(rs: seq<Rec>, pre: seq<Rec>, post: seq<Rec>, name: seq<byte>, rs': seq<Rec>)
    requires rs == pre + post && NameFree(pre, name) && FreedAt(pre, post, name, rs')
    ensures FreedFrom(rs, name, rs')
  {
  }

  /** The inner loop of remove_dir_entry_from_disk. */
  method RemoveInBlock(b: Block, name: seq<byte>, ghost rs: seq<Rec>)
    returns (r: Option<(Block, u32)>, ghost pos: nat, ghost rs': seq<Rec>)
    requires Laid(b, 0, rs, 1024)
    ensures r.None? ==> forall y :: y in Live(rs) ==> y.name != name
    ensures r.Some? ==> Laid(r.value.0, 0, rs', 1024) && pos < |Live(rs)| && Live(rs') == RemoveAt(Live(rs), pos)
    ensures r.Some? ==> Live(rs)[pos].name == name && Live(rs)[pos].ino == r.value.1 != 0
    ensures r.Some? ==> forall j :: 0 <= j < pos ==> Live(rs)[j].name != name
    ensures r.Some? ==> FreedFrom(rs, name, rs')
  {
    ghost var pre, post;
    var at, prev;
    at, prev, pre, post := FindName(b, name, rs);
    NameFreeLive(pre, name);
    if at.None? {
      assert pre + post == pre;
      return None, 0, rs;
    }
    RecordHere(b, at.value, post);
    var prevIno, prevLen := 0, 0;
    if prev.Some? {
      RecFields(b, prev.value, pre[|pre| - 1]);
      prevIno, prevLen := GetU32(b, prev.value), GetU16(b, prev.value + 4);
    }
    rs', pos := RemovedLaid(b, pre, at.value, prev, post);
    FreedHere(rs, pre, post, name, rs');
    r := Some((ZeroAndMerge(b, at.value, GetU16(b, at.value + 4), prev, prevIno, prevLen), GetU32(b, at.value)));
  }

  /** The block after removal: its records, and their list without the removed entry. */
  lemma RemovedLaid(b: Block, pre: seq<Rec>, o: nat, prev: Option<nat>, post: seq<Rec>)
    returns (rs': seq<Rec>, pos: nat)
    requires At(b, pre, o, post) && o + 8 <= 1024 && post != [] && RecAt(b, o, post[0]) && post[0].ino != 0
    requires if prev.Some? then LastAt(b, pre, prev.value) else pre == []
    ensures prev.Some? ==> prev.value + 8 <= 1024 && pre[|pre| - 1].len + post[0].len < U16_LIMIT
    ensures prev.Some? ==>
      Laid(ZeroAndMerge(b, o, post[0].len, prev, pre[|pre| - 1].ino, pre[|pre| - 1].len), 0, rs', 1024)
    ensures prev.None? ==> Laid(ZeroAndMerge(b, o, post[0].len, prev, 0, 0), 0, rs', 1024)
    ensures rs' == Freed(pre, post)
    ensures pos == |Live(pre)| && pos < |Live(pre + post)| && Live(rs') == RemoveAt(Live(pre + post), pos)
    ensures Live(pre + post)[pos] == DirEntry(post[0].ino, post[0].fileType, post[0].name)
    ensures forall j :: 0 <= j < pos ==> Live(pre + post)[j] == Live(pre)[j]
  {
    pos := RemoveFacts(pre, post);
    if prev.Some? { PrevEnds(b, pre, o, prev.value); }
    if prev.Some? && pre[|pre| - 1].ino == 0 {
      rs' := MergeRecords(b, pre, o, prev.value, post);
    } else {
      ZeroAt(b, pre, o, post);
      rs' := pre + [post[0].(ino := 0)] + post[1..];
    }
  }

  lemma MergeRecords(b: Block, pre: seq<Rec>, o: nat, o0: nat, post: seq<Rec>) returns (rs': seq<Rec>)
    requires At(b, pre, o, post) && post != [] && RecAt(b, o, post[0])
    requires LastAt(b, pre, o0) && pre[|pre| - 1].ino == 0 && o0 + pre[|pre| - 1].len == o
    requires pre[|pre| - 1].len + post[0].len < U16_LIMIT
    ensures Laid(PutU16(PutU32(b, o, 0), o0 + 4, pre[|pre| - 1].len + post[0].len), 0, rs', 1024)
    ensures rs' == Freed(pre, post) && Live(rs') == Live(pre + post[1..])
  {
    var n := |pre| - 1;
    MergeLaid(b, pre[..n], o0, pre[n], o, post[0], post[1..]);
    rs' := pre[..n] + [pre[n].(len := pre[n].len + post[0].len)] + post[1..];
    MergeLive(pre, pre[n].len + post[0].len, post[1..]);
  }

  lemma RemoveFacts(pre: seq<Rec>, post: seq<Rec>) returns (pos: nat)
    requires post != [] && post[0].ino != 0
    ensures pos == |Live(pre)| && pos < |Live(pre + post)|
    ensures Live(pre + post)[pos] == DirEntry(post[0].ino, post[0].fileType, post[0].name)
    ensures forall j :: 0 <= j < pos ==> Live(pre + post)[j] == Live(pre)[j]
    ensures Live(pre + [post[0].(ino := 0)] + post[1..]) == RemoveAt(Live(pre + post), pos)
    ensures Live(pre + post[1..]) == RemoveAt(Live(pre + post), pos)
  {
    pos := |Live(pre)|;
    RemovedList(pre, post[0], post[1..]);
    assert pre + post == pre + [post[0]] + post[1..];
    LiveJoin(pre, post);
  }

  lemma {:induction false} LaidEnd(b: Block, o: nat, rs: seq<Rec>, p: nat, p': nat)
    requires Laid(b, o, rs, p) && Laid(b, o, rs, p')
    ensures p == p'
    decreases |rs|
  {
    if rs != [] { LaidEnd(b, o + rs[0].len, rs[1..], p, p'); }
  }

  /** The record before `o` ends at `o`. */
  lemma PrevEnds(b: Block, pre: seq<Rec>, o: nat, o0: nat)
    requires Laid(b, 0, pre, o) && LastAt(b, pre, o0)
    ensures o0 + pre[|pre| - 1].len == o
  {
    var n := |pre| - 1;
    LaidOne(b, o0, pre[n]);
    LaidJoin(b, 0, pre[..n], o0, [pre[n]], o0 + pre[n].len);
    assert pre[..n] + [pre[n]] == pre;
    LaidEnd(b, 0, pre, o, o0 + pre[n].len);
  }

  /** Merging the freed record `r` at `o` into the free record `q` before it. */
  lemma MergeLaid(b: Block, init: seq<Rec>, o0: nat, q: Rec, o: nat, r: Rec, tail: seq<Rec>)
    requires Laid(b, 0, init, o0) && RecAt(b, o0, q) && o0 + q.len == o && RecAt(b, o, r)
    requires Laid(b, o + r.len, tail, 1024)
    ensures Laid(PutU16(PutU32(b, o, 0), o0 + 4, q.len + r.len), 0, init + [q.(len := q.len + r.len)] + tail, 1024)
  {
    var b1 := PutU32(b, o, 0);
    RecFrame(b, b1, o0, q);
    LaidFrame(b, b1, 0, init, o0);
    LaidFrame(b, b1, o + r.len, tail, 1024);
    MergeAt(b1, init, o0, q, q.len + r.len, tail);
  }

  lemma MergeLive(pre: seq<Rec>, len: u16, post: seq<Rec>)
    requires pre != [] && pre[|pre| - 1].ino == 0
    ensures Live(pre[..|pre| - 1] + [pre[|pre| - 1].(len := len)] + post) == Live(pre + post)
  {
    var n := |pre| - 1;
    LiveMiddle(pre[..n], [pre[n].(len := len)], post);
    LiveMiddle(pre[..n], [pre[n]], post);
    assert pre[..n] + [pre[n]] == pre;
  }
}
