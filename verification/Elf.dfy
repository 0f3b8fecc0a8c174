/** ELF64 program headers, the overlap check and the page-by-page loading of PT_LOAD segments (kernel/src/elf.rs). */
module Elf {
  import opened Bytes

  const PT_LOAD: nat := 1
  const PHDR_SIZE: nat := 56

  datatype Result<T> = Ok(value: T) | Err(error: ElfError)
  datatype ElfError = InvalidSegment | SegmentOverlap | OutOfMemory

  /** The fields that the loader uses, with the PF_W and PF_X bits of p_flags. */
  datatype ProgramHeader = ProgramHeader(pType: u32, flags: u32, offset: nat, vaddr: nat, filesz: nat, memsz: nat)
  {
    predicate Wide() {
      offset < U64_LIMIT && vaddr < U64_LIMIT && filesz < U64_LIMIT && memsz < U64_LIMIT
    }

    predicate Writable() { flags / 2 % 2 == 1 }
    predicate Executable() { flags % 2 == 1 }

    function StartPage(): nat { vaddr / 0x1000 * 0x1000 }

    /** The page-aligned end, unless the checked additions overflow. */
    function EndPage(): Option<nat> {
      if vaddr + memsz + 0xFFF >= U64_LIMIT then None else Some((vaddr + memsz + 0xFFF) / 0x1000 * 0x1000)
    }

    /** The segment occupies at least one page. */
    predicate Loads() {
      pType == PT_LOAD && EndPage().Some? && EndPage().value > StartPage()
    }

    function Pages(): nat
      requires Loads()
    {
      (EndPage().value - StartPage()) / 0x1000
    }
  }

  lemma PagesCover(ph: ProgramHeader)
    requires ph.Loads()
    ensures ph.StartPage() % 0x1000 == 0 && ph.StartPage() + 0x1000 * ph.Pages() == ph.EndPage().value
    ensures ph.StartPage() <= ph.vaddr && ph.vaddr + ph.memsz <= ph.EndPage().value
  {
  }

  // ---- Program headers ----------------------------------------------------

  /** parse_program_header */
  function ParseProgramHeader(data: seq<byte>, phoff: nat, index: nat): (r: Result<ProgramHeader>)
    ensures r.Ok? <==> phoff + index * PHDR_SIZE + PHDR_SIZE <= |data|
    ensures r.Ok? ==> r.value.Wide()
  {
    var o := phoff + index * PHDR_SIZE;
    if o + PHDR_SIZE > |data| then Err(InvalidSegment)
    else
      var ph := data[o..o + PHDR_SIZE];
      Ok(ProgramHeader(GetU32(ph, 0), GetU32(ph, 4), GetU64(ph, 8), GetU64(ph, 16), GetU64(ph, 32), GetU64(ph, 40)))
  }

  /** The ELF64 layout of a program header; p_paddr and p_align are not read. */
  function ProgramHeaderBytes(ph: ProgramHeader, paddr: nat, align: nat): (r: seq<byte>)
    requires ph.Wide() && paddr < U64_LIMIT && align < U64_LIMIT
    ensures |r| == PHDR_SIZE
  {
    U32Bytes(ph.pType) + U32Bytes(ph.flags) + U64Bytes(ph.offset) + U64Bytes(ph.vaddr)
    + U64Bytes(paddr) + U64Bytes(ph.filesz) + U64Bytes(ph.memsz) + U64Bytes(align)
  }

  lemma ProgramHeaderRoundTrip(data: seq<byte>, phoff: nat, index: nat, ph: ProgramHeader, paddr: nat, align: nat)
    requires ph.Wide() && paddr < U64_LIMIT && align < U64_LIMIT && phoff + index * PHDR_SIZE + PHDR_SIZE <= |data|
    requires data[phoff + index * PHDR_SIZE..phoff + index * PHDR_SIZE + PHDR_SIZE] ==
      ProgramHeaderBytes(ph, paddr, align)
    ensures ParseProgramHeader(data, phoff, index) == Ok(ph)
  {
    var b := ProgramHeaderBytes(ph, paddr, align);
    assert b[0..4] == U32Bytes(ph.pType) && b[4..8] == U32Bytes(ph.flags);
    assert b[8..16] == U64Bytes(ph.offset) && b[16..24] == U64Bytes(ph.vaddr);
    assert b[32..40] == U64Bytes(ph.filesz) && b[40..48] == U64Bytes(ph.memsz);
    GetU32At(b, 0, ph.pType);
    GetU32At(b, 4, ph.flags);
    GetU64At(b, 8, ph.offset);
    GetU64At(b, 16, ph.vaddr);
    GetU64At(b, 32, ph.filesz);
    GetU64At(b, 40, ph.memsz);
  }

  // ---- The overlap check --------------------------------------------------

  predicate Overlap(a: ProgramHeader, b: ProgramHeader)
    requires a.Loads() && b.Loads()
  {
    a.StartPage() < b.EndPage().value && b.StartPage() < a.EndPage().value
  }

  /** Header `i` parses, and its end does not overflow if it is a PT_LOAD header. */
  predicate GoodHeader(data: seq<byte>, phoff: nat, i: nat) {
    var p := ParseProgramHeader(data, phoff, i);
    p.Ok? && (p.value.pType == PT_LOAD ==> p.value.EndPage().Some?)
  }

  predicate GoodHeaders(data: seq<byte>, phoff: nat, n: nat) {
    forall i: nat :: i < n ==> GoodHeader(data, phoff, i)
  }

  function HeaderAt(data: seq<byte>, phoff: nat, i: nat): ProgramHeader {
    var p := ParseProgramHeader(data, phoff, i);
    if p.Ok? then p.value else ProgramHeader(0, 0, 0, 0, 0, 0)
  }

  /** The first `n` headers. */
  function Headers(data: seq<byte>, phoff: nat, n: nat): (r: seq<ProgramHeader>)
    ensures |r| == n && forall i :: 0 <= i < n ==> r[i] == HeaderAt(data, phoff, i)
  {
    seq(n, i requires 0 <= i < n => HeaderAt(data, phoff, i))
  }

  predicate NoOverlap(phs: seq<ProgramHeader>) {
    forall i, j :: 0 <= i < j < |phs| && phs[i].Loads() && phs[j].Loads() ==> !Overlap(phs[i], phs[j])
  }

  /** `ranges` are the page ranges of the segments among `phs`. */
  ghost predicate Collected(phs: seq<ProgramHeader>, ranges: seq<(nat, nat)>) {
    && (forall k :: 0 <= k < |ranges| ==> HasRange(phs, ranges[k]))
    && (forall i :: 0 <= i < |phs| && phs[i].Loads() ==> IsListed(ranges, phs[i]))
  }

  ghost predicate HasRange(phs: seq<ProgramHeader>, r: (nat, nat)) {
    exists i :: 0 <= i < |phs| && RangeOf(phs[i], r)
  }

  ghost predicate IsListed(ranges: seq<(nat, nat)>, ph: ProgramHeader) {
    exists k :: 0 <= k < |ranges| && RangeOf(ph, ranges[k])
  }

  predicate RangeOf(ph: ProgramHeader, r: (nat, nat)) {
    ph.Loads() && r == (ph.StartPage(), ph.EndPage().value)
  }

  /** The first loop of load_elf: it succeeds exactly when all headers are valid and no two segments share a page. */
  method CheckSegments(data: seq<byte>, phoff: nat, phnum: nat) returns (r: Result<seq<(nat, nat)>>)
    ensures r.Ok? <==> GoodHeaders(data, phoff, phnum) && NoOverlap(Headers(data, phoff, phnum))
    ensures r.Ok? ==> Collected(Headers(data, phoff, phnum), r.value)
    ensures r.Err? ==> r.error in {InvalidSegment, SegmentOverlap}
    ensures r == Err(InvalidSegment) <==> InvalidFirst(data, phoff, phnum)
    ensures r == Err(SegmentOverlap) <==> OverlapFirst(data, phoff, phnum)
  {
    var ranges: seq<(nat, nat)> := [];
    for i := 0 to phnum
      invariant Checked(data, phoff, i, ranges)
    {
      var p := ParseProgramHeader(data, phoff, i);
      if p.Err? || (p.value.pType == PT_LOAD && p.value.EndPage().None?) {
        StopsAtInvalid(data, phoff, i, phnum);
        return Err(InvalidSegment);
      }
      HeadersNext(data, phoff, i);
      var ok;
      ok, ranges := AddRange(Headers(data, phoff, i), ranges, p.value);
      if !ok {
        OverlapStays(data, phoff, i + 1, phnum);
        StopsAtOverlap(data, phoff, i, phnum);
        return Err(SegmentOverlap);
      }
    }
    PassesAll(data, phoff, phnum);
    return Ok(ranges);
  }

  /** The first `n` headers have passed the check, with their ranges collected. */
  ghost predicate Checked(data: seq<byte>, phoff: nat, n: nat, ranges: seq<(nat, nat)>) {
    GoodHeaders(data, phoff, n) && NoOverlap(Headers(data, phoff, n)) && Collected(Headers(data, phoff, n), ranges)
  }

  /** The first `i` headers pass the check. */
  ghost predicate PassesTo(data: seq<byte>, phoff: nat, i: nat) {
    GoodHeaders(data, phoff, i) && NoOverlap(Headers(data, phoff, i))
  }

  /** The first header that does not pass the check is not valid. */
  ghost predicate InvalidFirst(data: seq<byte>, phoff: nat, n: nat) {
    exists i: nat :: i < n && PassesTo(data, phoff, i) && !GoodHeader(data, phoff, i)
  }

  /** The first header that does not pass the check is valid and overlaps an earlier segment. */
  ghost predicate OverlapFirst(data: seq<byte>, phoff: nat, n: nat) {
    exists i: nat ::
      i < n && PassesTo(data, phoff, i) && GoodHeader(data, phoff, i) && !PassesTo(data, phoff, i + 1)
  }

  /** Headers behind a failing one do not pass. */
  lemma PassesBefore(data: seq<byte>, phoff: nat, i: nat, j: nat)
    requires i <= j && PassesTo(data, phoff, j)
    ensures PassesTo(data, phoff, i) && (i < j ==> GoodHeader(data, phoff, i))
  {
    if !NoOverlap(Headers(data, phoff, i)) { OverlapStays(data, phoff, i, j); }
  }

  lemma StopsAtInvalid(data: seq<byte>, phoff: nat, i: nat, n: nat)
    requires i < n && PassesTo(data, phoff, i) && !GoodHeader(data, phoff, i)
    ensures InvalidFirst(data, phoff, n) && !OverlapFirst(data, phoff, n) && !GoodHeaders(data, phoff, n)
  {
    forall j: nat | j < n && PassesTo(data, phoff, j) && GoodHeader(data, phoff, j)
      ensures PassesTo(data, phoff, j + 1)
    {
      if i < j { PassesBefore(data, phoff, i, j); } else { PassesBefore(data, phoff, j + 1, i); }
    }
  }

  lemma StopsAtOverlap(data: seq<byte>, phoff: nat, i: nat, n: nat)
    requires i < n && PassesTo(data, phoff, i) && GoodHeader(data, phoff, i) && !PassesTo(data, phoff, i + 1)
    ensures OverlapFirst(data, phoff, n) && !InvalidFirst(data, phoff, n)
  {
    forall j: nat | j < n && PassesTo(data, phoff, j) ensures GoodHeader(data, phoff, j) {
      if j < i { PassesBefore(data, phoff, j, i); } else if i < j { PassesBefore(data, phoff, i + 1, j); }
    }
  }

  lemma PassesAll(data: seq<byte>, phoff: nat, n: nat)
    requires PassesTo(data, phoff, n)
    ensures !InvalidFirst(data, phoff, n) && !OverlapFirst(data, phoff, n)
  {
    forall j: nat | j < n ensures GoodHeader(data, phoff, j) && PassesTo(data, phoff, j + 1) {
      PassesBefore(data, phoff, j, n);
      PassesBefore(data, phoff, j + 1, n);
    }
  }

  lemma HeadersNext(data: seq<byte>, phoff: nat, i: nat)
    requires GoodHeaders(data, phoff, i) && GoodHeader(data, phoff, i)
    ensures GoodHeaders(data, phoff, i + 1)
    ensures Headers(data, phoff, i + 1) == Headers(data, phoff, i) + [ParseProgramHeader(data, phoff, i).value]
  {
  }

  lemma OverlapStays(data: seq<byte>, phoff: nat, n: nat, m: nat)
    requires n <= m && !NoOverlap(Headers(data, phoff, n))
    ensures !NoOverlap(Headers(data, phoff, m))
  {
    var phs, all := Headers(data, phoff, n), Headers(data, phoff, m);
    var i, j :| 0 <= i < j < |phs| && phs[i].Loads() && phs[j].Loads() && Overlap(phs[i], phs[j]);
    assert all[i] == phs[i] && all[j] == phs[j];
  }

  /** Check a segment against the ranges collected so far and add its own; zero-size segments are passed over. */
  method AddRange(ghost phs: seq<ProgramHeader>, ranges: seq<(nat, nat)>, ph: ProgramHeader)
    returns (ok: bool, more: seq<(nat, nat)>)
    requires Collected(phs, ranges) && NoOverlap(phs)
    ensures ok <==> NoOverlap(phs + [ph])
    ensures ok ==> Collected(phs + [ph], more)
  {
    if !ph.Loads() {
      CollectSame(phs, ranges, ph);
      return true, ranges;
    }
    var clash := ClashesWith(ranges, ph.StartPage(), ph.EndPage().value);
    if clash.Some? {
      assert HasRange(phs, ranges[clash.value]);
      ghost var k :| 0 <= k < |phs| && RangeOf(phs[k], ranges[clash.value]);
      ghost var all := phs + [ph];
      assert Overlap(all[k], all[|phs|]);
      return false, ranges;
    }
    CollectMore(phs, ranges, ph);
    return true, ranges + [(ph.StartPage(), ph.EndPage().value)];
  }

  method ClashesWith(ranges: seq<(nat, nat)>, start: nat, end: nat) returns (r: Option<nat>)
    ensures r.Some? ==> r.value < |ranges| && start < ranges[r.value].1 && end > ranges[r.value].0
    ensures r.None? ==> forall k :: 0 <= k < |ranges| ==> !(start < ranges[k].1 && end > ranges[k].0)
  {
    for k := 0 to |ranges|
      invariant forall j :: 0 <= j < k ==> !(start < ranges[j].1 && end > ranges[j].0)
    {
      if start < ranges[k].1 && end > ranges[k].0 { return Some(k); }
    }
    r := None;
  }

  lemma MoreHeaders(phs: seq<ProgramHeader>, ph: ProgramHeader, r: (nat, nat))
    requires HasRange(phs, r) || RangeOf(ph, r)
    ensures HasRange(phs + [ph], r)
  {
    var all := phs + [ph];
    if HasRange(phs, r) {
      var i :| 0 <= i < |phs| && RangeOf(phs[i], r);
      assert RangeOf(all[i], r);
    } else {
      assert RangeOf(all[|phs|], r);
    }
  }

  lemma MoreRanges(ranges: seq<(nat, nat)>, r: (nat, nat), ph: ProgramHeader)
    requires IsListed(ranges, ph) || RangeOf(ph, r)
    ensures IsListed(ranges + [r], ph)
  {
    var more := ranges + [r];
    if IsListed(ranges, ph) {
      var k :| 0 <= k < |ranges| && RangeOf(ph, ranges[k]);
      assert RangeOf(ph, more[k]);
    } else {
      assert RangeOf(ph, more[|ranges|]);
    }
  }

  lemma CollectMore(phs: seq<ProgramHeader>, ranges: seq<(nat, nat)>, ph: ProgramHeader)
    requires Collected(phs, ranges) && NoOverlap(phs) && ph.Loads()
    requires forall k :: 0 <= k < |ranges| ==> !(ph.StartPage() < ranges[k].1 && ph.EndPage().value > ranges[k].0)
    ensures Collected(phs + [ph], ranges + [(ph.StartPage(), ph.EndPage().value)]) && NoOverlap(phs + [ph])
  {
    var r := (ph.StartPage(), ph.EndPage().value);
    var all, more := phs + [ph], ranges + [r];
    forall k | 0 <= k < |more| ensures HasRange(all, more[k]) { MoreHeaders(phs, ph, more[k]); }
    forall i | 0 <= i < |all| && all[i].Loads() ensures IsListed(more, all[i]) { MoreRanges(ranges, r, all[i]); }
    forall i | 0 <= i < |phs| && phs[i].Loads() ensures !Overlap(phs[i], ph) {
      var k :| 0 <= k < |ranges| && RangeOf(phs[i], ranges[k]);
    }
  }

  lemma CollectSame(phs: seq<ProgramHeader>, ranges: seq<(nat, nat)>, ph: ProgramHeader)
    requires Collected(phs, ranges) && NoOverlap(phs) && !ph.Loads()
    ensures Collected(phs + [ph], ranges) && NoOverlap(phs + [ph])
  {
    forall k | 0 <= k < |ranges| ensures HasRange(phs + [ph], ranges[k]) { MoreHeaders(phs, ph, ranges[k]); }
  }
}
