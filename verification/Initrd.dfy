/**
 * The initial ramdisk archive: the kernel's parser (kernel/src/initrd.rs) and the packer
 * (tools/mkinitrd/src/main.rs).
 */
module Initrd {
  import opened Bytes

  const MAGIC: u32 := 0x4F53_5244
  const ENTRY_SIZE: nat := 264
  const HEADER_SIZE: nat := 8
  const NAME_MAX: nat := 256

  /** A file: the UTF-8 bytes of its name, and its contents. */
  datatype File = File(name: seq<byte>, data: seq<byte>)

  datatype InitrdError = TooSmall | BadMagic | IndexOutOfBounds | InvalidFilename | DataOutOfBounds
  datatype Result<T> = Ok(value: T) | Err(error: InitrdError)

  // ---- The parser ---------------------------------------------------------

  /** Well-formed UTF-8 (section 4 of RFC 3629). */
  predicate Utf8(s: seq<byte>) {
    if s == [] then true
    else if s[0] < 0x80 then Utf8(s[1..])
    else if 0xC2 <= s[0] <= 0xDF then |s| >= 2 && Tail(s[1]) && Utf8(s[2..])
    else if 0xE0 <= s[0] <= 0xEF then
      && |s| >= 3 && Tail(s[1]) && Tail(s[2]) && (s[0] == 0xE0 ==> s[1] >= 0xA0) && (s[0] == 0xED ==> s[1] <= 0x9F)
      && Utf8(s[3..])
    else if 0xF0 <= s[0] <= 0xF4 then
      && |s| >= 4 && Tail(s[1]) && Tail(s[2]) && Tail(s[3])
      && (s[0] == 0xF0 ==> s[1] >= 0x90) && (s[0] == 0xF4 ==> s[1] <= 0x8F) && Utf8(s[4..])
    else false
  }

  predicate Tail(b: byte) { 0x80 <= b <= 0xBF }

  function ParseHeader(data: seq<byte>): Result<u32> {
    if |data| < 8 then Err(TooSmall)
    else if GetU32(data, 0) != MAGIC then Err(BadMagic)
    else Ok(GetU32(data, 4))
  }

  /** The bytes before the first NUL. */
  function TrimNul(s: seq<byte>): (r: seq<byte>)
    ensures r <= s && 0 !in r && (|r| < |s| ==> s[|r|] == 0)
  {
    if s == [] || s[0] == 0 then [] else [s[0]] + TrimNul(s[1..])
  }

  /** get_file */
  function GetFile(data: seq<byte>, index: nat): Result<File> {
    var count := ParseHeader(data);
    if count.Err? then Err(count.error)
    else if index >= count.value then Err(IndexOutOfBounds)
    else if 8 + index * ENTRY_SIZE + ENTRY_SIZE > |data| then Err(TooSmall)
    else FileOf(data, data[8 + index * ENTRY_SIZE..8 + index * ENTRY_SIZE + ENTRY_SIZE])
  }

  /** The file that an entry describes. */
  function FileOf(data: seq<byte>, entry: seq<byte>): Result<File>
    requires |entry| == ENTRY_SIZE
  {
    FileAt(data, entry[..NAME_MAX], GetU32(entry, 256), GetU32(entry, 260))
  }

  function FileAt(data: seq<byte>, nameField: seq<byte>, offset: nat, size: nat): Result<File> {
    var name := TrimNul(nameField);
    if !Utf8(name) then Err(InvalidFilename)
    else if offset + size > |data| then Err(DataOutOfBounds)
    else Ok(File(name, data[offset..offset + size]))
  }

  /** Entry `i` parses and has this name. */
  predicate Matches(data: seq<byte>, i: nat, target: seq<byte>) {
    GetFile(data, i).Ok? && GetFile(data, i).value.name == target
  }

  /** find_file: the first entry that parses and has the name; entries that do not parse are passed over. */
  method FindFile(data: seq<byte>, target: seq<byte>) returns (r: Option<File>, ghost at: nat)
    ensures r.Some? ==> Matches(data, at, target) && GetFile(data, at) == Ok(r.value) && forall j: nat :: j < at ==>
      !Matches(data, j, target)
    ensures r.None? ==> forall j: nat :: !Matches(data, j, target)
  {
    at := 0;
    var count := ParseHeader(data);
    if count.Err? { return None, 0; }
    for i := 0 to count.value
      invariant forall j: nat :: j < i ==> !Matches(data, j, target)
    {
      var file := GetFile(data, i);
      if file.Ok? && file.value.name == target { return Some(file.value), i; }
    }
    r := None;
  }

  // ---- The packer ---------------------------------------------------------

  /** align_up to the page size. */
  function AlignUp(value: nat): (r: nat)
    ensures value <= r < value + 4096 && r % 4096 == 0
  {
    (value + 4095) / 4096 * 4096
  }

  /** The total length of the first `k` files. */
  function Sum(files: seq<File>, k: nat): nat
    requires k <= |files|
  {
    if k == 0 then 0 else Sum(files, k - 1) + |files[k - 1].data|
  }

  function DataStart(files: seq<File>): nat {
    AlignUp(HEADER_SIZE + |files| * ENTRY_SIZE)
  }

  /** The 256-byte name field: at most 255 bytes of the name, then zeros. */
  function NameField(name: seq<byte>): (r: seq<byte>)
    ensures |r| == 256
  {
    var n := if |name| < 255 then |name| else 255;
    name[..n] + Zeros(256 - n)
  }

  /** The table entry of file `i`; the offset and the size are cut to 32 bits. */
  function Entry(files: seq<File>, i: nat): (r: seq<byte>)
    requires i < |files|
    ensures |r| == ENTRY_SIZE
  {
    EntryBytes(NameField(files[i].name), As32(DataStart(files) + Sum(files, i)), As32(|files[i].data|))
  }

  function EntryBytes(name: seq<byte>, offset: u32, size: u32): (r: seq<byte>)
    ensures |r| == |name| + 8
  {
    name + U32Bytes(offset) + U32Bytes(size)
  }

  /** The cast `as u32`. */
  function As32(n: nat): u32 { if n < U32_LIMIT then n else n % U32_LIMIT }

  function Table(files: seq<File>, k: nat): (r: seq<byte>)
    requires k <= |files|
    ensures |r| == k * ENTRY_SIZE
  {
    if k == 0 then [] else Table(files, k - 1) + Entry(files, k - 1)
  }

  function Contents(files: seq<File>, k: nat): (r: seq<byte>)
    requires k <= |files|
    ensures |r| == Sum(files, k)
  {
    if k == 0 then [] else Contents(files, k - 1) + files[k - 1].data
  }

  function Head(files: seq<File>): (r: seq<byte>)
    ensures |r| == HEADER_SIZE
  {
    U32Bytes(MAGIC) + U32Bytes(As32(|files|))
  }

  /** Everything before the data section. */
  function Front(files: seq<File>): (r: seq<byte>)
    ensures |r| == DataStart(files)
  {
    Head(files) + Table(files, |files|) + Zeros(DataStart(files) - (HEADER_SIZE + |files| * ENTRY_SIZE))
  }

  function Archive(files: seq<File>): (r: seq<byte>)
    ensures |r| == DataStart(files) + Sum(files, |files|)
  {
    Front(files) + Contents(files, |files|)
  }

  /** create_initrd, with the files already read. */
  method CreateInitrd(files: seq<File>) returns (out: seq<byte>)
    ensures out == Archive(files)
  {
    var tableSize := HEADER_SIZE + |files| * ENTRY_SIZE;
    var dataOffset := AlignUp(tableSize);
    var offsets := DataOffsets(files, dataOffset);
    out := U32Bytes(MAGIC) + U32Bytes(As32(|files|));
    var table := WriteTable(files, offsets);
    out := out + table;
    out := out + Zeros(dataOffset - tableSize);
    var contents := WriteContents(files);
    out := out + contents;
  }

  method DataOffsets(files: seq<File>, start: nat) returns (offsets: seq<nat>)
    ensures |offsets| == |files| && forall k :: 0 <= k < |files| ==> offsets[k] == start + Sum(files, k)
  {
    offsets := [];
    var current := start;
    for i := 0 to |files|
      invariant |offsets| == i && current == start + Sum(files, i)
      invariant forall k :: 0 <= k < i ==> offsets[k] == start + Sum(files, k)
    {
      offsets := offsets + [current];
      current := current + |files[i].data|;
    }
  }

  method WriteTable(files: seq<File>, offsets: seq<nat>) returns (out: seq<byte>)
    requires |offsets| == |files| && forall k :: 0 <= k < |files| ==> offsets[k] == DataStart(files) + Sum(files, k)
    ensures out == Table(files, |files|)
  {
    out := [];
    for i := 0 to |files|
      invariant out == Table(files, i)
    {
      var copyLen := if |files[i].name| < 255 then |files[i].name| else 255;
      var nameBuf := files[i].name[..copyLen] + Zeros(256 - copyLen);
      out := out + (nameBuf + U32Bytes(As32(offsets[i])) + U32Bytes(As32(|files[i].data|)));
    }
  }

  method WriteContents(files: seq<File>) returns (out: seq<byte>)
    ensures out == Contents(files, |files|)
  {
    out := [];
    for i := 0 to |files|
      invariant out == Contents(files, i)
    {
      out := out + files[i].data;
    }
  }

  // ---- Round trip ---------------------------------------------------------

  lemma {:induction false} TableAt(files: seq<File>, k: nat, i: nat)
    requires i < k <= |files|
    ensures (i + 1) * ENTRY_SIZE <= |Table(files, k)|
    ensures Table(files, k)[i * ENTRY_SIZE..(i + 1) * ENTRY_SIZE] == Entry(files, i)
  {
    var rest := Table(files, k - 1);
    assert Table(files, k) == rest + Entry(files, k - 1);
    if i < k - 1 {
      TableAt(files, k - 1, i);
      assert (rest + Entry(files, k - 1))[i * ENTRY_SIZE..(i + 1) * ENTRY_SIZE] ==
        rest[i * ENTRY_SIZE..(i + 1) * ENTRY_SIZE];
    }
  }

  lemma {:induction false} SumBound(files: seq<File>, i: nat, k: nat)
    requires i < k <= |files|
    ensures Sum(files, i) + |files[i].data| <= Sum(files, k)
  {
    if i < k - 1 { SumBound(files, i, k - 1); }
  }

  lemma {:induction false} ContentsAt(files: seq<File>, k: nat, i: nat)
    requires i < k <= |files|
    ensures Sum(files, i) + |files[i].data| <= Sum(files, k)
    ensures Contents(files, k)[Sum(files, i)..Sum(files, i) + |files[i].data|] == files[i].data
  {
    SumBound(files, i, k);
    var rest := Contents(files, k - 1);
    assert Contents(files, k) == rest + files[k - 1].data;
    if i < k - 1 {
      ContentsAt(files, k - 1, i);
      assert (rest + files[k - 1].data)[Sum(files, i)..Sum(files, i) + |files[i].data|] ==
        rest[Sum(files, i)..Sum(files, i) + |files[i].data|];
    }
  }

  /** A name survives exactly when it fits and has no NUL. */
  lemma NameSurvives(name: seq<byte>)
    ensures TrimNul(NameField(name)) == name <==> |name| <= 255 && 0 !in name
  {
    var f := NameField(name);
    var t := TrimNul(f);
    if |name| <= 255 && 0 !in name {
      assert f == name + Zeros(256 - |name|);
      assert f[|name|] == 0;
      assert |t| == |name|;
      assert t == f[..|name|] == name;
    } else if |name| > 255 {
      assert f[255] == 0;
      assert |t| <= 255;
    }
  }

  lemma FrontEntry(files: seq<File>, i: nat)
    requires i < |files|
    ensures 8 + i * ENTRY_SIZE + ENTRY_SIZE <= DataStart(files)
    ensures Front(files)[8 + i * ENTRY_SIZE..8 + i * ENTRY_SIZE + ENTRY_SIZE] == Entry(files, i)
  {
    TableAt(files, |files|, i);
    MiddlePart(Head(files), Table(files, |files|), Zeros(DataStart(files) - (HEADER_SIZE + |files| * ENTRY_SIZE)),
               i * ENTRY_SIZE, ENTRY_SIZE);
  }

  /** Where the parser looks for entry `i`. */
  lemma ArchiveEntry(files: seq<File>, i: nat)
    requires i < |files|
    ensures 8 + i * ENTRY_SIZE + ENTRY_SIZE <= |Archive(files)|
    ensures Archive(files)[8 + i * ENTRY_SIZE..8 + i * ENTRY_SIZE + ENTRY_SIZE] == Entry(files, i)
  {
    FrontEntry(files, i);
    FirstPart(Front(files), Contents(files, |files|), 8 + i * ENTRY_SIZE, ENTRY_SIZE);
  }

  /** Where the contents of file `i` are. */
  lemma ArchiveData(files: seq<File>, i: nat)
    requires i < |files|
    ensures DataStart(files) + Sum(files, i) + |files[i].data| <= |Archive(files)|
    ensures Archive(files)[DataStart(files) + Sum(files, i)..DataStart(files) + Sum(files, i) + |files[i].data|] ==
      files[i].data
  {
    ContentsAt(files, |files|, i);
    LastPart(Front(files), Contents(files, |files|), DataStart(files) + Sum(files, i), Sum(files, i), files[i].data);
  }

  lemma FirstPart(a: seq<byte>, b: seq<byte>, i: nat, m: nat)
    requires i + m <= |a|
    ensures (a + b)[i..i + m] == a[i..i + m]
  {
  }

  lemma MiddlePart(a: seq<byte>, b: seq<byte>, c: seq<byte>, i: nat, m: nat)
    requires i + m <= |b|
    ensures (a + b + c)[|a| + i..|a| + i + m] == b[i..i + m]
  {
  }

  lemma LastPart(a: seq<byte>, b: seq<byte>, at: nat, j: nat, part: seq<byte>)
    requires j + |part| <= |b| && at == |a| + j && b[j..j + |part|] == part
    ensures at + |part| <= |a + b| && (a + b)[at..at + |part|] == part
  {
  }

  lemma ArchiveHeader(files: seq<File>)
    requires |files| < U32_LIMIT
    ensures ParseHeader(Archive(files)) == Ok(|files|)
  {
    var a := Archive(files);
    assert a[0..4] == U32Bytes(MAGIC) && a[4..8] == U32Bytes(|files|);
    GetU32At(a, 0, MAGIC);
    GetU32At(a, 4, |files|);
  }

  lemma As32Small(n: nat)
    requires n < U32_LIMIT
    ensures As32(n) == n
  {
  }

  lemma EntryIs(files: seq<File>, i: nat, off: u32, size: u32)
    requires i < |files| && off == DataStart(files) + Sum(files, i) && size == |files[i].data|
    ensures Entry(files, i) == EntryBytes(NameField(files[i].name), off, size)
  {
    As32Small(off);
    As32Small(size);
  }

  /** The file that an entry with a name field, an offset and a size describes. */
  lemma FileOfEntry(a: seq<byte>, name: seq<byte>, off: u32, size: u32)
    requires |name| == 256 && off + size <= |a|
    ensures FileOf(a, EntryBytes(name, off, size)) ==
      if Utf8(TrimNul(name)) then Ok(File(TrimNul(name), a[off..off + size])) else Err(InvalidFilename)
  {
    EntryBytesFields(name, off, size);
  }

  lemma EntryBytesFields(name: seq<byte>, offset: u32, size: u32)
    requires |name| == 256
    ensures var e := EntryBytes(name, offset, size);
            e[..256] == name && GetU32(e, 256) == offset && GetU32(e, 260) == size
  {
    var e := EntryBytes(name, offset, size);
    assert e[256..260] == U32Bytes(offset) && e[260..264] == U32Bytes(size);
    GetU32At(e, 256, offset);
    GetU32At(e, 260, size);
  }

  /** What reading entry `i` gives, for any names: the stored part of the name, if it is UTF-8. */
  lemma GetFileOfArchive(files: seq<File>, i: nat)
    requires i < |files| && |Archive(files)| < U32_LIMIT
    ensures var name := TrimNul(NameField(files[i].name));
            GetFile(Archive(files), i) == if Utf8(name) then Ok(File(name, files[i].data)) else Err(InvalidFilename)
  {
    FewFiles(files);
    ArchiveHeader(files);
    ArchiveEntry(files, i);
    ArchiveData(files, i);
    var a, off, size := Archive(files), DataStart(files) + Sum(files, i), |files[i].data|;
    EntryIs(files, i, off, size);
    FileOfEntry(a, NameField(files[i].name), off, size);
    assert GetFile(a, i) == FileOf(a, Entry(files, i));
  }

  lemma FewFiles(files: seq<File>)
    requires |Archive(files)| < U32_LIMIT
    ensures |files| < U32_LIMIT
  {
  }

  predicate NamesOk(files: seq<File>) {
    forall i :: 0 <= i < |files| ==> |files[i].name| <= 255 && 0 !in files[i].name && Utf8(files[i].name)
  }

  /** get_file on the packed archive returns every file, by index. */
  lemma RoundTrip(files: seq<File>, i: nat)
    requires i < |files| && NamesOk(files) && |Archive(files)| < U32_LIMIT
    ensures GetFile(Archive(files), i) == Ok(files[i])
  {
    GetFileOfArchive(files, i);
    NameSurvives(files[i].name);
  }

  /** find_file on the packed archive returns the first file with the name, and none if there is none. */
  method PackAndFind(files: seq<File>, target: seq<byte>) returns (r: Option<File>)
    requires NamesOk(files) && |Archive(files)| < U32_LIMIT
    ensures r.None? ==> forall i :: 0 <= i < |files| ==> files[i].name != target
    ensures r.Some? ==> exists i :: 0 <= i < |files| && r.value == files[i] && files[i].name == target && forall j ::
      0 <= j < i ==> files[j].name != target
  {
    var archive := CreateInitrd(files);
    ghost var at;
    r, at := FindFile(archive, target);
    FewFiles(files);
    ArchiveHeader(files);
    forall i | 0 <= i < |files|
      ensures Matches(archive, i, target) <==> files[i].name == target
    {
      RoundTrip(files, i);
    }
    if r.Some? { RoundTrip(files, at); }
  }
}
