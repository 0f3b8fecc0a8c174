/** Byte strings and the little-endian fields that the on-disk formats are made of. */
module Bytes {

  datatype Option<+T> = None | Some(value: T)

  type byte = x: int | 0 <= x < 256

  const U16_LIMIT: nat := 0x1_0000
  const U32_LIMIT: nat := 0x1_0000_0000
  const U64_LIMIT: nat := 0x1_0000_0000_0000_0000

  type u16 = x: int | 0 <= x < 0x1_0000
  type u32 = x: int | 0 <= x < 0x1_0000_0000

  /** The 16-bit little-endian field at offset `o`. */
  function GetU16(s: seq<byte>, o: nat): u16
    requires o + 2 <= |s|
  {
    var b0: byte, b1: byte := s[o], s[o + 1];
    b0 + 0x100 * b1
  }

  /** The 32-bit little-endian field at offset `o`. */
  function GetU32(s: seq<byte>, o: nat): u32
    requires o + 4 <= |s|
  {
    var b0: byte, b1: byte, b2: byte, b3: byte := s[o], s[o + 1], s[o + 2], s[o + 3];
    b0 + 0x100 * b1 + 0x1_0000 * b2 + 0x100_0000 * b3
  }

  function U16Bytes(v: u16): (r: seq<byte>)
    ensures |r| == 2
  {
    [v % 0x100, v / 0x100]
  }

  function U32Bytes(v: u32): (r: seq<byte>)
    ensures |r| == 4
  {
    [v % 0x100, v / 0x100 % 0x100, v / 0x1_0000 % 0x100, v / 0x100_0000]
  }

  /** The 64-bit little-endian field at offset `o`. */
  function GetU64(s: seq<byte>, o: nat): nat
    requires o + 8 <= |s|
  {
    GetU32(s, o) + U32_LIMIT * GetU32(s, o + 4)
  }

  function U64Bytes(v: nat): (r: seq<byte>)
    requires v < U64_LIMIT
    ensures |r| == 8
  {
    U32Bytes(v % U32_LIMIT) + U32Bytes(v / U32_LIMIT)
  }

  /** Overwrite `|t|` bytes of `s` starting at `o` (copy_from_slice into a sub-slice). */
  function Splice(s: seq<byte>, o: nat, t: seq<byte>): (r: seq<byte>)
    requires o + |t| <= |s|
    ensures |r| == |s|
    ensures forall k :: 0 <= k < |s| ==> r[k] == if o <= k < o + |t| then t[k - o] else s[k]
  {
    seq(|s|, k requires 0 <= k < |s| => if o <= k < o + |t| then t[k - o] else s[k])
  }

  function Zeros(n: nat): (r: seq<byte>)
    ensures |r| == n && forall i :: 0 <= i < n ==> r[i] == 0
  {
    seq(n, i => 0)
  }

  lemma SpliceInside(s: seq<byte>, o: nat, t: seq<byte>)
    requires o + |t| <= |s|
    ensures Splice(s, o, t)[o..o + |t|] == t
  {
  }

  lemma SpliceOutside(s: seq<byte>, o: nat, t: seq<byte>, p: nat, q: nat)
    requires o + |t| <= |s| && p <= q <= |s| && (q <= o || o + |t| <= p)
    ensures Splice(s, o, t)[p..q] == s[p..q]
  {
  }

  function PutU16(s: seq<byte>, o: nat, v: u16): (r: seq<byte>)
    requires o + 2 <= |s|
    ensures |r| == |s|
  {
    Splice(s, o, U16Bytes(v))
  }

  function PutU32(s: seq<byte>, o: nat, v: u32): (r: seq<byte>)
    requires o + 4 <= |s|
    ensures |r| == |s|
  {
    Splice(s, o, U32Bytes(v))
  }

  lemma SliceSame(s: seq<byte>, t: seq<byte>, o: nat, p: nat, i: nat, j: nat)
    requires o <= i <= j <= p <= |s| && p <= |t| && s[o..p] == t[o..p]
    ensures s[i..j] == t[i..j]
  {
    forall k | i <= k < j ensures s[k] == t[k] {
      assert s[o..p][k - o] == t[o..p][k - o];
    }
  }

  lemma SubSlice(s: seq<byte>, o: nat, n: nat, i: nat, j: nat)
    requires i <= j <= n && o + n <= |s|
    ensures s[o..o + n][i..j] == s[o + i..o + j]
  {
    var a, c := s[o..o + n][i..j], s[o + i..o + j];
    forall k | 0 <= k < j - i ensures a[k] == c[k] {
      assert a[k] == s[o..o + n][i + k];
    }
  }

  lemma U16RoundTrip(v: u16)
    ensures GetU16(U16Bytes(v), 0) == v
  {
  }

  lemma U32RoundTrip(v: u32)
    ensures GetU32(U32Bytes(v), 0) == v
  {
    var a := v / 0x100;
    var b := a / 0x100;
    var c := b / 0x100;
    assert v == 0x100 * a + v % 0x100 && a == 0x100 * b + a % 0x100 && b == 0x100 * c + b % 0x100;
    assert v / 0x1_0000 == b && v / 0x100_0000 == c;
  }

  /** A field read depends only on the bytes it covers. */
  lemma GetU32Same(s: seq<byte>, o: nat, t: seq<byte>, p: nat)
    requires o + 4 <= |s| && p + 4 <= |t|
    requires s[o..o + 4] == t[p..p + 4]
    ensures GetU32(s, o) == GetU32(t, p)
  {
    var a, b := s[o..o + 4], t[p..p + 4];
    assert a[0] == b[0] && a[1] == b[1] && a[2] == b[2] && a[3] == b[3];
  }

  lemma GetU16Same(s: seq<byte>, o: nat, t: seq<byte>, p: nat)
    requires o + 2 <= |s| && p + 2 <= |t|
    requires s[o..o + 2] == t[p..p + 2]
    ensures GetU16(s, o) == GetU16(t, p)
  {
    var a, b := s[o..o + 2], t[p..p + 2];
    assert a[0] == b[0] && a[1] == b[1];
  }

  lemma PutU32Get(s: seq<byte>, o: nat, v: u32)
    requires o + 4 <= |s|
    ensures GetU32(PutU32(s, o, v), o) == v
  {
    U32RoundTrip(v);
    GetU32Same(PutU32(s, o, v), o, U32Bytes(v), 0);
  }

  /** A stored 64-bit field reads back. */
  lemma GetU64At(s: seq<byte>, o: nat, v: nat)
    requires o + 8 <= |s| && v < U64_LIMIT && s[o..o + 8] == U64Bytes(v)
    ensures GetU64(s, o) == v
  {
    var lo, hi := v % U32_LIMIT, v / U32_LIMIT;
    assert s[o..o + 4] == s[o..o + 8][0..4] && s[o + 4..o + 8] == s[o..o + 8][4..8];
    assert U64Bytes(v)[0..4] == U32Bytes(lo) && U64Bytes(v)[4..8] == U32Bytes(hi);
    GetU32At(s, o, lo);
    GetU32At(s, o + 4, hi);
  }

  lemma GetU32At(s: seq<byte>, o: nat, v: u32)
    requires o + 4 <= |s| && s[o..o + 4] == U32Bytes(v)
    ensures GetU32(s, o) == v
  {
    U32RoundTrip(v);
    assert U32Bytes(v)[0..4] == U32Bytes(v);
    GetU32Same(s, o, U32Bytes(v), 0);
  }
}
