/** Bit tests and updates on bytes, and bitmaps stored as byte strings (bit 0 of byte n is index 8*n). */
module Bits {
  import opened Bytes

  /** Bit `k` of `b`: the source's `b & (1 << k) != 0`. */
  predicate Bit(b: nat, k: nat) {
    if k == 0 then b % 2 == 1 else Bit(b / 2, k - 1)
  }

  /** `b | (1 << k)`. */
  function SetBit(b: nat, k: nat): (r: nat)
    ensures b <= r
    decreases k
  {
    if k == 0 then b / 2 * 2 + 1 else 2 * SetBit(b / 2, k - 1) + b % 2
  }

  /** `b & !(1 << k)`. */
  function ClearBit(b: nat, k: nat): (r: nat)
    ensures r <= b
    decreases k
  {
    if k == 0 then b / 2 * 2 else 2 * ClearBit(b / 2, k - 1) + b % 2
  }

  function Pow2(n: nat): (r: nat)
    ensures r > 0
  {
    if n == 0 then 1 else 2 * Pow2(n - 1)
  }

  lemma SetBitBound(b: nat, k: nat, n: nat)
    requires k < n && b < Pow2(n)
    ensures SetBit(b, k) < Pow2(n)
    decreases k
  {
    if k > 0 { SetBitBound(b / 2, k - 1, n - 1); }
  }

  lemma {:induction false} BitOfSetBit(b: nat, k: nat, j: nat)
    ensures Bit(SetBit(b, k), j) == (j == k || Bit(b, j))
    decreases k
  {
    if k > 0 && j > 0 { BitOfSetBit(b / 2, k - 1, j - 1); }
  }

  lemma {:induction false} BitOfClearBit(b: nat, k: nat, j: nat)
    ensures Bit(ClearBit(b, k), j) == (j != k && Bit(b, j))
    decreases k
  {
    if k > 0 && j > 0 { BitOfClearBit(b / 2, k - 1, j - 1); }
  }

  /** Bytes with the same bits are the same byte. */
  lemma {:induction false} BitsDetermine(a: nat, b: nat, n: nat)
    requires a < Pow2(n) && b < Pow2(n)
    requires forall j :: 0 <= j < n ==> Bit(a, j) == Bit(b, j)
    ensures a == b
    decreases n
  {
    if n > 0 {
      forall j | 0 <= j < n - 1 ensures Bit(a / 2, j) == Bit(b / 2, j) {
        assert Bit(a, j + 1) == Bit(b, j + 1);
      }
      BitsDetermine(a / 2, b / 2, n - 1);
      assert Bit(a, 0) == Bit(b, 0);
    }
  }

  lemma Pow2Eight()
    ensures Pow2(8) == 256
  {
    assert Pow2(4) == 16;
  }

  lemma FullByte(k: nat)
    requires k < 8
    ensures Bit(255, k)
  {
    assert Bit(1, 0) && Bit(3, 0) && Bit(7, 0) && Bit(15, 0);
    assert k >= 4 ==> Bit(255, k) == Bit(15, k - 4);
  }

  /** Bit `i` of a bitmap. */
  predicate BitAt(bm: seq<byte>, i: nat)
    requires i < 8 * |bm|
  {
    Bit(bm[i / 8], i % 8)
  }

  function SetByteBit(b: byte, k: nat): byte
    requires k < 8
  {
    Pow2Eight(); SetBitBound(b, k, 8);
    SetBit(b, k)
  }

  function ClearByteBit(b: byte, k: nat): byte
    requires k < 8
  {
    ClearBit(b, k)
  }

  function SetAt(bm: seq<byte>, i: nat): (r: seq<byte>)
    requires i < 8 * |bm|
    ensures |r| == |bm|
  {
    bm[i / 8 := SetByteBit(bm[i / 8], i % 8)]
  }

  function ClearAt(bm: seq<byte>, i: nat): (r: seq<byte>)
    requires i < 8 * |bm|
    ensures |r| == |bm|
  {
    bm[i / 8 := ClearByteBit(bm[i / 8], i % 8)]
  }

  lemma BitAtSet(bm: seq<byte>, i: nat, j: nat)
    requires i < 8 * |bm| && j < 8 * |bm|
    ensures BitAt(SetAt(bm, i), j) == (j == i || BitAt(bm, j))
  {
    BitOfSetBit(bm[i / 8], i % 8, j % 8);
  }

  lemma BitAtClear(bm: seq<byte>, i: nat, j: nat)
    requires i < 8 * |bm| && j < 8 * |bm|
    ensures BitAt(ClearAt(bm, i), j) == (j != i && BitAt(bm, j))
  {
    BitOfClearBit(bm[i / 8], i % 8, j % 8);
  }

  /** Bitmaps with the same bits are equal byte for byte. */
  lemma BitmapsEqual(a: seq<byte>, b: seq<byte>)
    requires |a| == |b|
    requires forall i :: 0 <= i < 8 * |a| ==> BitAt(a, i) == BitAt(b, i)
    ensures a == b
  {
    forall n | 0 <= n < |a| ensures a[n] == b[n] {
      forall j | 0 <= j < 8 ensures Bit(a[n], j) == Bit(b[n], j) {
        assert BitAt(a, 8 * n + j) == BitAt(b, 8 * n + j);
      }
      Pow2Eight();
      BitsDetermine(a[n], b[n], 8);
    }
  }
}
