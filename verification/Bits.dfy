/** Bitmaps as the driver keeps them: bytes, least significant bit first, 1 = in use. */
module Bits {
  predicate UsedBit(cell: bv8, k: nat)
    requires k < 8
  {
    (cell >> k) & 1 == 1
  }

  function Mask(k: nat): bv8
    requires k < 8
  {
    1 << k
  }

  /** Bit i of the bitmap is set. */
  predicate Used(bm: seq<bv8>, i: nat)
    requires i < 8 * |bm|
  {
    UsedBit(bm[i / 8], i % 8)
  }

  function SetBit(bm: seq<bv8>, i: nat): seq<bv8>
    requires i < 8 * |bm|
  {
    bm[i / 8 := bm[i / 8] | Mask(i % 8)]
  }

  function ClearBit(bm: seq<bv8>, i: nat): seq<bv8>
    requires i < 8 * |bm|
  {
    bm[i / 8 := bm[i / 8] & !Mask(i % 8)]
  }

  // ---------------------------------------------------------------- one byte

  function MaskTable(k: nat): bv8
    requires k < 8
  {
    if k == 0 then 1 else if k == 1 then 2 else if k == 2 then 4 else if k == 3 then 8
    else if k == 4 then 16 else if k == 5 then 32 else if k == 6 then 64 else 128
  }

  lemma MaskIsTable(k: nat)
    requires k < 8
    ensures Mask(k) == MaskTable(k)
  {
    assert Mask(0) == 1 && Mask(1) == 2 && Mask(2) == 4 && Mask(3) == 8;
    assert Mask(4) == 16 && Mask(5) == 32 && Mask(6) == 64 && Mask(7) == 128;
  }

  lemma UsedIsMask(c: bv8, k: nat)
    requires k < 8
    ensures UsedBit(c, k) <==> c & MaskTable(k) != 0
  {
    if k == 0 { assert (c >> 0) & 1 == 1 <==> c & 1 != 0; }
    else if k == 1 { assert (c >> 1) & 1 == 1 <==> c & 2 != 0; }
    else if k == 2 { assert (c >> 2) & 1 == 1 <==> c & 4 != 0; }
    else if k == 3 { assert (c >> 3) & 1 == 1 <==> c & 8 != 0; }
    else if k == 4 { assert (c >> 4) & 1 == 1 <==> c & 16 != 0; }
    else if k == 5 { assert (c >> 5) & 1 == 1 <==> c & 32 != 0; }
    else if k == 6 { assert (c >> 6) & 1 == 1 <==> c & 64 != 0; }
    else { assert (c >> 7) & 1 == 1 <==> c & 128 != 0; }
  }

  lemma MaskTableBits(c: bv8, k: nat, j: nat)
    requires k < 8 && j < 8
    ensures (c | MaskTable(k)) & MaskTable(j) != 0 <==> j == k || c & MaskTable(j) != 0
    ensures c & !MaskTable(k) & MaskTable(j) != 0 <==> j != k && c & MaskTable(j) != 0
  {
  }

  /** Or-ing a mask in sets one bit, and-ing its complement clears one bit, and no other changes. */
  lemma ByteBits(c: bv8, k: nat, j: nat)
    requires k < 8 && j < 8
    ensures UsedBit(c | Mask(k), j) <==> j == k || UsedBit(c, j)
    ensures UsedBit(c & !Mask(k), j) <==> j != k && UsedBit(c, j)
  {
    MaskIsTable(k);
    UsedIsMask(c, j);
    UsedIsMask(c | Mask(k), j);
    UsedIsMask(c & !Mask(k), j);
    MaskTableBits(c, k, j);
  }

  // ---------------------------------------------------------------- one bit of the bitmap

  lemma SamePlace(i: nat, j: nat)
    ensures i == j <==> i / 8 == j / 8 && i % 8 == j % 8
  {
  }

  lemma ReplaceByte(bm: seq<bv8>, q: nat, cell: bv8, j: nat)
    requires q < |bm| && j < 8 * |bm|
    ensures Used(bm[q := cell], j) <==> if j / 8 == q then UsedBit(cell, j % 8) else Used(bm, j)
  {
    hide UsedBit;
  }

  lemma SetBitChangesOne(bm: seq<bv8>, i: nat, j: nat)
    requires i < 8 * |bm| && j < 8 * |bm|
    ensures Used(SetBit(bm, i), j) <==> j == i || Used(bm, j)
  {
    hide UsedBit, Mask;
    var q, k, c := i / 8, i % 8, bm[i / 8];
    ReplaceByte(bm, q, c | Mask(k), j);
    ByteBits(c, k, j % 8);
    SamePlace(i, j);
  }

  lemma ClearBitChangesOne(bm: seq<bv8>, i: nat, j: nat)
    requires i < 8 * |bm| && j < 8 * |bm|
    ensures Used(ClearBit(bm, i), j) <==> j != i && Used(bm, j)
  {
    hide UsedBit, Mask;
    var q, k, c := i / 8, i % 8, bm[i / 8];
    ReplaceByte(bm, q, c & !Mask(k), j);
    ByteBits(c, k, j % 8);
    SamePlace(i, j);
  }

  // ---------------------------------------------------------------- ranges of bits

  /** The bitmap with `len` bits from `start` set one after the other (or cleared). */
  function Mark(bm: seq<bv8>, start: nat, len: nat, value: bool): (r: seq<bv8>)
    requires start + len <= 8 * |bm|
    ensures |r| == |bm|
    decreases len
  {
    if len == 0 then bm
    else
      var before := Mark(bm, start, len - 1, value);
      if value then SetBit(before, start + len - 1) else ClearBit(before, start + len - 1)
  }

  lemma {:induction false} MarkedBit(bm: seq<bv8>, start: nat, len: nat, value: bool, j: nat)
    requires start + len <= 8 * |bm| && j < 8 * |bm|
    ensures Used(Mark(bm, start, len, value), j) <==> if start <= j < start + len then value else Used(bm, j)
    decreases len
  {
    hide Used, SetBit, ClearBit;
    if len > 0 {
      MarkedBit(bm, start, len - 1, value, j);
      var before := Mark(bm, start, len - 1, value);
      SetBitChangesOne(before, start + len - 1, j);
      ClearBitChangesOne(before, start + len - 1, j);
    }
  }

  /** Bytes outside the range's first and last byte stay as they are. */
  lemma {:induction false} MarkedBytes(bm: seq<bv8>, start: nat, len: nat, value: bool, b: nat)
    requires start + len <= 8 * |bm| && b < |bm|
    requires len == 0 || b < start / 8 || (start + len - 1) / 8 < b
    ensures Mark(bm, start, len, value)[b] == bm[b]
    decreases len
  {
    if len > 0 {
      MarkedBytes(bm, start, len - 1, value, b);
    }
  }

  /** How many of the first n bits are clear. */
  function CountFree(bm: seq<bv8>, n: nat): (c: nat)
    requires n <= 8 * |bm|
    ensures c <= n
  {
    if n == 0 then 0 else CountFree(bm, n - 1) + if Used(bm, n - 1) then 0 else 1
  }

  predicate RangeIs(bm: seq<bv8>, start: nat, len: nat, value: bool)
    requires start + len <= 8 * |bm|
  {
    forall i :: start <= i < start + len ==> Used(bm, i) == value
  }

  /** Marking a range that is wholly on the other side moves the count by its length. */
  lemma {:induction false} CountMarked(bm: seq<bv8>, start: nat, len: nat, value: bool, n: nat)
    requires n <= 8 * |bm| && start + len <= 8 * |bm| && RangeIs(bm, start, len, !value)
    ensures var inside := if n <= start then 0 else if n < start + len then n - start else len;
            CountFree(Mark(bm, start, len, value), n) == CountFree(bm, n) + (if value then -inside else inside)
    decreases n
  {
    hide Mark, Used;
    if n > 0 {
      CountMarked(bm, start, len, value, n - 1);
      MarkedBit(bm, start, len, value, n - 1);
    }
  }

  lemma {:induction false} FullCount(bm: seq<bv8>, n: nat)
    requires n <= 8 * |bm|
    ensures CountFree(bm, n) == n <==> forall i :: 0 <= i < n ==> !Used(bm, i)
  {
    hide Used;
    if n > 0 {
      FullCount(bm, n - 1);
    }
  }

  lemma {:induction false} CountZero(bm: seq<bv8>, n: nat)
    requires n <= 8 * |bm|
    ensures CountFree(bm, n) == 0 <==> forall i :: 0 <= i < n ==> Used(bm, i)
  {
    hide Used;
    if n > 0 {
      CountZero(bm, n - 1);
    }
  }

  // ---------------------------------------------------------------- counting by halves of a byte

  /** The number of bits set in half a byte, from a table of sixteen. */
  function PopCount4(n: bv8): nat {
    if n == 0 then 0
    else if n == 1 || n == 2 || n == 4 || n == 8 then 1
    else if n == 3 || n == 5 || n == 6 || n == 9 || n == 10 || n == 12 then 2
    else if n == 7 || n == 11 || n == 13 || n == 14 then 3
    else 4
  }

  function Bit(c: bv8, k: nat): nat
    requires k < 8
  {
    if UsedBit(c, k) then 1 else 0
  }

  lemma LowHalf(c: bv8)
    ensures PopCount4(c & 0x0F) == Bit(c, 0) + Bit(c, 1) + Bit(c, 2) + Bit(c, 3)
  {
  }

  lemma HighHalf(c: bv8)
    ensures PopCount4((c >> 4) & 0x0F) == Bit(c, 4) + Bit(c, 5) + Bit(c, 6) + Bit(c, 7)
  {
  }

  /** A byte of the bitmap has as many free bits as its two halves leave. */
  lemma CountByte(bm: seq<bv8>, i: nat)
    requires i < |bm|
    ensures PopCount4(bm[i] & 0x0F) + PopCount4((bm[i] >> 4) & 0x0F) + CountFree(bm, 8 * i + 8)
            == CountFree(bm, 8 * i) + 8
  {
    hide *;
    LowHalf(bm[i]);
    HighHalf(bm[i]);
    CountNext(bm, i, 0);
    CountNext(bm, i, 1);
    CountNext(bm, i, 2);
    CountNext(bm, i, 3);
    CountNext(bm, i, 4);
    CountNext(bm, i, 5);
    CountNext(bm, i, 6);
    CountNext(bm, i, 7);
  }

  lemma CountNext(bm: seq<bv8>, i: nat, k: nat)
    requires i < |bm| && k < 8
    ensures CountFree(bm, 8 * i + k + 1) + Bit(bm[i], k) == CountFree(bm, 8 * i + k) + 1
  {
    hide UsedBit;
    assert (8 * i + k) / 8 == i && (8 * i + k) % 8 == k;
  }
}
