/** Population count by a table of nibble counts, shared by the C and the Java
    programs (`BITS_TABLE` and `count_set_bits` / `countSetBits`). */
module Popcount {

  /** The number of one bits in each nibble value 0..15. */
  const BitsTable: seq<int> := [0, 1, 1, 2, 1, 2, 2, 3, 1, 2, 2, 3, 2, 3, 3, 4]

  /** The lowest bit of `x`, as 0 or 1. */
  function Low(x: bv64): nat
  {
    if x & 1 == 1 then 1 else 0
  }

  /** The number of one bits among the lowest `k` bits of `x`. */
  function BitCount(x: bv64, k: nat): (n: nat)
    ensures n <= k
  {
    if k == 0 then 0 else Low(x) + BitCount(x >> 1, k - 1)
  }

  /** The number of one bits of a 64-bit word. */
  function Popcount(x: bv64): nat
  {
    BitCount(x, 64)
  }

  /** No bit of zero is set. */
  lemma {:induction false} BitCountZero(k: nat)
    ensures BitCount(0, k) == 0
  {
    if k > 0 {
      assert (0 as bv64) >> 1 == 0;
      BitCountZero(k - 1);
    }
  }

  /** The population count of zero is zero: `countSetBits(0) == 0`. */
  lemma PopcountZero()
    ensures Popcount(0) == 0
  {
    BitCountZero(64);
  }

  /** Each entry of the table is the sum of the four bits of its index. */
  lemma TableSum(v: bv64)
    requires v < 16
    ensures BitsTable[v as int] == Low(v) + Low(v >> 1) + Low(v >> 2) + Low(v >> 3)
  {
    if v == 0 {} else if v == 1 {} else if v == 2 {} else if v == 3 {}
    else if v == 4 {} else if v == 5 {} else if v == 6 {} else if v == 7 {}
    else if v == 8 {} else if v == 9 {} else if v == 10 {} else if v == 11 {}
    else if v == 12 {} else if v == 13 {} else if v == 14 {} else {}
  }

  /** Counting the low nibble by the table and the rest of the word after a
      four-bit shift counts the whole word. */
  lemma NibbleStep(w: bv64, k: nat)
    ensures BitCount(w, k + 4) == BitsTable[(w & 0xF) as int] + BitCount(w >> 4, k)
  {
    var v := w & 0xF;
    TableSum(v);
    assert Low(v) == Low(w) && Low(v >> 1) == Low(w >> 1);
    assert Low(v >> 2) == Low(w >> 1 >> 1) && Low(v >> 3) == Low(w >> 1 >> 1 >> 1);
    assert w >> 1 >> 1 >> 1 >> 1 == w >> 4;
    calc {
      BitCount(w, k + 4);
      Low(w) + BitCount(w >> 1, k + 3);
      Low(w) + Low(w >> 1) + BitCount(w >> 1 >> 1, k + 2);
      Low(w) + Low(w >> 1) + Low(w >> 1 >> 1) + BitCount(w >> 1 >> 1 >> 1, k + 1);
      Low(w) + Low(w >> 1) + Low(w >> 1 >> 1) + Low(w >> 1 >> 1 >> 1) + BitCount(w >> 1 >> 1 >> 1 >> 1, k);
    }
  }

  /** `BITS_TABLE[v]` is the number of one bits of `v`, for every nibble `v`. */
  lemma BitsTableCounts(v: bv64)
    requires v < 16
    ensures BitsTable[v as int] == Popcount(v)
  {
    NibbleStep(v, 60);
    assert v & 0xF == v && v >> 4 == 0;
    BitCountZero(60);
  }

  /** `count_set_bits` of the C program: sixteen table lookups on the low
      nibble of `l`, shifting `l` (a `u64`, so logically) right by four each
      time. */
  method CountSetBits(l: bv64) returns (count: int)
    ensures count == Popcount(l)
    ensures 0 <= count <= 64
  {
    count := 0;
    var w := l;
    for i := 0 to 16
      invariant count + BitCount(w, 64 - 4 * i) == Popcount(l)
    {
      var value := w & 0xF;
      NibbleStep(w, 64 - 4 * i - 4);
      count := count + BitsTable[value as int];
      w := w >> 4;
    }
  }
}
