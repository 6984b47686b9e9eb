/** `hash` and `str_equals`: how the C hash map places and recognises a
    station name. */
module Hashing {
  import opened Bytes

  /** The number of buckets of the hash map (`MAX_STATIONS`). */
  const MAX_STATIONS: nat := 10000

  /** 2^32: `hash` accumulates in a `u32`. */
  const U32: nat := 0x1_0000_0000

  /** The rolling value `h = h * 31 + c` over the name, in `u32` arithmetic;
      each byte enters as a signed `char` converted to `u32`. */
  function Poly(s: seq<byte>): (h: nat)
    ensures h < U32
  {
    if s == [] then 0 else (Poly(s[..|s| - 1]) * 31 + Char(s[|s| - 1])) % U32
  }

  /** The bucket of a name: the rolling value modulo `MAX_STATIONS - 1`. */
  function HashOf(s: seq<byte>): nat
  {
    Poly(s) % (MAX_STATIONS - 1)
  }

  /** `hash(string, length)`. The result is always below `MAX_STATIONS - 1`,
      so it indexes the bucket array and bucket 9999 is never used. */
  method Hash(s: seq<byte>) returns (h: nat)
    ensures h == HashOf(s)
    ensures h < MAX_STATIONS - 1
  {
    var acc := 0;
    for i := 0 to |s|
      invariant acc == Poly(s[..i])
    {
      assert s[..i + 1][..i] == s[..i];
      acc := (acc * 31 + Char(s[i])) % U32;
    }
    assert s[..|s|] == s;
    h := acc % (MAX_STATIONS - 1);
  }

  /** The bytes of the two names agree at every offset from `i` up to, not
      including, `n`: what the loop of `str_equals` checks, one offset at a
      time. */
  predicate SameFrom(s1: seq<byte>, s2: seq<byte>, i: nat, n: nat)
    requires n <= |s1| && n <= |s2|
    decreases n - i
  {
    i >= n || (s1[i] == s2[i] && SameFrom(s1, s2, i + 1, n))
  }

  /** What `str_equals` decides: equal lengths and equal bytes except the
      last, which the loop `while (--length1)` never compares. */
  predicate StrEq(s1: seq<byte>, s2: seq<byte>)
  {
    |s1| == |s2| && (|s1| == 0 || SameFrom(s1, s2, 0, |s1| - 1))
  }

  /** `SameFrom` is equality of the two slices. */
  lemma {:induction false} SameFromSlices(s1: seq<byte>, s2: seq<byte>, i: nat, n: nat)
    requires i <= n <= |s1| && n <= |s2|
    ensures SameFrom(s1, s2, i, n) <==> s1[i..n] == s2[i..n]
    decreases n - i
  {
    if i < n {
      SameFromSlices(s1, s2, i + 1, n);
      assert s1[i..n] == [s1[i]] + s1[i + 1..n];
      assert s2[i..n] == [s2[i]] + s2[i + 1..n];
    }
  }

  /** Every name is `str_equals` to itself. */
  lemma StrEqReflexive(s: seq<byte>)
    ensures StrEq(s, s)
  {
    if |s| > 0 {
      SameFromSlices(s, s, 0, |s| - 1);
    }
  }

  /** `str_equals(s1, length1, s2, length2)`. Two names of length 0 are not
      allowed: `--length1` would start below zero and the loop would read
      past both names. */
  method StrEquals(s1: seq<byte>, s2: seq<byte>) returns (r: bool)
    requires |s1| != |s2| || |s1| >= 1
    ensures r <==> StrEq(s1, s2)
  {
    if |s1| != |s2| {
      return false;
    }
    var length1 := |s1| - 1;
    var i := 0;
    while length1 != 0
      invariant 0 <= length1 && i + length1 == |s1| - 1
      invariant SameFrom(s1, s2, 0, |s1| - 1) <==> SameFrom(s1, s2, i, |s1| - 1)
    {
      if s1[i] != s2[i] {
        return false;
      }
      i := i + 1;
      length1 := length1 - 1;
    }
    return true;
  }

  /** Two `u32` sums that differ only in one added signed `char` never fall
      into the same bucket unless the characters are equal. */
  lemma {:induction false} LastCharSeparates(g: int, c1: int, c2: int)
    requires -128 <= c1 < 128 && -128 <= c2 < 128
    requires (g + c1) % U32 % (MAX_STATIONS - 1) == (g + c2) % U32 % (MAX_STATIONS - 1)
    ensures c1 == c2
  {
    var u1, u2 := (g + c1) % U32, (g + c2) % U32;
    var q1, q2 := (g + c1) / U32, (g + c2) / U32;
    assert g + c1 == q1 * U32 + u1 && g + c2 == q2 * U32 + u2;
    assert -1 <= q1 - q2 <= 1;
    var e1, e2 := u1 / (MAX_STATIONS - 1), u2 / (MAX_STATIONS - 1);
    assert u1 - u2 == (e1 - e2) * (MAX_STATIONS - 1);
    assert c1 - c2 == (q1 - q2) * U32 + (e1 - e2) * (MAX_STATIONS - 1);
  }

  /** The last byte `str_equals` skips is never decisive inside one bucket:
      two names that it calls equal and that hash to the same bucket are the
      same name. */
  lemma StrEqSameBucket(s1: seq<byte>, s2: seq<byte>)
    requires |s1| >= 1
    requires StrEq(s1, s2)
    requires HashOf(s1) == HashOf(s2)
    ensures s1 == s2
  {
    var n := |s1| - 1;
    SameFromSlices(s1, s2, 0, n);
    assert s1[..n] == s1[0..n] && s2[..n] == s2[0..n];
    assert s1[..n] == s2[..n];
    LastCharSeparates(Poly(s1[..n]) * 31, Char(s1[n]), Char(s2[n]));
    assert s1[n] == s2[n] by {
      assert Char(s1[n]) % 0x100 == s1[n] as int;
    }
    assert s1 == s1[..n] + [s1[n]] && s2 == s2[..n] + [s2[n]];
  }
}
