/** `next_character`: the scalar byte scan the C worker uses to find the
    `;` that ends a station name and the newline that ends a record. */
module Scanner {
  import opened Bytes

  /** The first offset at or after `from` whose byte is `c` or the NUL that
      ends the mapped view. */
  function Scan(file: seq<byte>, from: nat, c: byte): (p: nat)
    ensures from <= p
    ensures At(file, p) == c || At(file, p) == NUL
    ensures forall k :: from <= k < p ==> At(file, k) != c && At(file, k) != NUL
    ensures p <= |file| || p == from
    decreases |file| - from
  {
    if At(file, from) == NUL || At(file, from) == c then from
    else Scan(file, from + 1, c)
  }

  /** Only one offset is the first occurrence: the conditions `Scan` ensures
      determine its result. */
  lemma ScanUnique(file: seq<byte>, from: nat, c: byte, p: nat)
    requires from <= p
    requires At(file, p) == c || At(file, p) == NUL
    requires forall k :: from <= k < p ==> At(file, k) != c && At(file, k) != NUL
    ensures p == Scan(file, from, c)
  {
  }

  /** `next_character(ptr, c)`: advance `ptr` while its byte is neither NUL
      nor `c`. */
  method NextCharacter(file: seq<byte>, ptr: nat, c: byte) returns (p: nat)
    ensures ptr <= p
    ensures At(file, p) == c || At(file, p) == NUL
    ensures forall k :: ptr <= k < p ==> At(file, k) != c && At(file, k) != NUL
    ensures p == Scan(file, ptr, c)
  {
    p := ptr;
    while At(file, p) != NUL && At(file, p) != c
      invariant ptr <= p
      invariant forall k :: ptr <= k < p ==> At(file, k) != c && At(file, k) != NUL
      decreases |file| - p
    {
      p := p + 1;
    }
    ScanUnique(file, ptr, c, p);
  }
}
