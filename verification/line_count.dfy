/** The line counter of the Java program: it reads the mapped file eight
    bytes at a time, marks the bytes equal to a newline with a borrow trick
    (one high bit per flagged byte) and adds up the marks with
    `countSetBits`. */
module LineCount {
  import opened Bytes
  // Imported under another name: the module shares its name with its
  // function `Popcount`, which the calls below mean.
  import opened Bits = Popcount


  /** `0x0A` in every byte. */
  const NEWLINES: bv64 := 0x0A0A_0A0A_0A0A_0A0A
  /** `0x01` in every byte. */
  const ONES: bv64 := 0x0101_0101_0101_0101
  /** The high bit of every byte. */
  const HIGH_BITS: bv64 := 0x8080_8080_8080_8080

  /** Java's `l >>= 4` on a `long`: a shift that copies the sign bit into the
      four vacated top bits (`0 - sign` is all ones for a negative `l`). */
  function Asr4(x: bv64): (r: bv64)
    ensures x & 0x8000_0000_0000_0000 == 0 ==> r == x >> 4
    ensures x & 0x8000_0000_0000_0000 != 0 ==> r == (x >> 4) | 0xF000_0000_0000_0000
  {
    (x >> 4) | ((0 - (x >> 63)) << 60)
  }

  /** The low `n` nibbles of the mask `m` are all ones. */
  ghost predicate KeepsNibbles(m: bv64, n: nat)
  {
    n == 0 || (m & 0xF == 0xF && KeepsNibbles(m >> 4, n - 1))
  }

  /** The full mask keeps all sixteen nibbles. */
  lemma AllNibblesKept()
    ensures KeepsNibbles(0xFFFF_FFFF_FFFF_FFFF, 16)
  {
    assert KeepsNibbles(0x0, 0);
    assert KeepsNibbles(0xF, 1);
    assert KeepsNibbles(0xFF, 2);
    assert KeepsNibbles(0xFFF, 3);
    assert KeepsNibbles(0xFFFF, 4);
    assert KeepsNibbles(0xF_FFFF, 5);
    assert KeepsNibbles(0xFF_FFFF, 6);
    assert KeepsNibbles(0xFFF_FFFF, 7);
    assert KeepsNibbles(0xFFFF_FFFF, 8);
    assert KeepsNibbles(0xF_FFFF_FFFF, 9);
    assert KeepsNibbles(0xFF_FFFF_FFFF, 10);
    assert KeepsNibbles(0xFFF_FFFF_FFFF, 11);
    assert KeepsNibbles(0xFFFF_FFFF_FFFF, 12);
    assert KeepsNibbles(0xF_FFFF_FFFF_FFFF, 13);
    assert KeepsNibbles(0xFF_FFFF_FFFF_FFFF, 14);
    assert KeepsNibbles(0xFFF_FFFF_FFFF_FFFF, 15);
  }

  /** Where a word agrees with another under a mask that keeps the low
      nibble, the two have the same low nibble, and the arithmetic shift of
      the one agrees with the logical shift of the other under the shifted
      mask: the sign copies land only in the top nibble, which the shifted
      mask drops. */
  lemma AsrAgrees(w: bv64, lw: bv64, m: bv64)
    requires w & m == lw && m & 0xF == 0xF
    ensures w & 0xF == lw & 0xF
    ensures Asr4(w) & (m >> 4) == lw >> 4
  {
  }

  /** One step of `countSetBits` keeps the agreement between the Java word
      `w` and its logical twin `lw`, and the count so far plus what the twin
      has left to count is the count of the whole word. */
  lemma CountStep(l: bv64, w: bv64, lw: bv64, m: bv64, count: int, i: nat)
    requires i < 16 && w & m == lw && KeepsNibbles(m, 16 - i)
    requires count + BitCount(lw, 64 - 4 * i) == Popcount(l)
    ensures Asr4(w) & (m >> 4) == lw >> 4 && KeepsNibbles(m >> 4, 16 - (i + 1))
    ensures count + BitsTable[(w & 0xF) as int] + BitCount(lw >> 4, 64 - 4 * (i + 1)) == Popcount(l)
  {
    AsrAgrees(w, lw, m);
    NibbleStep(lw, 60 - 4 * i);
  }

  /** `countSetBits(long l)`: sixteen table lookups on the low nibble of `l`,
      shifting `l` arithmetically by four each time. The copies of the sign
      bit never reach the low nibble within sixteen steps, so the count is
      the number of one bits of the 64-bit pattern, as in the C program. */
  method CountSetBitsJava(l: bv64) returns (count: int)
    ensures count == Popcount(l)
    ensures 0 <= count <= 64
  {
    count := 0;
    var w := l;
    ghost var lw, m: bv64 := l, 0xFFFF_FFFF_FFFF_FFFF;
    AllNibblesKept();
    for i := 0 to 16
      invariant w & m == lw
      invariant KeepsNibbles(m, 16 - i)
      invariant count + BitCount(lw, 64 - 4 * i) == Popcount(l)
    {
      CountStep(l, w, lw, m, count, i);
      var value := w & 0xF;
      count := count + BitsTable[value as int];
      w := Asr4(w);
      lw, m := lw >> 4, m >> 4;
    }
  }

  /** `hasNewLine`: the borrow trick on `l ^ 0x0A0A..0A`, keeping only the
      high bit of each byte and only the bytes whose own high bit is clear. */
  function HasNewLine(l: bv64): (r: bv64)
    ensures r & !HIGH_BITS == 0
  {
    ((l ^ NEWLINES) - ONES) & !l & HIGH_BITS
  }

  /** No newline is missed: each byte (0 the lowest) equal to `0x0A` has
      its high bit set in `hasNewLine`, whatever borrow reaches it from the
      bytes below. */
  lemma NewlineFlagged(l: bv64)
    ensures l & 0xFF == 0x0A ==> HasNewLine(l) & 0x80 != 0
    ensures l & 0xFF00 == 0x0A00 ==> HasNewLine(l) & 0x8000 != 0
    ensures l & 0xFF_0000 == 0x0A_0000 ==> HasNewLine(l) & 0x80_0000 != 0
    ensures l & 0xFF00_0000 == 0x0A00_0000 ==> HasNewLine(l) & 0x8000_0000 != 0
    ensures l & 0xFF_0000_0000 == 0x0A_0000_0000 ==> HasNewLine(l) & 0x80_0000_0000 != 0
    ensures l & 0xFF00_0000_0000 == 0x0A00_0000_0000 ==> HasNewLine(l) & 0x8000_0000_0000 != 0
    ensures l & 0xFF_0000_0000_0000 == 0x0A_0000_0000_0000 ==> HasNewLine(l) & 0x80_0000_0000_0000 != 0
    ensures l & 0xFF00_0000_0000_0000 == 0x0A00_0000_0000_0000 ==> HasNewLine(l) & 0x8000_0000_0000_0000 != 0
  {
  }

  /** A zero byte is never flagged: the zero bytes that pad the last word
      past the end of the file add no line. */
  lemma ZeroNotFlagged(l: bv64)
    ensures l & 0xFF == 0 ==> HasNewLine(l) & 0x80 == 0
    ensures l & 0xFF00 == 0 ==> HasNewLine(l) & 0x8000 == 0
    ensures l & 0xFF_0000 == 0 ==> HasNewLine(l) & 0x80_0000 == 0
    ensures l & 0xFF00_0000 == 0 ==> HasNewLine(l) & 0x8000_0000 == 0
    ensures l & 0xFF_0000_0000 == 0 ==> HasNewLine(l) & 0x80_0000_0000 == 0
    ensures l & 0xFF00_0000_0000 == 0 ==> HasNewLine(l) & 0x8000_0000_0000 == 0
    ensures l & 0xFF_0000_0000_0000 == 0 ==> HasNewLine(l) & 0x80_0000_0000_0000 == 0
    ensures l & 0xFF00_0000_0000_0000 == 0 ==> HasNewLine(l) & 0x8000_0000_0000_0000 == 0
  {
  }

  /** The trick is not exact: the borrow out of a newline byte also flags a
      `0x0B` byte right above it, so that word counts two lines for one
      newline. */
  lemma VerticalTabAfterNewline()
    ensures HasNewLine(0x0B0A) == 0x8080
  {
  }

  /** Counting eight bits at a time: when the low seven bits are clear, the
      first byte contributes just its high bit. */
  lemma ByteStep(x: bv64, k: nat)
    requires x & 0x7F == 0
    ensures BitCount(x, k + 8) == Low(x >> 7) + BitCount(x >> 8, k)
  {
    assert Low(x) == 0 && Low(x >> 1) == 0 && Low(x >> 1 >> 1) == 0 && Low(x >> 1 >> 1 >> 1) == 0;
    assert Low(x >> 1 >> 1 >> 1 >> 1) == 0 && Low(x >> 1 >> 1 >> 1 >> 1 >> 1) == 0;
    assert Low(x >> 1 >> 1 >> 1 >> 1 >> 1 >> 1) == 0;
    assert x >> 1 >> 1 >> 1 >> 1 >> 1 >> 1 >> 1 == x >> 7;
    assert x >> 7 >> 1 == x >> 8;
    calc {
      BitCount(x, k + 8);
      BitCount(x >> 1, k + 7);
      BitCount(x >> 1 >> 1, k + 6);
      BitCount(x >> 1 >> 1 >> 1, k + 5);
      BitCount(x >> 1 >> 1 >> 1 >> 1, k + 4);
      BitCount(x >> 1 >> 1 >> 1 >> 1 >> 1, k + 3);
      BitCount(x >> 1 >> 1 >> 1 >> 1 >> 1 >> 1, k + 2);
      BitCount(x >> 7, k + 1);
    }
  }

  /** 1 when the word has one of the bits of `f` set, else 0. */
  function Flag(x: bv64, f: bv64): nat
  {
    if x & f != 0 then 1 else 0
  }

  /** The number of the low `n` bytes of `x` whose high bit is set. */
  ghost function ByteFlags(x: bv64, n: nat): (r: nat)
    ensures r <= n
  {
    if n == 0 then 0 else Flag(x, 0x80) + ByteFlags(x >> 8, n - 1)
  }

  /** Bit 7 as the lowest bit after a shift by seven. */
  lemma HighBitLow(x: bv64)
    ensures Low(x >> 7) == Flag(x, 0x80)
  {
  }

  /** A word with one bits only in byte high bits has as many one bits as
      bytes with the high bit set. */
  lemma {:induction false} HighBitsCount(x: bv64, n: nat)
    requires x & !HIGH_BITS == 0
    ensures BitCount(x, 8 * n) == ByteFlags(x, n)
  {
    if n > 0 {
      ByteStep(x, 8 * (n - 1));
      HighBitLow(x);
      assert (x >> 8) & !HIGH_BITS == 0;
      HighBitsCount(x >> 8, n - 1);
    }
  }

  /** One word adds at most eight lines. */
  lemma AtMostEight(l: bv64)
    ensures Popcount(HasNewLine(l)) <= 8
  {
    HighBitsCount(HasNewLine(l), 8);
  }

  /** The high bit of byte `k` of a word is the high bit of byte 0 after `k`
      shifts by a byte. */
  lemma FlagShifts(x: bv64)
    ensures Flag(x >> 8, 0x80) == Flag(x, 0x8000)
    ensures Flag(x >> 8 >> 8, 0x80) == Flag(x, 0x80_0000)
    ensures Flag(x >> 8 >> 8 >> 8, 0x80) == Flag(x, 0x8000_0000)
    ensures Flag(x >> 8 >> 8 >> 8 >> 8, 0x80) == Flag(x, 0x80_0000_0000)
    ensures Flag(x >> 8 >> 8 >> 8 >> 8 >> 8, 0x80) == Flag(x, 0x8000_0000_0000)
    ensures Flag(x >> 8 >> 8 >> 8 >> 8 >> 8 >> 8, 0x80) == Flag(x, 0x80_0000_0000_0000)
    ensures Flag(x >> 8 >> 8 >> 8 >> 8 >> 8 >> 8 >> 8, 0x80) == Flag(x, 0x8000_0000_0000_0000)
  {
  }

  /** One byte of `ByteFlags`. */
  lemma ByteFlagsStep(x: bv64, n: nat)
    requires n > 0
    ensures ByteFlags(x, n) == Flag(x, 0x80) + ByteFlags(x >> 8, n - 1)
  {
  }

  /** The flagged bytes of a word, byte by byte. */
  lemma ByteFlagsOfWord(x: bv64)
    ensures ByteFlags(x, 8) == Flag(x, 0x80) + Flag(x >> 8, 0x80) + Flag(x >> 8 >> 8, 0x80)
      + Flag(x >> 8 >> 8 >> 8, 0x80) + Flag(x >> 8 >> 8 >> 8 >> 8, 0x80) + Flag(x >> 8 >> 8 >> 8 >> 8 >> 8, 0x80)
      + Flag(x >> 8 >> 8 >> 8 >> 8 >> 8 >> 8, 0x80) + Flag(x >> 8 >> 8 >> 8 >> 8 >> 8 >> 8 >> 8, 0x80)
  {
    ByteFlagsStep(x, 8);
    ByteFlagsStep(x >> 8, 7);
    ByteFlagsStep(x >> 8 >> 8, 6);
    ByteFlagsStep(x >> 8 >> 8 >> 8, 5);
    ByteFlagsStep(x >> 8 >> 8 >> 8 >> 8, 4);
    ByteFlagsStep(x >> 8 >> 8 >> 8 >> 8 >> 8, 3);
    ByteFlagsStep(x >> 8 >> 8 >> 8 >> 8 >> 8 >> 8, 2);
    ByteFlagsStep(x >> 8 >> 8 >> 8 >> 8 >> 8 >> 8 >> 8, 1);
  }

  /** Eight bytes as one word, the first one lowest (the little-endian order
      of the machines the program targets). */
  function Pack(b0: bv8, b1: bv8, b2: bv8, b3: bv8, b4: bv8, b5: bv8, b6: bv8, b7: bv8): bv64
  {
    (b0 as bv64) | ((b1 as bv64) << 8) | ((b2 as bv64) << 16) | ((b3 as bv64) << 24)
    | ((b4 as bv64) << 32) | ((b5 as bv64) << 40) | ((b6 as bv64) << 48) | ((b7 as bv64) << 56)
  }

  /** Byte `k` of the packed word is the `k`-th of the eight bytes. */
  lemma PackBytes(b0: bv8, b1: bv8, b2: bv8, b3: bv8, b4: bv8, b5: bv8, b6: bv8, b7: bv8)
    ensures Pack(b0, b1, b2, b3, b4, b5, b6, b7) & 0xFF == b0 as bv64
    ensures Pack(b0, b1, b2, b3, b4, b5, b6, b7) & 0xFF00 == (b1 as bv64) << 8
    ensures Pack(b0, b1, b2, b3, b4, b5, b6, b7) & 0xFF_0000 == (b2 as bv64) << 16
    ensures Pack(b0, b1, b2, b3, b4, b5, b6, b7) & 0xFF00_0000 == (b3 as bv64) << 24
    ensures Pack(b0, b1, b2, b3, b4, b5, b6, b7) & 0xFF_0000_0000 == (b4 as bv64) << 32
    ensures Pack(b0, b1, b2, b3, b4, b5, b6, b7) & 0xFF00_0000_0000 == (b5 as bv64) << 40
    ensures Pack(b0, b1, b2, b3, b4, b5, b6, b7) & 0xFF_0000_0000_0000 == (b6 as bv64) << 48
    ensures Pack(b0, b1, b2, b3, b4, b5, b6, b7) & 0xFF00_0000_0000_0000 == (b7 as bv64) << 56
  {
  }

  /** `unsafe.getLong(address)`: the word made of the eight bytes at `a`,
      byte `k` of the word being the byte at `a + k`. */
  function Word(mem: seq<byte>, a: nat): (w: bv64)
    requires a + 8 <= |mem|
    ensures w & 0xFF == mem[a] as bv8 as bv64
    ensures w & 0xFF00 == (mem[a + 1] as bv8 as bv64) << 8
    ensures w & 0xFF_0000 == (mem[a + 2] as bv8 as bv64) << 16
    ensures w & 0xFF00_0000 == (mem[a + 3] as bv8 as bv64) << 24
    ensures w & 0xFF_0000_0000 == (mem[a + 4] as bv8 as bv64) << 32
    ensures w & 0xFF00_0000_0000 == (mem[a + 5] as bv8 as bv64) << 40
    ensures w & 0xFF_0000_0000_0000 == (mem[a + 6] as bv8 as bv64) << 48
    ensures w & 0xFF00_0000_0000_0000 == (mem[a + 7] as bv8 as bv64) << 56
  {
    PackBytes(mem[a] as bv8, mem[a + 1] as bv8, mem[a + 2] as bv8, mem[a + 3] as bv8,
              mem[a + 4] as bv8, mem[a + 5] as bv8, mem[a + 6] as bv8, mem[a + 7] as bv8);
    Pack(mem[a] as bv8, mem[a + 1] as bv8, mem[a + 2] as bv8, mem[a + 3] as bv8,
         mem[a + 4] as bv8, mem[a + 5] as bv8, mem[a + 6] as bv8, mem[a + 7] as bv8)
  }

  /** A newline among eight bytes is flagged in the word they pack into. */
  lemma PackedNewlineFlagged(b0: bv8, b1: bv8, b2: bv8, b3: bv8, b4: bv8, b5: bv8, b6: bv8, b7: bv8)
    ensures b0 == 0x0A ==> HasNewLine(Pack(b0, b1, b2, b3, b4, b5, b6, b7)) & 0x80 != 0
    ensures b1 == 0x0A ==> HasNewLine(Pack(b0, b1, b2, b3, b4, b5, b6, b7)) & 0x8000 != 0
    ensures b2 == 0x0A ==> HasNewLine(Pack(b0, b1, b2, b3, b4, b5, b6, b7)) & 0x80_0000 != 0
    ensures b3 == 0x0A ==> HasNewLine(Pack(b0, b1, b2, b3, b4, b5, b6, b7)) & 0x8000_0000 != 0
    ensures b4 == 0x0A ==> HasNewLine(Pack(b0, b1, b2, b3, b4, b5, b6, b7)) & 0x80_0000_0000 != 0
    ensures b5 == 0x0A ==> HasNewLine(Pack(b0, b1, b2, b3, b4, b5, b6, b7)) & 0x8000_0000_0000 != 0
    ensures b6 == 0x0A ==> HasNewLine(Pack(b0, b1, b2, b3, b4, b5, b6, b7)) & 0x80_0000_0000_0000 != 0
    ensures b7 == 0x0A ==> HasNewLine(Pack(b0, b1, b2, b3, b4, b5, b6, b7)) & 0x8000_0000_0000_0000 != 0
  {
    PackBytes(b0, b1, b2, b3, b4, b5, b6, b7);
    NewlineFlagged(Pack(b0, b1, b2, b3, b4, b5, b6, b7));
  }

  /** The newline byte is `0x0A` as a bit-vector. */
  lemma NewlineOctet(b: byte)
    ensures b == NEWLINE ==> b as bv8 == 0x0A
  {
  }

  /** Every newline byte of the file is flagged in the word that holds it:
      the byte at `a + k` owns the high bit of byte `k` of the word. */
  lemma NewlineInWordFlagged(mem: seq<byte>, a: nat)
    requires a + 8 <= |mem|
    ensures mem[a] == NEWLINE ==> HasNewLine(Word(mem, a)) & 0x80 != 0
    ensures mem[a + 1] == NEWLINE ==> HasNewLine(Word(mem, a)) & 0x8000 != 0
    ensures mem[a + 2] == NEWLINE ==> HasNewLine(Word(mem, a)) & 0x80_0000 != 0
    ensures mem[a + 3] == NEWLINE ==> HasNewLine(Word(mem, a)) & 0x8000_0000 != 0
    ensures mem[a + 4] == NEWLINE ==> HasNewLine(Word(mem, a)) & 0x80_0000_0000 != 0
    ensures mem[a + 5] == NEWLINE ==> HasNewLine(Word(mem, a)) & 0x8000_0000_0000 != 0
    ensures mem[a + 6] == NEWLINE ==> HasNewLine(Word(mem, a)) & 0x80_0000_0000_0000 != 0
    ensures mem[a + 7] == NEWLINE ==> HasNewLine(Word(mem, a)) & 0x8000_0000_0000_0000 != 0
  {
    NewlineOctet(mem[a]);
    NewlineOctet(mem[a + 1]);
    NewlineOctet(mem[a + 2]);
    NewlineOctet(mem[a + 3]);
    NewlineOctet(mem[a + 4]);
    NewlineOctet(mem[a + 5]);
    NewlineOctet(mem[a + 6]);
    NewlineOctet(mem[a + 7]);
    PackedNewlineFlagged(mem[a] as bv8, mem[a + 1] as bv8, mem[a + 2] as bv8, mem[a + 3] as bv8,
                         mem[a + 4] as bv8, mem[a + 5] as bv8, mem[a + 6] as bv8, mem[a + 7] as bv8);
  }

  /** 1 for a newline byte, else 0. */
  function IsNewline(b: byte): nat
  {
    if b == NEWLINE then 1 else 0
  }

  /** The number of newline bytes at offsets `lo` to `hi - 1`. */
  ghost function NewlineCount(mem: seq<byte>, lo: nat, hi: nat): (r: nat)
    requires lo <= hi <= |mem|
    ensures r <= hi - lo
    decreases hi - lo
  {
    if lo == hi then 0 else NewlineCount(mem, lo, hi - 1) + IsNewline(mem[hi - 1])
  }

  /** The newline bytes of eight consecutive bytes, one by one. */
  lemma NewlinesOfWord(mem: seq<byte>, a: nat)
    requires a + 8 <= |mem|
    ensures NewlineCount(mem, a, a + 8) == IsNewline(mem[a]) + IsNewline(mem[a + 1]) + IsNewline(mem[a + 2])
      + IsNewline(mem[a + 3]) + IsNewline(mem[a + 4]) + IsNewline(mem[a + 5]) + IsNewline(mem[a + 6])
      + IsNewline(mem[a + 7])
  {
    assert NewlineCount(mem, a, a) == 0;
    assert NewlineCount(mem, a, a + 1) == IsNewline(mem[a]);
    assert NewlineCount(mem, a, a + 2) == NewlineCount(mem, a, a + 1) + IsNewline(mem[a + 1]);
    assert NewlineCount(mem, a, a + 3) == NewlineCount(mem, a, a + 2) + IsNewline(mem[a + 2]);
    assert NewlineCount(mem, a, a + 4) == NewlineCount(mem, a, a + 3) + IsNewline(mem[a + 3]);
    assert NewlineCount(mem, a, a + 5) == NewlineCount(mem, a, a + 4) + IsNewline(mem[a + 4]);
    assert NewlineCount(mem, a, a + 6) == NewlineCount(mem, a, a + 5) + IsNewline(mem[a + 5]);
    assert NewlineCount(mem, a, a + 7) == NewlineCount(mem, a, a + 6) + IsNewline(mem[a + 6]);
  }

  /** Each newline byte of the eight read at `a` owns a flagged byte of the
      mask. */
  lemma FlaggedBytes(mem: seq<byte>, a: nat, h: bv64)
    requires a + 8 <= |mem| && h == HasNewLine(Word(mem, a))
    ensures IsNewline(mem[a]) <= Flag(h, 0x80)
    ensures IsNewline(mem[a + 1]) <= Flag(h >> 8, 0x80)
    ensures IsNewline(mem[a + 2]) <= Flag(h >> 8 >> 8, 0x80)
    ensures IsNewline(mem[a + 3]) <= Flag(h >> 8 >> 8 >> 8, 0x80)
    ensures IsNewline(mem[a + 4]) <= Flag(h >> 8 >> 8 >> 8 >> 8, 0x80)
    ensures IsNewline(mem[a + 5]) <= Flag(h >> 8 >> 8 >> 8 >> 8 >> 8, 0x80)
    ensures IsNewline(mem[a + 6]) <= Flag(h >> 8 >> 8 >> 8 >> 8 >> 8 >> 8, 0x80)
    ensures IsNewline(mem[a + 7]) <= Flag(h >> 8 >> 8 >> 8 >> 8 >> 8 >> 8 >> 8, 0x80)
  {
    NewlineInWordFlagged(mem, a);
    FlagShifts(h);
  }

  /** A word adds at least as many lines as it holds newline bytes. */
  lemma WordNewlines(mem: seq<byte>, a: nat)
    requires a + 8 <= |mem|
    ensures NewlineCount(mem, a, a + 8) <= Popcount(HasNewLine(Word(mem, a)))
  {
    var h := HasNewLine(Word(mem, a));
    HighBitsCount(h, 8);
    ByteFlagsOfWord(h);
    NewlinesOfWord(mem, a);
    FlaggedBytes(mem, a, h);
  }

  /** Counting newlines over two adjacent ranges adds up. */
  lemma {:induction false} NewlineCountSplit(mem: seq<byte>, lo: nat, mid: nat, hi: nat)
    requires lo <= mid <= hi <= |mem|
    ensures NewlineCount(mem, lo, hi) == NewlineCount(mem, lo, mid) + NewlineCount(mem, mid, hi)
    decreases hi - mid
  {
    if mid < hi {
      NewlineCountSplit(mem, lo, mid, hi - 1);
    }
  }

  /** The count is the size of the set of newline offsets. */
  lemma {:induction false} NewlineCountCard(mem: seq<byte>, hi: nat)
    requires hi <= |mem|
    ensures NewlineCount(mem, 0, hi) == |set k | 0 <= k < hi && mem[k] == NEWLINE|
  {
    if hi > 0 {
      NewlineCountCard(mem, hi - 1);
      var before := set k | 0 <= k < hi - 1 && mem[k] == NEWLINE;
      var after := set k | 0 <= k < hi && mem[k] == NEWLINE;
      if mem[hi - 1] == NEWLINE {
        assert after == before + {hi - 1};
      } else {
        assert after == before;
      }
    }
  }

  /** The first `n` words count at least the newline bytes they hold. */
  lemma {:induction false} LinesAtLeast(mem: seq<byte>, n: nat)
    requires 8 * n <= |mem|
    ensures NewlineCount(mem, 0, 8 * n) <= LinesIn(mem, n)
  {
    if n > 0 {
      LinesAtLeast(mem, n - 1);
      NewlineCountSplit(mem, 0, 8 * (n - 1), 8 * n);
      WordNewlines(mem, 8 * (n - 1));
    }
  }

  /** The words read for a file count at least its newline bytes, and at
      most seven more flags than it has bytes. */
  lemma NewlinesCounted(mem: seq<byte>, fileSize: nat)
    requires 8 * Words(fileSize) <= |mem|
    ensures |set k | 0 <= k < fileSize && mem[k] == NEWLINE| <= LinesIn(mem, Words(fileSize)) <= fileSize + 7
  {
    var n := Words(fileSize);
    WordsBounds(fileSize);
    LinesAtLeast(mem, n);
    NewlineCountSplit(mem, 0, fileSize, 8 * n);
    NewlineCountCard(mem, fileSize);
  }

  /** The lines counted in the first `n` words of `mem`. */
  ghost function LinesIn(mem: seq<byte>, n: nat): (r: nat)
    requires 8 * n <= |mem|
    ensures r <= 8 * n
  {
    if n == 0 then 0
    else
      var l := Word(mem, 8 * (n - 1));
      AtMostEight(l);
      LinesIn(mem, n - 1) + Popcount(HasNewLine(l))
  }

  /** One more word adds its flag count. */
  lemma LinesInStep(mem: seq<byte>, n: nat)
    requires 8 * (n + 1) <= |mem|
    ensures LinesIn(mem, n + 1) == LinesIn(mem, n) + Popcount(HasNewLine(Word(mem, 8 * n)))
  {
  }

  /** The number of words the loop reads for a file of `size` bytes: the
      last one may run up to seven bytes past the end. */
  function Words(size: nat): nat
  {
    (size + 7) / 8
  }

  /** The words cover the file and end less than a word past it. */
  lemma WordsBounds(size: nat)
    ensures size <= 8 * Words(size) < size + 8
  {
  }

  /** The counting loop of `main`: while `address` is below the end of
      the file, read the word at `address`, step eight bytes and add the
      number of flagged bytes of the word. `mem` is the memory from the
      start of the mapping; the loop reads all of the last word, so `mem`
      must hold `Words(fileSize)` whole words. */
  method CountLines(mem: seq<byte>, fileSize: nat) returns (lines: int)
    requires 8 * Words(fileSize) <= |mem|
    ensures lines == LinesIn(mem, Words(fileSize))
    ensures 0 <= lines <= fileSize + 7
    ensures lines >= |set k | 0 <= k < fileSize && mem[k] == NEWLINE|
  {
    lines := 0;
    var address := 0;
    ghost var words: nat := 0;
    ghost var total := Words(fileSize);
    WordsBounds(fileSize);
    while address < fileSize
      invariant address == 8 * words && words <= total
      invariant words == 0 || 8 * (words - 1) < fileSize
      invariant lines == LinesIn(mem, words)
      decreases fileSize - address
    {
      var l := Word(mem, address);
      address := address + 8;
      var hasNewLine := HasNewLine(l);
      var count := CountSetBitsJava(hasNewLine);
      lines := lines + count;
      LinesInStep(mem, words);
      words := words + 1;
    }
    assert words == total;
    NewlinesCounted(mem, fileSize);
  }
}
