/** The temperature parser inside the C worker loop: a value `-?d.d` or
    `-?dd.d` read at fixed offsets into tenths of a degree. */
module FixedPoint {
  import opened Bytes

  /** The decimal digit a byte stands for, computed as C does: the byte as a
      signed `char` minus `'0'`. Non-digit bytes give values outside 0..9. */
  function Digit(b: byte): (d: int)
    ensures -176 <= d <= 79
    ensures ZERO <= b <= ZERO + 9 ==> d == (b - ZERO) as int
  {
    Char(b) - Char(ZERO)
  }

  /** The value parsed from the bytes at offset `at`, in tenths. The sign is
      taken from a leading `-`; the decimal point is looked for first at
      offset 1 and then at offset 2 after the sign; with neither, the value
      is 0. The arithmetic is done in `int` and the result is stored in an
      `s16`, which every outcome fits, so no truncation occurs. */
  function ParseValue(file: seq<byte>, at: nat): (r: Int16)
    ensures -19536 <= r as int <= 19536
    ensures var p := if At(file, at) == MINUS then at + 1 else at;
      At(file, p + 1) != DOT && At(file, p + 2) != DOT ==> r == 0
  {
    var negative := At(file, at) == MINUS;
    var p := if negative then at + 1 else at;
    var value :=
      if At(file, p + 1) == DOT then
        Digit(At(file, p)) * 10 + Digit(At(file, p + 2))
      else if At(file, p + 2) == DOT then
        Digit(At(file, p)) * 100 + Digit(At(file, p + 1)) * 10 + Digit(At(file, p + 3))
      else 0;
    (if negative then -value else value) as Int16
  }

  /** The byte of a decimal digit. */
  function DigitByte(d: nat): (b: byte)
    requires d < 10
    ensures ZERO <= b <= ZERO + 9 && Digit(b) == d
  {
    ZERO + d as byte
  }

  /** The text of a value in tenths as it appears in the measurements file:
      an optional `-`, one or two integer digits, `.`, one fractional digit. */
  function Render(v: int): (s: seq<byte>)
    requires -999 <= v <= 999
    ensures 3 <= |s| <= 5
    ensures s[0] == MINUS <==> v < 0
    ensures s[|s| - 2] == DOT
    ensures forall k :: 0 <= k < |s| && k != |s| - 2 && (k > 0 || v >= 0) ==> ZERO <= s[k] <= ZERO + 9
  {
    var a := if v < 0 then -v else v;
    var sign := if v < 0 then [MINUS] else [];
    var whole := a / 10;
    var digits := if whole < 10 then [DigitByte(whole)] else [DigitByte(whole / 10), DigitByte(whole % 10)];
    sign + digits + [DOT, DigitByte(a % 10)]
  }

  /** Parsing the text of any value in [-99.9, 99.9] gives that value back,
      whatever follows it. */
  lemma ParseRender(v: int, rest: seq<byte>)
    requires -999 <= v <= 999
    ensures ParseValue(Render(v) + rest, 0) as int == v
  {
    var a := if v < 0 then -v else v;
    var whole, frac := a / 10, a % 10;
    var sign: seq<byte> := if v < 0 then [MINUS] else [];
    var o := |sign|;
    var digits := if whole < 10 then [DigitByte(whole)] else [DigitByte(whole / 10), DigitByte(whole % 10)];
    var tail := [DOT, DigitByte(frac)] + rest;
    var file := sign + (digits + tail);
    assert Render(v) + rest == file;
    assert At(file, 0) == MINUS <==> v < 0;
    assert forall k :: 0 <= k < |digits + tail| ==> At(file, o + k) == (digits + tail)[k];
    if whole < 10 {
      assert Digit(At(file, o)) == whole;
      assert At(file, o + 1) == DOT;
      assert Digit(At(file, o + 2)) == frac;
    } else {
      assert Digit(At(file, o)) == whole / 10;
      assert Digit(At(file, o + 1)) == whole % 10;
      assert At(file, o + 1) != DOT;
      assert At(file, o + 2) == DOT;
      assert Digit(At(file, o + 3)) == frac;
      assert (whole / 10) * 100 + (whole % 10) * 10 + frac == a;
    }
  }

  /** A decimal digit byte. */
  predicate IsDigit(b: byte)
  {
    ZERO <= b <= ZERO + 9
  }

  /** The rule for the `dd.d` form, for every text of that form and not
      only the ones `Render` writes (`05.5` is 55, `-00.0` is 0): an
      optional `-`, then digits d0 d1, `.` and digit d2, whatever follows,
      give 100·d0 + 10·d1 + d2, negated after a `-`. */
  lemma ParseTwoDigits(negative: bool, d0: byte, d1: byte, d2: byte, rest: seq<byte>)
    requires IsDigit(d0) && IsDigit(d1) && IsDigit(d2)
    ensures var sign: seq<byte> := if negative then [MINUS] else [];
      var v := 100 * (d0 - ZERO) as int + 10 * (d1 - ZERO) as int + (d2 - ZERO) as int;
      ParseValue(sign + [d0, d1, DOT, d2] + rest, 0) as int == if negative then -v else v
  {
    var sign: seq<byte> := if negative then [MINUS] else [];
    var o := |sign|;
    var body := [d0, d1, DOT, d2] + rest;
    var file := sign + body;
    assert sign + [d0, d1, DOT, d2] + rest == file;
    assert At(file, 0) == MINUS <==> negative;
    assert forall k :: 0 <= k < 4 ==> At(file, o + k) == body[k];
  }

  /** The rule for the `d.d` form, for every text of that form (`-0.0` is
      0): an optional `-`, then digit d0, `.` and digit d1, whatever
      follows, give 10·d0 + d1, negated after a `-`. */
  lemma ParseOneDigit(negative: bool, d0: byte, d1: byte, rest: seq<byte>)
    requires IsDigit(d0) && IsDigit(d1)
    ensures var sign: seq<byte> := if negative then [MINUS] else [];
      var v := 10 * (d0 - ZERO) as int + (d1 - ZERO) as int;
      ParseValue(sign + [d0, DOT, d1] + rest, 0) as int == if negative then -v else v
  {
    var sign: seq<byte> := if negative then [MINUS] else [];
    var o := |sign|;
    var body := [d0, DOT, d1] + rest;
    var file := sign + body;
    assert sign + [d0, DOT, d1] + rest == file;
    assert At(file, 0) == MINUS <==> negative;
    assert forall k :: 0 <= k < 3 ==> At(file, o + k) == body[k];
  }

  /** The examples `-99.9`, `-9.9`, `-0.1`, `0.0`, `0.1`, `9.9` and `99.9`. */
  lemma Examples()
    ensures ParseValue([MINUS, ZERO + 9, ZERO + 9, DOT, ZERO + 9], 0) == -999
    ensures ParseValue([MINUS, ZERO + 9, DOT, ZERO + 9], 0) == -99
    ensures ParseValue([MINUS, ZERO, DOT, ZERO + 1], 0) == -1
    ensures ParseValue([ZERO, DOT, ZERO], 0) == 0
    ensures ParseValue([ZERO, DOT, ZERO + 1], 0) == 1
    ensures ParseValue([ZERO + 9, DOT, ZERO + 9], 0) == 99
    ensures ParseValue([ZERO + 9, ZERO + 9, DOT, ZERO + 9], 0) == 999
  {
  }
}
