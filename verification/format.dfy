/** The measurements file as the challenge defines it, and how the worker's
    record reader reads it back: a line `name;value\n` per measurement. */
module Format {
  import opened Bytes
  import opened Scanner
  import opened FixedPoint
  import opened Worker

  /** A measurement that can appear in the file: a non-empty station name
      holding no `;`, newline or NUL byte, and a value in [-99.9, 99.9]. */
  predicate WellFormed(r: Record)
  {
    && |r.key| >= 1
    && (forall k :: 0 <= k < |r.key| ==> r.key[k] != SEMICOLON && r.key[k] != NEWLINE && r.key[k] != NUL)
    && -999 <= r.value <= 999
  }

  /** The line of a measurement: the name, `;`, the value, a newline. */
  function LineText(r: Record): (s: seq<byte>)
    requires WellFormed(r)
    ensures |s| == |r.key| + |Render(r.value as int)| + 2
  {
    r.key + [SEMICOLON] + Render(r.value as int) + [NEWLINE]
  }

  /** The file holding the measurements `rs`, one line each, in order. */
  function Text(rs: seq<Record>): seq<byte>
    requires forall r :: r in rs ==> WellFormed(r)
  {
    if rs == [] then [] else LineText(rs[0]) + Text(rs[1..])
  }

  /** The parser only looks at the bytes from `at` on. */
  lemma ParseShift(file: seq<byte>, at: nat)
    requires at <= |file|
    ensures ParseValue(file, at) == ParseValue(file[at..], 0)
  {
    var rest := file[at..];
    assert At(file, at) == At(rest, 0) && At(file, at + 1) == At(rest, 1) && At(file, at + 2) == At(rest, 2);
    assert At(file, at + 3) == At(rest, 3) && At(file, at + 4) == At(rest, 4);
  }

  /** The bytes of a line, part by part. */
  lemma LineBytes(r: Record)
    requires WellFormed(r)
    ensures var s, v := LineText(r), Render(r.value as int);
      && (forall k :: 0 <= k < |r.key| ==> s[k] == r.key[k])
      && s[|r.key|] == SEMICOLON
      && (forall k :: 0 <= k < |v| ==> s[|r.key| + 1 + k] == v[k])
      && s[|r.key| + 1 + |v|] == NEWLINE
      && s[|r.key| + 1..] == v + [NEWLINE]
  {
  }

  /** A file holding the line of `r` at `ptr`. */
  ghost predicate LineAt(file: seq<byte>, ptr: nat, r: Record)
  {
    WellFormed(r) && ptr + |LineText(r)| <= |file| && file[ptr..ptr + |LineText(r)|] == LineText(r)
  }

  /** The worker's first scan from the start of the line stops at its `;`. */
  lemma SemicolonScan(file: seq<byte>, ptr: nat, r: Record, semicolon: nat)
    requires LineAt(file, ptr, r) && semicolon == ptr + |r.key|
    ensures Scan(file, ptr, SEMICOLON) == semicolon
  {
    var s := LineText(r);
    LineBytes(r);
    assert forall k :: 0 <= k < |s| ==> file[ptr + k] == s[k];
    assert forall k :: ptr <= k < semicolon ==> At(file, k) == r.key[k - ptr];
    ScanUnique(file, ptr, SEMICOLON, semicolon);
  }

  /** The worker's second scan, from the `;`, stops at the newline. */
  lemma NewlineScan(file: seq<byte>, ptr: nat, r: Record, semicolon: nat, newLine: nat)
    requires LineAt(file, ptr, r) && semicolon == ptr + |r.key|
    requires newLine == semicolon + 1 + |Render(r.value as int)|
    ensures Scan(file, semicolon, NEWLINE) == newLine
  {
    var s, v := LineText(r), Render(r.value as int);
    LineBytes(r);
    assert forall k :: 0 <= k < |s| ==> file[ptr + k] == s[k];
    assert forall k :: semicolon < k < newLine ==> At(file, k) == v[k - semicolon - 1];
    ScanUnique(file, semicolon, NEWLINE, newLine);
  }

  /** The value after the `;` of the line parses to the measurement. */
  lemma LineValue(file: seq<byte>, ptr: nat, r: Record, start: nat)
    requires LineAt(file, ptr, r) && start == ptr + |r.key| + 1
    ensures ParseValue(file, start) == r.value
  {
    var v := Render(r.value as int);
    var newLine := start + |v|;
    LineBytes(r);
    assert file[start..newLine] == v by {
      assert file[start..newLine] == file[ptr..ptr + |LineText(r)|][|r.key| + 1..|r.key| + 1 + |v|];
    }
    assert file[start..] == v + file[newLine..] by {
      assert file[start..] == file[start..newLine] + file[newLine..];
    }
    ParseShift(file, start);
    ParseRender(r.value as int, file[newLine..]);
  }

  /** The name before the `;` of the line is the station's. */
  lemma LineKey(file: seq<byte>, ptr: nat, r: Record, semicolon: nat)
    requires LineAt(file, ptr, r) && semicolon == ptr + |r.key|
    ensures Slice(file, ptr, semicolon) == r.key
  {
    LineBytes(r);
    assert forall k :: 0 <= k < |r.key| ==> file[ptr + k] == LineText(r)[k];
    forall k | 0 <= k < |r.key|
      ensures Slice(file, ptr, semicolon)[k] == r.key[k]
    {
      assert ptr + k < |file| && At(file, ptr + k) == file[ptr + k];
    }
  }

  /** What the worker reads at `ptr` is made of what its two scans find,
      the name before the `;` and the value after it. */
  lemma LineParts(file: seq<byte>, ptr: nat, semicolon: nat, newLine: nat, r: Record)
    requires Scan(file, ptr, SEMICOLON) == semicolon && Scan(file, semicolon, NEWLINE) == newLine
    requires Slice(file, ptr, semicolon) == r.key && ParseValue(file, semicolon + 1) == r.value
    ensures Line(file, ptr).0 == r && Line(file, ptr).1 == newLine + 1
  {
  }

  /** Where the line of a measurement starts at `ptr` and the next line at
      `next`, the worker reads exactly that measurement there and goes on
      at `next`. */
  lemma LineRead(file: seq<byte>, ptr: nat, r: Record, next: nat)
    requires LineAt(file, ptr, r) && next == ptr + |LineText(r)|
    ensures Line(file, ptr).0 == r
    ensures Line(file, ptr).1 == next
  {
    var semicolon := ptr + |r.key|;
    var newLine := next - 1;
    SemicolonScan(file, ptr, r, semicolon);
    NewlineScan(file, ptr, r, semicolon, newLine);
    LineValue(file, ptr, r, semicolon + 1);
    LineKey(file, ptr, r, semicolon);
    LineParts(file, ptr, semicolon, newLine, r);
  }

  /** Where the worker reads `r` at `ptr` and goes on at `next`, the records
      read from `ptr` are `r`, then those read from `next`. */
  lemma RecordsCons(file: seq<byte>, ptr: nat, end: nat, r: Record, next: nat)
    requires ptr <= end && Line(file, ptr).0 == r && Line(file, ptr).1 == next
    ensures Records(file, ptr, end) == [r] + Records(file, next, end)
  {
    RecordsStep(file, ptr, end);
  }

  /** Where the line of a measurement starts at `ptr` and the next line at
      `next`, the records read from `ptr` are that measurement, then those
      read from `next`. */
  lemma LineRecords(file: seq<byte>, ptr: nat, end: nat, r: Record, next: nat)
    requires LineAt(file, ptr, r) && ptr <= end && next == ptr + |LineText(r)|
    ensures Records(file, ptr, end) == [r] + Records(file, next, end)
  {
    LineRead(file, ptr, r, next);
    RecordsCons(file, ptr, end, r, next);
  }

  /** After the last line, the worker reads one more record: an empty name
      with value 0, read from the NUL past the end of the file. */
  lemma EndRead(file: seq<byte>)
    ensures Records(file, |file|, |file|) == [Record([], 0)]
  {
    assert Scan(file, |file|, SEMICOLON) == |file|;
    assert Scan(file, |file|, NEWLINE) == |file|;
    assert Slice(file, |file|, |file|) == [];
    assert ParseValue(file, |file| + 1) == 0;
    assert Records(file, |file| + 1, |file|) == [];
  }

  /** The middle part of a concatenation sits right after the first. */
  lemma MiddleSlice(pre: seq<byte>, mid: seq<byte>, post: seq<byte>)
    ensures (pre + mid + post)[|pre|..|pre| + |mid|] == mid
  {
    assert forall k :: 0 <= k < |mid| ==> (pre + mid + post)[|pre| + k] == mid[k];
  }

  /** A line placed between any bytes `pre` and `rest` sits right after
      `pre`. */
  lemma LineBetween(file: seq<byte>, pre: seq<byte>, r: Record, rest: seq<byte>)
    requires WellFormed(r) && file == pre + LineText(r) + rest
    ensures LineAt(file, |pre|, r)
  {
    MiddleSlice(pre, LineText(r), rest);
  }

  /** The lines of `rs` are the line of the first measurement, then the
      lines of the others. */
  lemma TextFirst(pre: seq<byte>, rs: seq<Record>)
    requires |rs| >= 1 && forall r :: r in rs ==> WellFormed(r)
    ensures pre + Text(rs) == (pre + LineText(rs[0])) + Text(rs[1..])
  {
    assert rs[0] in rs;
  }

  /** The file made of `pre` and the lines of `rs` holds the line of the
      first measurement right after `pre`, and the lines of the others
      after that. */
  lemma TextCons(pre: seq<byte>, rs: seq<Record>)
    requires |rs| >= 1 && forall r :: r in rs ==> WellFormed(r)
    ensures LineAt(pre + Text(rs), |pre|, rs[0])
    ensures pre + Text(rs) == (pre + LineText(rs[0])) + Text(rs[1..])
  {
    TextFirst(pre, rs);
    LineBetween(pre + Text(rs), pre, rs[0], Text(rs[1..]));
  }

  /** Reading from the start of the lines of `rs`, placed after any bytes
      `pre`, up to the end of the file gives back `rs`, then the empty
      record at the end. */
  lemma {:induction false} TextRecords(pre: seq<byte>, rs: seq<Record>)
    requires forall r :: r in rs ==> WellFormed(r)
    ensures Records(pre + Text(rs), |pre|, |pre + Text(rs)|) == rs + [Record([], 0)]
    decreases |rs|
  {
    var file := pre + Text(rs);
    if rs == [] {
      assert file == pre;
      EndRead(file);
    } else {
      var end := Record([], 0);
      var pre' := pre + LineText(rs[0]);
      TextCons(pre, rs);
      TextRecords(pre', rs[1..]);
      LineRecords(file, |pre|, |file|, rs[0], |pre'|);
      assert [rs[0]] + (rs[1..] + [end]) == rs + [end];
    }
  }

  /** A worker whose partition is the whole file reads the measurements of
      the file in order, then the one empty record, so the file satisfies
      what `ThreadFunction` requires of the records it reads. */
  lemma FileRecords(rs: seq<Record>)
    requires forall r :: r in rs ==> WellFormed(r)
    ensures Records(Text(rs), 0, |Text(rs)|) == rs + [Record([], 0)]
    ensures AtMostOneEmptyKey(Records(Text(rs), 0, |Text(rs)|))
  {
    var recs := Records(Text(rs), 0, |Text(rs)|);
    TextRecords([], rs);
    assert [] + Text(rs) == Text(rs);
    assert recs == rs + [Record([], 0)];
    forall i, j | 0 <= i < j < |recs|
      ensures |recs[i].key| > 0 || |recs[j].key| > 0
    {
      assert recs[i] == rs[i] && rs[i] in rs;
    }
  }
}
