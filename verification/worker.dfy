/** The body of `thread_function`: one worker scanning its partition of the
    file record by record, parsing each value and adding it to the entry of
    its station in the hash table. */
module Worker {
  import opened Bytes
  import opened Scanner
  import opened FixedPoint
  import opened Hashing
  import opened HashTable

  /** One record as the worker reads it: the bytes before the `;` and the
      value parsed after it. */
  datatype Record = Record(key: seq<byte>, value: Int16)

  /** The record at `ptr` and the offset one past the end of its line: the
      name runs to the next `;` (or NUL), the value is parsed right after
      it, and the line ends at the next newline (or NUL) after the `;`. */
  function Line(file: seq<byte>, ptr: nat): (l: (Record, nat))
    ensures l.1 > ptr
  {
    var semicolon := Scan(file, ptr, SEMICOLON);
    var newLine := Scan(file, semicolon, NEWLINE);
    (Record(Slice(file, ptr, semicolon), ParseValue(file, semicolon + 1)), newLine + 1)
  }

  /** The records the worker loop reads starting at `ptr`, while `ptr` has
      not passed `end`. */
  function Records(file: seq<byte>, ptr: nat, end: nat): (rs: seq<Record>)
    ensures ptr > end <==> rs == []
    decreases end + 1 - ptr
  {
    if ptr > end then []
    else
      var l := Line(file, ptr);
      [l.0] + Records(file, l.1, end)
  }

  /** The station names of a list of records. */
  ghost function Keys(rs: seq<Record>): set<seq<byte>>
  {
    set r | r in rs :: r.key
  }

  /** At most one record has an empty name (in a well-formed file, the one
      read at the NUL past the end of the last partition). */
  ghost predicate AtMostOneEmptyKey(rs: seq<Record>)
  {
    forall i, j :: 0 <= i < j < |rs| ==> |rs[i].key| > 0 || |rs[j].key| > 0
  }

  /** The aggregate that starts as `s` and takes in, in order, the values of
      the records named `key`. */
  function Accumulate(s: Stats, rs: seq<Record>, key: seq<byte>): Stats
  {
    if rs == [] then s
    else
      var before := Accumulate(s, rs[..|rs| - 1], key);
      if rs[|rs| - 1].key == key then Step(before, rs[|rs| - 1].value) else before
  }

  /** The values of the records named `key`, in order. */
  function Occurrences(rs: seq<Record>, key: seq<byte>): (vs: seq<Int16>)
    ensures |vs| <= |rs|
  {
    if rs == [] then []
    else Occurrences(rs[..|rs| - 1], key) + (if rs[|rs| - 1].key == key then [rs[|rs| - 1].value] else [])
  }

  /** The exact sum of a list of values. */
  function Sum(vs: seq<Int16>): int
  {
    if vs == [] then 0 else Sum(vs[..|vs| - 1]) + vs[|vs| - 1] as int
  }

  /** The extremes an accumulation computes, from whatever aggregate the
      entry held before: the minimum is the smaller of the old minimum and
      the least value of the station, and the maximum likewise. */
  lemma {:induction false} AccumulateExtremes(s: Stats, rs: seq<Record>, key: seq<byte>)
    ensures var a := Accumulate(s, rs, key);
      && a.min <= s.min && a.max >= s.max
      && (forall v :: v in Occurrences(rs, key) ==> a.min <= v <= a.max)
      && (a.min == s.min || a.min in Occurrences(rs, key))
      && (a.max == s.max || a.max in Occurrences(rs, key))
  {
    if rs != [] {
      var prefix := rs[..|rs| - 1];
      var last := rs[|rs| - 1];
      AccumulateExtremes(s, prefix, key);
      var vs := Occurrences(prefix, key);
      if last.key == key {
        assert Occurrences(rs, key) == vs + [last.value];
      } else {
        assert Occurrences(rs, key) == vs;
      }
    }
  }

  /** The count and the sum an accumulation computes: the count grows by the
      number of records of the station and the sum by their values, both
      modulo 2^16. */
  lemma {:induction false} AccumulateTotals(s: Stats, rs: seq<Record>, key: seq<byte>)
    ensures var a := Accumulate(s, rs, key);
      && (a.count as int - s.count as int - |Occurrences(rs, key)|) % 0x1_0000 == 0
      && (a.sum as int - s.sum as int - Sum(Occurrences(rs, key))) % 0x1_0000 == 0
  {
    if rs != [] {
      var prefix := rs[..|rs| - 1];
      var last := rs[|rs| - 1];
      AccumulateTotals(s, prefix, key);
      var vs := Occurrences(prefix, key);
      if last.key == key {
        var before := Accumulate(s, prefix, key);
        assert Occurrences(rs, key) == vs + [last.value];
        assert (vs + [last.value])[..|vs|] == vs;
        assert Sum(vs + [last.value]) == Sum(vs) + last.value as int;
        var a := Step(before, last.value);
        CongruentSum(a.count as int - before.count as int - 1, before.count as int - s.count as int - |vs|);
        CongruentSum(a.sum as int - before.sum as int - last.value as int, before.sum as int - s.sum as int - Sum(vs));
      } else {
        assert Occurrences(rs, key) == vs;
      }
    }
  }

  /** A station name read in records has at least one value there. */
  lemma {:induction false} OccursWhereKeyed(rs: seq<Record>, key: seq<byte>)
    requires key in Keys(rs)
    ensures Occurrences(rs, key) != []
  {
    var prefix, last := rs[..|rs| - 1], rs[|rs| - 1];
    if last.key != key {
      var r :| r in rs && r.key == key;
      var i :| 0 <= i < |rs| && rs[i] == r;
      assert prefix[i] == r;
      OccursWhereKeyed(prefix, key);
    }
  }

  /** An entry whose pool slot starts zeroed, as the source leaves it when
      the allocation happens to return zeroed memory: after the single
      record `A;1.0`, its minimum is 0.0 where the only value read is 1.0. */
  lemma ZeroedEntryMin()
    ensures var rs, key := [Record([0x41], 10)], [0x41 as byte];
      && Occurrences(rs, key) == [10]
      && Accumulate(Stats(0, 0, 0, 0), rs, key).min == 0
  {
    var rs, key := [Record([0x41], 10)], [0x41 as byte];
    assert rs[..0] == [];
  }

  /** The aggregate a newly claimed entry should start from: no value is
      below the minimum's start or above the maximum's, nothing counted. */
  const FRESH_STATS := Stats(0x7FFF, -0x8000, 0, 0)

  /** Starting from `FRESH_STATS`, a station with at least one value ends
      with the least and the greatest of its values as minimum and maximum,
      and with its number of values and their sum, modulo 2^16. */
  lemma FreshAccumulate(rs: seq<Record>, key: seq<byte>)
    requires Occurrences(rs, key) != []
    ensures var a, vs := Accumulate(FRESH_STATS, rs, key), Occurrences(rs, key);
      && a.min in vs && a.max in vs
      && (forall v :: v in vs ==> a.min <= v <= a.max)
      && (a.count as int - |vs|) % 0x1_0000 == 0
      && (a.sum as int - Sum(vs)) % 0x1_0000 == 0
  {
    var vs := Occurrences(rs, key);
    AccumulateExtremes(FRESH_STATS, rs, key);
    AccumulateTotals(FRESH_STATS, rs, key);
    assert vs[0] in vs;
  }

  /** The entry `e` holds the station `name` with the least and the
      greatest of its values in `rs` as minimum and maximum, and their
      count and sum modulo 2^16. */
  ghost predicate Exact(e: HashMapEntry, name: seq<byte>, rs: seq<Record>)
  {
    var a, vs := e.stats, Occurrences(rs, name);
    && e.stationName == name
    && a.min in vs && a.max in vs
    && (forall v :: v in vs ==> a.min <= v <= a.max)
    && (a.count as int - |vs|) % 0x1_0000 == 0
    && (a.sum as int - Sum(vs)) % 0x1_0000 == 0
  }

  /** Where every claimed entry starts from `FRESH_STATS`, each holds the
      exact minimum and maximum of its station's values, and their count
      and sum modulo 2^16. */
  lemma TracksFresh(chains: seq<seq<nat>>, pool: seq<HashMapEntry>, init: seq<HashMapEntry>,
                    base: nat, names: seq<seq<byte>>, done: seq<Record>)
    requires Tracks(chains, pool, init, base, names, done)
    requires forall j :: base <= j < base + |names| ==> init[j].stats == FRESH_STATS
    ensures Keys(done) == NameSet(names)
    ensures forall i :: 0 <= i < |names| ==> Exact(pool[base + i], names[i], done)
  {
    forall i | 0 <= i < |names|
      ensures Exact(pool[base + i], names[i], done)
    {
      assert names[i] in NameSet(names) && NameSet(names) == Keys(done);
      assert pool[base + i].stats == Accumulate(FRESH_STATS, done, names[i]);
      OccursWhereKeyed(done, names[i]);
      FreshAccumulate(done, names[i]);
    }
  }

  /** Two multiples of 2^16 add up to one. */
  lemma CongruentSum(x: int, y: int)
    requires x % 0x1_0000 == 0 && y % 0x1_0000 == 0
    ensures (x + y) % 0x1_0000 == 0
  {
    assert x == 0x1_0000 * (x / 0x1_0000) && y == 0x1_0000 * (y / 0x1_0000);
    assert x + y == 0x1_0000 * (x / 0x1_0000 + y / 0x1_0000);
  }

  /** The names of a list, as a set. */
  ghost function NameSet(names: seq<seq<byte>>): set<seq<byte>>
  {
    set n | n in names
  }

  /** The state of the map and of the entry pool after the worker has read
      the records `done`: the entries it claimed, pool indices `base` to
      `base + |names| - 1`, carry the distinct names of those records; each
      is chained in the bucket of its name and nothing else is chained; each
      holds its initial aggregate (from `init`) with the records of its name
      taken in; every other pool entry is as it was. */
  ghost predicate Tracks(chains: seq<seq<nat>>, pool: seq<HashMapEntry>, init: seq<HashMapEntry>,
                         base: nat, names: seq<seq<byte>>, done: seq<Record>)
  {
    && |chains| == MAX_STATIONS && |pool| == |init| && base + |names| <= |pool|
    && (forall i :: 0 <= i < |names| ==> pool[base + i].stationName == names[i])
    && (forall i, j :: 0 <= i < j < |names| ==> names[i] != names[j])
    && Keys(done) == NameSet(names)
    && (forall i :: 0 <= i < |names| ==> base + i in chains[HashOf(names[i])])
    && (forall b, x :: 0 <= b < MAX_STATIONS && x in chains[b] ==> base <= x < base + |names|)
    && (forall i :: 0 <= i < |names| ==> pool[base + i].stats == Accumulate(init[base + i].stats, done, names[i]))
    && (forall j :: 0 <= j < |pool| && !(base <= j < base + |names|) ==> pool[j] == init[j])
  }

  /** A record of a station that already has an entry updates that entry
      only. */
  lemma TrackExisting(chains: seq<seq<nat>>, pool: seq<HashMapEntry>, init: seq<HashMapEntry>,
                      base: nat, names: seq<seq<byte>>, done: seq<Record>, r: Record, i: nat,
                      pool': seq<HashMapEntry>)
    requires Tracks(chains, pool, init, base, names, done)
    requires i < |names| && names[i] == r.key
    requires pool' == pool[base + i := pool[base + i].(stats := Step(pool[base + i].stats, r.value))]
    ensures Tracks(chains, pool', init, base, names, done + [r])
  {
    var done' := done + [r];
    assert done'[..|done|] == done;
    assert Keys(done') == Keys(done) + {r.key};
    forall j | 0 <= j < |names|
      ensures pool'[base + j].stats == Accumulate(init[base + j].stats, done', names[j])
    {
      if j != i {
        assert names[j] != r.key;
      }
    }
  }

  /** A record of a station without an entry claims the next pool entry,
      which is linked in at the head of its bucket and takes in the value. */
  lemma TrackNew(chains: seq<seq<nat>>, pool: seq<HashMapEntry>, init: seq<HashMapEntry>,
                 base: nat, names: seq<seq<byte>>, done: seq<Record>, r: Record,
                 chains': seq<seq<nat>>, pool': seq<HashMapEntry>)
    requires Tracks(chains, pool, init, base, names, done)
    requires r.key !in names && base + |names| < |pool|
    requires var e, h := base + |names|, HashOf(r.key);
      var claimed := pool[e := pool[e].(stationName := r.key, next := Head(chains[h]))];
      && chains' == chains[h := [e] + chains[h]]
      && pool' == claimed[e := claimed[e].(stats := Step(claimed[e].stats, r.value))]
    ensures Tracks(chains', pool', init, base, names + [r.key], done + [r])
  {
    var done', names' := done + [r], names + [r.key];
    var e, h := base + |names|, HashOf(r.key);
    assert done'[..|done|] == done;
    assert Keys(done') == Keys(done) + {r.key};
    assert NameSet(names') == NameSet(names) + {r.key};
    assert pool[e] == init[e];
    AccumulateAbsent(init[e].stats, done, r.key);
    forall i | 0 <= i < |names'|
      ensures base + i in chains'[HashOf(names'[i])]
      ensures pool'[base + i].stats == Accumulate(init[base + i].stats, done', names'[i])
    {
      if i < |names| {
        assert names'[i] == names[i] != r.key;
        assert base + i in chains[HashOf(names[i])];
        assert pool'[base + i] == pool[base + i];
      }
    }
  }

  /** Records of other stations leave an aggregate as it is. */
  lemma {:induction false} AccumulateAbsent(s: Stats, rs: seq<Record>, key: seq<byte>)
    requires key !in Keys(rs)
    ensures Accumulate(s, rs, key) == s
  {
    if rs != [] {
      assert Keys(rs[..|rs| - 1]) <= Keys(rs);
      AccumulateAbsent(s, rs[..|rs| - 1], key);
    }
  }

  /** A list of distinct names has as many elements as its set. */
  lemma {:induction false} DistinctCard(names: seq<seq<byte>>)
    requires forall i, j :: 0 <= i < j < |names| ==> names[i] != names[j]
    ensures |NameSet(names)| == |names|
  {
    if names != [] {
      var prefix := names[..|names| - 1];
      DistinctCard(prefix);
      assert NameSet(names) == NameSet(prefix) + {names[|names| - 1]};
    }
  }

  /** The worker has claimed one entry per distinct name it read. */
  lemma TracksCount(chains: seq<seq<nat>>, pool: seq<HashMapEntry>, init: seq<HashMapEntry>,
                    base: nat, names: seq<seq<byte>>, done: seq<Record>)
    requires Tracks(chains, pool, init, base, names, done)
    ensures |names| == |Keys(done)|
  {
    DistinctCard(names);
  }

  /** A subset is no larger than its superset. */
  lemma {:induction false} SubsetCard<T>(a: set<T>, b: set<T>)
    requires a <= b
    ensures |a| <= |b|
  {
    if a != {} {
      var x :| x in a;
      SubsetCard(a - {x}, b - {x});
    }
  }

  /** The last step of each iteration of `thread_function`: the entry
      `idx` takes in `value`, and no other entry changes. */
  method UpdateEntry(table: HashMap, all: array<HashMapEntry>, idx: nat, value: Int16)
    requires table.Valid(all[..]) && idx < all.Length
    modifies all
    ensures all[..] == old(all[..])[idx := old(all[..])[idx].(stats := Step(old(all[..])[idx].stats, value))]
    ensures table.Valid(all[..])
  {
    var e := all[idx];
    var min := Min(e.stats.min, value);
    var max := Max(e.stats.max, value);
    var count := Wrap16(e.stats.count as int + 1);
    var sum := Wrap16(e.stats.sum as int + value as int);
    all[idx] := e.(stats := Stats(min, max, count, sum));
    KeepChained(table.entries[..], table.chains, old(all[..]), all[..]);
  }

  /** The step of `thread_function` for a name no entry matches: the next
      pool entry gets the name, is inserted into the map (at the head of its
      bucket) and takes in the value. */
  method ClaimEntry(table: HashMap, all: array<HashMapEntry>, idx: nat, key: seq<byte>, value: Int16)
    requires table.Valid(all[..]) && idx < all.Length
    requires forall b :: 0 <= b < MAX_STATIONS ==> idx !in table.chains[b]
    requires !Found(table.chains, all[..], key)
    requires |key| >= 1 || NoEmptyName(table.chains, all[..], HashOf(key))
    modifies table, table.entries, all
    ensures table.entries == old(table.entries) && table.Valid(all[..])
    ensures var h := HashOf(key);
      var claimed := old(all[..])[idx := old(all[..])[idx].(stationName := key, next := Head(old(table.chains[h])))];
      && table.chains == old(table.chains)[h := [idx] + old(table.chains[h])]
      && all[..] == claimed[idx := claimed[idx].(stats := Step(claimed[idx].stats, value))]
  {
    assert Linked(table.entries[..], table.chains, all[..], HashOf(key));
    all[idx] := all[idx].(stationName := key);
    KeepChained(table.entries[..], table.chains, old(all[..]), all[..]);
    KeepFound(table.chains, old(all[..]), all[..]);
    table.Insert(all, idx);
    UpdateEntry(table, all, idx, value);
  }

  /** Where the current record is the one with an empty name, no record
      before it had one. */
  lemma EmptyKeyOnce(recs: seq<Record>, done: seq<Record>, r: Record)
    requires AtMostOneEmptyKey(recs)
    requires |done| < |recs| && recs[..|done|] == done && recs[|done|] == r && |r.key| == 0
    ensures forall d :: d in done ==> |d.key| > 0
  {
    forall d | d in done
      ensures |d.key| > 0
    {
      var i :| 0 <= i < |done| && done[i] == d;
      assert recs[i] == d;
    }
  }

  /** While no claimed entry has an empty name, no chained entry has one. */
  lemma NoEmptyNameFromTracks(chains: seq<seq<nat>>, pool: seq<HashMapEntry>, init: seq<HashMapEntry>,
                              base: nat, names: seq<seq<byte>>, done: seq<Record>)
    requires Tracks(chains, pool, init, base, names, done)
    requires forall d :: d in done ==> |d.key| > 0
    ensures forall b, x :: 0 <= b < MAX_STATIONS && x in chains[b] && x < |pool| ==> |pool[x].stationName| >= 1
  {
    forall b, x | 0 <= b < MAX_STATIONS && x in chains[b] && x < |pool|
      ensures |pool[x].stationName| >= 1
    {
      var i := x - base;
      assert names[i] in NameSet(names);
    }
  }

  /** A name that has an entry is matched by an entry of its bucket. */
  lemma NamedIsChained(chains: seq<seq<nat>>, pool: seq<HashMapEntry>, init: seq<HashMapEntry>,
                       base: nat, names: seq<seq<byte>>, done: seq<Record>, key: seq<byte>)
    requires Tracks(chains, pool, init, base, names, done)
    ensures var h := HashOf(key);
      key in names ==>
        exists k :: 0 <= k < |chains[h]| && chains[h][k] < |pool| && StrEq(pool[chains[h][k]].stationName, key)
  {
    if key in names {
      var i :| 0 <= i < |names| && names[i] == key;
      var h := HashOf(key);
      assert base + i in chains[h];
      var k :| 0 <= k < |chains[h]| && chains[h][k] == base + i;
      StrEqReflexive(key);
    }
  }

  /** The lookup and update of `thread_function`: look the name up; where
      no entry has it, claim pool entry `base + entriesIndex`, give it the name and
      insert it; then the entry takes in the value. The map and the pool go
      from tracking the records `done` to tracking `done` and this record. */
  method Aggregate(table: HashMap, all: array<HashMapEntry>, key: seq<byte>, value: Int16, base: nat,
                   entriesIndex: nat, ghost init: seq<HashMapEntry>, ghost names: seq<seq<byte>>,
                   ghost done: seq<Record>)
    returns (entriesIndex': nat, ghost names': seq<seq<byte>>)
    requires table.Valid(all[..]) && Tracks(table.chains, all[..], init, base, names, done)
    requires entriesIndex == |names|
    requires key in names || base + |names| < all.Length
    requires |key| >= 1 || forall d :: d in done ==> |d.key| > 0
    modifies table, table.entries, all
    ensures table.entries == old(table.entries) && table.Valid(all[..])
    ensures names' == if key in names then names else names + [key]
    ensures entriesIndex' == |names'|
    ensures Tracks(table.chains, all[..], init, base, names', done + [Record(key, value)])
  {
    ghost var r := Record(key, value);
    ghost var chains0, pool0 := table.chains, all[..];
    if |key| == 0 {
      NoEmptyNameFromTracks(chains0, pool0, init, base, names, done);
    }
    NamedIsChained(chains0, pool0, init, base, names, done, key);
    var entry := table.Get(all, key);
    if entry == Null {
      AddNew(table, all, key, value, base, entriesIndex, init, names, done);
      entriesIndex' := entriesIndex + 1;
      names' := names + [key];
    } else {
      ghost var i := entry.index - base;
      assert key in names by {
        assert names[i] == key;
      }
      AddExisting(table, all, entry.index, value, base, init, names, done, r, i);
      entriesIndex' := entriesIndex;
      names' := names;
    }
  }

  /** The branch of `Aggregate` for a name without an entry: pool entry
      `base + entriesIndex` is claimed for it and takes in the value. */
  method AddNew(table: HashMap, all: array<HashMapEntry>, key: seq<byte>, value: Int16, base: nat,
                entriesIndex: nat, ghost init: seq<HashMapEntry>, ghost names: seq<seq<byte>>,
                ghost done: seq<Record>)
    requires table.Valid(all[..]) && Tracks(table.chains, all[..], init, base, names, done)
    requires entriesIndex == |names| && key !in names && base + |names| < all.Length
    requires !Found(table.chains, all[..], key)
    requires |key| >= 1 || NoEmptyName(table.chains, all[..], HashOf(key))
    modifies table, table.entries, all
    ensures table.entries == old(table.entries) && table.Valid(all[..])
    ensures Tracks(table.chains, all[..], init, base, names + [key], done + [Record(key, value)])
  {
    ghost var chains0, pool0 := table.chains, all[..];
    ClaimEntry(table, all, base + entriesIndex, key, value);
    TrackNew(chains0, pool0, init, base, names, done, Record(key, value), table.chains, all[..]);
  }

  /** The branch of `Aggregate` for a name with entry `base + i`: that entry
      takes in the value. */
  method AddExisting(table: HashMap, all: array<HashMapEntry>, idx: nat, value: Int16, base: nat,
                     ghost init: seq<HashMapEntry>, ghost names: seq<seq<byte>>, ghost done: seq<Record>,
                     ghost r: Record, ghost i: nat)
    requires table.Valid(all[..]) && Tracks(table.chains, all[..], init, base, names, done)
    requires i < |names| && names[i] == r.key && r.value == value && idx == base + i
    modifies all
    ensures table.Valid(all[..])
    ensures Tracks(table.chains, all[..], init, base, names, done + [r])
  {
    ghost var pool0 := all[..];
    UpdateEntry(table, all, idx, value);
    TrackExisting(table.chains, pool0, init, base, names, done, r, i, all[..]);
  }

  /** Before the record `r` that follows `done` in `recs`, there is room
      for a new entry when `r` has a new name, and a record with an empty
      name comes after records that all have names. */
  lemma BeforeRecord(base: nat, size: nat, names: seq<seq<byte>>, done: seq<Record>, r: Record,
                     rest: seq<Record>, recs: seq<Record>)
    requires (forall i, j :: 0 <= i < j < |names| ==> names[i] != names[j]) && Keys(done) == NameSet(names)
    requires recs == done + [r] + rest
    requires AtMostOneEmptyKey(recs) && base + |Keys(recs)| <= size
    ensures r.key in names || base + |names| < size
    ensures |r.key| >= 1 || forall d :: d in done ==> |d.key| > 0
  {
    assert recs[|done|] == r && recs[..|done|] == done;
    if |r.key| == 0 {
      EmptyKeyOnce(recs, done, r);
    }
    if r.key !in names {
      assert Keys(done) + {r.key} <= Keys(recs) by {
        forall d | d in done
          ensures d in recs
        {
          var i :| 0 <= i < |done| && done[i] == d;
          assert recs[i] == d;
        }
      }
      assert r.key !in Keys(done);
      SubsetCard(Keys(done) + {r.key}, Keys(recs));
      DistinctCard(names);
    }
  }

  /** One step of the record list: the record at `ptr`, then those after
      its line. */
  lemma RecordsStep(file: seq<byte>, ptr: nat, end: nat)
    requires ptr <= end
    ensures Records(file, ptr, end) == [Line(file, ptr).0] + Records(file, Line(file, ptr).1, end)
  {
  }

  /** The reading step of `thread_function`: find the `;`, find the end of the
      line, parse the value after the `;`. */
  method ReadLine(file: seq<byte>, ptr: nat) returns (key: seq<byte>, value: Int16, next: nat)
    ensures (Record(key, value), next) == Line(file, ptr)
    ensures ptr < next
  {
    var semicolon := NextCharacter(file, ptr, SEMICOLON);
    var newLine := NextCharacter(file, semicolon, NEWLINE);
    value := ParseValue(file, semicolon + 1);
    key := Slice(file, ptr, semicolon);
    next := newLine + 1;
  }

  /** One iteration of the worker loop, at `ptr` within the partition:
      read the record there and aggregate it. The records read so far grow
      by that record and the map and the pool go on tracking them. */
  method ProcessLine(file: seq<byte>, ptr: nat, end: nat, table: HashMap, all: array<HashMapEntry>, base: nat,
                     entriesIndex: nat, ghost init: seq<HashMapEntry>, ghost names: seq<seq<byte>>,
                     ghost done: seq<Record>, ghost recs: seq<Record>)
    returns (next: nat, entriesIndex': nat, ghost names': seq<seq<byte>>, ghost done': seq<Record>)
    requires ptr <= end && done + Records(file, ptr, end) == recs
    requires AtMostOneEmptyKey(recs) && base + |Keys(recs)| <= all.Length
    requires table.Valid(all[..]) && Tracks(table.chains, all[..], init, base, names, done)
    requires entriesIndex == |names|
    modifies table, table.entries, all
    ensures ptr < next && done' + Records(file, next, end) == recs
    ensures table.entries == old(table.entries) && table.Valid(all[..])
    ensures entriesIndex' == |names'|
    ensures Tracks(table.chains, all[..], init, base, names', done')
  {
    var key, value;
    key, value, next := ReadLine(file, ptr);
    ghost var r := Record(key, value);
    ghost var rest := Records(file, next, end);
    RecordsStep(file, ptr, end);
    assert recs == done + [r] + rest;
    BeforeRecord(base, all.Length, names, done, r, rest, recs);
    entriesIndex', names' := Aggregate(table, all, key, value, base, entriesIndex, init, names, done);
    done' := done + [r];
  }

  /** `thread_function` for one worker whose map starts empty. Its entries
      come from pool slots `tid * MAX_STATIONS` on, whose contents before the
      call are whatever the allocation left there: the aggregate of a newly
      claimed entry starts from those values, since the source never
      initialises them. Afterwards one entry exists per distinct station
      name read, each chained in its bucket, holding its initial aggregate
      with that station's values taken in. */
  method ThreadFunction(file: seq<byte>, start: nat, end: nat, table: HashMap, all: array<HashMapEntry>, tid: nat)
    returns (entriesIndex: nat, ghost names: seq<seq<byte>>)
    requires table.Empty()
    requires AtMostOneEmptyKey(Records(file, start, end))
    requires tid * MAX_STATIONS + |Keys(Records(file, start, end))| <= all.Length
    modifies table, table.entries, all
    ensures table.entries == old(table.entries) && table.Valid(all[..])
    ensures entriesIndex == |names| == |Keys(Records(file, start, end))|
    ensures Tracks(table.chains, all[..], old(all[..]), tid * MAX_STATIONS, names, Records(file, start, end))
  {
    var base := tid * MAX_STATIONS;
    ghost var recs := Records(file, start, end);
    ghost var init := all[..];
    table.EmptyValid(all[..]);
    var ptr := start;
    entriesIndex := 0;
    names := [];
    ghost var done: seq<Record> := [];
    while ptr <= end
      invariant done + Records(file, ptr, end) == recs
      invariant table.entries == old(table.entries) && table.Valid(all[..])
      invariant entriesIndex == |names|
      invariant Tracks(table.chains, all[..], init, base, names, done)
      decreases end + 1 - ptr
    {
      ptr, entriesIndex, names, done := ProcessLine(file, ptr, end, table, all, base, entriesIndex, init, names, done, recs);
    }
    assert done == recs;
    TracksCount(table.chains, all[..], init, base, names, done);
  }

  /** The pool with the entries `from` to `to - 1` given the fresh
      aggregate one after the other, names and links kept. */
  ghost function Freshened(pool: seq<HashMapEntry>, from: nat, to: nat): (p: seq<HashMapEntry>)
    requires to <= |pool|
    ensures |p| == |pool|
  {
    if to <= from then pool
    else
      var q := Freshened(pool, from, to - 1);
      q[to - 1 := q[to - 1].(stats := FRESH_STATS)]
  }

  /** The freshened pool holds the fresh aggregate exactly in the entries
      `from` to `to - 1`, and every entry keeps its name and link. */
  lemma {:induction false} FreshenedAt(pool: seq<HashMapEntry>, from: nat, to: nat)
    requires to <= |pool|
    ensures forall j :: 0 <= j < |pool| ==>
      Freshened(pool, from, to)[j] == if from <= j < to then pool[j].(stats := FRESH_STATS) else pool[j]
  {
    if to > from {
      FreshenedAt(pool, from, to - 1);
    }
  }

  /** The corrected start: the pool entries `from` to `to - 1` get the
      fresh aggregate and keep their names and links; no other entry
      changes. */
  method ResetPool(all: array<HashMapEntry>, from: nat, to: nat)
    requires from <= to <= all.Length
    modifies all
    ensures all[..] == Freshened(old(all[..]), from, to)
  {
    var j := from;
    while j < to
      invariant from <= j <= to
      invariant all[..] == Freshened(old(all[..]), from, j)
      invariant forall k :: j <= k < all.Length ==> all[k] == old(all[k])
    {
      all[j] := all[j].(stats := FRESH_STATS);
      j := j + 1;
    }
  }

  /** `thread_function` with the entries of the worker's slice, pool
      indices `tid * MAX_STATIONS` to `tid * MAX_STATIONS + MAX_STATIONS - 1`,
      starting from `FRESH_STATS`: the map and the pool track every record
      read, as for `ThreadFunction`, and every station name read has one
      entry, holding the least and the greatest of its values, and their
      count and sum modulo 2^16. */
  method FreshThreadFunction(file: seq<byte>, start: nat, end: nat, table: HashMap, all: array<HashMapEntry>,
                             tid: nat)
    returns (entriesIndex: nat, ghost names: seq<seq<byte>>)
    requires table.Empty()
    requires AtMostOneEmptyKey(Records(file, start, end))
    requires |Keys(Records(file, start, end))| <= MAX_STATIONS
    requires tid * MAX_STATIONS + |Keys(Records(file, start, end))| <= all.Length
    modifies table, table.entries, all
    ensures table.entries == old(table.entries) && table.Valid(all[..])
    ensures var base := tid * MAX_STATIONS;
      var slice := if base + MAX_STATIONS <= all.Length then base + MAX_STATIONS else all.Length;
      Tracks(table.chains, all[..], Freshened(old(all[..]), base, slice), base, names, Records(file, start, end))
    ensures entriesIndex == |names| == |Keys(Records(file, start, end))|
    ensures Keys(Records(file, start, end)) == NameSet(names)
    ensures forall i :: 0 <= i < |names| ==> Exact(all[tid * MAX_STATIONS + i], names[i], Records(file, start, end))
  {
    var base: nat := tid * MAX_STATIONS;
    var slice := if base + MAX_STATIONS <= all.Length then base + MAX_STATIONS else all.Length;
    ghost var recs := Records(file, start, end);
    ghost var pool0 := all[..];
    ResetPool(all, base, slice);
    ghost var init := all[..];
    FreshenedAt(pool0, base, slice);
    assert forall j :: base <= j < slice ==> init[j].stats == FRESH_STATS;
    entriesIndex, names := ThreadFunction(file, start, end, table, all, tid);
    TracksFresh(table.chains, all[..], init, base, names, recs);
  }
}
