/** The C program's hash map: `MAX_STATIONS` buckets, each the head of a
    chain of entries linked through their `next` fields. Entries live in a
    separately allocated pool (`all_entries`); a pointer to an entry is an
    index into that pool. */
module HashTable {
  import opened Bytes
  import opened Hashing

  /** A pointer to an entry of the pool, or NULL. */
  datatype Ref = Null | Ref(index: nat)

  /** The running aggregate of a station: four `s16` fields. */
  datatype Stats = Stats(min: Int16, max: Int16, count: Int16, sum: Int16)

  /** `HashMapEntry`: the station name (the bytes its pointer and length
      view in the read-only file), the aggregate, and the chain link. */
  datatype HashMapEntry = HashMapEntry(stationName: seq<byte>, stats: Stats, next: Ref)

  function Min(a: Int16, b: Int16): (r: Int16)
    ensures r <= a && r <= b && (r == a || r == b)
  {
    if a < b then a else b
  }

  function Max(a: Int16, b: Int16): (r: Int16)
    ensures r >= a && r >= b && (r == a || r == b)
  {
    if a > b then a else b
  }

  /** One measurement added to an aggregate: the extremes widen to include
      it; the count grows by one and the sum by the value, both modulo 2^16
      as `s16` arithmetic does. */
  function Step(s: Stats, value: Int16): (r: Stats)
    ensures r.min <= s.min && r.min <= value && (r.min == s.min || r.min == value)
    ensures r.max >= s.max && r.max >= value && (r.max == s.max || r.max == value)
    ensures (r.count as int - s.count as int - 1) % 0x1_0000 == 0
    ensures (r.sum as int - s.sum as int - value as int) % 0x1_0000 == 0
  {
    Stats(Min(s.min, value), Max(s.max, value), Wrap16(s.count as int + 1), Wrap16(s.sum as int + value as int))
  }

  /** The pointer to the first entry of a chain. */
  function Head(chain: seq<nat>): Ref
  {
    if chain == [] then Null else Ref(chain[0])
  }

  /** The pointer stored in the `next` field of the `k`-th entry of a chain. */
  function NextOf(chain: seq<nat>, k: nat): Ref
    requires k < |chain|
  {
    if k + 1 < |chain| then Ref(chain[k + 1]) else Null
  }

  /** Bucket `b` of the head pointers `heads` starts at the head of chain
      `b`, and each entry of the chain points through `next` to the one
      after it (NULL after the last). */
  ghost predicate Linked(heads: seq<Ref>, chains: seq<seq<nat>>, pool: seq<HashMapEntry>, b: nat)
    requires b < |heads| && b < |chains|
  {
    && heads[b] == Head(chains[b])
    && forall k :: 0 <= k < |chains[b]| ==>
         chains[b][k] < |pool| && pool[chains[b][k]].next == NextOf(chains[b], k)
  }

  /** Every entry of chain `b` hashes to `b`. */
  ghost predicate Hashed(chains: seq<seq<nat>>, pool: seq<HashMapEntry>, b: nat)
    requires b < |chains|
  {
    forall k :: 0 <= k < |chains[b]| && chains[b][k] < |pool| ==> HashOf(pool[chains[b][k]].stationName) == b
  }

  /** The head pointers and the entry pool hold the chains: every bucket is
      linked and hashed. */
  ghost predicate Chained(heads: seq<Ref>, chains: seq<seq<nat>>, pool: seq<HashMapEntry>)
  {
    && |heads| == MAX_STATIONS
    && |chains| == MAX_STATIONS
    && (forall b :: 0 <= b < MAX_STATIONS ==> Linked(heads, chains, pool, b))
    && (forall b :: 0 <= b < MAX_STATIONS ==> Hashed(chains, pool, b))
  }

  /** Some entry of the bucket of `key` is `str_equals` to `key`. */
  ghost predicate Found(chains: seq<seq<nat>>, pool: seq<HashMapEntry>, key: seq<byte>)
    requires |chains| == MAX_STATIONS
  {
    var h := HashOf(key);
    exists k :: 0 <= k < |chains[h]| && chains[h][k] < |pool| && StrEq(pool[chains[h][k]].stationName, key)
  }

  /** Some entry among the first `k` of `chain` is `str_equals` to `key`. */
  ghost predicate FoundAmong(chain: seq<nat>, pool: seq<HashMapEntry>, key: seq<byte>, k: nat)
    requires k <= |chain|
  {
    k > 0 && (FoundAmong(chain, pool, key, k - 1) || (chain[k - 1] < |pool| && StrEq(pool[chain[k - 1]].stationName, key)))
  }

  /** `FoundAmong` is the search of the first `k` entries it is named for. */
  lemma {:induction false} FoundAmongMeans(chain: seq<nat>, pool: seq<HashMapEntry>, key: seq<byte>, k: nat)
    requires k <= |chain|
    ensures FoundAmong(chain, pool, key, k) <==>
      exists j :: 0 <= j < k && chain[j] < |pool| && StrEq(pool[chain[j]].stationName, key)
  {
    if k > 0 {
      FoundAmongMeans(chain, pool, key, k - 1);
    }
  }

  /** No entry of bucket `h` has an empty name. */
  ghost predicate NoEmptyName(chains: seq<seq<nat>>, pool: seq<HashMapEntry>, h: nat)
    requires |chains| == MAX_STATIONS && h < MAX_STATIONS
  {
    forall k :: 0 <= k < |chains[h]| && chains[h][k] < |pool| ==> |pool[chains[h][k]].stationName| >= 1
  }

  /** An entry of the bucket of `key` that `str_equals` calls equal to
      `key` is found, and its name is the key itself (`str_equals` skips
      the last byte, but inside one bucket that byte never decides). */
  lemma Match(chains: seq<seq<nat>>, pool: seq<HashMapEntry>, key: seq<byte>, h: nat, k: nat)
    requires |chains| == MAX_STATIONS && h == HashOf(key) && Hashed(chains, pool, h)
    requires k < |chains[h]| && chains[h][k] < |pool|
    requires StrEq(pool[chains[h][k]].stationName, key)
    requires |key| >= 1 || NoEmptyName(chains, pool, h)
    ensures Found(chains, pool, key) && pool[chains[h][k]].stationName == key
  {
    if |key| >= 1 {
      StrEqSameBucket(pool[chains[h][k]].stationName, key);
    }
  }

  /** When no entry of the bucket of `key` is `str_equals` to it, `key` is
      not found. */
  lemma NoMatch(chains: seq<seq<nat>>, pool: seq<HashMapEntry>, key: seq<byte>, h: nat)
    requires |chains| == MAX_STATIONS && h == HashOf(key)
    requires !FoundAmong(chains[h], pool, key, |chains[h]|)
    ensures !Found(chains, pool, key)
  {
    FoundAmongMeans(chains[h], pool, key, |chains[h]|);
  }

  /** A change to the pool that keeps the name and the link of every
      chained entry keeps the map chained. */
  lemma KeepChained(heads: seq<Ref>, chains: seq<seq<nat>>, p: seq<HashMapEntry>, q: seq<HashMapEntry>)
    requires Chained(heads, chains, p) && |q| == |p|
    requires forall b, k :: 0 <= b < MAX_STATIONS && 0 <= k < |chains[b]| && chains[b][k] < |p| ==>
      q[chains[b][k]].stationName == p[chains[b][k]].stationName && q[chains[b][k]].next == p[chains[b][k]].next
    ensures Chained(heads, chains, q)
  {
    forall b | 0 <= b < MAX_STATIONS
      ensures Linked(heads, chains, q, b) && Hashed(chains, q, b)
    {
      assert Linked(heads, chains, p, b) && Hashed(chains, p, b);
    }
  }

  /** The same change finds the same names and keeps names non-empty. */
  lemma KeepFound(chains: seq<seq<nat>>, p: seq<HashMapEntry>, q: seq<HashMapEntry>)
    requires |chains| == MAX_STATIONS && |q| == |p|
    requires forall b, k :: 0 <= b < MAX_STATIONS && 0 <= k < |chains[b]| && chains[b][k] < |p| ==>
      q[chains[b][k]].stationName == p[chains[b][k]].stationName
    ensures forall key :: Found(chains, q, key) <==> Found(chains, p, key)
    ensures forall h :: 0 <= h < MAX_STATIONS ==> (NoEmptyName(chains, q, h) <==> NoEmptyName(chains, p, h))
  {
    forall key
      ensures Found(chains, q, key) <==> Found(chains, p, key)
    {
      var h := HashOf(key);
      if Found(chains, p, key) {
        var k :| 0 <= k < |chains[h]| && chains[h][k] < |p| && StrEq(p[chains[h][k]].stationName, key);
        assert StrEq(q[chains[h][k]].stationName, key);
      }
      if Found(chains, q, key) {
        var k :| 0 <= k < |chains[h]| && chains[h][k] < |q| && StrEq(q[chains[h][k]].stationName, key);
        assert StrEq(p[chains[h][k]].stationName, key);
      }
    }
  }

  /** Linking entry `idx`, which no chain holds and which hashes to `h`, in
      front of chain `h` keeps the map chained. */
  lemma Pushed(heads: seq<Ref>, chains: seq<seq<nat>>, pool: seq<HashMapEntry>, idx: nat, h: nat)
    requires Chained(heads, chains, pool)
    requires idx < |pool| && h < MAX_STATIONS && HashOf(pool[idx].stationName) == h
    requires forall b :: 0 <= b < MAX_STATIONS ==> idx !in chains[b]
    ensures Chained(heads[h := Ref(idx)], chains[h := [idx] + chains[h]], pool[idx := pool[idx].(next := heads[h])])
  {
    var heads', chains', pool' := heads[h := Ref(idx)], chains[h := [idx] + chains[h]], pool[idx := pool[idx].(next := heads[h])];
    forall b | 0 <= b < MAX_STATIONS
      ensures Linked(heads', chains', pool', b) && Hashed(chains', pool', b)
    {
      assert Linked(heads, chains, pool, b) && Hashed(chains, pool, b);
      if b == h {
        forall k | 0 <= k < |chains'[b]|
          ensures chains'[b][k] < |pool'| && pool'[chains'[b][k]].next == NextOf(chains'[b], k)
          ensures HashOf(pool'[chains'[b][k]].stationName) == b
        {
          if k > 0 {
            assert chains'[b][k] == chains[b][k - 1];
            assert chains[b][k - 1] != idx;
          }
        }
      } else {
        forall k | 0 <= k < |chains'[b]|
          ensures pool'[chains'[b][k]] == pool[chains[b][k]]
        {
          assert chains[b][k] != idx;
        }
      }
    }
  }

  class HashMap {
    /** `entries[MAX_STATIONS]`: the head pointer of each bucket. */
    var entries: array<Ref>
    /** The pool indices of each bucket's chain, in link order. */
    ghost var chains: seq<seq<nat>>

    /** The bucket array and the entry pool `pool` hold the chains. */
    ghost predicate Valid(pool: seq<HashMapEntry>)
      reads this, entries
    {
      entries.Length == MAX_STATIONS && Chained(entries[..], chains, pool)
    }

    /** No bucket holds an entry. */
    ghost predicate Empty()
      reads this, entries
    {
      && entries.Length == MAX_STATIONS
      && |chains| == MAX_STATIONS
      && forall b :: 0 <= b < MAX_STATIONS ==> chains[b] == [] && entries[b] == Null
    }

    /** `hash_map_init`: every bucket NULL. */
    constructor Init()
      ensures Empty() && fresh(entries)
    {
      var heads := new Ref[MAX_STATIONS];
      for i := 0 to MAX_STATIONS
        invariant forall b :: 0 <= b < i ==> heads[b] == Null
      {
        heads[i] := Null;
      }
      entries := heads;
      chains := seq(MAX_STATIONS, _ => []);
    }

    /** An empty map is a valid map over any entry pool and finds no name. */
    lemma EmptyValid(pool: seq<HashMapEntry>)
      requires Empty()
      ensures Valid(pool) && forall key :: !Found(chains, pool, key)
    {
    }

    /** `hash_map_get`: the entry of the bucket of `key` that is
        `str_equals` to it, or NULL. */
    method Get(all: array<HashMapEntry>, key: seq<byte>) returns (r: Ref)
      requires Valid(all[..])
      requires |key| >= 1 || NoEmptyName(chains, all[..], HashOf(key))
      ensures r == Null <==> !Found(chains, all[..], key)
      ensures r != Null ==> r.index < all.Length && r.index in chains[HashOf(key)]
      ensures r != Null ==> all[r.index].stationName == key
    {
      var h := Hash(key);
      assert Linked(entries[..], chains, all[..], h) && Hashed(chains, all[..], h);
      r := Lookup(all, key, h);
    }

    /** The walk down bucket `h` that `hash_map_get` and `hash_map_insert`
        both do: follow the `next` links until an entry is `str_equals` to
        `key`. NULL exactly when no entry of that bucket is; otherwise an
        entry of that bucket whose name is the key itself. */
    method Lookup(all: array<HashMapEntry>, key: seq<byte>, h: nat) returns (r: Ref)
      requires entries.Length == MAX_STATIONS && |chains| == MAX_STATIONS && h == HashOf(key)
      requires Linked(entries[..], chains, all[..], h) && Hashed(chains, all[..], h)
      requires |key| >= 1 || NoEmptyName(chains, all[..], h)
      ensures r == Null <==> !Found(chains, all[..], key)
      ensures r != Null ==> r.index < all.Length && r.index in chains[h]
      ensures r != Null ==> all[r.index].stationName == key
    {
      ghost var chain := chains[h];
      ghost var pool := all[..];
      r := entries[h];
      ghost var k := 0;
      while r != Null
        invariant 0 <= k <= |chain|
        invariant r == if k < |chain| then Ref(chain[k]) else Null
        invariant !FoundAmong(chain, pool, key, k)
        decreases |chain| - k
      {
        assert all[r.index] == pool[chain[k]];
        var equal := StrEquals(all[r.index].stationName, key);
        if equal {
          Match(chains, pool, key, h, k);
          return;
        }
        assert pool[chain[k]].next == NextOf(chain, k);
        r := all[r.index].next;
        k := k + 1;
      }
      NoMatch(chains, pool, key, h);
    }

    /** `hash_map_insert`: when an entry of the new entry's bucket is already
        `str_equals` to its name, nothing changes; otherwise the new entry is
        linked in as the head of its bucket. Either way a later `Get` of its
        name finds an entry. */
    method Insert(all: array<HashMapEntry>, idx: nat)
      requires Valid(all[..])
      requires idx < all.Length
      requires forall b :: 0 <= b < MAX_STATIONS ==> idx !in chains[b]
      requires |all[idx].stationName| >= 1 || NoEmptyName(chains, all[..], HashOf(all[idx].stationName))
      modifies this, entries, all
      ensures entries == old(entries) && Valid(all[..])
      ensures var h := HashOf(old(all[idx].stationName));
        if old(Found(chains, all[..], all[idx].stationName)) then
          chains == old(chains) && all[..] == old(all[..]) && entries[..] == old(entries[..])
        else
          && chains == old(chains)[h := [idx] + old(chains[h])]
          && all[..] == old(all[..])[idx := old(all[idx]).(next := old(entries[h]))]
          && entries[..] == old(entries[..])[h := Ref(idx)]
      ensures Found(chains, all[..], all[idx].stationName)
    {
      var name := all[idx].stationName;
      var h := Hash(name);
      assert Linked(entries[..], chains, all[..], h) && Hashed(chains, all[..], h);
      var entry := Lookup(all, name, h);
      if entry != Null {
        return;
      }
      PushFront(all, idx, h);
      assert chains[h][0] == idx && all[..][idx].stationName == name;
      StrEqReflexive(name);
    }

    /** Links entry `idx` in front of the chain of bucket `h`, the two
        assignments at the end of `hash_map_insert`. */
    method PushFront(all: array<HashMapEntry>, idx: nat, h: nat)
      requires Valid(all[..])
      requires idx < all.Length && h < MAX_STATIONS
      requires HashOf(all[idx].stationName) == h
      requires forall b :: 0 <= b < MAX_STATIONS ==> idx !in chains[b]
      modifies this, entries, all
      ensures entries == old(entries) && Valid(all[..])
      ensures chains == old(chains)[h := [idx] + old(chains[h])]
      ensures all[..] == old(all[..])[idx := old(all[idx]).(next := old(entries[h]))]
      ensures entries[..] == old(entries[..])[h := Ref(idx)]
    {
      Pushed(entries[..], chains, all[..], idx, h);
      all[idx] := all[idx].(next := entries[h]);
      entries[h] := Ref(idx);
      chains := chains[h := [idx] + chains[h]];
    }
  }
}
