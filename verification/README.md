# 1brc — a Dafny model of the aggregation core

This project models the core of a "one billion row challenge" entry. The
program reads a file of `station;temperature` lines and computes, for each
station, the minimum, the maximum, the count and the sum of its
temperatures. The entry has two programs:

- **The C program** (`src/main/c/1brc.c`). `main` maps the file, splits it
  into one partition per core, each ending at a line end, and starts one
  worker per partition. Each worker (`thread_function`) scans its partition
  record by record. It finds the `;` and the newline with `next_character`
  and parses the temperature at fixed offsets into tenths of a degree (an
  `s16`). It looks the station up in a chained hash map with `hash_map_get`.
  A new station claims the next entry of the worker's slice of a shared
  entry pool and is linked in with `hash_map_insert`. Finally the worker
  updates the entry's `s16` min, max, count and sum.
- **The Java program** (`CalculateAverage_juliovr.java`). So far it only
  counts the lines of the file. It reads eight bytes at a time, flags the
  newline bytes of each word with a borrow trick, and adds the flags up
  with a nibble-table population count.

The model has these parts:

- `Bytes`: the mapped file as bytes. Offsets past the end read as NUL, the
  zero-filled page tail that stops every scan. Also C `char` signedness and
  `s16` wrap-around.
- `Scanner`: `next_character`.
- `FixedPoint`: the value parser.
- `Hashing`: `hash` and `str_equals`.
- `HashTable`: the map, a class whose bucket array holds pool indices; its
  ghost chains say which entries each bucket links.
- `Worker`: the loop of `thread_function` for one worker, proved against
  a function on the records of its partition.
- `Format`: the measurements file, a line `name;value` per measurement,
  and the proof that the worker reads such a file back record by record.
- `Partition`: the partition loop of `main`.
- `Popcount`: `BITS_TABLE` and `count_set_bits`.
- `LineCount`: the Java `countSetBits` with its arithmetic shift, the
  newline mask and the counting loop.

## Model

| member | source | states |
|---|---|---|
| Bytes.Char | src/main/c/1brc.c:100 | a byte read as a signed `char` lies in -128..127, is negative exactly for bytes 0x80..0xFF and agrees with the byte modulo 256 |
| Bytes.Wrap16 | src/main/c/1brc.c:215-216 | storing into an `s16` keeps the value modulo 2^16 and keeps every value that fits unchanged |
| Scanner.Scan | src/main/c/1brc.c:58-65 | the first offset at or after the start holding the wanted byte or NUL: no earlier offset holds either, and it stays within the file unless the start is already past it |
| Scanner.ScanUnique | src/main/c/1brc.c:58-65 | the first-occurrence conditions determine the scan result uniquely |
| Scanner.NextCharacter | src/main/c/1brc.c:58-65 | the pointer-advancing loop stops at that first occurrence |
| FixedPoint.Digit | src/main/c/1brc.c:193 | `c - '0'` on a signed `char` is the digit's value for `'0'..'9'` and lies in -176..79 otherwise |
| FixedPoint.ParseValue | src/main/c/1brc.c:184-198 | the parsed value lies in ±19536, so the `s16` never truncates; with no `.` at either expected offset the value is 0 |
| FixedPoint.Render | src/main/c/1brc.c:182 | the text of a value in [-99.9, 99.9] has 3 to 5 bytes; it starts with `-` exactly when the value is negative, its second-to-last byte is `.`, and every other byte is a decimal digit |
| FixedPoint.ParseRender | src/main/c/1brc.c:184-198 | parsing the text of any value in [-99.9, 99.9], whatever follows it, gives that value back |
| FixedPoint.ParseTwoDigits | src/main/c/1brc.c:184-198 | every text `-?dd.d`, not only the canonical ones (`05.5`, `-00.0`), parses to 100·d0 + 10·d1 + d2, negated after a `-`, whatever follows |
| FixedPoint.ParseOneDigit | src/main/c/1brc.c:184-198 | every text `-?d.d` (`-0.0` included) parses to 10·d0 + d1, negated after a `-`, whatever follows |
| Format.LineText | src/main/c/1brc.c:171-182 | the line of a measurement is its name, `;`, the text of its value and a newline: as many bytes as the name and the text plus two |
| Format.ParseShift | src/main/c/1brc.c:184-198 | the parser only looks at the bytes from where it starts |
| Format.SemicolonScan | src/main/c/1brc.c:171 | on a well-formed line the scan for `;` from the line start stops right after the name |
| Format.NewlineScan | src/main/c/1brc.c:172 | on a well-formed line the scan for the newline from the `;` stops right after the value's text |
| Format.LineValue | src/main/c/1brc.c:184-198 | the value read after the `;` of a well-formed line is the measurement's value |
| Format.LineKey | src/main/c/1brc.c:175 | the name read before the `;` of a well-formed line is the measurement's name |
| Format.LineParts | src/main/c/1brc.c:171-221 | the record read at `ptr` is the name before the first `;` with the value after it, and the next record starts one past the newline after the `;` |
| Format.LineRead | src/main/c/1brc.c:171-221 | at the start of a well-formed line the worker reads exactly that measurement and goes on at the start of the next line |
| Format.RecordsCons | src/main/c/1brc.c:170-222 | where the record at `ptr` and its successor are known, the records from `ptr` are that record followed by those from the successor |
| Format.LineRecords | src/main/c/1brc.c:170-222 | the records read from the start of a well-formed line are its measurement followed by those read from the next line |
| Format.EndRead | src/main/c/1brc.c:170-198 | at the end of the file the loop reads one last record: an empty name with value 0, read from the NUL past the end |
| Format.TextRecords | src/main/c/1brc.c:170-222 | reading from the start of a run of well-formed lines to the end of the file gives their measurements in order, then the empty record |
| Format.FileRecords | src/main/c/1brc.c:170-222 | a worker over a whole file of well-formed lines reads its measurements in order plus one empty record, so at most one record has an empty name, as `ThreadFunction` requires |
| FixedPoint.Examples | src/main/c/1brc.c:182-198 | the values -99.9, -9.9, -0.1, 0.0, 0.1, 9.9 and 99.9 parse to their tenths |
| Hashing.Poly | src/main/c/1brc.c:98-102 | the rolling `h * 31 + c` value stays in `u32` range |
| Hashing.Hash | src/main/c/1brc.c:96-105 | the loop computes the rolling value over the whole name, reduced modulo 9999; so the bucket is below 9999 and bucket 9999 is never used |
| Hashing.StrEquals | src/main/c/1brc.c:107-116 | true exactly when the lengths agree and every byte but the last agrees |
| Hashing.SameFromSlices | src/main/c/1brc.c:111-113 | the pairwise byte comparison of `str_equals` decides equality of the compared slices, both directions |
| Hashing.StrEqReflexive | src/main/c/1brc.c:107-116 | every name is `str_equals` to itself |
| Hashing.LastCharSeparates | src/main/c/1brc.c:101-104 | two hashes that differ only in the last signed `char` added land in the same bucket only if the chars are equal |
| Hashing.StrEqSameBucket | src/main/c/1brc.c:107-116 | two names that `str_equals` accepts and that share a bucket are equal, so the unchecked last byte never causes a false match in the map |
| HashTable.Min | src/main/c/1brc.c:26 | `MIN` is the smaller of its two arguments |
| HashTable.Max | src/main/c/1brc.c:27 | `MAX` is the larger of its two arguments |
| HashTable.Step | src/main/c/1brc.c:213-216 | after one update the min and max bound the old extremes and the new value and each equals one of them; count and sum grow by 1 and by the value, modulo 2^16 |
| HashTable.FoundAmongMeans | src/main/c/1brc.c:141-145 | the chain walk's running predicate means that some entry among the first `k` is `str_equals` to the key, both directions |
| HashTable.Match | src/main/c/1brc.c:141-142 | an entry of the key's bucket that `str_equals` accepts is found and carries the key itself |
| HashTable.NoMatch | src/main/c/1brc.c:141-147 | when the walk passes every entry of the bucket, no entry matches the key |
| HashTable.KeepChained | src/main/c/1brc.c:213-216 | pool updates that keep every chained entry's name and link keep all buckets linked and hashed |
| HashTable.KeepFound | src/main/c/1brc.c:207-208 | naming an unchained entry changes no lookup result and keeps chained names non-empty |
| HashTable.Pushed | src/main/c/1brc.c:133-134 | linking an unchained entry of bucket `h` in front of its chain keeps the map linked and hashed |
| HashTable.HashMap.Init | src/main/c/1brc.c:86-94 | every bucket starts NULL and every chain empty |
| HashTable.HashMap.EmptyValid | src/main/c/1brc.c:86-94 | an empty map is valid over any pool and finds no name |
| HashTable.HashMap.Get | src/main/c/1brc.c:137-148 | NULL exactly when no entry of the key's bucket is `str_equals` to the key; otherwise an entry of that bucket whose name is the key |
| HashTable.HashMap.Lookup | src/main/c/1brc.c:140-147 | the walk along the `next` links of one bucket returns NULL exactly when no entry matches, otherwise a matching entry of that bucket |
| HashTable.HashMap.Insert | src/main/c/1brc.c:118-135 | with a match in the bucket nothing changes; otherwise the entry becomes the head of its bucket and links to the old head; the map stays valid and the name is found afterwards |
| HashTable.HashMap.PushFront | src/main/c/1brc.c:133-134 | the entry's `next` becomes the old head and the bucket head becomes the entry; nothing else changes and the map stays valid |
| Popcount.TableSum | src/main/c/1brc.c:45 | each `BITS_TABLE` entry is the sum of the four bits of its index |
| Popcount.NibbleStep | src/main/c/1brc.c:50-52 | the table lookup on the low nibble plus the count of the word shifted right by 4 is the count of the word |
| Popcount.BitsTableCounts | src/main/c/1brc.c:45 | `BITS_TABLE[v]` is the number of one bits of `v` for every nibble `v` |
| Popcount.PopcountZero | src/main/c/1brc.c:47-56 | zero has no one bits |
| Popcount.CountSetBits | src/main/c/1brc.c:47-56 | `count_set_bits` returns the number of one bits of its `u64` argument, between 0 and 64 |
| LineCount.Asr4 | src/main/java/dev/morling/onebrc/CalculateAverage_juliovr.java:71 | `l >>= 4` on a `long` shifts right by four and fills the top nibble with copies of the sign bit |
| LineCount.AsrAgrees | src/main/java/dev/morling/onebrc/CalculateAverage_juliovr.java:71 | Java's arithmetic shift agrees with a logical shift on every nibble still to be counted |
| LineCount.CountStep | src/main/java/dev/morling/onebrc/CalculateAverage_juliovr.java:68-72 | one iteration keeps the arithmetic-shift word equal to the logical one on the nibbles left, and the count so far plus the rest is the population count |
| LineCount.CountSetBitsJava | src/main/java/dev/morling/onebrc/CalculateAverage_juliovr.java:66-75 | `countSetBits(long)` returns the number of one bits of the 64-bit pattern, negative `long`s included, between 0 and 64 |
| LineCount.HasNewLine | src/main/java/dev/morling/onebrc/CalculateAverage_juliovr.java:145-147 | the mask has bits only at the high bit of each byte |
| LineCount.HighBitsCount | src/main/java/dev/morling/onebrc/CalculateAverage_juliovr.java:147-149 | the one bits of a word whose bits are all byte high bits are its flagged bytes, one per byte |
| LineCount.NewlineFlagged | src/main/java/dev/morling/onebrc/CalculateAverage_juliovr.java:145-147 | every `0x0A` byte of a word has its high bit set in the mask, whatever borrow comes from below |
| LineCount.ZeroNotFlagged | src/main/java/dev/morling/onebrc/CalculateAverage_juliovr.java:145-147 | a zero byte is never flagged, so the zero padding after the file end adds no lines |
| LineCount.VerticalTabAfterNewline | src/main/java/dev/morling/onebrc/CalculateAverage_juliovr.java:147 | the mask is not exact: a `0x0B` byte right above a newline is flagged too |
| LineCount.AtMostEight | src/main/java/dev/morling/onebrc/CalculateAverage_juliovr.java:147-149 | a word adds at most eight lines |
| LineCount.Word | src/main/java/dev/morling/onebrc/CalculateAverage_juliovr.java:142 | the `long` read at an address holds, little-endian, the byte at that address plus `k` as its byte `k` |
| LineCount.PackBytes | src/main/java/dev/morling/onebrc/CalculateAverage_juliovr.java:142 | byte `k` of the little-endian word read at an address is the byte at address + `k` |
| LineCount.PackedNewlineFlagged | src/main/java/dev/morling/onebrc/CalculateAverage_juliovr.java:142-147 | a newline among the eight bytes read is flagged at its own byte of the word |
| LineCount.NewlineInWordFlagged | src/main/java/dev/morling/onebrc/CalculateAverage_juliovr.java:142-147 | every newline byte of the file at `a..a+7` is flagged in the word read at `a` |
| LineCount.FlaggedBytes | src/main/java/dev/morling/onebrc/CalculateAverage_juliovr.java:142-147 | each newline byte of the eight read has its flag set at its own byte of the mask |
| LineCount.WordNewlines | src/main/java/dev/morling/onebrc/CalculateAverage_juliovr.java:142-149 | a word adds at least as many lines as it holds newline bytes |
| LineCount.NewlineCountCard | src/main/java/dev/morling/onebrc/CalculateAverage_juliovr.java:140-149 | counting newline bytes offset by offset gives the number of offsets holding a newline |
| LineCount.LinesAtLeast | src/main/java/dev/morling/onebrc/CalculateAverage_juliovr.java:140-149 | the flags counted over the first `n` words are at least the newline bytes among their `8n` bytes |
| LineCount.NewlinesCounted | src/main/java/dev/morling/onebrc/CalculateAverage_juliovr.java:140-149 | the words the loop reads for a file count at least the file's newline bytes and at most `fileSize + 7` flags |
| LineCount.LinesIn | src/main/java/dev/morling/onebrc/CalculateAverage_juliovr.java:140-149 | the flags counted over the first `n` words number at most `8n` |
| LineCount.CountLines | src/main/java/dev/morling/onebrc/CalculateAverage_juliovr.java:140-149 | the loop reads exactly `ceil(fileSize / 8)` words and `lines` is the sum of their flag counts, between 0 and `fileSize + 7`, and at least the number of newline bytes in the file |
| Partition.PlannedMeans | src/main/c/1brc.c:283-289 | in a planned table, entry `k` has id `k mod 256`, no claimed entries, starts right after entry `k-1` (or at 0), and ends at the file end if last, else at the first newline or NUL from `start + chunk_size` |
| Partition.PlanStep | src/main/c/1brc.c:284-289 | appending the parameters written for the next worker keeps the table planned |
| Partition.PlanPartitions | src/main/c/1brc.c:280-290 | the loop fills all `n_threads` entries as planned with `chunk_size = file_size / n_threads` |
| Partition.PlannedPartitions | src/main/c/1brc.c:280-290 | a planned table is contiguous from 0 to the file size, and each partition but the last holds at least `chunk_size` bytes and ends at a newline or NUL |
| Partition.StartsAfter | src/main/c/1brc.c:285-289 | in contiguous partitions every later partition starts after the end of every earlier one |
| Partition.Covered | src/main/c/1brc.c:280-290 | every offset up to the file size lies in some partition |
| Partition.Disjoint | src/main/c/1brc.c:280-290 | no offset lies in two partitions |
| Worker.Line | src/main/c/1brc.c:171-221 | the record at `ptr` and where its successor starts, which is always after `ptr` |
| Worker.Records | src/main/c/1brc.c:170-222 | the records the loop `ptr <= file_ptr_end` reads; empty exactly when `ptr` is already past the end |
| Worker.AccumulateExtremes | src/main/c/1brc.c:213-214 | after a station's records, min and max bound all its values and the old extremes, and each is one of its values or the old extreme |
| Worker.AccumulateTotals | src/main/c/1brc.c:215-216 | after a station's records, the count has grown by their number and the sum by their exact total, both modulo 2^16 |
| Worker.ZeroedEntryMin | src/main/c/1brc.c:206-213 | with a zeroed pool slot, the entry of a station whose only value is 1.0 ends with minimum 0.0 |
| Worker.FreshAccumulate | src/main/c/1brc.c:213-216 | from the fresh aggregate, a station with values ends with its least and greatest value as min and max, and its count and sum modulo 2^16 |
| Worker.TracksFresh | src/main/c/1brc.c:203-216 | when every claimed entry starts from the fresh aggregate, the claimed entries carry exactly the station names read, and each holds the least and greatest value of its station as min and max, and its count and sum modulo 2^16 |
| Worker.AccumulateAbsent | src/main/c/1brc.c:213-216 | records of other stations leave an aggregate unchanged |
| Worker.TrackExisting | src/main/c/1brc.c:213-216 | a record of a station that has an entry updates that entry only, and the map and pool keep tracking the records read |
| Worker.TrackNew | src/main/c/1brc.c:204-216 | a record of a new station claims the next pool entry, chains it in its bucket and updates it; tracking is kept |
| Worker.TracksCount | src/main/c/1brc.c:206 | the claimed entries number exactly the distinct station names read |
| Worker.UpdateEntry | src/main/c/1brc.c:213-216 | only the entry's aggregate changes, by one step with the value, and the map stays valid |
| Worker.ClaimEntry | src/main/c/1brc.c:205-216 | the next pool entry gets the name, heads its bucket, links to the old head and takes in the value; the map stays valid |
| Worker.EmptyKeyOnce | src/main/c/1brc.c:170-175 | when a record with an empty name is read, all earlier records had names |
| Worker.NoEmptyNameFromTracks | src/main/c/1brc.c:203 | while every record read had a name, no chained entry has an empty name, so `str_equals` never sees two empty names |
| Worker.NamedIsChained | src/main/c/1brc.c:203 | a station that has an entry is matched by an entry of its bucket |
| Worker.Aggregate | src/main/c/1brc.c:203-216 | get, claim and insert where missing, then update: the entry count grows by one exactly for a new name, and the map and pool go on tracking the records read plus this one |
| Worker.AddNew | src/main/c/1brc.c:204-216 | the missing-entry branch keeps tracking with the new name added |
| Worker.AddExisting | src/main/c/1brc.c:213-216 | the existing-entry branch keeps tracking with the same names |
| Worker.BeforeRecord | src/main/c/1brc.c:205-206 | a new name always finds a free entry in the worker's slice of the pool, and an empty name only comes after named ones |
| Worker.RecordsStep | src/main/c/1brc.c:170-221 | within the partition, the records from `ptr` are the one at `ptr` followed by those from the start of its successor |
| Worker.ReadLine | src/main/c/1brc.c:171-198 | finding `;` and the newline and parsing the value give exactly the record and successor of `Line` |
| Worker.ProcessLine | src/main/c/1brc.c:170-222 | one iteration advances `ptr`, moves one record from the unread to the read records, and keeps the map and pool tracking the read ones |
| Worker.ThreadFunction | src/main/c/1brc.c:160-225 | from an empty map, the worker claims one pool entry per distinct station of its partition, chained in its bucket, each holding its initial aggregate with all of that station's values taken in; every other pool entry is unchanged |
| Worker.FreshenedAt | src/main/c/1brc.c:278 | the corrected pool holds the fresh aggregate exactly in the given range of entries, every entry keeping its name and link |
| Worker.ResetPool | src/main/c/1brc.c:278 | the loop gives the entries of the given range, and only those, the fresh aggregate, as `Freshened` describes |
| Worker.FreshThreadFunction | src/main/c/1brc.c:160-225 | with only the worker's own slice of `MAX_STATIONS` entries reset, the map stays valid and tracks every record read (one chained, findable entry per distinct station, every other pool entry as it was), and each entry holds its name, the least and greatest of its values, and their count and sum modulo 2^16 |

## Left out

- Threads: `CreateThread`, `WaitForMultipleObjects`, and the race between
  workers sharing one `hash_map` and inserting into it at the same time.
  `Worker.ThreadFunction` is one worker with a map of its own.
- Operating-system plumbing: opening and mapping the file, the wall-clock
  timer, `setlocale`, `malloc` and all printing. The file reaches the model
  as a byte sequence.
- Reads past the file end: the C scans and the value parser can read beyond
  `file_size`. The model reads such offsets as NUL (`Bytes.At`), the
  zero-filled tail of the last mapped page. When the file ends exactly at a
  page boundary the source reads unmapped memory, which the model does not
  capture.
- Partition.PlanPartitions: when `file_ptr + chunk_size` passes the file
  end, the source calls `next_character` on memory past the mapping. The
  model reads it as NUL, so that partition ends right there.
- Worker.ThreadFunction: the last partition ends at `file_size`, where
  `ptr <= end` lets the loop read one more record: empty name, value 0. The
  model keeps this record. It requires that at most one empty-named record
  is read, because `str_equals` on two empty names reads past the end of both
  names.
- Hashing.StrEquals: requires the two names not to be both empty. That is
  the case above, where `--length1` starts from zero and the loop runs off
  the names.
- Worker.ThreadFunction: the fields of a newly claimed entry start with
  whatever `malloc` left there (the source never initialises min, max,
  count or sum). The model makes those values a parameter, the pool's
  contents before the call, and states the result relative to them.
  `Worker.FreshThreadFunction` resets the worker's slice to `FRESH_STATS`
  first and gives the exact result (see Findings). It requires at most
  `MAX_STATIONS` distinct names, so that every entry it claims lies in the
  slice it reset.
- Worker.ThreadFunction: requires the pool to have room, from the worker's
  base index `tid * MAX_STATIONS` on, for all its distinct names. The
  source checks nothing: past `MAX_STATIONS` names it writes into the
  next worker's slice.
- Worker.ThreadFunction: `tid` is a natural number. The `u8` wrap of the
  id for more than 256 workers is modelled in `Partition.PlanPartitions`.
- The `int` cast of the name length at line 175 is not modelled: names
  are unbounded.
- The unused locals `lines` and `value_length` of `thread_function`, and
  its test of `ptr_new_line`, which is never NULL.
- `count_set_bits` is never called in the C program. It is modelled
  because the Java counter uses the same table.
- LineCount.CountLines: the Java `getLong` reads up to seven bytes past
  the file end. The model requires the memory to hold whole words and
  leaves the padding bytes arbitrary. `ZeroNotFlagged` shows that zero
  padding adds no lines.
- LineCount.CountLines: bounds `lines` by `fileSize + 7` and does not
  model overflow of the `long`, which that bound rules out.
- LineCount.CountLines: proves that the count is at least the number of
  newline bytes of the file, but not that it equals it. The mask
  overcounts a `0x0B` byte right above a newline
  (`VerticalTabAfterNewline`), and padding bytes past the end may be
  flagged.
- LineCount.Word: reads the `long` little-endian. `Unsafe.getLong` uses
  the platform's native byte order. The model covers little-endian
  machines such as x86-64 and AArch64. On a big-endian machine byte `k`
  of the word is the byte at the address plus `7 - k`, an order the model
  does not cover.
- The Java `chunkSize`, `cores` and the `MeasurementAggregator` and
  `ResultRow` classes are not used by the counting loop. The commented-out
  code of the Java file is not modelled.
- Output: sorting the stations, computing the mean and printing the
  results are not implemented by either program's core and not modelled.

## Findings

| source | as written | input that shows it | evidently intended | confidence | as-written member | corrected member |
|---|---|---|---|---|---|---|
| src/main/c/1brc.c:206-216 | a newly claimed entry gets its name, but its min, max, count and sum keep whatever the `malloc` of the pool at line 278 left there; the first update then takes `MIN` and `MAX` with those values | a pool slot whose bytes are zero and a partition holding the one line `A;1.0`: the entry of `A` ends with min 0.0, not 1.0 | a new entry starts with min 32767, max -32768, count 0 and sum 0, so that the first value sets min and max | not executed | Worker.ZeroedEntryMin | Worker.FreshThreadFunction |
