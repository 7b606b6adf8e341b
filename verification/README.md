# Verified model of cascette-rs caching and resolution

A Dafny model of the parts of cascette-rs where a fast or stateful implementation has to
agree with a simple specification, with proofs over all inputs and all runs:

- `Calendar` - the closed-form day-count conversion against the day-by-day Gregorian calendar.
- `Simd` - the block-wise search and comparison kernels against first occurrence and a plain
  byte order, and the content search built on them against the window filter.
- `Keys`, `UniqueKeys` (with `Decimal`) - the printed forms of the ten cache key types and
  exactly when they name one key.
- `MemoryCache`, `DiskCache`, `ZeroCopy`, `BrowserCache`, `Layered` - the caches as state
  machines. Each class method is proved against a step relation or a function of the old
  state, and the run theorems are proved about those steps. The disk cache refines an
  expiring map.
- `LayerStack` - the layered cache over real memory and disk caches, with failing reads and
  used directories, and its run theorems.
- `DiskCrash` - the write-to-temporary, sync, rename protocol with interleaved writers,
  crashes at any step, and restarts.
- `RangeHeader`, `MirrorServer` - the range parser, the retrying bounded reader over
  nondeterministic reads, the least-recently-used body cache, and a whole request.
- `Pools`, `BufferPool` - size-class, thread-local and power-of-two buffer pools. A buffer
  is represented by its capacity.
- `Resolver` - path and content-key resolution with caches, against the uncached scans.
- `Accounting`, `Common` - sums over finite maps, enumeration, stable rank order, options.

Time is a parameter of each operation. Where a promised property does not hold of the code,
the model keeps the code, gives a failing case, and states on the state before the call when
the property holds:

- the Ttl eviction policy: `TtlExceedsCapacity`, `TtlCapacity`
- the memory cache's byte limit: `MemoryLimitExceeded`, `EvictionLeavesTooMuch`; `MemoryLimitNotEnforced`, `PutMeetsMemoryLimit`
- the disk cache's byte limit: `DiskStaysOverLimit`; `DiskLimitNotEnforced`, `CleanupMeetsByteLimit`
- the cleanup task's private counters: `CleanupMiscounts`; `CleanupLeavesCounters`, `CleanupLeavesUsage`
- removal and expiry across a restart: `RestartUndoesRemove`, `RestartForgetsExpiry`; `RemoveHides`
- removal after a failing read or on a used directory: `ReadErrorUndoesRemove`, `ReadErrorRevives`, `ReopeningRevives`; `RemoveHidesKey`, `StackRemoveHides`
- temporary files shared by two writes: `SharedTempTears`, `SharedTempKeys`; `FilesAreNeverTorn` (one direction)
- entries lapsing during a browser-cache put: `LapseBreaksLimit`; `LapseCondition`, `RoomWasForeseeable`
- keys with colons: `ColonLookalikes`; `CanonicalIsExact`, `UniqueIsExact`
- suffix ranges of zero or fewer bytes: `DoubleDash`; `AcceptedRangeIsWithinFile`, `NegativeLength`
- promotion over a shadowing layer: `PromoteUncoversOld`; `PromoteKeepsLookup`
- returned foreign buffers: `ForeignBufferLeavesClass`; `ReuseKeepsClass`
- pooled buffers that are too short: `LocalReuseFallsShort`, `ReuseFallsShort`; `LocalReuseSuffices`, `ReuseSuffices`
- statistics after a clear: `ClearForgetsAllocation`; `StatisticsAgree`
- reloading without clearing: `ReloadGoesStale`; `LoadIsInvisible`

Some doc comments in the source promise more than the code does; the model follows the code.
In particular the pools' comment that a buffer has at least the requested size is proved for
the size-class pools and refuted for the thread-local and the zero-copy pool.

## Model

| member | source | states |
|---|---|---|
| Calendar.EpochDaysToDate | crates/cascette-agent/build.rs:27-40 | The closed-form arithmetic yields a valid Gregorian date whose day number, by the independent date-to-days formula, is the argument |
| Calendar.EpochDaysToDateCountsDays | crates/cascette-agent/build.rs:27-40 | For every day count the result is the date reached by counting single days from 1970-01-01 (leap rule included): day 0 is 1970-01-01 and day n+1 is the calendar successor of day n |
| Calendar.EpochDaysToDateOrders | crates/cascette-agent/build.rs:27-40 | Strictly increasing and injective: later days are exactly the later dates |
| Calendar.EpochDaysToDateInverts | crates/cascette-agent/build.rs:27-40 | Left inverse of the date-to-days formula on every valid date from 1970-01-01 on |
| Calendar.NextDayAddsOne | crates/cascette-agent/build.rs:27-40 | The calendar successor has the next day number, across month ends, leap days and year ends |
| Calendar.DateToDaysOrders | crates/cascette-agent/build.rs:27-40 | Day numbers order valid dates as the calendar does and identify them |
| Calendar.YearOfEraBounds | crates/cascette-agent/build.rs:31-32 | The year-of-era estimate is the year whose days contain the given day of the 400-year era |
| Calendar.MonthOfDay | crates/cascette-agent/build.rs:35-37 | The month formula (5d+2)/153 finds the month that contains the day, counted from March |
| Calendar.EraDayNumber | crates/cascette-agent/build.rs:29-39 | The date assembled from era, year of era and day of year has the day number it was split from |
| Calendar.BuildDateFitsU64 | crates/cascette-agent/build.rs:9-17 | For every 64-bit count of seconds the day number, the shifted day number and the year fit in 64 bits, so unbounded arithmetic is faithful |
| Simd.MemcmpKernel | crates/cascette-cache/src/simd.rs:475-503 | The block loop with masks and scalar tail: of equal-length slices the first is Less if and only if it has the smaller byte at the first difference, Equal if and only if they are the same, for both block widths (32-byte AVX2; the 16-byte SSE2 twin is lines 649-677) |
| Simd.VectorizedMemcmp | crates/cascette-cache/src/simd.rs:345-359 | For every CPU feature set: Equal if and only if the slices are the same, Less if and only if the first is shorter, or of the same length with the smaller byte at the first difference |
| Simd.CmpSlicesMeans | crates/cascette-cache/src/simd.rs:475-503 | The byte-by-byte comparison in terms of the bytes: who has the smaller byte at the first difference |
| Simd.OrderIsTotal | crates/cascette-cache/src/simd.rs:345-359 | That order is total, antisymmetric and transitive, and Equal means equal slices |
| Simd.MemEqualKernel | crates/cascette-cache/src/simd.rs:553-594 | One pair of the batched comparison answers true exactly for equal slices |
| Simd.BatchMemEqual | crates/cascette-cache/src/simd.rs:385-395 | For every feature set, one answer per pair, true exactly where the order says Equal |
| Simd.WindowsPosition | crates/cascette-cache/src/simd.rs:362-382 | The scalar window search returns the least matching index, and none exactly when there is no match |
| Simd.MemmemKernel | crates/cascette-cache/src/simd.rs:507-549 | The vector search returns the least matching index or none exactly when there is no match, including matches across block boundaries and in the last partial block (SSE2 twin at lines 681-723) |
| Simd.VectorizedMemmem | crates/cascette-cache/src/simd.rs:362-382 | For every feature set and needle length the answer is the scalar window search's: the first occurrence, the empty needle included |
| Simd.OccurrencesAreAll | crates/cascette-cache/src/multi_layer.rs:706-746 | The reference list holds every occurrence, overlapping ones included, exactly once and in increasing order |
| Simd.WindowsFilterFindsAll | crates/cascette-cache/src/multi_layer.rs:728-735 | The scalar window filter collects exactly the occurrences |
| Simd.SearchLoop | crates/cascette-cache/src/multi_layer.rs:709-727 | The loop that restarts one byte after each hit terminates and collects exactly all occurrences in order |
| Simd.SearchContent | crates/cascette-cache/src/multi_layer.rs:706-746 | With and without vector support the positions are the same; the call panics exactly for a cached entry, an empty pattern and no vector support |
| Keys.CacheKeyBuffer.FormatRibbit | crates/cascette-cache/src/key.rs:57-68 | The buffer, cleared and appended to, holds the printed Ribbit key, whatever it held before |
| Keys.CacheKeyBuffer.FormatConfig | crates/cascette-cache/src/key.rs:70-77 | The same for configuration keys |
| Keys.CacheKeyBuffer.FormatBlte | crates/cascette-cache/src/key.rs:79-88 | The same for BLTE keys with and without block index |
| Keys.TextsOfNames | crates/cascette-cache/src/key.rs:70-474 | The literal texts of configuration, archive index, content and manifest keys |
| Keys.TextsOfFiles | crates/cascette-cache/src/key.rs:548-639 | The literal texts of root and encoding file keys, parsed and raw, with and without version or page |
| Keys.TextsOfBlocks | crates/cascette-cache/src/key.rs:764-776 | The literal texts of BLTE block keys, decompressed and raw, and of BLTE keys (lines 79-88) |
| Keys.TextOfRange | crates/cascette-cache/src/key.rs:693-700 | The literal text of archive range keys |
| Keys.HexInjective | crates/cascette-cache/src/key.rs:339-342 | Hexadecimal printing determines the 16 key bytes |
| Keys.RibbitUnambiguous | crates/cascette-cache/src/key.rs:57-68 | Two canonical Ribbit keys with the same text are field-equal; a missing product is told from a present one |
| Keys.ManifestUnambiguous | crates/cascette-cache/src/key.rs:466-474 | The same for manifest keys, whose version may contain anything |
| Keys.ArchiveRangeUnambiguous | crates/cascette-cache/src/key.rs:693-700 | The same for archive ranges with arbitrary archive ids |
| Keys.BlteBlockUnambiguous | crates/cascette-cache/src/key.rs:764-776 | The same for BLTE block keys |
| Keys.CanonicalPrintsAreDistinct | crates/cascette-cache/src/key.rs:46-88 | Across all ten key types two canonical keys print the same text only if they have the same type and equal fields |
| Keys.ColonFreeIsCanonical | crates/cascette-cache/src/key.rs:112-118 | Colon-free text fields suffice for a key to be canonical |
| Keys.CanonicalTwin | crates/cascette-cache/src/key.rs:155-164 | Every key has exactly one canonical key with its printed text; it is the key itself exactly when the key is canonical |
| Keys.CanonicalIsExact | crates/cascette-cache/src/key.rs:155-164 | The condition is exact: a key is canonical if and only if no other canonical key prints as it does |
| UniqueKeys.UniqueIsExact | crates/cascette-cache/src/key.rs:46-88 | A key's text is printed by no other key of any type if and only if its text fields have no colons and it has no product, or, for a manifest, its text holds one content key only |
| Keys.ColonLookalikes | crates/cascette-cache/src/key.rs:70-77 | Two different configuration keys, one with a colon in its type, print alike |
| MemoryCache.MemoryCache.constructor | crates/cascette-cache/src/memory_cache.rs:115-131 | A new cache is empty with both counters at zero |
| MemoryCache.MemoryCache.Drop | crates/cascette-cache/src/memory_cache.rs:466-474 | Removing one entry keeps the entry counter equal to the map size and the byte counter equal to the sum of sizes, without underflow |
| MemoryCache.MemoryCache.EvictRanked | crates/cascette-cache/src/memory_cache.rs:225-314 | Exactly the computed count goes, and of an entry that goes and one that stays the first was accessed no later, no more often, or created no later, as the policy says; any entries under the random policy |
| MemoryCache.MemoryCache.EvictExpired | crates/cascette-cache/src/memory_cache.rs:317-338 | An entry stays if and only if it has no expiry time or one still ahead |
| MemoryCache.MemoryCache.PerformEviction | crates/cascette-cache/src/memory_cache.rs:201-222 | Eviction by policy down to 90% of `max_entries`, only when above it |
| MemoryCache.MemoryCache.NeedsEvictionNow | crates/cascette-cache/src/memory_cache.rs:189-198 | The counters decide as the map itself would |
| MemoryCache.MemoryCache.GetOp | crates/cascette-cache/src/memory_cache.rs:371-401 | A live entry is returned and its access recorded, an expired one removed, and the counters stay exact |
| MemoryCache.MemoryCache.PutWithTtl | crates/cascette-cache/src/memory_cache.rs:409-442 | A put evicts if needed, then stores; counters stay exact on insert and on overwrite |
| MemoryCache.MemoryCache.PutOp | crates/cascette-cache/src/memory_cache.rs:403-407 | A put without lifetime uses the configured default, or one hour |
| MemoryCache.MemoryCache.ContainsOp | crates/cascette-cache/src/memory_cache.rs:444-464 | True exactly for a live entry; an expired one is removed |
| MemoryCache.MemoryCache.RemoveOp | crates/cascette-cache/src/memory_cache.rs:466-474 | Removes the key and says whether it was there |
| MemoryCache.MemoryCache.ClearOp | crates/cascette-cache/src/memory_cache.rs:477-483 | Empties the map and the counters |
| MemoryCache.MemoryCache.SizeOp | crates/cascette-cache/src/memory_cache.rs:489-491 | The counter returned is the number of entries |
| MemoryCache.RunKeepsCapacity | crates/cascette-cache/src/memory_cache.rs:189-314 | Over every run under every policy but Ttl the map never exceeds `max_entries` |
| MemoryCache.TtlCapacity | crates/cascette-cache/src/memory_cache.rs:201-222 | Under Ttl, from any store, a put ends above `max_entries` if and only if the cache was full and the live entries together with the key are too many |
| MemoryCache.TtlFirstOverflow | crates/cascette-cache/src/memory_cache.rs:201-222 | From a store within the bound: if and only if it is full, the key is new and nothing has expired |
| MemoryCache.TtlExceedsCapacity | crates/cascette-cache/src/memory_cache.rs:201-222 | A run of two puts under Ttl that holds two entries where one is allowed |
| MemoryCache.EvictionActs | crates/cascette-cache/src/memory_cache.rs:189-222 | Eviction takes anything if and only if a limit is reached, the entry count is above 90% of `max_entries` and, under Ttl, something has expired |
| MemoryCache.EvictionMeans | crates/cascette-cache/src/memory_cache.rs:189-314 | An eviction on the entries themselves: when it starts, how many are left (90% of `max_entries`), and by which field the order goes under each policy |
| MemoryCache.TtlEvictionMeans | crates/cascette-cache/src/memory_cache.rs:317-338 | Under Ttl an eviction keeps exactly the entries without expiry time or with one still ahead |
| MemoryCache.EvictionIsExact | crates/cascette-cache/src/memory_cache.rs:225-291 | Where nothing is evicted, or not by rank, or no two ranks are equal, the store before an eviction fixes the store after it |
| MemoryCache.EvictionIsBetween | crates/cascette-cache/src/memory_cache.rs:225-314 | Whatever ranks are equal, an entry with enough others below it stays, and one that stays has enough others no higher |
| MemoryCache.PutMeetsMemoryLimit | crates/cascette-cache/src/memory_cache.rs:409-442 | When a put ends within a byte limit, stated on the store before it: if all that may stay fits; not if all that must stay does not fit; and exactly so without equal ranks or without eviction |
| MemoryCache.MemoryLimitExceeded | crates/cascette-cache/src/memory_cache.rs:189-222 | A run of two puts that passes the byte limit, the second of which finds it reached and evicts nothing |
| MemoryCache.EvictionLeavesTooMuch | crates/cascette-cache/src/memory_cache.rs:201-222 | An eviction that acts and still leaves more than the byte limit |
| MemoryCache.MemoryLimitNotEnforced | crates/cascette-cache/src/memory_cache.rs:201-222 | Eviction may do exactly the same without the byte limit if and only if the limit is not reached, or the entry count is at or below 90% of `max_entries` or at `max_entries` already, or under Ttl nothing has expired |
| MemoryCache.RunHoldsLatest | crates/cascette-cache/src/memory_cache.rs:371-483 | In every run whatever an entry holds is the last value put for its key and not removed since |
| MemoryCache.GetReturnsLatest | crates/cascette-cache/src/memory_cache.rs:371-401 | In every run a hit returns the last value put for the key |
| MemoryCache.PutHappens | crates/cascette-cache/src/memory_cache.rs:409-442 | From every store a put comes to an end, whatever it has to evict |
| MemoryCache.PutThenGet | crates/cascette-cache/src/memory_cache.rs:371-442 | A get after a put returns the value if and only if the lifetime is not over |
| MemoryCache.RunStamps | crates/cascette-cache/src/memory_cache.rs:371-442 | In every run each entry's access time, use count, creation time and size are those the operations so far give it |
| MemoryCache.RunEvictsByUse | crates/cascette-cache/src/memory_cache.rs:189-291 | In every run, stated on the operations alone: what a put evicts was used last no later, used no more often, or put no later than what it leaves |
| DiskCache.FilesAreDistinct | crates/cascette-cache/src/disk_cache.rs:291-317 | Well-named keys have different files, and no key's file is another write's temporary file |
| DiskCache.HashIsBase31 | crates/cascette-cache/src/disk_cache.rs:296-298 | The wrapping hash of a name is its text in base 31, cut to 64 bits once at the end |
| DiskCache.DirectoryIs | crates/cascette-cache/src/disk_cache.rs:300-309 | The directories of a file are the low bytes of that number, lowest first |
| DiskCache.TempPathMeans | crates/cascette-cache/src/disk_cache.rs:327-328 | The temporary name replaces what follows the last dot, unless there is none or it leads the name |
| DiskCache.CountedMeans | crates/cascette-cache/src/disk_cache.rs:454-476 | A file is left out of the count if and only if its extension is `tmp` in any case |
| DiskCache.DiskCache.WriteFile | crates/cascette-cache/src/disk_cache.rs:320-363 | Without failures the temporary file is gone and the target holds exactly the data |
| DiskCache.DiskCache.GetOp | crates/cascette-cache/src/disk_cache.rs:481-575 | All paths (live hit, expired entry, indexed entry whose file is gone or cannot be read, adoption of an unindexed file, unreadable unindexed file, miss) with exact counters; a failed read drops the index entry and leaves the file |
| DiskCache.DiskCache.PutWithTtl | crates/cascette-cache/src/disk_cache.rs:584-626 | The file, the index entry and both counters after a put, new key or overwrite |
| DiskCache.DiskCache.ContainsOp | crates/cascette-cache/src/disk_cache.rs:631-647 | True exactly when the key is indexed and a read at the same moment returns its bytes |
| DiskCache.DiskCache.RemoveOp | crates/cascette-cache/src/disk_cache.rs:649-666 | Removes an indexed key's file and entry and settles the counters |
| DiskCache.DiskCache.ClearOp | crates/cascette-cache/src/disk_cache.rs:668-690 | No file and no entry is left, counters zero |
| DiskCache.DiskCache.SizeOp | crates/cascette-cache/src/disk_cache.rs:696-707 | The entry count, or the counted files when the index is empty |
| DiskCache.PutRefines | crates/cascette-cache/src/disk_cache.rs:584-626 | A put acts on the directory and index as an insertion into an expiring map, files staying exactly those of indexed keys |
| DiskCache.GetRefines | crates/cascette-cache/src/disk_cache.rs:481-575 | A get answers as the expiring map and drops exactly what has lapsed |
| DiskCache.StepRefines | crates/cascette-cache/src/disk_cache.rs:481-707 | Every operation does to directory and index what it does to an expiring map, with the same answer |
| DiskCache.EveryRunRefines | crates/cascette-cache/src/disk_cache.rs:481-707 | From an empty directory every run of get, put, contains, remove, clear and size answers as an expiring map, and the files are exactly those of the indexed keys |
| DiskCache.DiskCache.CleanupPass | crates/cascette-cache/src/disk_cache.rs:193-250 | The pass removes outlived entries and, over `max_files`, more in least-recently-used order; exactly the files of the entries that go are deleted |
| DiskCache.LeastRecent | crates/cascette-cache/src/disk_cache.rs:215-232 | The victims are the least recently used, exactly as many as the excess |
| DiskCache.CleanupReachesTarget | crates/cascette-cache/src/disk_cache.rs:193-250 | Over `max_files` the pass ends at or below 90% of it; every survivor is unexpired, at most 24 hours old and at least as recently used as each ranked victim |
| DiskCache.CleanupMeans | crates/cascette-cache/src/disk_cache.rs:193-250 | A pass on the entries themselves: at or below `max_files` exactly those expired or older than a day go; above it the exact number left, the least recently used going first |
| DiskCache.FreshEntrySurvives | crates/cascette-cache/src/disk_cache.rs:193-250 | An entry just put outlasts a pass at or below `max_files` if and only if neither its lifetime nor a day is over |
| DiskCache.EntryAfter | crates/cascette-cache/src/disk_cache.rs:481-626 | What each operation writes into the index entry of its key, field by field; no other entry changes |
| DiskCache.RunStamps | crates/cascette-cache/src/disk_cache.rs:481-626 | In every run an entry's access time is that of the last put or hit of its key |
| DiskCache.RunCleansByUse | crates/cascette-cache/src/disk_cache.rs:193-250 | So in every run, stated on the operations: an entry a pass takes before its time was last put or read no later than every entry it leaves |
| DiskCache.DiskLimitNotEnforced | crates/cascette-cache/src/disk_cache.rs:210-233 | For every index a pass may do exactly the same with the byte limit as without it |
| DiskCache.CleanupIsExact | crates/cascette-cache/src/disk_cache.rs:193-250 | With distinct access times, or at or below `max_files`, the index before a pass fixes the index after it |
| DiskCache.CleanupIsBetween | crates/cascette-cache/src/disk_cache.rs:193-250 | Whatever access times are equal, an entry with enough others used before it stays, and one that stays has enough others used no later |
| DiskCache.CleanupMeetsByteLimit | crates/cascette-cache/src/disk_cache.rs:193-250 | The bytes left lie between those of the entries that must stay and of those that may; at or below `max_files`, or with distinct access times, the pass ends within a byte limit if and only if the entries that must stay fit |
| DiskCache.DiskStaysOverLimit | crates/cascette-cache/src/disk_cache.rs:210-233 | One fresh entry of ten bytes under a limit of five, which every pass leaves |
| DiskCache.CleanupLeavesCounters | crates/cascette-cache/src/disk_cache.rs:172-250 | The pass settles counters of its own: the cache's entry counter stays right if and only if nothing has aged and there are at most `max_files` entries |
| DiskCache.CleanupLeavesUsage | crates/cascette-cache/src/disk_cache.rs:172-250 | The byte counter stays right if every entry that is not empty must survive, goes wrong if one cannot, exactly so with distinct access times or at most `max_files` entries; without empty entries, on the same condition as the entry counter |
| DiskCache.CleanupMiscounts | crates/cascette-cache/src/disk_cache.rs:172-250 | One expired entry: the pass empties the index while both counters keep counting it |
| DiskCache.RemoveHides | crates/cascette-cache/src/disk_cache.rs:649-666 | After a removal a get finds nothing if and only if the key was indexed or had no file (a restarted cache can bring a removed key back) |
| DiskCache.RestartUndoesRemove | crates/cascette-cache/src/disk_cache.rs:649-666 | For every put: after a restart and a removal the value is still returned |
| DiskCache.ReadErrorUndoesRemove | crates/cascette-cache/src/disk_cache.rs:525-535 | For every put: after a failing read a removal finds nothing, and the next read returns the removed value |
| DiskCache.RestartForgetsExpiry | crates/cascette-cache/src/disk_cache.rs:537-571 | A restarted cache returns a value at any later time, while the old instance lets it lapse exactly from its expiry on |
| DiskCache.KeysAreWellNamed | crates/cascette-cache/src/disk_cache.rs:291-317 | The ten key types under their printer meet the naming condition, for canonical keys without slash and not ending in `.tmp` |
| DiskCache.LookalikesShareAFile | crates/cascette-cache/src/disk_cache.rs:291-317 | A key that is not canonical shares its file with another key |
| DiskCrash.RunKeepsInv | crates/cascette-cache/src/disk_cache.rs:320-363 | What every step of create, write, sync, rename, record, read, expiry, remove, clear and crash keeps, for any number of interleaved writers with different temporary files |
| DiskCrash.RenameKeeps | crates/cascette-cache/src/disk_cache.rs:359-360 | Renaming publishes exactly the synced data and keeps the other writers' files |
| DiskCrash.CrashKeeps | crates/cascette-cache/src/disk_cache.rs:320-363 | A crash, whatever unsynced bytes it loses, keeps every published file whole |
| DiskCrash.FilesAreNeverTorn | crates/cascette-cache/src/disk_cache.rs:320-363 | In every reachable state, crashes included, each key's file holds one complete put value: the last one published and not deleted since |
| DiskCrash.GetReturnsCommitted | crates/cascette-cache/src/disk_cache.rs:481-575 | Every read of every run returns the published value of its key; a key without one, or whose file cannot be read, is a miss, or an error exactly when the index lists it |
| DiskCrash.RestartReturnsCommitted | crates/cascette-cache/src/disk_cache.rs:537-571 | The first read after a crash, of an empty index, returns what was published before the crash, or nothing |
| DiskCrash.ReadAgrees | crates/cascette-cache/src/disk_cache.rs:481-575 | A read step does to files and index what the cache's get does, with the same answer |
| DiskCrash.LapseAgrees | crates/cascette-cache/src/disk_cache.rs:494-509 | A lapse step is a get that finds its entry expired |
| DiskCrash.RemovalAgrees | crates/cascette-cache/src/disk_cache.rs:649-690 | The same for removals and clears |
| DiskCrash.PutAgrees | crates/cascette-cache/src/disk_cache.rs:320-363 | The five steps of a write, uninterrupted, do what a put does to files and index |
| DiskCrash.PutHappens | crates/cascette-cache/src/disk_cache.rs:320-363 | From every state those steps can be taken |
| DiskCrash.CrashMayLose | crates/cascette-cache/src/disk_cache.rs:320-363 | At a crash any files not synced may be lost and any other such file changed |
| DiskCrash.SharedTempTears | crates/cascette-cache/src/disk_cache.rs:327-360 | Two writes sharing a temporary file, for two keys or for one, can publish bytes that were never put |
| DiskCrash.SameStemSameTemp | crates/cascette-cache/src/disk_cache.rs:328 | Names that differ only after the last dot share a temporary file |
| DiskCrash.SharedTempKeys | crates/cascette-cache/src/disk_cache.rs:328 | Two configuration keys with hashes `h.1` and `h.2` share a temporary file |
| Layered.HitLayer | crates/cascette-cache/src/multi_layer.rs:756-828 | The layer that answers is the first one that does not fail and has an entry for the key |
| Layered.LayeredCache.constructor | crates/cascette-cache/src/multi_layer.rs:175-227 | Layers start with what they can already answer and with what they list, which for a disk layer on a used directory is nothing; no tracker entries, counts or promotions |
| Layered.LayeredCache.Get | crates/cascette-cache/src/multi_layer.rs:756-828 | The answer is the first hit from the top; the layer that answers lists the key and those asked before, failing ones included, unlist it; counters and tracker record exactly the layers visited |
| Layered.LayeredCache.Put | crates/cascette-cache/src/multi_layer.rs:830-845 | A put stores in the top layer only and resets the tracker |
| Layered.LayeredCache.PutToLayer | crates/cascette-cache/src/multi_layer.rs:991-1001 | Stores in the named layer only, or refuses a layer that does not exist |
| Layered.PutThenGet | crates/cascette-cache/src/multi_layer.rs:756-1001 | What is put is returned by a lookup and by its layer; no other key's lookup changes |
| Layered.LayeredCache.GetFromLayer | crates/cascette-cache/src/multi_layer.rs:979-989 | The answer a lookup gives when every other layer fails; an error exactly for a layer that does not exist or a failing read of a listed key |
| Layered.LayeredCache.Promote | crates/cascette-cache/src/multi_layer.rs:260-282 | Copies the value to a faster layer, records the move and counts it; otherwise changes nothing (entry point at lines 1003-1011) |
| Layered.LayeredCache.Contains | crates/cascette-cache/src/multi_layer.rs:865-873 | True only if a lookup would find the key, and false where a lookup finds it exactly when no layer that has it lists it |
| Layered.LayeredCache.Remove | crates/cascette-cache/src/multi_layer.rs:875-891 | The key is gone from every layer that lists it; the answer says whether any did |
| Layered.LayeredCache.Clear | crates/cascette-cache/src/multi_layer.rs:893-916 | All layers, counters and trackers are empty |
| Layered.RemoveHidesKey | crates/cascette-cache/src/multi_layer.rs:875-891 | After a removal a lookup finds nothing if and only if every layer lists the key or does not have it |
| Layered.PromoteKeepsLookup | crates/cascette-cache/src/multi_layer.rs:260-282 | A promotion leaves the key's lookup as it was if and only if a layer above the target answers or the answer already was the promoted value |
| Layered.PromoteUncoversOld | crates/cascette-cache/src/multi_layer.rs:260-282 | Three layers where promoting past a shadowing one changes the answer |
| Layered.PromoteUnshadowed | crates/cascette-cache/src/multi_layer.rs:260-282 | Promoting a key that no faster layer shadows, or failing to, changes no lookup at all |
| Layered.GetReturnsStored | crates/cascette-cache/src/multi_layer.rs:756-915 | In every run, from any layers, with any losses and failing reads, a read returns only a value held at the start or stored since, and not cleared or removed since by a removal that hid it |
| Layered.ReliableRemoveHides | crates/cascette-cache/src/multi_layer.rs:756-915 | In every run from layers that list all they have, with no failing read, every removal hides its key |
| Layered.ReadErrorRevives | crates/cascette-cache/src/multi_layer.rs:756-891 | A run of put, failing read, remove and get that returns the removed value |
| Layered.ReopeningRevives | crates/cascette-cache/src/multi_layer.rs:875-891 | A run on a reopened directory of remove and get that returns the removed value |
| Layered.GetReturnsLatest | crates/cascette-cache/src/multi_layer.rs:756-845 | In every run from empty layers that stores by `put` only, a lookup returns the latest value not hidden or cleared since, failing reads included |
| LayerStack.MemoryCacheIsALayer | crates/cascette-cache/src/memory_cache.rs:371-483 | The memory cache is such a layer, whose reads never fail: each step reads, stores, removes or clears as a layer may |
| LayerStack.DiskCacheIsALayer | crates/cascette-cache/src/disk_cache.rs:481-690 | So is the disk cache on any directory, used ones included, whichever of its reads fail |
| LayerStack.TimeFades | crates/cascette-cache/src/disk_cache.rs:77-80 | For both, the passing of time only takes entries away and unlists none that stay |
| LayerStack.StackStepIsStep | crates/cascette-cache/src/multi_layer.rs:756-1011 | Every operation over memory and disk caches, failing disk reads included, is the abstract one on what is visible at that moment, except that eviction may lose entries |
| LayerStack.StackGetReturnsStored | crates/cascette-cache/src/multi_layer.rs:756-915 | In every run over real memory and disk layers, on used directories, with their evictions, expiries and failing reads, a lookup returns only a value visible at the start or stored since, and not hidden or cleared since |
| LayerStack.StackRemoveHides | crates/cascette-cache/src/multi_layer.rs:875-891 | On real layers a removal hides the key if and only if every disk layer indexes it or has no file for it |
| LayerStack.EveryCallHappens | crates/cascette-cache/src/multi_layer.rs:756-1001 | On every stack of memory and disk layers every call comes to some result, so that the statements about runs are about all calls |
| LayerStack.StackListsAll | crates/cascette-cache/src/multi_layer.rs:756-915 | In every run from real layers that list all they have, with no failing read, every removal hides its key |
| BrowserCache.BrowserCache.CalculateSize | crates/cascette-cache/src/local_storage_cache.rs:254-270 | The sum over the cache's own unexpired entries |
| BrowserCache.BrowserCache.CleanupExpired | crates/cascette-cache/src/local_storage_cache.rs:273-290 | Exactly the cache's own expired entries go, and their number is returned |
| BrowserCache.BrowserCache.RemoveUntilFreed | crates/cascette-cache/src/local_storage_cache.rs:324-334 | Stops as soon as enough is freed: one removal fewer would free too little |
| BrowserCache.BrowserCache.EvictOldest | crates/cascette-cache/src/indexed_db_cache.rs:515-536 | Removes a minimal oldest-first prefix that frees the target, or everything |
| BrowserCache.BrowserCache.EvictIfNeeded | crates/cascette-cache/src/local_storage_cache.rs:293-337 | Measure, clean, measure again, evict by age: each stage only when the one before did not make room |
| BrowserCache.BrowserCache.PutWithTtl | crates/cascette-cache/src/local_storage_cache.rs:359-367 | Evicts for the new size, then stores the entry; what it stores is what the next read returns, as PutThenGet states |
| BrowserCache.PutThenGet | crates/cascette-cache/src/local_storage_cache.rs:342-367 | A get after a put is a hit with the value if and only if the lifetime is not over, and a miss otherwise; an expiry time of zero never comes |
| BrowserCache.BrowserCache.Get | crates/cascette-cache/src/local_storage_cache.rs:342-353 | A live entry is returned, an expired one removed; an item that cannot be read is an error in LocalStorage and a miss in the object store, and a value that does not decode is a miss |
| BrowserCache.BrowserCache.Remove | crates/cascette-cache/src/local_storage_cache.rs:373-379 | Removes the key and says whether it was there |
| BrowserCache.BrowserCache.Clear | crates/cascette-cache/src/local_storage_cache.rs:381-390 | Removes the cache's own items and no others |
| BrowserCache.EvictionConserves | crates/cascette-cache/src/local_storage_cache.rs:293-337 | Conservation: live bytes before equal live bytes after plus bytes freed less the freed bytes that were stale |
| BrowserCache.EvictionMakesRoom | crates/cascette-cache/src/local_storage_cache.rs:293-337 | If no entry lapses between cleaning and measuring, there is room afterwards if and only if the needed size fits on its own |
| BrowserCache.LapseCondition | crates/cascette-cache/src/indexed_db_cache.rs:499-539 | If the clock moves in between and creation times are distinct, there is room if and only if, before the stage, the live entries up to each moment free enough whenever all entries up to it do |
| BrowserCache.EvictsUpToMoment | crates/cascette-cache/src/indexed_db_cache.rs:514-536 | With distinct creation times the stage takes everything created up to the first moment that frees enough |
| BrowserCache.LapseWithTies | crates/cascette-cache/src/indexed_db_cache.rs:499-539 | With equal creation times, a sufficient condition on the store before the stage |
| BrowserCache.EvictionRoomIsForeseeable | crates/cascette-cache/src/local_storage_cache.rs:293-337 | A whole eviction makes room if the needed size fits and the condition, checked before the call and covering equal creation times, holds |
| BrowserCache.RoomWasForeseeable | crates/cascette-cache/src/local_storage_cache.rs:293-337 | With distinct creation times an eviction makes room only then |
| BrowserCache.PutRespectsLimit | crates/cascette-cache/src/local_storage_cache.rs:359-367 | After a foreseeable put that stays alive the live bytes are within the limit if and only if the value is |
| BrowserCache.LapseBreaksLimit | crates/cascette-cache/src/local_storage_cache.rs:293-337 | A put of a value within the limit that leaves live bytes above it, because an entry lapsed during the call |
| BrowserCache.RunRespectsLimit | crates/cascette-cache/src/local_storage_cache.rs:342-390 | Over every run of foreseeable puts whose values fit on their own, live bytes stay within the limit after every operation |
| BrowserCache.ForeignItemsKept | crates/cascette-cache/src/local_storage_cache.rs:235-252 | Items outside the cache's key prefix are never changed |
| BrowserCache.GetReturnsLatest | crates/cascette-cache/src/local_storage_cache.rs:342-390 | In every run, whatever the clock does, a hit returns the value last put for the key, or held at the start, and not removed or cleared since |
| BrowserCache.EvictionTakesOldest | crates/cascette-cache/src/local_storage_cache.rs:293-337 | Eviction takes only the cache's own readable entries: expired ones, and ones created no later than every such entry it leaves |
| ZeroCopy.ZeroCopyCache.Remove | crates/cascette-cache/src/zerocopy.rs:400-407 | The memory counter stays the sum of entry sizes, without underflow |
| ZeroCopy.ZeroCopyCache.Oldest | crates/cascette-cache/src/zerocopy.rs:459-465 | The entry chosen is one of the oldest |
| ZeroCopy.ZeroCopyCache.EvictLru | crates/cascette-cache/src/zerocopy.rs:459-468 | Removes exactly one oldest entry |
| ZeroCopy.ZeroCopyCache.MakeRoom | crates/cascette-cache/src/zerocopy.rs:344-347 | The eviction loop terminates, removes oldest first, and one removal fewer would not have made room |
| ZeroCopy.ZeroCopyCache.Put | crates/cascette-cache/src/zerocopy.rs:340-355 | After a put memory is within the limit unless one oversized entry is alone in the cache |
| ZeroCopy.ZeroCopyCache.Clear | crates/cascette-cache/src/zerocopy.rs:453-456 | Empty cache, counter zero |
| ZeroCopy.ZeroCopyCache.Compact | crates/cascette-cache/src/zerocopy.rs:471-482 | Exactly the entries older than the lifetime go |
| ZeroCopy.RunIsBounded | crates/cascette-cache/src/zerocopy.rs:340-482 | In every run memory is within the limit unless one oversized entry is alone |
| ZeroCopy.GetReturnsLatest | crates/cascette-cache/src/zerocopy.rs:358-369 | In every run a hit returns the bytes put last for the key and not removed since |
| ZeroCopy.PutThenGet | crates/cascette-cache/src/zerocopy.rs:340-369 | A get after a put returns the bytes, whatever had to go for them |
| ZeroCopy.RunEvictsOldest | crates/cascette-cache/src/zerocopy.rs:340-355 | In every run, stated on the operations: what a put evicts was put no later than what it leaves |
| RangeHeader.ParseRangeIsExact | tools/range_http_server.py:281-307 | A satisfiable single range (section 14.1.2 of RFC 9110) parses to exactly the bytes it asks for; an unsatisfiable one is refused, except a suffix range, which is accepted as empty |
| RangeHeader.AcceptedRangeIsWithinFile | tools/range_http_server.py:281-307 | For every header text, an accepted range is a non-empty part of the file if and only if it has a start, or is a suffix of at least one byte of a non-empty file |
| RangeHeader.NegativeLength | tools/range_http_server.py:281-307 | An accepted range has a negative length if and only if the header is a suffix range with a negative number |
| RangeHeader.DoubleDash | tools/range_http_server.py:292-306 | Such a header: two dashes and a five |
| RangeHeader.PyIntReadsPrint | tools/range_http_server.py:293-294 | The integer parser reads back every printed number |
| RangeHeader.PyIntReadsSigned | tools/range_http_server.py:293-294 | A leading sign is read |
| RangeHeader.PyIntDropsPadding | tools/range_http_server.py:293-294 | ASCII white space on either side of a number is dropped |
| RangeHeader.UnsignedIsGrouped | tools/range_http_server.py:293-294 | An unsigned number is read if and only if it is groups of digits with single underscores between them |
| RangeHeader.SplitDash | tools/range_http_server.py:292 | The header is cut at its first dash |
| MirrorServer.RawFile.Read | tools/range_http_server.py:458-470 | The environment: a read fails, or returns any prefix of what stands at the position |
| MirrorServer.BoundedFile.Read | tools/range_http_server.py:452-481 | Under any pattern of transient errors and truncation, a chunk is what stands at the position, within the limit; progress and position stay in step |
| MirrorServer.BytesSource.Read | tools/range_http_server.py:501-506 | The in-memory source returns the next bytes of its slice |
| MirrorServer.CopyFile | tools/range_http_server.py:410-425 | The throttled copy writes exactly the content length, in order, none lost or repeated, unless the file or the client fails; then it has written a prefix |
| MirrorServer.CopyBytes | tools/range_http_server.py:410-425 | The same for a cached body |
| MirrorServer.FileCache.CacheGet | tools/range_http_server.py:154-163 | A hit returns the stored body and moves its path to the most recent end, everything else keeping its order; a miss changes nothing |
| MirrorServer.FileCache.CachePut | tools/range_http_server.py:165-176 | Replaces or appends, then evicts the shortest sufficient run from the least-recent end; the byte counter equals the stored lengths and is within the budget |
| MirrorServer.StoredMeans | tools/range_http_server.py:165-176 | Before anything is evicted, a path already present keeps its place with the new body and a new one comes last |
| MirrorServer.FileCache.Trim | tools/range_http_server.py:171-176 | The eviction loop alone: shortest sufficient run, survivors in order |
| MirrorServer.NewPathStays | tools/range_http_server.py:165-176 | A newly stored path is still cached after its own eviction pass |
| MirrorServer.SendCached | tools/range_http_server.py:369-425 | A cached body is sent completely unless the client fails, and then as a prefix |
| MirrorServer.SendFromDrive | tools/range_http_server.py:276-279 | A body from disk is sent completely unless the file or the client fails, and then as a prefix |
| MirrorServer.ChooseRange | tools/range_http_server.py:240-250 | No header means the whole file; an accepted range lies within the file |
| MirrorServer.Deliver | tools/range_http_server.py:257-279 | What the client receives is a prefix of the requested bytes, and all of them if neither file nor client fails; a request is dropped only if the file fails and is not a cached one within the size limit; a small file sent whole is cached; the cache keeps mirroring the disk |
| MirrorServer.Respond | tools/range_http_server.py:230-279 | Refused exactly for an unsatisfiable range; otherwise status and body are the requested ones, completely sent if neither file nor client fails, and dropped only if the file fails and is not cached; a finished body has the announced length if and only if that is not negative, which fails exactly for a negative suffix |
| MirrorServer.Lookup | tools/range_http_server.py:154-163 | A body is found if and only if the path is cached, and it is the file's content while files do not change |
| MirrorServer.Insert | tools/range_http_server.py:266-271 | A body within the size limit is stored if its path was not cached, and the cache keeps mirroring the disk |
| Pools.HomeIsFirst | crates/cascette-cache/src/memory.rs:403-406 | The first content type of each size class, in declaration order: Config, Download, Archive, Encoding |
| Pools.ReuseKeepsClass | crates/cascette-cache/src/pool.rs:144-165 | Reusing a buffer keeps its size class however the allocator grows, if and only if its capacity fills the class or is Huge |
| Pools.SizedMemoryPool.constructor | crates/cascette-cache/src/memory.rs:328-340 | All thirty-two pools empty, no statistics |
| Pools.SizedMemoryPool.AllocateForType | crates/cascette-cache/src/memory.rs:377-396 | The queue, counters and statistics after an allocation, for a reuse and for a miss; the capacity is at least the size requested |
| Pools.SizedMemoryPool.AllocateFrom | crates/cascette-cache/src/pool.rs:144-181 | Takes the front buffer and reserves, or makes a new one of the class size or more |
| Pools.SizedMemoryPool.Return | crates/cascette-cache/src/memory.rs:398-412 | A returned buffer goes to the guessed type's pool of its class, or is dropped when that is full |
| Pools.FreshCapacity | crates/cascette-cache/src/memory.rs:377-396 | A fresh buffer has the least of 16 KiB, 256 KiB, 8 MiB and 32 MiB that covers both the request and the size typical of the type, or exactly the larger of the two beyond them |
| Pools.ReturnMeans | crates/cascette-cache/src/memory.rs:398-412 | Which pool a returned buffer goes to by its capacity, that it is kept there if and only if fewer than 64, 32, 8 or 2 wait, and that no other pool changes |
| Pools.AllocationCounts | crates/cascette-cache/src/memory.rs:377-396 | What an allocation adds to its type's statistics; a reuse exactly if a buffer was waiting |
| Pools.SizedMemoryPool.ClearAll | crates/cascette-cache/src/memory.rs:424-436 | Buffers and per-type statistics are emptied; the inner statistics are not |
| Pools.StepKeepsInv | crates/cascette-cache/src/pool.rs:144-202 | Every step keeps: only home pools hold buffers, each of its class and within the limit, and the lock-free counter is the queue length |
| Pools.RunUsesHomesOnly | crates/cascette-cache/src/memory.rs:398-412 | Over every run, whatever is returned, only (Config, Small), (Download, Medium), (Archive, Large) and (Encoding, Huge) are ever non-empty |
| Pools.RunBoundsPool | crates/cascette-cache/src/pool.rs:33-60 | Over every run all pools together hold at most 106 buffers |
| Pools.RunKeepsClasses | crates/cascette-cache/src/memory.rs:377-412 | In every run that returns only what it was handed, each buffer has the requested capacity and goes back to the size class it was allocated from |
| Pools.ForeignBufferLeavesClass | crates/cascette-cache/src/pool.rs:144-165 | A 10000-byte buffer from elsewhere can come back from a Config allocation in the Medium class |
| Pools.LedgerSplits | crates/cascette-cache/src/memory.rs:349-396 | Inner counts equal the per-type statistics plus what was counted before the last clear: allocations, bytes, reuses and misses |
| Pools.StatisticsAgree | crates/cascette-cache/src/memory.rs:349-436 | At any point of any run the per-type statistics equal the inner pools' if and only if no clear has come after an allocation of that type |
| Pools.ClearForgetsAllocation | crates/cascette-cache/src/memory.rs:424-436 | An allocation and a clear, after which the two counts differ |
| Pools.ThreadLocalPool.AllocateLocal | crates/cascette-cache/src/pool.rs:459-481 | Takes the front buffer of a small or medium queue and tops it up, or makes a new one; other queues stay |
| Pools.ThreadLocalPool.DeallocateLocal | crates/cascette-cache/src/pool.rs:484-497 | Keeps up to eight small and eight medium buffers, drops the rest |
| Pools.LocalStepKeeps | crates/cascette-cache/src/pool.rs:459-497 | Every step keeps at most eight buffers of each class, each in its own queue |
| Pools.LocalRunSuffices | crates/cascette-cache/src/pool.rs:459-497 | In every run that returns only buffers it was handed, or such as fill their class, each request receives at least its size |
| Pools.LocalReuseFallsShort | crates/cascette-cache/src/pool.rs:459-481 | A returned buffer of 10000 bytes from elsewhere is handed out unchanged for 16000 |
| Pools.TopUpSuffices | crates/cascette-cache/src/pool.rs:472-477 | Growing by the shortfall is certain to reach the size if and only if the buffer had it already or had no capacity at all |
| Pools.LocalReuseSuffices | crates/cascette-cache/src/pool.rs:459-481 | A pooled buffer serves every size of its class if and only if it fills the class or has no capacity |
| BufferPool.ZeroCopyBufferPool.GetBuffer | crates/cascette-cache/src/zerocopy.rs:522-543 | A hit hands out the last pooled buffer of the power-of-two class at its own capacity, more than half of the size; hits and misses add up to the allocations |
| BufferPool.ZeroCopyBufferPool.ReturnBuffer | crates/cascette-cache/src/zerocopy.rs:545-562 | A buffer of 1 KiB to 64 MiB is kept in its class unless 32 are there already; other classes stay |
| BufferPool.TopUpDoesNothing | crates/cascette-cache/src/zerocopy.rs:531-534 | The growth call never grows a buffer of the request's class |
| BufferPool.ReuseSuffices | crates/cascette-cache/src/zerocopy.rs:522-543 | A pooled buffer serves every request of its class if and only if its capacity is a power of two |
| BufferPool.RunSuffices | crates/cascette-cache/src/zerocopy.rs:522-562 | In every run that returns only power-of-two capacities each request receives its size |
| BufferPool.ReuseFallsShort | crates/cascette-cache/src/zerocopy.rs:522-543 | A run for every pair of sizes of a class: the pool's own buffer, allocated for the smaller and returned, is handed out unchanged for the larger |
| Resolver.FindByHashIsFirst | crates/cascette-client-storage/src/resolver.rs:111-122 | Path lookup returns the content key of the first record with the path's hash |
| Resolver.ScanPages | crates/cascette-client-storage/src/resolver.rs:149-161 | The nested page loops return the primary encoding key of the first usable entry of the key |
| Resolver.FindEncodingIsFirst | crates/cascette-client-storage/src/resolver.rs:149-161 | The scan is the first usable mapping, and none exactly when there is no usable one |
| Resolver.TableIsLast | crates/cascette-client-storage/src/resolver.rs:83-93 | The table filled on loading is the last usable mapping |
| Resolver.EnterIsLast | crates/cascette-client-storage/src/resolver.rs:60-66 | The id table resolves an id to its last record's content key, or to what it held before |
| Resolver.TableAgreesWithScan | crates/cascette-client-storage/src/resolver.rs:83-93 | Table and scan answer every key alike if and only if the first and last usable mapping of each key agree |
| Resolver.LoadKeepsKeysCoherent | crates/cascette-client-storage/src/resolver.rs:77-102 | For every state: loading an encoding file leaves the content cache right if and only if the file's repeated keys agree and it has every cached key |
| Resolver.EnterIsFresh | crates/cascette-client-storage/src/resolver.rs:60-66 | Loading a root file leaves exactly its own id table if and only if it lists every id already there |
| Resolver.LoadRefines | crates/cascette-client-storage/src/resolver.rs:45-102 | A load over whatever is cached leaves all caches right if and only if the file, checked before the load, agrees with what is cached |
| Resolver.LoadIsInvisible | crates/cascette-client-storage/src/resolver.rs:45-102 | After a load every path, content-key and id lookup answers from the loaded files if and only if that condition held |
| Resolver.ClearMakesLoadSafe | crates/cascette-client-storage/src/resolver.rs:196-200 | After a clear every root file is safe to load and an encoding file exactly if its repeated keys agree, and no id resolves until a root file is loaded |
| Resolver.ContentResolver.constructor | crates/cascette-client-storage/src/resolver.rs:30-38 | A resolver starts with no files and empty caches |
| Resolver.ContentResolver.LoadRootFile | crates/cascette-client-storage/src/resolver.rs:45-70 | Every record's id enters the id table, later ones overwriting; bytes that do not parse change nothing |
| Resolver.ContentResolver.LoadEncodingFile | crates/cascette-client-storage/src/resolver.rs:77-102 | Every usable mapping enters the content cache, later ones overwriting; bytes that do not parse change nothing |
| Resolver.ContentResolver.Resolve | crates/cascette-client-storage/src/resolver.rs:105-129 | Cache first, then the scan, caching a hit |
| Resolver.ContentResolver.ResolveKey | crates/cascette-client-storage/src/resolver.rs:137-165 | Cache first, then the page scan, caching a hit |
| Resolver.ContentResolver.PathToEncoding | crates/cascette-client-storage/src/resolver.rs:168-171 | The two lookups composed |
| Resolver.ContentResolver.IdToEncoding | crates/cascette-client-storage/src/resolver.rs:174-177 | Id lookup and content-key lookup composed |
| Resolver.StepRefines | crates/cascette-client-storage/src/resolver.rs:45-200 | Each operation keeps the caches coherent with the files and answers as the machine without caches |
| Resolver.CachingIsInvisible | crates/cascette-client-storage/src/resolver.rs:45-200 | Every run whose loads are safe, reloads included, answers operation by operation as the uncached machine |
| Resolver.OneLoadEach | crates/cascette-client-storage/src/resolver.rs:45-200 | After at most one load of each file with distinct content keys, any lookups and clears in any order answer as the uncached first-match scans, path-to-encoding as their composition |
| Resolver.ReloadLeavesStalePath | crates/cascette-client-storage/src/resolver.rs:105-129 | A path resolved before a second root file is loaded keeps its old content key until the caches are cleared, whatever the new file says |
| Resolver.ReloadGoesStale | crates/cascette-client-storage/src/resolver.rs:105-129 | Two root files for which the reload is not safe and a lookup shows it |

## Left out

- DiskCache.EveryRunRefines: assumes no I/O errors, no cleanup task and well-named keys; `DiskCache.ReadErrorUndoesRemove` and `DiskCache.LookalikesShareAFile` show what goes wrong otherwise.
- DiskCache.DiskCache.CleanupPass: states the index and files after one pass; the pass's private counters are not fields of the model, because nothing reads them.
- DiskCrash.RunKeepsInv: any indexed entry may expire at any time, which allows more runs than the clock does; assumes that rename and unlink are durable and atomic and that synced bytes survive; the source does not sync the directory.
- DiskCrash.SharedTempTears: shows one failing interleaving for each pair of puts, the first not empty; that exclusive temporary files suffice is the run theorem.
- MemoryCache.MemoryCache.EvictRanked: the random policy evicts an arbitrary subset of the computed size, because the random numbers are not modelled.
- BrowserCache.BrowserCache.PutWithTtl: does not model storage quota errors; base64 and JSON appear only as values that do not decode and items that cannot be read.
- BrowserCache.LapseWithTies: one direction only, because among entries created at the same moment the order of eviction is not fixed.
- DiskCache.CleanupLeavesUsage: with equal access times and empty entries two bounds and no exact condition, because the pass may take either of two equally old entries; likewise `DiskCache.CleanupMeetsByteLimit` above `max_files`.
- MemoryCache.PutMeetsMemoryLimit: with equal ranks two bounds and no exact condition, because the entries of equal rank that go are not fixed.
- BrowserCache.BrowserCache.EvictIfNeeded: each pass reads the clock once, while the source reads it for every entry.
- BrowserCache.BrowserCache.EvictOldest: one class stands for both browser caches, with the key prefix as a parameter; failing deletes of the object store are not modelled.
- Layered.LayeredCache.Get: does not model lock acquisition, so it claims safety and not progress. `get` itself never promotes; the heuristic that would ask for it uses floating point and is not modelled.
- MirrorServer.RawFile.Read: files do not change while served; the stored modification time and size are never compared by the source either.
- RangeHeader.ParseRangeIsExact: digits and white space are ASCII; other Unicode digits accepted by Python's integer parser are not modelled.
- Keys.CanonicalPrintsAreDistinct: numeric fields are unbounded naturals (8, 32 and 64 bits in the source), which only adds keys.
- Pools.SizedMemoryPool.AllocateForType: a fresh buffer has exactly the capacity asked for, and growth is any sufficient amount; the allocator itself is not modelled. Each pool is a value owned by one map, so aliasing between pool handles is not captured.
- Pools.SizedMemoryPool.Return: models uncontended locks; a failed `try_lock`, which drops the buffer, is not modelled. `warm_up`, which fills all thirty-two pools, is not modelled, and the results hold for runs without it.
- ZeroCopy.ZeroCopyCache.Put: the reference counts of entries and the hit statistics are not modelled.
- LayerStack.StackGetReturnsStored: the cleanup task is not a step of it, and writes and deletions of files succeed.
- Resolver.ContentResolver.Resolve: the name hash is an arbitrary function of the path.
- The memory cache's own cleanup task: it works on a deep copy of the map and never touches the cache.
- Background sync, metrics, usage-pattern tuning, warm-up, promotion heuristics and all floating-point statistics.
- MD5, Jenkins96, Salsa20 and base64 internals; hexadecimal printing is modelled.
- HTTP plumbing, sockets, throttling delays, thread pools, logging, command line and agent startup.
- Batched key hashing, and the memset and memcpy kernels, which have no search or comparison to agree with.
- Validation hooks, batch get and put, and streaming wrappers: they delegate to operations modelled here.
- File sizes and file information in the resolver: a second scan of the same shape.
