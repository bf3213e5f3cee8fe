# One Billion Row Challenge aggregator, modelled in Dafny

The program reads a file of `station;measurement\n` records and prints, for
each station, the minimum, mean and maximum of its measurements, sorted by
station name. It works in three steps:

1. `ChunkIter` splits the memory-mapped file into at most `cpus` chunks. Every
   chunk ends right after a line terminator, so no record is split between
   two workers.
2. `process_file_chunk` scans each chunk record by record. For each record it
   finds the first `;` and the next `\n`, parses the measurement and upserts
   it into a table of running aggregates (`AggregatedData`) keyed by station
   name.
3. `finalize` folds the per-chunk tables into one, merging the entries of a
   station that appears in several tables. It then collects the entries into
   a vector and sorts it by station name.

The model follows the code's own form:

- `ChunkIter` is a class whose `Next` method advances `consumedBytes`. It is
  proved against the reference function `ChunksFrom`.
- `process_file_chunk` is a method with the scan loop. It is proved equal to
  the function `ChunkStats`.
- `AggregatedData` is a class whose `AddDatapoint` updates its four fields.
  It is proved against the value-level function `Added`.
- `finalize` is a method. It reduces the tables with a loop, inserts or
  merges entries one station at a time, and sorts an `array` in place.

Files:

- `bytes.dfy` holds the bytes, the `memchr` search and the byte order of
  station names.
- `chunk_iter.dfy` and `chunk_examples.dfy` hold the splitter and its unit
  tests.
- `aggregated_data.dfy` holds the aggregate.
- `process_chunk.dfy` and `scanner_examples.dfy` hold the scanner and its
  unit test.
- `finalize.dfy` holds the reduction and the sort.
- `alignment.dfy` proves that line-aligned chunks split the file into whole
  records.
- `pipeline.dfy` holds the two entry points, with the threads run one after
  another.

Measurements are integers. `f32::from_str` is the function parameter `parse`,
whose `None` stands for the text it rejects. `AggregatedData::merge` is the
function parameter `merge`. The program's panics (`assert!`, `unwrap`) are
error results.

## Model

| member | source | states |
|---|---|---|
| Bytes.Find | src/chunk_iter.rs:37-38 | `memchr`: `None` exactly when the byte is absent; otherwise the index of a match with no match before it |
| Bytes.Below | src/lib.rs:168-170 | the byte-lexicographic order of station names that `partial_cmp` gives. It is strict: a name is never below itself or below a proper prefix of itself. `BelowIrreflexive`, `BelowTransitive`, `BelowTotal` and `BelowAsymmetric` make it a strict total order |
| Bytes.BelowIrreflexive | src/lib.rs:168-170 | no station name is ordered before itself |
| Bytes.BelowTransitive | src/lib.rs:168-170 | the byte-lexicographic order of names is transitive |
| Bytes.BelowTotal | src/lib.rs:168-170 | any two distinct names are ordered one way or the other, so `partial_cmp(..).unwrap()` never fails on table keys |
| Bytes.BelowAsymmetric | src/lib.rs:168-170 | two names are never ordered both ways |
| Chunks.CeilDiv | src/chunk_iter.rs:15 | `div_ceil`: the least `r` with `n <= r * d` |
| Chunks.ChunkEnd | src/chunk_iter.rs:33-41 | the chunk ends one past the first `\n` at or after `begin + min(bytes_per_chunk, bytes_left) - 1`; `None` (the `unwrap` panic) exactly when there is no such `\n` |
| Chunks.ChunkEndDefined | src/chunk_iter.rs:37-38 | on a newline-terminated file the terminator search never fails |
| Chunks.ChunkEndAt | src/chunk_iter.rs:35-38 | any `end` after the minimal chunk end whose byte `end - 1` is the first `\n` from there is the end the iterator picks |
| Chunks.ChunksFromCover | src/chunk_iter.rs:41-43 | the chunks from `begin` on concatenate to exactly the rest of the file |
| Chunks.ChunksFromTerminated | src/chunk_iter.rs:37-41 | every chunk is non-empty and its last byte is `\n` |
| Chunks.ChunksFromCount | src/chunk_iter.rs:14-43 | with `bytes_per_chunk = ceil(len / chunk_count)` there are at most `chunk_count` chunks |
| Chunks.ChunksFromShaped | src/chunk_iter.rs:27-46 | a list of chunks that concatenates to the rest of the file, each reaching at least `min(bytes_per_chunk, bytes_left)` bytes and ending at the first `\n` from there, is the list the iterator hands out |
| Chunks.CountStep | src/chunk_iter.rs:35 | a chunk that does not reach the end of the file spans at least `bytes_per_chunk` bytes, which keeps the chunk count within `chunk_count` |
| Chunks.IterInvStep | src/chunk_iter.rs:41-43 | handing out the selected chunk and advancing `consumed_bytes` by its length keeps the invariant: the chunks so far concatenate to the consumed prefix, all end with `\n`, and there are few enough of them |
| Chunks.IterInvDone | src/chunk_iter.rs:28-31 | once `consumed_bytes` reaches the length, the chunks reassemble the file and number at most `chunk_count` |
| Chunks.ChunkIter.constructor | src/chunk_iter.rs:14-21 | `bytes_per_chunk = ceil(len / chunk_count)`, `consumed_bytes = 0`, no chunk handed out yet |
| Chunks.ChunkIter.Next | src/chunk_iter.rs:27-46 | `None` exactly when `consumed_bytes == len`, with nothing changed. Otherwise the chunk starts at the old `consumed_bytes` and ends where `ChunkEnd` says, and `consumed_bytes` strictly grows by its length. The invariant is kept |
| Chunks.AllChunks | src/lib.rs:48-60 | draining a fresh iterator yields exactly `ChunksFrom(file, ceil(len / n), 0)`: chunks that concatenate to the file, all end with `\n`, and number at most `n` |
| ChunkExamples.BytesPerChunkRoundsUp | src/chunk_iter.rs:54-59 | `bytes_per_chunk` is 8, 4, 10 and 11 for the four unit-test inputs |
| ChunkExamples.ChunksAlignWithNewlines | src/chunk_iter.rs:61-75 | `aaa\nbbb\nccc\nddd\neee\n` in five chunks gives one line per chunk |
| ChunkExamples.FewerChunksThanRequested | src/chunk_iter.rs:77-88 | asking for three chunks of `aaa\nbbbb\nccccc\ndddddd\neeeeeee\n` gives only two, `aaa\nbbbb\nccccc\n` and `dddddd\neeeeeee\n` |
| ChunkExamples.ChunksNotEvenlySplittable | src/chunk_iter.rs:90-103 | the 42-byte pattern in four chunks gives the four chunks of the unit test, the last one shorter |
| Aggregates.Added | src/aggregated_data.rs:24-38 | a datapoint adds one to the count and the measurement to the sum. On an empty aggregate it sets both bounds; otherwise, given `min <= max`, the bounds become min/max with the measurement |
| Aggregates.AddedBrackets | src/aggregated_data.rs:28-34 | from `min <= max` (or empty), after `add_datapoint` `min <= measurement <= max` and `min <= max` hold again |
| Aggregates.ReplayFromReplay | src/aggregated_data.rs:24-38 | adding more datapoints to the aggregate of some datapoints gives the aggregate of all of them |
| Aggregates.ReplayCountsAndSums | src/aggregated_data.rs:36-37 | the count is the number of datapoints added and the sum their sum |
| Aggregates.ReplayBounds | src/aggregated_data.rs:24-38 | unless a datapoint equals the `f32::MIN` sentinel, `min`/`max` are the minimum/maximum of the datapoints and the aggregate is not empty |
| Aggregates.ReplayIsSummary | src/aggregated_data.rs:24-38 | for a non-empty list of datapoints none of which equals the `f32::MIN` sentinel, the aggregate equals the reference `(SeqMin, SeqMax, Sum, count)` of the datapoints |
| Aggregates.ReplayEmptyIff | src/aggregated_data.rs:44-47 | `empty()` holds exactly while no datapoint was added, given none equals the sentinel |
| Aggregates.ReplayOrdered | src/aggregated_data.rs:28-34 | every reachable aggregate is empty or has `min <= max`, the invariant the `else if` relies on |
| Aggregates.SentinelSampleIsForgotten | src/aggregated_data.rs:25-27 | a datapoint equal to `f32::MIN` leaves the aggregate looking empty, so the next datapoint overwrites `min` |
| Aggregates.AggregatedData.constructor | src/aggregated_data.rs:11-20 | `Default`: `min = f32::MAX`, `max = f32::MIN`, sum and count zero, and `empty()` |
| Aggregates.AggregatedData.Load | src/lib.rs:138-140 | the table's entry as a mutable aggregate, with its fields unchanged |
| Aggregates.AggregatedData.Empty | src/aggregated_data.rs:44-47 | `empty()` is exactly the `max == f32::MIN` sentinel test |
| Aggregates.AggregatedData.AddDatapoint | src/aggregated_data.rs:24-38 | updates the fields in place to `Added(old value, measurement)`, keeps `min <= max` and brackets the measurement |
| Scanner.NextLine | src/lib.rs:112-134 | one scan step. Its error is a missing `;` or a missing `\n` after it. Otherwise the new cursor is strictly past the old one and within the chunk |
| Scanner.NextLineSeparator | src/lib.rs:115 | the step fails for want of `;` exactly when no `;` remains |
| Scanner.NextLineTerminator | src/lib.rs:121-124 | the step fails for want of `\n` exactly when a `;` remains but no `\n` follows it |
| Scanner.NextLineRecord | src/lib.rs:112-127 | the bytes consumed are `station;measurement\n`. The station holds no `;` and the measurement no `\n` |
| Scanner.NextLineEncode | src/lib.rs:112-134 | splitting the bytes of a well-formed record recovers that record and moves the cursor past it, whatever surrounds it |
| Scanner.Upsert | src/lib.rs:138-145 | a first sighting inserts an aggregate of exactly that datapoint. A later sighting adds the datapoint to the existing entry. The keys grow by the station only and no other entry changes |
| Scanner.ProcessFileChunk | src/lib.rs:99-148 | the scan loop computes `ChunkStats`: an empty chunk or one not ending in `\n` is an error, then each record in turn is upserted |
| Scanner.ReadRecord | src/lib.rs:112-134 | the loop body's slicing of `remaining_bytes` yields the record and new cursor of `NextLine`. It fails exactly on a missing `;` or an unparsable measurement, never on a missing `\n` |
| Scanner.NoMissingTerminator | src/lib.rs:121-124 | inside a chunk ending in `\n` the terminator `unwrap` never fails |
| Scanner.ChunkErrors | src/lib.rs:100-124 | a chunk passing the two assertions fails only for a missing `;` or a bad measurement |
| Scanner.LinesEndWithNewline | src/lib.rs:100-102 | the bytes of a non-empty list of records are non-empty and end with `\n`, so they pass the two assertions |
| Scanner.ScanLines | src/lib.rs:109-146 | scanning the bytes of well-formed records upserts exactly those records, in order |
| Scanner.TallyFromEntries | src/lib.rs:138-145 | after the records, the keys are the old keys plus the records' stations. Each entry is its old aggregate with that station's datapoints added in order |
| Scanner.ChunkStatsOfRecords | src/lib.rs:99-148 | on well-formed, parsable records the keys are exactly the distinct stations. Each entry is the aggregate of that station's datapoints, its count being the number of records naming it |
| ScannerExamples.ProcessFileChunkExample | src/lib.rs:206-231 | the unit test's four records give Berlin (-15.7, 10.0, -5.7, 2), Hamburg (-12.7, -12.7, -12.7, 1) and New York (21.75, 21.75, 21.75, 1) |
| Finalization.MergeTable | src/lib.rs:154-163 | the `for_each` step: keys are the union; a shared key gets `merge(acc, new)`, a key of one side keeps its aggregate |
| Finalization.Reduce | src/lib.rs:153-164 | `None` (the `unwrap` panic) exactly for no tables, else the left fold of the step over the tables |
| Finalization.MergedStations | src/lib.rs:153-164 | the reduced table's keys are the union of all tables' keys |
| Finalization.MergedEntry | src/lib.rs:153-164 | each station's reduced aggregate is `merge` applied left to right over its aggregates in table order |
| Finalization.MergedSingle | src/lib.rs:153-164 | a station that only one table names keeps that table's aggregate unchanged |
| Finalization.CollectEntries | src/lib.rs:167 | the vector lists exactly the table's entries, one per station |
| Finalization.SortByStation | src/lib.rs:168-170 | the sort leaves the entries a permutation of the input, in strictly ascending byte order of station name |
| Finalization.InsertEntry | src/lib.rs:168-170 | one insertion step extends the sorted prefix by one and permutes the array |
| Finalization.ListsPermutation | src/lib.rs:167-170 | sorting does not change which entries the vector lists |
| Finalization.SortedListUnique | src/lib.rs:167-170 | two strictly sorted lists of the same table are equal, so the result does not depend on the table's iteration order or the unstable sort |
| Finalization.Finalize | src/lib.rs:151-178 | `None` exactly for no tables, else the reduced table's entries, strictly sorted by station |
| Pipeline.Cpus | src/lib.rs:40-44 | a file under 10000 bytes is split into one chunk. Otherwise the count is exactly the available parallelism, which is positive, so `div_ceil` never divides by zero |
| Pipeline.ProcessSingleThreaded | src/lib.rs:25-31 | the chunk's scan error is the panic; otherwise the sorted entries of the one table |
| Pipeline.SpawnWorkers | src/lib.rs:51-60 | one worker per chunk after the first, each holding `process_file_chunk` of its chunk, in order |
| Pipeline.JoinWorkers | src/lib.rs:70-73 | the joins succeed exactly when every worker did, giving their tables in spawn order. Otherwise the error is that of the first worker, in spawn order, that failed |
| Pipeline.JoinOrder | src/lib.rs:70-73 | the workers' tables followed by the main thread's are the tables `finalize` receives |
| Pipeline.JoinedTableAt | src/lib.rs:70-73 | table `j` of the chain is that of chunk `j + 1`, the last one that of the first chunk |
| Pipeline.ProcessMultiThreaded | src/lib.rs:37-76 | an empty file panics at the first `unwrap`, and only an empty file does. Otherwise the outcome is that of `ProcessChunks` on the splitter's chunks |
| Pipeline.ProcessChunks | src/lib.rs:49-75 | panics are reported in the program's order. First comes the main thread's scan error on the first chunk. Next comes the worker-count assertion, only when compiled in and only when the count is wrong. Last comes the error of the first failing worker chunk. The run succeeds exactly when every chunk scans and the assertion, if compiled in, holds; it then gives the sorted entries of the workers' tables followed by the main thread's. The only scan panics are a missing `;` and a bad measurement |
| Pipeline.JoinAndFinalize | src/lib.rs:70-75 | once the first chunk has scanned, the run succeeds exactly when every worker chunk scans, and then gives the sorted entries of the merged tables, the workers' in spawn order followed by the main thread's. Otherwise it panics with the error of the first failing worker chunk, which is a missing `;` or a bad measurement |
| Pipeline.MultiThreadedStations | src/lib.rs:37-76 | on a file of well-formed, parsable records every chunk scans, and the reduced table names exactly the file's stations whatever the split |
| Pipeline.WorkersWithinCpus | src/lib.rs:64-68 | at most `cpus - 1` workers are spawned on every newline-terminated file |
| Pipeline.DebugAssertFires | src/lib.rs:64-68 | on a 10000-byte single-record file with two cores the splitter gives one chunk, so the assertion of exactly `cpus - 1` workers fails on valid input |
| Alignment.RecordBoundary | src/lib.rs:91-92 | a `\n` inside the bytes of well-formed records always closes a record |
| Alignment.ChunksAreRecords | src/lib.rs:91-92 | chunks that end with `\n` and concatenate to the bytes of well-formed records are each the bytes of a non-empty run of consecutive records |

## Left out

- `open_file` and the memory map are not modelled: the file is the byte sequence handed to the entry points.
- Threads are not modelled. The workers of `process_multi_threaded` run one after another. The order of the tables (workers in spawn order, then the main thread's) is kept.
- `available_parallelism()` is the parameter `availableParallelism`, which must be positive like the `NonZero` it returns. Its error `unwrap` is not modelled.
- `f32::from_str` is the parameter `parse`. The floating-point `sum`, `avg` and rounding are not modelled: measurements and sums are exact integers, and the sentinels are the integer values of `f32::MAX` and `f32::MIN`. The sentinels are compared with measurements in whatever unit `parse` returns, so which input collides with `f32::MIN` depends on that unit (a `parse` returning hundredths, as in the examples, collides on a temperature of `f32::MIN / 100`).
- `print_results`, `print` and `black_box` are not modelled: the entry points return the sorted entries instead of printing them.
- `AggregatedData::merge` and `AggregatedData::new` are not part of this model, as their definitions are not in the repository's sources. `merge` is an abstract parameter.
- UTF-8 conversion (`from_utf8_unchecked`) and the `FnvHashMap` hashing are not modelled: station names are byte sequences and tables are maps.
- `usize` widths, overflow and the `len() - consumed_bytes` subtraction are not modelled: all integers are unbounded, and the subtraction never underflows under the iterator's invariant.
- `src/main.rs`, the `src/bin` programs, `build.rs` and the benchmark are not part of this model.
- Finalization.CollectEntries: the order in which the table yields its entries is arbitrary in the model. `SortedListUnique` shows that the sorted result does not depend on it.
- Finalization.SortByStation: `sort_unstable_by` is an insertion sort here. Only its result (a strictly sorted permutation) is claimed for the library sort.
- Chunks.ChunkIter.constructor: requires `chunk_count > 0` and a newline-terminated file. In the program a zero count panics in `div_ceil`. A file not ending in `\n` can still be wrapped in an iterator: the 15-byte test file of src/chunk_iter.rs:54-59 is. On such a file, `next` hands out the earlier chunks normally and panics at the terminator `unwrap` only on the call that would return the final chunk. Neither panic is modelled.
- Pipeline.ProcessMultiThreaded: requires a newline-terminated file for the same reason.
- Aggregates.ReplayBounds: holds only when no measurement equals the `f32::MIN` sentinel, since such a measurement makes `empty()` true again (see `SentinelSampleIsForgotten`).
- Aggregates.ReplayEmptyIff: assumes no measurement equals the `f32::MIN` sentinel, for the same reason.
- Aggregates.ReplayIsSummary: requires a non-empty list of datapoints none of which equals the `f32::MIN` sentinel, for the same reason. The condition is stronger than needed. A sentinel after another value is harmless: `[5, f32::MIN]` replays to its summary. What breaks the equality is a datapoint above the sentinel that follows only sentinel datapoints, as `SentinelSampleIsForgotten` shows.

## Notes on the source

- The chunk boundaries are measured from the end of the previous chunk (`consumed_bytes + min(bytes_per_chunk, bytes_left) - 1`), not at fixed offsets `len * i / n` of the file. No empty chunk is ever handed out. The model follows the code.
- An empty file is not processed to an empty result. `process_single_threaded` fails the non-empty `assert!` and `process_multi_threaded` the first `unwrap`, and the model keeps both panics.

## Findings

| source | as written | input that shows it | evidently intended | confidence | as-written member | corrected member |
|---|---|---|---|---|---|---|
| src/lib.rs:64-68 | `debug_assert_eq!(thread_handles.len(), cpus - 1)` expects exactly `cpus - 1` workers | a 10000-byte file holding one record (a 9995-byte station name, `;`, `1.0`, `\n`) with `available_parallelism() == 2`: the splitter hands out one chunk, so no worker is spawned and a debug build panics | at most `cpus - 1` workers (`<=`), which always holds | not executed | Pipeline.DebugAssertFires | Pipeline.WorkersWithinCpus |
