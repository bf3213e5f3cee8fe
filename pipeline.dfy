/**
 * The two entry points, `process_single_threaded` and the sequential
 * equivalent of `process_multi_threaded`: split the file with `ChunkIter`,
 * run `process_file_chunk` on every chunk, and `finalize` the tables in
 * the order the main thread chains them.
 */
module Pipeline {
  import opened Bytes
  import opened Aggregates
  import opened Chunks
  import opened Scanner
  import opened Finalization
  import opened Alignment

  /** The panics an entry point can end in. */
  datatype Panic =
    | NoFirstChunk         // `iter.next().unwrap()` on an empty file
    | WorkerCount          // the `debug_assert_eq!` on the number of worker threads
    | Scan(error: ScanError)  // `process_file_chunk` on some chunk

  datatype Outcome = Done(entries: seq<Entry>) | Panicked(panic: Panic)

  /** Below this many bytes the file is processed as a single chunk. */
  const SMALL_FILE: nat := 10000

  /** The number of chunks asked for: one for a small file, else the available parallelism. */
  function Cpus(len: nat, availableParallelism: nat): (r: nat)
    ensures availableParallelism > 0 ==> 0 < r <= availableParallelism
    ensures len < SMALL_FILE ==> r == 1
    ensures len >= SMALL_FILE ==> r == availableParallelism
  {
    if len < SMALL_FILE then 1 else availableParallelism
  }

  /** `process_single_threaded` without the printing. */
  method ProcessSingleThreaded(fileBytes: seq<Byte>, parse: seq<Byte> -> Option<int>, merge: (Aggregate, Aggregate) -> Aggregate)
    returns (r: Outcome)
    ensures ChunkStats(fileBytes, parse).Err? ==> r == Panicked(Scan(ChunkStats(fileBytes, parse).error))
    ensures ChunkStats(fileBytes, parse).Ok? ==>
      r.Done? && StrictlySorted(r.entries) && Lists(r.entries, ChunkStats(fileBytes, parse).value)
  {
    var stats := ProcessFileChunk(fileBytes, parse);
    if stats.Err? {
      return Panicked(Scan(stats.error));
    }
    var out := Finalize([stats.value], merge);
    assert Merged([stats.value], merge) == stats.value;
    return Done(out.value);
  }

  /** Every chunk passes `process_file_chunk`. */
  ghost predicate AllOk(chunks: seq<seq<Byte>>, parse: seq<Byte> -> Option<int>)
  {
    forall i :: 0 <= i < |chunks| ==> ChunkStats(chunks[i], parse).Ok?
  }

  /**
   * The tables in the order `finalize` receives them: the worker threads'
   * (chunks two onwards) joined in spawn order, then the main thread's
   * (the first chunk).
   */
  ghost function JoinedTables(chunks: seq<seq<Byte>>, parse: seq<Byte> -> Option<int>): (r: seq<Stats>)
    requires chunks != [] && AllOk(chunks, parse)
    ensures |r| == |chunks|
  {
    TablesOf(chunks[1..], parse) + [ChunkStats(chunks[0], parse).value]
  }

  /** The tables of the chunks, in chunk order. */
  ghost function TablesOf(chunks: seq<seq<Byte>>, parse: seq<Byte> -> Option<int>): (r: seq<Stats>)
    requires AllOk(chunks, parse)
    ensures |r| == |chunks|
    ensures forall i :: 0 <= i < |chunks| ==> r[i] == ChunkStats(chunks[i], parse).value
  {
    if chunks == [] then [] else [ChunkStats(chunks[0], parse).value] + TablesOf(chunks[1..], parse)
  }

  /**
   * `process_multi_threaded` without the printing, its worker threads run
   * one after the other. `debugAssertions` says whether the
   * `debug_assert_eq!` on the number of workers is compiled in.
   */
  method ProcessMultiThreaded(fileBytes: seq<Byte>, availableParallelism: nat, debugAssertions: bool,
                              parse: seq<Byte> -> Option<int>, merge: (Aggregate, Aggregate) -> Aggregate)
    returns (r: Outcome)
    requires availableParallelism > 0 && NewlineTerminated(fileBytes)
    ensures var cpus := Cpus(|fileBytes|, availableParallelism);
      var chunks := ChunksFrom(fileBytes, CeilDiv(|fileBytes|, cpus), 0);
      && (r == Panicked(NoFirstChunk) <==> fileBytes == [])
      && (r.Done? <==> chunks != [] && AllOk(chunks, parse) && !(debugAssertions && |chunks| != cpus))
      && (r.Done? ==> StrictlySorted(r.entries) && Lists(r.entries, Merged(JoinedTables(chunks, parse), merge)))
      && (chunks != [] && ChunkStats(chunks[0], parse).Err? ==> r == Panicked(Scan(ChunkStats(chunks[0], parse).error)))
      && (chunks != [] && ChunkStats(chunks[0], parse).Ok? && debugAssertions && |chunks| != cpus ==> r == Panicked(WorkerCount))
      && (r == Panicked(WorkerCount) ==> debugAssertions && |chunks| != cpus && ChunkStats(chunks[0], parse).Ok?)
      && (chunks != [] && ChunkStats(chunks[0], parse).Ok? && !(debugAssertions && |chunks| != cpus) && !AllOk(chunks, parse) ==>
            && r.Panicked? && r.panic.Scan?
            && exists k :: 1 <= k < |chunks| && ChunkStats(chunks[k], parse) == Err(r.panic.error)
                 && forall j :: 1 <= j < k ==> ChunkStats(chunks[j], parse).Ok?)
      && (r.Panicked? && r.panic.Scan? ==> r.panic.error == MissingSeparator || r.panic.error == BadMeasurement)
  {
    var cpus := Cpus(|fileBytes|, availableParallelism);
    var chunks := AllChunks(fileBytes, cpus);
    if chunks == [] {
      return Panicked(NoFirstChunk);
    }
    NonEmptyFile(chunks);
    r := ProcessChunks(chunks, cpus, debugAssertions, parse, merge);
  }

  /**
   * The main thread's work once the first chunk is taken: spawn a worker
   * per further chunk, scan the first chunk, check the number of workers
   * (when `debugAssertions`), join the workers in spawn order and
   * `finalize` their tables followed by its own. The first panic on that
   * path is the one reported.
   */
  method ProcessChunks(chunks: seq<seq<Byte>>, cpus: nat, debugAssertions: bool,
                       parse: seq<Byte> -> Option<int>, merge: (Aggregate, Aggregate) -> Aggregate)
    returns (r: Outcome)
    requires chunks != [] && AllTerminated(chunks)
    ensures r != Panicked(NoFirstChunk)
    ensures r.Done? <==> AllOk(chunks, parse) && !(debugAssertions && |chunks| != cpus)
    ensures r.Done? ==> StrictlySorted(r.entries) && Lists(r.entries, Merged(JoinedTables(chunks, parse), merge))
    ensures ChunkStats(chunks[0], parse).Err? ==> r == Panicked(Scan(ChunkStats(chunks[0], parse).error))
    ensures ChunkStats(chunks[0], parse).Ok? && debugAssertions && |chunks| != cpus ==> r == Panicked(WorkerCount)
    ensures r == Panicked(WorkerCount) ==> debugAssertions && |chunks| != cpus && ChunkStats(chunks[0], parse).Ok?
    ensures ChunkStats(chunks[0], parse).Ok? && !(debugAssertions && |chunks| != cpus) && !AllOk(chunks, parse) ==>
      && r.Panicked? && r.panic.Scan?
      && exists k :: 1 <= k < |chunks| && ChunkStats(chunks[k], parse) == Err(r.panic.error)
           && forall j :: 1 <= j < k ==> ChunkStats(chunks[j], parse).Ok?
    ensures r.Panicked? && r.panic.Scan? ==> r.panic.error == MissingSeparator || r.panic.error == BadMeasurement
  {
    var mainThreadChunk := chunks[0];

    var threadResults := SpawnWorkers(chunks, parse);

    var stats := ProcessFileChunk(mainThreadChunk, parse);
    if stats.Err? {
      ChunkErrors(mainThreadChunk, parse);
      return Panicked(Scan(stats.error));
    }
    if debugAssertions && |threadResults| != cpus - 1 {
      return Panicked(WorkerCount);
    }

    r := JoinAndFinalize(chunks, threadResults, stats.value, parse, merge);
  }

  /**
   * The tail of the main thread's work: join the workers in spawn order and
   * `finalize` their tables followed by the main thread's own. The first
   * worker that panicked, in spawn order, passes its panic on.
   */
  method JoinAndFinalize(chunks: seq<seq<Byte>>, threadResults: seq<Result<Stats>>, stats: Stats,
                         parse: seq<Byte> -> Option<int>, merge: (Aggregate, Aggregate) -> Aggregate)
    returns (r: Outcome)
    requires chunks != [] && AllTerminated(chunks) && ChunkStats(chunks[0], parse) == Ok(stats)
    requires |threadResults| == |chunks| - 1
    requires forall k :: 0 <= k < |threadResults| ==> threadResults[k] == ChunkStats(chunks[k + 1], parse)
    ensures r.Done? <==> AllOk(chunks, parse)
    ensures r.Done? ==> StrictlySorted(r.entries) && Lists(r.entries, Merged(JoinedTables(chunks, parse), merge))
    ensures r.Panicked? ==>
      && r.panic.Scan?
      && exists k :: 1 <= k < |chunks| && ChunkStats(chunks[k], parse) == Err(r.panic.error)
           && forall j :: 1 <= j < k ==> ChunkStats(chunks[j], parse).Ok?
    ensures r.Panicked? ==> r.panic.error == MissingSeparator || r.panic.error == BadMeasurement
  {
    var joined := JoinWorkers(threadResults);
    if joined.Err? {
      var k :| 0 <= k < |threadResults| && threadResults[k] == Err(joined.error)
        && forall j :: 0 <= j < k ==> threadResults[j].Ok?;
      ChunkErrors(chunks[k + 1], parse);
      assert forall j :: 1 <= j < k + 1 ==> ChunkStats(chunks[j], parse).Ok? by {
        forall j | 1 <= j < k + 1 ensures ChunkStats(chunks[j], parse).Ok? {
          assert threadResults[j - 1].Ok?;
        }
      }
      return Panicked(Scan(joined.error));
    }
    var tables := joined.value + [stats];
    JoinOrder(chunks, parse, threadResults, joined.value, stats);
    var out := Finalize(tables, merge);
    return Done(out.value);
  }

  /** The worker threads, one per chunk after the first, each running `process_file_chunk`. */
  method SpawnWorkers(chunks: seq<seq<Byte>>, parse: seq<Byte> -> Option<int>) returns (results: seq<Result<Stats>>)
    requires chunks != []
    ensures |results| == |chunks| - 1
    ensures forall k :: 0 <= k < |results| ==> results[k] == ChunkStats(chunks[k + 1], parse)
  {
    results := [];
    for i := 1 to |chunks|
      invariant |results| == i - 1
      invariant forall k :: 0 <= k < i - 1 ==> results[k] == ChunkStats(chunks[k + 1], parse)
    {
      var result := ProcessFileChunk(chunks[i], parse);
      results := results + [result];
    }
  }

  /**
   * `handle.join().unwrap()` on each worker in spawn order: the first
   * worker that panicked passes its panic on; otherwise the tables, in order.
   */
  method JoinWorkers(results: seq<Result<Stats>>) returns (r: Result<seq<Stats>>)
    ensures r.Ok? <==> forall k :: 0 <= k < |results| ==> results[k].Ok?
    ensures r.Ok? ==> |r.value| == |results| && forall k :: 0 <= k < |results| ==> r.value[k] == results[k].value
    ensures r.Err? ==> exists k :: 0 <= k < |results| && results[k] == Err(r.error) && forall j :: 0 <= j < k ==> results[j].Ok?
  {
    var tables: seq<Stats> := [];
    for i := 0 to |results|
      invariant |tables| == i
      invariant forall k :: 0 <= k < i ==> results[k].Ok? && tables[k] == results[k].value
    {
      if results[i].Err? {
        return Err(results[i].error);
      }
      tables := tables + [results[i].value];
    }
    return Ok(tables);
  }

  /** The workers' tables followed by the main thread's are the joined tables. */
  lemma JoinOrder(chunks: seq<seq<Byte>>, parse: seq<Byte> -> Option<int>, results: seq<Result<Stats>>,
                  workerTables: seq<Stats>, mainTable: Stats)
    requires chunks != [] && ChunkStats(chunks[0], parse) == Ok(mainTable)
    requires |results| == |chunks| - 1 && |workerTables| == |results|
    requires forall k :: 0 <= k < |results| ==> results[k] == ChunkStats(chunks[k + 1], parse)
    requires forall k :: 0 <= k < |results| ==> results[k].Ok? && workerTables[k] == results[k].value
    ensures AllOk(chunks, parse) && workerTables + [mainTable] == JoinedTables(chunks, parse)
  {
    forall i | 0 <= i < |chunks| ensures ChunkStats(chunks[i], parse).Ok? {
      if i > 0 {
        assert results[i - 1].Ok?;
      }
    }
  }

  /**
   * On a file of well-formed records whose measurements all parse, every
   * chunk passes `process_file_chunk`, and the reduced table names exactly
   * the stations of the file, however many chunks it was split into.
   */
  lemma MultiThreadedStations(lines: seq<Line>, availableParallelism: nat,
                              parse: seq<Byte> -> Option<int>, merge: (Aggregate, Aggregate) -> Aggregate)
    requires availableParallelism > 0 && lines != []
    requires forall i :: 0 <= i < |lines| ==> WellFormed(lines[i])
    requires ParsesAll(lines, parse)
    ensures NewlineTerminated(Lines(lines))
    ensures var file := Lines(lines);
      var chunks := ChunksFrom(file, CeilDiv(|file|, Cpus(|file|, availableParallelism)), 0);
      && chunks != [] && AllOk(chunks, parse)
      && Merged(JoinedTables(chunks, parse), merge).Keys == Stations(lines)
  {
    var file := Lines(lines);
    LinesEndWithNewline(lines);
    var bytesPerChunk := CeilDiv(|file|, Cpus(|file|, availableParallelism));
    var chunks := ChunksFrom(file, bytesPerChunk, 0);
    ChunksFromCover(file, bytesPerChunk, 0);
    ChunksFromTerminated(file, bytesPerChunk, 0);
    assert file[0..] == file;
    var parts := ChunksAreRecords(lines, chunks);
    forall i | 0 <= i < |chunks|
      ensures ChunkStats(chunks[i], parse).Ok? && ChunkStats(chunks[i], parse).value.Keys == Stations(parts[i])
    {
      RunRecords(lines, parts, i, parse);
      ChunkStatsOfRecords(parts[i], parse);
    }
    assert chunks != [] by {
      assert Concat([]) == [];
    }
    JoinedStations(lines, chunks, parts, parse, merge);
  }

  /** When each chunk's table names the stations of its run of records, the reduced table names them all. */
  lemma JoinedStations(lines: seq<Line>, chunks: seq<seq<Byte>>, parts: seq<seq<Line>>,
                       parse: seq<Byte> -> Option<int>, merge: (Aggregate, Aggregate) -> Aggregate)
    requires chunks != [] && |parts| == |chunks| && Flatten(parts) == lines
    requires forall i :: 0 <= i < |chunks| ==>
      ChunkStats(chunks[i], parse).Ok? && ChunkStats(chunks[i], parse).value.Keys == Stations(parts[i])
    ensures AllOk(chunks, parse)
    ensures Merged(JoinedTables(chunks, parse), merge).Keys == Stations(lines)
  {
    var tables := JoinedTables(chunks, parse);
    MergedStations(tables, merge);
    forall s | true ensures s in AllStations(tables) <==> s in Stations(lines) {
      StationsFlatten(parts, s);
      if s in Stations(lines) {
        JoinedHasStation(chunks, parts, parse, s);
      } else {
        JoinedLacksStation(chunks, parts, parse, s);
      }
    }
  }

  lemma JoinedHasStation(chunks: seq<seq<Byte>>, parts: seq<seq<Line>>, parse: seq<Byte> -> Option<int>, s: seq<Byte>)
    requires chunks != [] && |parts| == |chunks| && AllOk(chunks, parse)
    requires forall i :: 0 <= i < |chunks| ==> ChunkStats(chunks[i], parse).value.Keys == Stations(parts[i])
    requires exists i :: 0 <= i < |parts| && s in Stations(parts[i])
    ensures s in AllStations(JoinedTables(chunks, parse))
  {
    var n := |chunks|;
    var i :| 0 <= i < n && s in Stations(parts[i]);
    var j := if i == 0 then n - 1 else i - 1;
    JoinedTableAt(chunks, parse, j);
    StationsOfSome(JoinedTables(chunks, parse), j, s);
  }

  lemma JoinedLacksStation(chunks: seq<seq<Byte>>, parts: seq<seq<Line>>, parse: seq<Byte> -> Option<int>, s: seq<Byte>)
    requires chunks != [] && |parts| == |chunks| && AllOk(chunks, parse)
    requires forall i :: 0 <= i < |chunks| ==> ChunkStats(chunks[i], parse).value.Keys == Stations(parts[i])
    requires forall i :: 0 <= i < |parts| ==> s !in Stations(parts[i])
    ensures s !in AllStations(JoinedTables(chunks, parse))
  {
    var tables := JoinedTables(chunks, parse);
    forall j | 0 <= j < |chunks| ensures s !in tables[j] {
      JoinedTableAt(chunks, parse, j);
    }
    NotInStations(tables, s);
  }

  /** The `j`-th joined table is that of chunk `j + 1`, the last one that of the first chunk. */
  lemma JoinedTableAt(chunks: seq<seq<Byte>>, parse: seq<Byte> -> Option<int>, j: nat)
    requires chunks != [] && AllOk(chunks, parse) && j < |chunks|
    ensures JoinedTables(chunks, parse)[j] == ChunkStats(chunks[if j == |chunks| - 1 then 0 else j + 1], parse).value
  {
  }

  /** A non-empty list of non-empty chunks covers a non-empty file. */
  lemma NonEmptyFile(chunks: seq<seq<Byte>>)
    requires chunks != [] && AllTerminated(chunks)
    ensures Concat(chunks) != []
  {
    assert |Concat(chunks)| >= |chunks[|chunks| - 1]|;
  }

  /**
   * What the worker-count assertion can promise: the splitter hands out at
   * most `cpus` chunks, so at most `cpus - 1` workers are spawned, on
   * every newline-terminated file.
   */
  lemma WorkersWithinCpus(fileBytes: seq<Byte>, availableParallelism: nat)
    requires availableParallelism > 0 && NewlineTerminated(fileBytes)
    ensures var cpus := Cpus(|fileBytes|, availableParallelism);
      |ChunksFrom(fileBytes, CeilDiv(|fileBytes|, cpus), 0)| - 1 <= cpus - 1
  {
    var cpus := Cpus(|fileBytes|, availableParallelism);
    ChunksFromCount(fileBytes, CeilDiv(|fileBytes|, cpus), cpus, 0, 0);
  }

  /**
   * A file of exactly `SMALL_FILE` bytes holding a single record: a
   * 9995-byte station name and the measurement `1.0`.
   */
  function LongRecordFile(): seq<Byte>
  {
    Encode(Line(seq(9995, _ => 0x61), ONE_POINT_ZERO))
  }

  const ONE_POINT_ZERO: seq<Byte> := [0x31, 0x2E, 0x30]

  /**
   * The `debug_assert_eq!` expects exactly `cpus - 1` workers, but the
   * splitter may hand out fewer chunks than asked for: with two available
   * cores, the file above is split into a single chunk (its only line
   * terminator is its last byte), so a debug build panics on this
   * well-formed input although every chunk is processed successfully.
   */
  lemma DebugAssertFires(parse: seq<Byte> -> Option<int>)
    requires parse(ONE_POINT_ZERO).Some?
    ensures var file := LongRecordFile();
      var cpus := Cpus(|file|, 2);
      && NewlineTerminated(file) && cpus == 2
      && ChunksFrom(file, CeilDiv(|file|, cpus), 0) == [file]
      && ChunkStats(file, parse).Ok?
  {
    var line := Line(seq(9995, _ => 0x61), ONE_POINT_ZERO);
    var file := Encode(line);
    assert |file| == 10000 && file[9999] == NEWLINE;
    assert CeilDiv(10000, 2) == 5000;
    forall k | 4999 <= k < 9999 ensures file[k] != NEWLINE {
      if k < 9995 {
        assert file[k] == line.station[k];
      } else if k > 9995 {
        assert file[k] == ONE_POINT_ZERO[k - 9996];
      }
    }
    ChunkEndAt(file, 5000, 0, 10000);
    ChunksFromStep(file, 5000, 0, 10000);
    assert file[0..10000] == file;
    assert WellFormed(line);
    assert Lines([line]) == file by {
      assert [line][1..] == [];
    }
    ChunkStatsOfRecords([line], parse);
  }
}
