/**
 * `process_file_chunk`: the record scanner and the per-chunk aggregate
 * table. A chunk is a run of `station;measurement\n` records; for each one
 * the scanner finds the first `;` (end of the station name) and the next
 * `\n` (end of the measurement text), parses the measurement and upserts
 * it into a table keyed by the station's bytes.
 *
 * The number parser (`f32::from_str`) is the parameter `parse`; `None`
 * stands for a text it rejects, where the program's `unwrap` panics.
 */
module Scanner {
  import opened Bytes
  import opened Aggregates

  /** The per-chunk table: station name bytes to aggregate. */
  type Stats = map<seq<Byte>, Aggregate>

  /** The conditions under which `process_file_chunk` panics. */
  datatype ScanError =
    | EmptyChunk              // `assert!(!bytes.is_empty())`
    | MissingTrailingNewline  // `assert_eq!(last_byte, b'\n')`
    | MissingSeparator        // no `;` in the remaining bytes
    | MissingTerminator       // no `\n` after that `;`
    | BadMeasurement          // `f32::from_str(..).unwrap()`

  datatype Result<T> = Ok(value: T) | Err(error: ScanError)

  /** One record as the scanner splits it. */
  datatype Line = Line(station: seq<Byte>, measurement: seq<Byte>)

  /** The bytes of a record: `station;measurement\n`. */
  function Encode(line: Line): seq<Byte>
  {
    line.station + [SEMICOLON] + line.measurement + [NEWLINE]
  }

  /** A record of the input format: the name holds no `;` or `\n`, the measurement no `\n`. */
  predicate WellFormed(line: Line)
  {
    SEMICOLON !in line.station && NEWLINE !in line.station && NEWLINE !in line.measurement
  }

  /**
   * One iteration of the scan loop at cursor `from`: the station is
   * everything up to the first `;`, the measurement everything between it
   * and the next `\n`; the second component is the cursor after the
   * record, terminator included.
   */
  function NextLine(bytes: seq<Byte>, from: nat): (r: Result<(Line, nat)>)
    requires from <= |bytes|
    ensures r.Ok? ==> from < r.value.1 <= |bytes|
    ensures r.Err? ==> r.error == MissingSeparator || r.error == MissingTerminator
  {
    match FindAfter(SEMICOLON, bytes, from)
    case None => Err(MissingSeparator)
    case Some(n1) =>
      match FindAfter(NEWLINE, bytes, n1 + 1)
      case None => Err(MissingTerminator)
      case Some(n2) => Ok((Line(bytes[from..n1], bytes[n1 + 1..n2]), n2 + 1))
  }

  /** `NextLine` fails for want of a `;` exactly when no `;` is left. */
  lemma NextLineSeparator(bytes: seq<Byte>, from: nat)
    requires from <= |bytes|
    ensures NextLine(bytes, from) == Err(MissingSeparator) <==> SEMICOLON !in bytes[from..]
  {
    match FindAfter(SEMICOLON, bytes, from)
    case None =>
      AbsentAfter(SEMICOLON, bytes, from);
    case Some(n1) =>
      assert bytes[from..][n1 - from] == SEMICOLON;
  }

  /** `NextLine` fails for want of a `\n` exactly when none follows the first `;`. */
  lemma NextLineTerminator(bytes: seq<Byte>, from: nat)
    requires from <= |bytes|
    ensures NextLine(bytes, from) == Err(MissingTerminator) <==>
      FindAfter(SEMICOLON, bytes, from).Some? && NEWLINE !in bytes[FindAfter(SEMICOLON, bytes, from).value + 1..]
  {
    match FindAfter(SEMICOLON, bytes, from)
    case None =>
    case Some(n1) =>
      match FindAfter(NEWLINE, bytes, n1 + 1)
      case None =>
        AbsentAfter(NEWLINE, bytes, n1 + 1);
      case Some(n2) =>
        assert bytes[n1 + 1..][n2 - (n1 + 1)] == NEWLINE;
  }

  /**
   * A record `NextLine` finds is the bytes of a `station;measurement\n`
   * line whose name holds no `;` and whose measurement holds no `\n`.
   */
  lemma NextLineRecord(bytes: seq<Byte>, from: nat)
    requires from <= |bytes| && NextLine(bytes, from).Ok?
    ensures var (line, next) := NextLine(bytes, from).value;
      && bytes[from..next] == Encode(line)
      && SEMICOLON !in line.station && NEWLINE !in line.measurement
  {
    var n1 := FindAfter(SEMICOLON, bytes, from).value;
    var n2 := FindAfter(NEWLINE, bytes, n1 + 1).value;
    AbsentBetween(SEMICOLON, bytes, from, n1);
    AbsentBetween(NEWLINE, bytes, n1 + 1, n2);
    RecordBytes(bytes, from, n1, n2);
  }

  lemma AbsentAfter(b: Byte, s: seq<Byte>, from: nat)
    requires from <= |s| && forall k :: from <= k < |s| ==> s[k] != b
    ensures b !in s[from..]
  {
    forall k | 0 <= k < |s| - from ensures s[from..][k] != b {
      assert s[from..][k] == s[from + k];
    }
  }

  lemma AbsentBetween(b: Byte, s: seq<Byte>, i: nat, j: nat)
    requires i <= j <= |s| && forall k :: i <= k < j ==> s[k] != b
    ensures b !in s[i..j]
  {
    forall k | 0 <= k < j - i ensures s[i..j][k] != b {
      assert s[i..j][k] == s[i + k];
    }
  }

  /** The bytes of the record between the cursor and the terminator. */
  lemma RecordBytes(bytes: seq<Byte>, from: nat, n1: nat, n2: nat)
    requires from <= n1 < n2 < |bytes| && bytes[n1] == SEMICOLON && bytes[n2] == NEWLINE
    ensures bytes[from..n2 + 1] == Encode(Line(bytes[from..n1], bytes[n1 + 1..n2]))
  {
    assert bytes[from..n2 + 1] == bytes[from..n1] + [bytes[n1]] + bytes[n1 + 1..n2] + [bytes[n2]];
  }

  /** The aggregate a table holds for `station`, or the default one. */
  function Entry(stats: Stats, station: seq<Byte>): Aggregate
  {
    if station in stats then stats[station] else EMPTY
  }

  /**
   * The `entry(..).and_modify(..).or_insert_with(..)` upsert: a first
   * sighting inserts an aggregate of exactly that datapoint; later
   * sightings add to the existing entry; no other key changes.
   */
  function Upsert(stats: Stats, station: seq<Byte>, m: int): (r: Stats)
    ensures r.Keys == stats.Keys + {station}
    ensures station !in stats ==> r[station] == Aggregate(m, m, m, 1)
    ensures station in stats ==> r[station] == Added(stats[station], m)
    ensures forall k :: k in stats && k != station ==> r[k] == stats[k]
  {
    stats[station := Added(Entry(stats, station), m)]
  }

  /** The scan loop from a given table, with the cursor at `from`. */
  function ScanAt(stats: Stats, bytes: seq<Byte>, from: nat, parse: seq<Byte> -> Option<int>): Result<Stats>
    requires from <= |bytes|
    decreases |bytes| - from
  {
    if from == |bytes| then Ok(stats)
    else
      match NextLine(bytes, from)
      case Err(e) => Err(e)
      case Ok((line, next)) =>
        match parse(line.measurement)
        case None => Err(BadMeasurement)
        case Some(v) => ScanAt(Upsert(stats, line.station, v), bytes, next, parse)
  }

  /** What `process_file_chunk(bytes)` computes: its two assertions, then the scan. */
  function ChunkStats(bytes: seq<Byte>, parse: seq<Byte> -> Option<int>): Result<Stats>
  {
    if bytes == [] then Err(EmptyChunk)
    else if bytes[|bytes| - 1] != NEWLINE then Err(MissingTrailingNewline)
    else ScanAt(map[], bytes, 0, parse)
  }

  /** The searches on slices of `bytes` from a position are the searches of `NextLine` at it. */
  lemma RecordAt(bytes: seq<Byte>, from: nat, n1: nat, n2: nat)
    requires from < |bytes| && Find(SEMICOLON, bytes[from..]) == Some(n1)
    requires n1 + 1 <= n2 < |bytes| - from && Find(NEWLINE, bytes[from + n1 + 1..]) == Some(n2 - (n1 + 1))
    ensures NextLine(bytes, from) == Ok((Line(bytes[from..from + n1], bytes[from + n1 + 1..from + n2]), from + n2 + 1))
  {
    FindSliceAt(SEMICOLON, bytes, from, n1, from + n1);
    NewlineAfter(bytes, from + n1 + 1, n2 - (n1 + 1), from + n2);
    NextLineAt(bytes, from, from + n1, from + n2);
  }

  /**
   * The searches and slices `process_file_chunk` makes on `remaining_bytes`
   * (the bytes from the cursor on) are those of `NextLine` at the cursor.
   */
  lemma RecordFound(bytes: seq<Byte>, from: nat, n1: nat, n2: nat)
    requires from < |bytes| && Find(SEMICOLON, bytes[from..]) == Some(n1)
    requires n1 + 1 <= n2 < |bytes| - from && Find(NEWLINE, bytes[from..][n1 + 1..]) == Some(n2 - (n1 + 1))
    ensures NextLine(bytes, from) == Ok((Line(bytes[from..][..n1], bytes[from..][n1 + 1..n2]), from + n2 + 1))
  {
    assert bytes[from..][n1 + 1..] == bytes[from + n1 + 1..];
    RecordAt(bytes, from, n1, n2);
    assert bytes[from..][..n1] == bytes[from..from + n1];
    assert bytes[from..][n1 + 1..n2] == bytes[from + n1 + 1..from + n2];
  }

  lemma NewlineAfter(bytes: seq<Byte>, start: nat, k: nat, at: nat)
    requires start <= |bytes| && Find(NEWLINE, bytes[start..]) == Some(k) && at == start + k
    ensures FindAfter(NEWLINE, bytes, start) == Some(at)
  {
    FindSliceAt(NEWLINE, bytes, start, k, at);
  }

  /** Every aggregate in the table keeps the `min <= max` invariant. */
  ghost predicate AllOrdered(stats: Stats)
  {
    forall k :: k in stats ==> Ordered(stats[k])
  }

  /**
   * `process_file_chunk`: the scan loop, with the cursor `consumedBytesCount`
   * moving strictly forward until it reaches the end of the chunk, and the
   * upsert of each record's measurement into the table.
   */
  method ProcessFileChunk(bytes: seq<Byte>, parse: seq<Byte> -> Option<int>) returns (r: Result<Stats>)
    ensures r == ChunkStats(bytes, parse)
  {
    if |bytes| == 0 {
      return Err(EmptyChunk);
    }
    if bytes[|bytes| - 1] != NEWLINE {
      return Err(MissingTrailingNewline);
    }
    var stats: Stats := map[];
    var consumedBytesCount := 0;
    while consumedBytesCount < |bytes|
      invariant consumedBytesCount <= |bytes|
      invariant ScanAt(stats, bytes, consumedBytesCount, parse) == ChunkStats(bytes, parse)
      invariant AllOrdered(stats)
      decreases |bytes| - consumedBytesCount
    {
      var record := ReadRecord(bytes, consumedBytesCount, parse);
      if record.Err? {
        return Err(record.error);
      }
      var (station, value, next) := record.value;
      consumedBytesCount := next;

      var data: AggregatedData;
      if station in stats {
        data := new AggregatedData.Load(stats[station]);
      } else {
        data := new AggregatedData();
      }
      data.AddDatapoint(value);
      assert data.Value() == Added(Entry(stats, station), value);
      stats := stats[station := data.Value()];
    }
    return Ok(stats);
  }

  /**
   * The record at the cursor, as the body of the scan loop reads it from
   * `remaining_bytes`: the station before the first `;`, the measurement up
   * to the next `\n` parsed, and the cursor just past that `\n`. The result
   * is the one `NextLine` and `parse` give; a failed `unwrap` is an error.
   */
  method ReadRecord(bytes: seq<Byte>, consumedBytesCount: nat, parse: seq<Byte> -> Option<int>)
    returns (r: Result<(seq<Byte>, int, nat)>)
    requires consumedBytesCount < |bytes| && bytes[|bytes| - 1] == NEWLINE
    ensures r.Ok? <==> NextLine(bytes, consumedBytesCount).Ok? && parse(NextLine(bytes, consumedBytesCount).value.0.measurement).Some?
    ensures r.Ok? ==>
      var (line, next) := NextLine(bytes, consumedBytesCount).value;
      r.value == (line.station, parse(line.measurement).value, next)
    ensures r.Err? ==> r.error == (if NextLine(bytes, consumedBytesCount).Err? then MissingSeparator else BadMeasurement)
    ensures NextLine(bytes, consumedBytesCount).Err? ==> NextLine(bytes, consumedBytesCount).error == MissingSeparator
  {
    var remainingBytes := bytes[consumedBytesCount..];

    var n1 := Find(SEMICOLON, remainingBytes);
    if n1.None? {
      FindSlice(SEMICOLON, bytes, consumedBytesCount);
      return Err(MissingSeparator);
    }
    var station := remainingBytes[..n1.value];

    // the chunk ends with `\n`, so the terminator search after `;` succeeds
    var searchBeginI := n1.value + 1;
    assert remainingBytes[searchBeginI..][|remainingBytes| - 1 - searchBeginI] == NEWLINE;
    var n2 := Find(NEWLINE, remainingBytes[searchBeginI..]).value + searchBeginI;
    var measurement := remainingBytes[n1.value + 1..n2];
    RecordFound(bytes, consumedBytesCount, n1.value, n2);

    var parsed := parse(measurement);
    if parsed.None? {
      return Err(BadMeasurement);
    }
    return Ok((station, parsed.value, consumedBytesCount + n2 + 1));
  }

  /**
   * Inside a newline-terminated chunk the `unwrap` on the terminator search
   * never fails: the scan only stops at a missing `;` or a bad measurement.
   */
  lemma {:induction false} NoMissingTerminator(stats: Stats, bytes: seq<Byte>, from: nat, parse: seq<Byte> -> Option<int>)
    requires from <= |bytes| && bytes != [] && bytes[|bytes| - 1] == NEWLINE
    ensures ScanAt(stats, bytes, from, parse).Err? ==>
      ScanAt(stats, bytes, from, parse).error == MissingSeparator || ScanAt(stats, bytes, from, parse).error == BadMeasurement
    decreases |bytes| - from
  {
    if from < |bytes| {
      var first := FindAfter(SEMICOLON, bytes, from);
      if first.Some? {
        assert first.value < |bytes| - 1;
        assert FindAfter(NEWLINE, bytes, first.value + 1).Some?;
      }
      match NextLine(bytes, from)
      case Err(e) =>
      case Ok((line, next)) =>
        match parse(line.measurement)
        case None =>
        case Some(v) =>
          NoMissingTerminator(Upsert(stats, line.station, v), bytes, next, parse);
    }
  }

  /**
   * On a chunk that passes the two assertions, the scan can only fail for a
   * missing `;` or an unparsable measurement.
   */
  lemma ChunkErrors(bytes: seq<Byte>, parse: seq<Byte> -> Option<int>)
    requires bytes != [] && bytes[|bytes| - 1] == NEWLINE
    ensures ChunkStats(bytes, parse).Err? ==>
      ChunkStats(bytes, parse).error == MissingSeparator || ChunkStats(bytes, parse).error == BadMeasurement
  {
    NoMissingTerminator(map[], bytes, 0, parse);
  }

  /** The bytes of a sequence of records, in order. */
  function Lines(lines: seq<Line>): seq<Byte>
  {
    if lines == [] then [] else Encode(lines[0]) + Lines(lines[1..])
  }

  /** Splitting recovers a well-formed record from its bytes, whatever precedes and follows it. */
  lemma NextLineEncode(prefix: seq<Byte>, line: Line, rest: seq<Byte>)
    requires WellFormed(line)
    ensures NextLine(prefix + Encode(line) + rest, |prefix|) == Ok((line, |prefix| + |Encode(line)|))
  {
    var bytes := prefix + Encode(line) + rest;
    var p, ls, lm := |prefix|, |line.station|, |line.measurement|;
    SeparatorAt(prefix, line, rest);
    TerminatorAt(prefix, line, rest);
    PartsAt(prefix, line, rest);
    NextLineAt(bytes, p, p + ls, p + ls + 1 + lm);
  }

  /** The first `;` from the start of a well-formed record's bytes ends its station name. */
  lemma SeparatorAt(prefix: seq<Byte>, line: Line, rest: seq<Byte>)
    requires WellFormed(line)
    ensures FindAfter(SEMICOLON, prefix + Encode(line) + rest, |prefix|) == Some(|prefix| + |line.station|)
  {
    RecordSplit(prefix, line, rest);
    FirstAfter(SEMICOLON, prefix, line.station, line.measurement + [NEWLINE] + rest);
  }

  /** The first `\n` after that `;` ends the record. */
  lemma TerminatorAt(prefix: seq<Byte>, line: Line, rest: seq<Byte>)
    requires WellFormed(line)
    ensures |prefix + Encode(line) + rest| > |prefix| + |line.station| + 1 + |line.measurement|
    ensures FindAfter(NEWLINE, prefix + Encode(line) + rest, |prefix| + |line.station| + 1)
      == Some(|prefix| + |line.station| + 1 + |line.measurement|)
  {
    RecordSplit(prefix, line, rest);
    FirstAfter(NEWLINE, prefix + line.station + [SEMICOLON], line.measurement, rest);
  }

  /** Searching from the end of a front part finds the first `b` of what follows it. */
  lemma {:induction false} FirstAfter(b: Byte, front: seq<Byte>, a: seq<Byte>, tail: seq<Byte>)
    requires b !in a
    ensures FindAfter(b, front + (a + [b] + tail), |front|) == Some(|front| + |a|)
  {
    var s := front + (a + [b] + tail);
    forall k | |front| <= k < |front| + |a| ensures s[k] != b {
      assert s[k] == a[k - |front|];
    }
    assert s[|front| + |a|] == b;
    FindAfterAt(b, s, |front|, |front| + |a|);
  }

  /** The bytes around a record, regrouped at its `;`. */
  lemma RecordSplit(prefix: seq<Byte>, line: Line, rest: seq<Byte>)
    ensures prefix + Encode(line) + rest
      == prefix + (line.station + [SEMICOLON] + (line.measurement + [NEWLINE] + rest))
      == prefix + line.station + [SEMICOLON] + (line.measurement + [NEWLINE] + rest)
  {
  }

  /** The station name and the measurement text sit where the separator and terminator put them. */
  lemma PartsAt(prefix: seq<Byte>, line: Line, rest: seq<Byte>)
    ensures |prefix + Encode(line) + rest| > |prefix| + |line.station| + 1 + |line.measurement|
    ensures (prefix + Encode(line) + rest)[|prefix|..|prefix| + |line.station|] == line.station
    ensures (prefix + Encode(line) + rest)[|prefix| + |line.station| + 1..|prefix| + |line.station| + 1 + |line.measurement|]
      == line.measurement
    ensures |prefix| + |line.station| + 1 + |line.measurement| + 1 == |prefix| + |Encode(line)|
  {
    var e := Encode(line);
    var ls, lm := |line.station|, |line.measurement|;
    EncodeLayout(line);
    Embedded(prefix, e, rest);
    assert e[..ls] == e[0..ls];
    assert e[ls + 1..ls + 1 + lm] == line.measurement;
  }

  /** Where the parts of a record sit in its bytes. */
  lemma EncodeLayout(line: Line)
    ensures |Encode(line)| == |line.station| + |line.measurement| + 2
    ensures Encode(line)[..|line.station|] == line.station
    ensures Encode(line)[|line.station|] == SEMICOLON
    ensures Encode(line)[|line.station| + 1..|Encode(line)| - 1] == line.measurement
    ensures Encode(line)[|Encode(line)| - 1] == NEWLINE
    ensures forall k :: 0 <= k < |line.station| ==> Encode(line)[k] == line.station[k]
    ensures forall k :: 0 <= k < |line.measurement| ==> Encode(line)[|line.station| + 1 + k] == line.measurement[k]
  {
  }

  /** The bytes of `e` inside `prefix + e + rest`, by position and by slice. */
  lemma Embedded(prefix: seq<Byte>, e: seq<Byte>, rest: seq<Byte>)
    ensures |prefix + e + rest| == |prefix| + |e| + |rest|
    ensures forall k :: 0 <= k < |e| ==> (prefix + e + rest)[|prefix| + k] == e[k]
    ensures forall i, j :: 0 <= i <= j <= |e| ==> (prefix + e + rest)[|prefix| + i..|prefix| + j] == e[i..j]
  {
    var bytes := prefix + e + rest;
    forall i, j | 0 <= i <= j <= |e| ensures bytes[|prefix| + i..|prefix| + j] == e[i..j] {
      assert |bytes[|prefix| + i..|prefix| + j]| == j - i;
      forall k | 0 <= k < j - i ensures bytes[|prefix| + i..|prefix| + j][k] == e[i..j][k] {
        assert bytes[|prefix| + i + k] == e[i + k];
      }
    }
  }

  /** The record the scan loop splits off, given where the next `;` and the `\n` after it are. */
  lemma NextLineAt(bytes: seq<Byte>, from: nat, n1: nat, n2: nat)
    requires from <= n1 < n2 <= |bytes|
    requires FindAfter(SEMICOLON, bytes, from) == Some(n1) && FindAfter(NEWLINE, bytes, n1 + 1) == Some(n2)
    ensures NextLine(bytes, from) == Ok((Line(bytes[from..n1], bytes[n1 + 1..n2]), n2 + 1))
  {
  }

  predicate ParsesAll(lines: seq<Line>, parse: seq<Byte> -> Option<int>)
  {
    forall i :: 0 <= i < |lines| ==> parse(lines[i].measurement).Some?
  }

  /** The table after upserting every record in order, starting from `stats`. */
  function TallyFrom(stats: Stats, lines: seq<Line>, parse: seq<Byte> -> Option<int>): Stats
    requires ParsesAll(lines, parse)
    decreases |lines|
  {
    if lines == [] then stats
    else TallyFrom(Upsert(stats, lines[0].station, parse(lines[0].measurement).value), lines[1..], parse)
  }

  /** Reference: the parsed measurements of the records naming `station`, in order. */
  function Samples(lines: seq<Line>, station: seq<Byte>, parse: seq<Byte> -> Option<int>): seq<int>
    requires ParsesAll(lines, parse)
  {
    if lines == [] then []
    else
      (if lines[0].station == station then [parse(lines[0].measurement).value] else [])
      + Samples(lines[1..], station, parse)
  }

  /** Reference: the set of station names of the records. */
  function Stations(lines: seq<Line>): set<seq<Byte>>
  {
    set i | 0 <= i < |lines| :: lines[i].station
  }

  lemma StationsCons(lines: seq<Line>)
    requires lines != []
    ensures Stations(lines) == {lines[0].station} + Stations(lines[1..])
  {
    forall s | s in Stations(lines) ensures s in {lines[0].station} + Stations(lines[1..]) {
      var i :| 0 <= i < |lines| && lines[i].station == s;
      if i > 0 { assert lines[1..][i - 1].station == s; }
    }
    forall s | s in Stations(lines[1..]) ensures s in Stations(lines) {
      var i :| 0 <= i < |lines[1..]| && lines[1..][i].station == s;
      assert lines[i + 1].station == s;
    }
  }

  /** Scanning the bytes of well-formed records is the same as upserting the records in turn. */
  lemma {:induction false} ScanLines(stats: Stats, prefix: seq<Byte>, lines: seq<Line>, parse: seq<Byte> -> Option<int>)
    requires forall i :: 0 <= i < |lines| ==> WellFormed(lines[i])
    requires ParsesAll(lines, parse)
    ensures ScanAt(stats, prefix + Lines(lines), |prefix|, parse) == Ok(TallyFrom(stats, lines, parse))
    decreases |lines|
  {
    if lines == [] {
      assert prefix + Lines(lines) == prefix;
    } else {
      var line, rest := lines[0], lines[1..];
      var v := parse(line.measurement).value;
      assert WellFormed(line);
      RestRecords(lines, parse);
      ScanFirst(stats, prefix, line, Lines(rest), v, parse);
      assert Lines(lines) == Encode(line) + Lines(rest);
      Associative(prefix, Encode(line), Lines(rest));
      ScanLines(Upsert(stats, line.station, v), prefix + Encode(line), rest, parse);
    }
  }

  lemma Associative(a: seq<Byte>, b: seq<Byte>, c: seq<Byte>)
    ensures a + (b + c) == a + b + c
  {
  }

  /** The records after the first are well-formed and parse when all of them do. */
  lemma RestRecords(lines: seq<Line>, parse: seq<Byte> -> Option<int>)
    requires lines != [] && forall i :: 0 <= i < |lines| ==> WellFormed(lines[i])
    requires ParsesAll(lines, parse)
    ensures forall i :: 0 <= i < |lines[1..]| ==> WellFormed(lines[1..][i])
    ensures ParsesAll(lines[1..], parse)
  {
    var rest := lines[1..];
    forall i | 0 <= i < |rest| ensures WellFormed(rest[i]) && parse(rest[i].measurement).Some? {
      assert rest[i] == lines[i + 1];
    }
  }

  /** A well-formed record at the cursor is scanned and upserted, and the scan goes on after it. */
  lemma ScanFirst(stats: Stats, prefix: seq<Byte>, line: Line, rest: seq<Byte>, v: int, parse: seq<Byte> -> Option<int>)
    requires WellFormed(line) && parse(line.measurement) == Some(v)
    ensures ScanAt(stats, prefix + Encode(line) + rest, |prefix|, parse)
      == ScanAt(Upsert(stats, line.station, v), prefix + Encode(line) + rest, |prefix + Encode(line)|, parse)
  {
    NextLineEncode(prefix, line, rest);
    ScanStep(stats, prefix + Encode(line) + rest, |prefix|, line, |prefix + Encode(line)|, v, parse);
  }

  /** One step of the scan: a record that splits off and parses is upserted before the rest is scanned. */
  lemma ScanStep(stats: Stats, bytes: seq<Byte>, from: nat, line: Line, next: nat, v: int, parse: seq<Byte> -> Option<int>)
    requires from < |bytes| && NextLine(bytes, from) == Ok((line, next))
    requires parse(line.measurement) == Some(v)
    ensures ScanAt(stats, bytes, from, parse) == ScanAt(Upsert(stats, line.station, v), bytes, next, parse)
  {
  }

  /**
   * The table after the records: its keys are the old keys and the records'
   * stations, and each entry is its old aggregate with that station's
   * samples added in order.
   */
  lemma {:induction false} TallyFromEntries(stats: Stats, lines: seq<Line>, parse: seq<Byte> -> Option<int>)
    requires ParsesAll(lines, parse)
    ensures TallyFrom(stats, lines, parse).Keys == stats.Keys + Stations(lines)
    ensures forall s :: s in TallyFrom(stats, lines, parse) ==>
      TallyFrom(stats, lines, parse)[s] == ReplayFrom(Entry(stats, s), Samples(lines, s, parse))
    decreases |lines|
  {
    if lines != [] {
      var v := parse(lines[0].measurement).value;
      var stats' := Upsert(stats, lines[0].station, v);
      TallyFromEntries(stats', lines[1..], parse);
      var r := TallyFrom(stats, lines, parse);
      assert r == TallyFrom(stats', lines[1..], parse);
      forall s | s in r
        ensures r[s] == ReplayFrom(Entry(stats, s), Samples(lines, s, parse))
      {
        if s == lines[0].station {
          assert Samples(lines, s, parse) == [v] + Samples(lines[1..], s, parse);
          assert Entry(stats', s) == Added(Entry(stats, s), v);
        } else {
          assert Samples(lines, s, parse) == Samples(lines[1..], s, parse);
          assert Entry(stats', s) == Entry(stats, s);
        }
      }
      StationsCons(lines);
    }
  }

  /**
   * For a chunk made of well-formed records whose measurements all parse,
   * `process_file_chunk` succeeds; its keys are exactly the distinct
   * station names, and each station's aggregate is that of its own samples:
   * as many as the records naming it, with their sum, and (no sample being
   * the `f32::MIN` sentinel) their minimum and maximum.
   */
  lemma ChunkStatsOfRecords(lines: seq<Line>, parse: seq<Byte> -> Option<int>)
    requires lines != []
    requires forall i :: 0 <= i < |lines| ==> WellFormed(lines[i])
    requires ParsesAll(lines, parse)
    ensures ChunkStats(Lines(lines), parse).Ok?
    ensures ChunkStats(Lines(lines), parse).value.Keys == Stations(lines)
    ensures forall s :: s in Stations(lines) ==>
      ChunkStats(Lines(lines), parse).value[s] == Replay(Samples(lines, s, parse))
    ensures forall s :: s in Stations(lines) ==>
      ChunkStats(Lines(lines), parse).value[s].sampleCount == |Samples(lines, s, parse)|
  {
    LinesEndWithNewline(lines);
    ScanLines(map[], [], lines, parse);
    assert [] + Lines(lines) == Lines(lines);
    TallyFromEntries(map[], lines, parse);
    forall s | s in Stations(lines)
      ensures ChunkStats(Lines(lines), parse).value[s] == Replay(Samples(lines, s, parse))
      ensures ChunkStats(Lines(lines), parse).value[s].sampleCount == |Samples(lines, s, parse)|
    {
      ReplayFromEmpty(Samples(lines, s, parse));
      ReplayCountsAndSums(Samples(lines, s, parse));
    }
  }

  lemma {:induction false} LinesEndWithNewline(lines: seq<Line>)
    requires lines != []
    ensures Lines(lines) != [] && Lines(lines)[|Lines(lines)| - 1] == NEWLINE
  {
    if |lines| > 1 {
      LinesEndWithNewline(lines[1..]);
    }
  }
}
