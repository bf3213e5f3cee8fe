/**
 * `process_file_chunk` on the four records of its unit test, with the
 * measurements read as hundredths.
 */
module ScannerExamples {
  import opened Bytes
  import opened Aggregates
  import opened Scanner

  const BERLIN: seq<Byte> := [0x42, 0x65, 0x72, 0x6C, 0x69, 0x6E]
  const HAMBURG: seq<Byte> := [0x48, 0x61, 0x6D, 0x62, 0x75, 0x72, 0x67]
  const NEW_YORK: seq<Byte> := [0x4E, 0x65, 0x77, 0x20, 0x59, 0x6F, 0x72, 0x6B]

  /** `10.0`, `-12.7`, `21.75` and `-15.7`. */
  const M1: seq<Byte> := [0x31, 0x30, 0x2E, 0x30]
  const M2: seq<Byte> := [0x2D, 0x31, 0x32, 0x2E, 0x37]
  const M3: seq<Byte> := [0x32, 0x31, 0x2E, 0x37, 0x35]
  const M4: seq<Byte> := [0x2D, 0x31, 0x35, 0x2E, 0x37]

  const RECORDS: seq<Line> := [Line(BERLIN, M1), Line(HAMBURG, M2), Line(NEW_YORK, M3), Line(BERLIN, M4)]

  /**
   * The table has one entry per distinct station; Berlin's two samples give
   * minimum -15.7, maximum 10.0, sum -5.7 and count 2.
   */
  lemma ProcessFileChunkExample(parse: seq<Byte> -> Option<int>)
    requires parse(M1) == Some(1000) && parse(M2) == Some(-1270)
    requires parse(M3) == Some(2175) && parse(M4) == Some(-1570)
    ensures ChunkStats(Lines(RECORDS), parse).Ok?
    ensures ChunkStats(Lines(RECORDS), parse).value == map[
      BERLIN := Aggregate(-1570, 1000, -570, 2),
      HAMBURG := Aggregate(-1270, -1270, -1270, 1),
      NEW_YORK := Aggregate(2175, 2175, 2175, 1)]
  {
    RecordsWellFormed();
    SamplesOfRecords(parse);
    ChunkStatsOfRecords(RECORDS, parse);
    ExampleReplays();
    var t := ChunkStats(Lines(RECORDS), parse).value;
    assert t.Keys == {BERLIN, HAMBURG, NEW_YORK};
    assert t[BERLIN] == Aggregate(-1570, 1000, -570, 2);
    assert t[HAMBURG] == Aggregate(-1270, -1270, -1270, 1);
    assert t[NEW_YORK] == Aggregate(2175, 2175, 2175, 1);
  }

  lemma RecordsWellFormed()
    ensures forall i :: 0 <= i < |RECORDS| ==> WellFormed(RECORDS[i])
    ensures Stations(RECORDS) == {BERLIN, HAMBURG, NEW_YORK}
  {
    assert RECORDS[0].station == BERLIN && RECORDS[1].station == HAMBURG && RECORDS[2].station == NEW_YORK;
  }

  lemma ExampleReplays()
    ensures Replay([1000, -1570]) == Aggregate(-1570, 1000, -570, 2)
    ensures Replay([-1270]) == Aggregate(-1270, -1270, -1270, 1)
    ensures Replay([2175]) == Aggregate(2175, 2175, 2175, 1)
  {
    assert [1000, -1570][..1] == [1000];
    assert [1000][..0] == [] && [-1270][..0] == [] && [2175][..0] == [];
  }

  lemma SamplesOfRecords(parse: seq<Byte> -> Option<int>)
    requires parse(M1) == Some(1000) && parse(M2) == Some(-1270)
    requires parse(M3) == Some(2175) && parse(M4) == Some(-1570)
    ensures ParsesAll(RECORDS, parse)
    ensures Samples(RECORDS, BERLIN, parse) == [1000, -1570]
    ensures Samples(RECORDS, HAMBURG, parse) == [-1270]
    ensures Samples(RECORDS, NEW_YORK, parse) == [2175]
  {
    assert BERLIN != HAMBURG && BERLIN != NEW_YORK && HAMBURG != NEW_YORK;
    SamplesOf(parse, BERLIN);
    SamplesOf(parse, HAMBURG);
    SamplesOf(parse, NEW_YORK);
    assert [1000] + ([] + ([] + ([-1570] + []))) == [1000, -1570];
  }

  /** The samples of `station`, record by record. */
  lemma SamplesOf(parse: seq<Byte> -> Option<int>, station: seq<Byte>)
    requires parse(M1) == Some(1000) && parse(M2) == Some(-1270)
    requires parse(M3) == Some(2175) && parse(M4) == Some(-1570)
    ensures ParsesAll(RECORDS, parse)
    ensures Samples(RECORDS, station, parse)
      == (if station == BERLIN then [1000] else [])
      + ((if station == HAMBURG then [-1270] else [])
      + ((if station == NEW_YORK then [2175] else [])
      + ((if station == BERLIN then [-1570] else []) + [])))
  {
    var r3 := [Line(BERLIN, M4)];
    var r2 := [Line(NEW_YORK, M3)] + r3;
    var r1 := [Line(HAMBURG, M2)] + r2;
    assert RECORDS == [Line(BERLIN, M1)] + r1;
    assert [Line(BERLIN, M4)] + [] == r3;
    SamplesCons(Line(BERLIN, M4), [], station, parse);
    SamplesCons(Line(NEW_YORK, M3), r3, station, parse);
    SamplesCons(Line(HAMBURG, M2), r2, station, parse);
    SamplesCons(Line(BERLIN, M1), r1, station, parse);
  }

  /** Unfolds `Samples` at a record put in front of others. */
  lemma SamplesCons(line: Line, rest: seq<Line>, station: seq<Byte>, parse: seq<Byte> -> Option<int>)
    requires parse(line.measurement).Some? && ParsesAll(rest, parse)
    ensures ParsesAll([line] + rest, parse)
    ensures Samples([line] + rest, station, parse)
      == (if line.station == station then [parse(line.measurement).value] else []) + Samples(rest, station, parse)
  {
    var all := [line] + rest;
    assert all[0] == line && all[1..] == rest;
    assert forall i :: 1 <= i < |all| ==> all[i] == rest[i - 1];
  }
}
