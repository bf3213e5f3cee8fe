/**
 * Why splitting at line terminators is sound: in the bytes of well-formed
 * records every `\n` ends a record, so chunks that end with `\n` and
 * concatenate to the file are each the bytes of a run of whole records.
 */
module Alignment {
  import opened Bytes
  import opened Chunks
  import opened Scanner

  /** The only line terminator of a well-formed record's bytes is its last byte. */
  lemma EncodeNewline(line: Line)
    requires WellFormed(line)
    ensures forall k :: 0 <= k < |Encode(line)| - 1 ==> Encode(line)[k] != NEWLINE
  {
    var e := Encode(line);
    forall k | 0 <= k < |e| - 1 ensures e[k] != NEWLINE {
      if k < |line.station| {
        assert e[k] == line.station[k];
      } else if k > |line.station| {
        assert e[k] == line.measurement[k - |line.station| - 1];
      }
    }
  }

  /** The bytes of records split where the records split. */
  lemma {:induction false} LinesSplit(lines: seq<Line>, m: nat)
    requires m <= |lines|
    ensures Lines(lines) == Lines(lines[..m]) + Lines(lines[m..])
    decreases m
  {
    if m == 0 {
      assert lines[..0] == [] && lines[0..] == lines;
    } else {
      var rest := lines[1..];
      LinesSplit(rest, m - 1);
      var front := lines[..m];
      assert front[0] == lines[0] && front[1..] == rest[..m - 1];
      assert Lines(front) == Encode(lines[0]) + Lines(rest[..m - 1]);
      assert rest[m - 1..] == lines[m..];
    }
  }

  /**
   * A line terminator at offset `p - 1` of the bytes of well-formed
   * records closes the `m`-th record: the first `m` records are exactly
   * the first `p` bytes.
   */
  lemma {:induction false} RecordBoundary(lines: seq<Line>, p: nat) returns (m: nat)
    requires forall i :: 0 <= i < |lines| ==> WellFormed(lines[i])
    requires 0 < p <= |Lines(lines)| && Lines(lines)[p - 1] == NEWLINE
    ensures 0 < m <= |lines| && |Lines(lines[..m])| == p
    decreases |lines|
  {
    var e := Encode(lines[0]);
    var rest := lines[1..];
    assert Lines(lines) == e + Lines(rest);
    EncodeNewline(lines[0]);
    if p <= |e| {
      assert e[p - 1] == NEWLINE;
      m := 1;
      assert lines[..1][1..] == [];
    } else {
      assert Lines(rest)[p - |e| - 1] == NEWLINE;
      var m' := RecordBoundary(rest, p - |e|);
      m := m' + 1;
      assert lines[..m][1..] == rest[..m'];
    }
  }

  lemma SplitEqual(a: seq<Byte>, b: seq<Byte>, c: seq<Byte>, d: seq<Byte>)
    requires a + b == c + d && |a| == |c|
    ensures a == c && b == d
  {
    assert a == (a + b)[..|a|] && c == (c + d)[..|c|];
    assert b == (a + b)[|a|..] && d == (c + d)[|c|..];
  }

  /** The records of a list of runs of records, in order. */
  function Flatten(parts: seq<seq<Line>>): seq<Line>
  {
    if parts == [] then [] else Flatten(parts[..|parts| - 1]) + parts[|parts| - 1]
  }

  /** Each chunk of a newline-terminated, non-empty list of chunks ends with `\n`, and so does their concatenation. */
  lemma ConcatEndsWithNewline(chunks: seq<seq<Byte>>)
    requires chunks != [] && AllTerminated(chunks)
    ensures Concat(chunks) != [] && Concat(chunks)[|Concat(chunks)| - 1] == NEWLINE
  {
    var last := chunks[|chunks| - 1];
    assert Concat(chunks) == Concat(chunks[..|chunks| - 1]) + last;
  }

  /**
   * Chunks that end with `\n` and concatenate to the bytes of well-formed
   * records are the bytes of consecutive non-empty runs of those records.
   */
  lemma {:induction false} ChunksAreRecords(lines: seq<Line>, chunks: seq<seq<Byte>>) returns (parts: seq<seq<Line>>)
    requires forall i :: 0 <= i < |lines| ==> WellFormed(lines[i])
    requires Concat(chunks) == Lines(lines) && AllTerminated(chunks)
    ensures |parts| == |chunks| && Flatten(parts) == lines
    ensures forall i :: 0 <= i < |parts| ==> parts[i] != [] && chunks[i] == Lines(parts[i])
    decreases |chunks|
  {
    if chunks == [] {
      assert lines == [] by {
        if lines != [] {
          LinesEndWithNewline(lines);
        }
      }
      parts := [];
    } else {
      var init, c := chunks[..|chunks| - 1], chunks[|chunks| - 1];
      assert chunks == init + [c];
      var m := LastChunkRecords(lines, init, c);
      var initParts := ChunksAreRecords(lines[..m], init);
      parts := initParts + [lines[m..]];
      PartsSnoc(lines, m, initParts, init, c);
    }
  }

  /**
   * The last of the chunks is the bytes of a non-empty run of the last
   * records; the chunks before it are the bytes of the records before.
   */
  lemma LastChunkRecords(lines: seq<Line>, init: seq<seq<Byte>>, c: seq<Byte>) returns (m: nat)
    requires forall i :: 0 <= i < |lines| ==> WellFormed(lines[i])
    requires Concat(init) + c == Lines(lines) && AllTerminated(init) && c != []
    ensures m <= |lines| && lines[m..] != []
    ensures Concat(init) == Lines(lines[..m]) && c == Lines(lines[m..])
    ensures forall i :: 0 <= i < |lines[..m]| ==> WellFormed(lines[..m][i])
  {
    var p := |Concat(init)|;
    m := 0;
    if p > 0 {
      ConcatEndsWithNewline(init);
      assert Lines(lines)[p - 1] == Concat(init)[p - 1];
      m := RecordBoundary(lines, p);
    }
    LinesSplit(lines, m);
    if p == 0 {
      assert lines[..m] == [];
    }
    SplitEqual(Lines(lines[..m]), Lines(lines[m..]), Concat(init), c);
  }

  /** Adding the last run to the runs of the earlier chunks gives the runs of all chunks. */
  lemma PartsSnoc(lines: seq<Line>, m: nat, initParts: seq<seq<Line>>, init: seq<seq<Byte>>, c: seq<Byte>)
    requires m <= |lines| && lines[m..] != [] && c == Lines(lines[m..])
    requires |initParts| == |init| && Flatten(initParts) == lines[..m]
    requires forall i :: 0 <= i < |initParts| ==> initParts[i] != [] && init[i] == Lines(initParts[i])
    ensures |initParts + [lines[m..]]| == |init + [c]|
    ensures Flatten(initParts + [lines[m..]]) == lines
    ensures forall i :: 0 <= i < |initParts| + 1 ==>
      (initParts + [lines[m..]])[i] != [] && (init + [c])[i] == Lines((initParts + [lines[m..]])[i])
  {
    var parts := initParts + [lines[m..]];
    assert parts[..|parts| - 1] == initParts;
    assert lines[..m] + lines[m..] == lines;
    forall i | 0 <= i < |initParts| + 1 ensures parts[i] != [] && (init + [c])[i] == Lines(parts[i]) {
      if i < |initParts| {
        assert parts[i] == initParts[i] && (init + [c])[i] == init[i];
      }
    }
  }

  /** A record is in the flattened list exactly when it is in one of the runs. */
  lemma {:induction false} FlattenMember(parts: seq<seq<Line>>, line: Line)
    ensures line in Flatten(parts) <==> exists i :: 0 <= i < |parts| && line in parts[i]
  {
    if parts != [] {
      var init := parts[..|parts| - 1];
      FlattenMember(init, line);
      if line in Flatten(parts) && line !in parts[|parts| - 1] {
        var i :| 0 <= i < |init| && line in init[i];
        assert parts[i] == init[i];
      }
      if line in parts[|parts| - 1] {
        assert line in Flatten(parts);
      }
      if i :| 0 <= i < |parts| - 1 && line in parts[i] {
        assert init[i] == parts[i];
      }
    }
  }

  /** A station names a record of the flattened list exactly when it names a record of some run. */
  lemma StationsFlatten(parts: seq<seq<Line>>, s: seq<Byte>)
    ensures s in Stations(Flatten(parts)) <==> exists i :: 0 <= i < |parts| && s in Stations(parts[i])
  {
    var lines := Flatten(parts);
    if s in Stations(lines) {
      var k :| 0 <= k < |lines| && lines[k].station == s;
      FlattenMember(parts, lines[k]);
      var i :| 0 <= i < |parts| && lines[k] in parts[i];
      var j :| 0 <= j < |parts[i]| && parts[i][j] == lines[k];
      assert s in Stations(parts[i]);
    }
    if i :| 0 <= i < |parts| && s in Stations(parts[i]) {
      var j :| 0 <= j < |parts[i]| && parts[i][j].station == s;
      FlattenMember(parts, parts[i][j]);
      var k :| 0 <= k < |lines| && lines[k] == parts[i][j];
      assert s in Stations(lines);
    }
  }

  /** Every run of a flattened list of well-formed, parsable records is well-formed and parsable. */
  lemma RunRecords(lines: seq<Line>, parts: seq<seq<Line>>, i: nat, parse: seq<Byte> -> Option<int>)
    requires Flatten(parts) == lines && i < |parts|
    requires forall k :: 0 <= k < |lines| ==> WellFormed(lines[k])
    requires ParsesAll(lines, parse)
    ensures forall k :: 0 <= k < |parts[i]| ==> WellFormed(parts[i][k])
    ensures ParsesAll(parts[i], parse)
  {
    forall k | 0 <= k < |parts[i]|
      ensures WellFormed(parts[i][k]) && parse(parts[i][k].measurement).Some?
    {
      FlattenMember(parts, parts[i][k]);
      var idx :| 0 <= idx < |lines| && lines[idx] == parts[i][k];
    }
  }
}
