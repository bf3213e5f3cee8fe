/**
 * `ChunkIter`: splits the file into at most `chunk_count` contiguous chunks
 * whose boundaries fall right after a line terminator, so that no record
 * is split between two workers.
 */
module Chunks {
  import opened Bytes

  /** `usize::div_ceil`: the least `r` with `n <= r * d`. */
  function CeilDiv(n: nat, d: nat): (r: nat)
    requires d > 0
    ensures n <= Mul(r, d) && (r == 0 || Mul(r - 1, d) < n)
  {
    var q := (n + d - 1) / d;
    CeilDivBounds(n, d, q);
    q
  }

  lemma CeilDivBounds(n: nat, d: nat, q: nat)
    requires d > 0 && q == (n + d - 1) / d
    ensures n <= Mul(q, d) && (q == 0 || Mul(q - 1, d) < n)
  {
    assert n + d - 1 == q * d + (n + d - 1) % d;
    MulIsProduct(q, d);
    if q > 0 {
      MulIsProduct(q - 1, d);
      assert (q - 1) * d == q * d - d;
    }
  }

  /**
   * `k * b` as `k` repeated additions: the chunk-counting arguments only
   * ever add one more chunk, and this form keeps them linear.
   */
  function Mul(k: nat, b: nat): nat
  {
    if k == 0 then 0 else Mul(k - 1, b) + b
  }

  lemma MulCommutes(a: nat, b: nat)
    ensures Mul(a, b) == Mul(b, a)
  {
    MulIsProduct(a, b);
    MulIsProduct(b, a);
  }

  lemma {:induction false} MulIsProduct(k: nat, b: nat)
    ensures Mul(k, b) == k * b
  {
    if k > 0 {
      MulIsProduct(k - 1, b);
      assert k * b == (k - 1) * b + b;
    }
  }

  /** The file is empty or its last byte is a line terminator. */
  predicate NewlineTerminated(s: seq<Byte>)
  {
    s == [] || s[|s| - 1] == NEWLINE
  }

  /**
   * Where a chunk starting at `begin` ends (exclusive): one past the first
   * line terminator at or after `begin + min(bytesPerChunk, bytes_left) - 1`.
   * `None` is the case in which `unwrap` on the search result panics.
   */
  function ChunkEnd(bytes: seq<Byte>, bytesPerChunk: nat, begin: nat): (r: Option<nat>)
    requires begin < |bytes| && bytesPerChunk > 0
    ensures var iEndMin := begin + Min(bytesPerChunk, |bytes| - begin) - 1;
      && (r.None? <==> NEWLINE !in bytes[iEndMin..])
      && (r.Some? ==> iEndMin < r.value <= |bytes| && bytes[r.value - 1] == NEWLINE
                      && NEWLINE !in bytes[iEndMin..r.value - 1])
  {
    var iEndMin := begin + Min(bytesPerChunk, |bytes| - begin) - 1;
    match Find(NEWLINE, bytes[iEndMin..])
    case None => None
    case Some(j) =>
      assert bytes[iEndMin..][..j] == bytes[iEndMin..iEndMin + j];
      Some(iEndMin + j + 1)
  }

  /** On a newline-terminated file the terminator search never fails. */
  lemma ChunkEndDefined(bytes: seq<Byte>, bytesPerChunk: nat, begin: nat)
    requires begin < |bytes| && bytesPerChunk > 0 && NewlineTerminated(bytes)
    ensures ChunkEnd(bytes, bytesPerChunk, begin).Some?
  {
    var iEndMin := begin + Min(bytesPerChunk, |bytes| - begin) - 1;
    assert bytes[iEndMin..][|bytes| - 1 - iEndMin] == NEWLINE;
  }

  /** The end `ChunkEnd` selects, from the search the iterator makes. */
  lemma ChunkEndFound(bytes: seq<Byte>, bytesPerChunk: nat, begin: nat, iEndMin: nat, j: nat)
    requires begin < |bytes| && bytesPerChunk > 0
    requires iEndMin == begin + Min(bytesPerChunk, |bytes| - begin) - 1
    requires Find(NEWLINE, bytes[iEndMin..]) == Some(j)
    ensures ChunkEnd(bytes, bytesPerChunk, begin) == Some(iEndMin + j + 1)
  {
  }

  /** `ChunkEnd` is the first line terminator at or after the minimal chunk end, plus one. */
  lemma ChunkEndAt(bytes: seq<Byte>, bytesPerChunk: nat, begin: nat, end: nat)
    requires begin < |bytes| && bytesPerChunk > 0
    requires begin + Min(bytesPerChunk, |bytes| - begin) - 1 < end <= |bytes| && bytes[end - 1] == NEWLINE
    requires forall k :: begin + Min(bytesPerChunk, |bytes| - begin) - 1 <= k < end - 1 ==> bytes[k] != NEWLINE
    ensures ChunkEnd(bytes, bytesPerChunk, begin) == Some(end)
  {
    var iEndMin := begin + Min(bytesPerChunk, |bytes| - begin) - 1;
    var tail := bytes[iEndMin..];
    forall k | 0 <= k < end - 1 - iEndMin ensures tail[k] != NEWLINE {
      assert tail[k] == bytes[iEndMin + k];
    }
    FindAt(NEWLINE, tail, end - 1 - iEndMin);
  }

  /**
   * Reference: the chunks handed out from offset `begin` on, each running
   * to the end `ChunkEnd` selects.
   */
  function ChunksFrom(bytes: seq<Byte>, bytesPerChunk: nat, begin: nat): seq<seq<Byte>>
    requires NewlineTerminated(bytes) && begin <= |bytes| && (bytesPerChunk > 0 || bytes == [])
    decreases |bytes| - begin
  {
    if begin == |bytes| then []
    else
      ChunkEndDefined(bytes, bytesPerChunk, begin);
      var end := ChunkEnd(bytes, bytesPerChunk, begin).value;
      [bytes[begin..end]] + ChunksFrom(bytes, bytesPerChunk, end)
  }

  /** The reference chunks from `begin` on concatenate to the rest of the file. */
  lemma {:induction false} ChunksFromCover(bytes: seq<Byte>, bytesPerChunk: nat, begin: nat)
    requires NewlineTerminated(bytes) && begin <= |bytes| && (bytesPerChunk > 0 || bytes == [])
    ensures Concat(ChunksFrom(bytes, bytesPerChunk, begin)) == bytes[begin..]
    decreases |bytes| - begin
  {
    if begin < |bytes| {
      ChunkEndDefined(bytes, bytesPerChunk, begin);
      var end := ChunkEnd(bytes, bytesPerChunk, begin).value;
      assert bytes[begin..] == bytes[begin..end] + bytes[end..];
      var rest := ChunksFrom(bytes, bytesPerChunk, end);
      ChunksFromStep(bytes, bytesPerChunk, begin, end);
      ChunksFromCover(bytes, bytesPerChunk, end);
      ConcatCons(bytes[begin..end], rest);
    }
  }

  /**
   * Counting the reference chunks: from a point reached after `k` chunks,
   * the chunks still to come bring the total to at most `chunkCount`.
   */
  lemma {:induction false} ChunksFromCount(bytes: seq<Byte>, bytesPerChunk: nat, chunkCount: nat, begin: nat, k: nat)
    requires chunkCount > 0 && NewlineTerminated(bytes) && bytesPerChunk == CeilDiv(|bytes|, chunkCount)
    requires begin <= |bytes| && Counted(|bytes|, bytesPerChunk, chunkCount, begin, k)
    ensures k + |ChunksFrom(bytes, bytesPerChunk, begin)| <= chunkCount
    decreases |bytes| - begin
  {
    if begin < |bytes| {
      assert bytesPerChunk > 0;
      ChunkEndDefined(bytes, bytesPerChunk, begin);
      var end := ChunkEnd(bytes, bytesPerChunk, begin).value;
      ChunksFromStep(bytes, bytesPerChunk, begin, end);
      CountStep(k, bytesPerChunk, begin, end, |bytes|, chunkCount);
      ChunksFromCount(bytes, bytesPerChunk, chunkCount, end, k + 1);
    }
  }

  /**
   * The shape of the splitter's chunks, given how many bytes are `left` to
   * split: each chunk reaches at least `min(bytesPerChunk, left)` bytes,
   * ends at the first line terminator from there on, and the chunks use up
   * exactly the bytes left.
   */
  ghost predicate Shaped(chunks: seq<seq<Byte>>, bytesPerChunk: nat, left: nat)
    decreases |chunks|
  {
    if chunks == [] then left == 0
    else
      var c, m := chunks[0], Min(bytesPerChunk, left);
      && 0 < m <= |c| <= left && c[|c| - 1] == NEWLINE
      && (forall k :: m - 1 <= k < |c| - 1 ==> c[k] != NEWLINE)
      && Shaped(chunks[1..], bytesPerChunk, left - |c|)
  }

  /** Chunks of that shape that concatenate to the rest of the file are the reference chunks. */
  lemma {:induction false} ChunksFromShaped(bytes: seq<Byte>, bytesPerChunk: nat, begin: nat, chunks: seq<seq<Byte>>)
    requires NewlineTerminated(bytes) && begin <= |bytes| && bytesPerChunk > 0
    requires Concat(chunks) == bytes[begin..] && Shaped(chunks, bytesPerChunk, |bytes| - begin)
    ensures ChunksFrom(bytes, bytesPerChunk, begin) == chunks
    decreases |chunks|
  {
    if chunks != [] {
      var end := begin + |chunks[0]|;
      ShapedFirst(bytes, bytesPerChunk, begin, chunks, end);
      ChunksFromShaped(bytes, bytesPerChunk, end, chunks[1..]);
    }
  }

  /** The first of the shaped chunks is the first reference chunk, and the rest are shaped for the bytes after it. */
  lemma ShapedFirst(bytes: seq<Byte>, bytesPerChunk: nat, begin: nat, chunks: seq<seq<Byte>>, end: nat)
    requires NewlineTerminated(bytes) && begin <= |bytes| && bytesPerChunk > 0
    requires Concat(chunks) == bytes[begin..] && Shaped(chunks, bytesPerChunk, |bytes| - begin)
    requires chunks != [] && end == begin + |chunks[0]|
    ensures begin < end <= |bytes|
    ensures ChunksFrom(bytes, bytesPerChunk, begin) == [chunks[0]] + ChunksFrom(bytes, bytesPerChunk, end)
    ensures Concat(chunks[1..]) == bytes[end..] && Shaped(chunks[1..], bytesPerChunk, |bytes| - end)
  {
    ShapedSplit(bytes, bytesPerChunk, begin, chunks, end);
    ShapedHead(bytes, bytesPerChunk, begin, end, chunks[0]);
  }

  /** The first of the shaped chunks is the bytes at `begin`, and the rest concatenate to the bytes after it. */
  lemma ShapedSplit(bytes: seq<Byte>, bytesPerChunk: nat, begin: nat, chunks: seq<seq<Byte>>, end: nat)
    requires begin <= |bytes|
    requires Concat(chunks) == bytes[begin..] && Shaped(chunks, bytesPerChunk, |bytes| - begin)
    requires chunks != [] && end == begin + |chunks[0]|
    ensures begin < end <= |bytes| && bytes[begin..end] == chunks[0]
    ensures 0 < Min(bytesPerChunk, |bytes| - begin) <= |chunks[0]| && chunks[0][|chunks[0]| - 1] == NEWLINE
    ensures forall k :: Min(bytesPerChunk, |bytes| - begin) - 1 <= k < |chunks[0]| - 1 ==> chunks[0][k] != NEWLINE
    ensures Concat(chunks[1..]) == bytes[end..] && Shaped(chunks[1..], bytesPerChunk, |bytes| - end)
  {
    var c, rest := chunks[0], chunks[1..];
    assert chunks == [c] + rest;
    ConcatCons(c, rest);
    ShapedCons(chunks, bytesPerChunk, |bytes| - begin, |bytes| - end);
    SplitFrom(bytes, begin, c, Concat(rest), end);
  }

  lemma ShapedCons(chunks: seq<seq<Byte>>, bytesPerChunk: nat, left: nat, restLeft: int)
    requires chunks != [] && Shaped(chunks, bytesPerChunk, left) && restLeft == left - |chunks[0]|
    ensures 0 < Min(bytesPerChunk, left) <= |chunks[0]| <= left && chunks[0][|chunks[0]| - 1] == NEWLINE
    ensures forall k :: Min(bytesPerChunk, left) - 1 <= k < |chunks[0]| - 1 ==> chunks[0][k] != NEWLINE
    ensures restLeft >= 0 && Shaped(chunks[1..], bytesPerChunk, restLeft)
  {
  }

  lemma ShapedStep(chunks: seq<seq<Byte>>, bytesPerChunk: nat, left: nat, restLeft: nat)
    requires chunks != [] && restLeft == left - |chunks[0]|
    requires 0 < Min(bytesPerChunk, left) <= |chunks[0]| && chunks[0][|chunks[0]| - 1] == NEWLINE
    requires forall k :: Min(bytesPerChunk, left) - 1 <= k < |chunks[0]| - 1 ==> chunks[0][k] != NEWLINE
    requires Shaped(chunks[1..], bytesPerChunk, restLeft)
    ensures Shaped(chunks, bytesPerChunk, left)
  {
  }

  /** A chunk of the right shape at `begin` is the one `ChunkEnd` selects, so the first reference chunk. */
  lemma ShapedHead(bytes: seq<Byte>, bytesPerChunk: nat, begin: nat, end: nat, c: seq<Byte>)
    requires NewlineTerminated(bytes) && begin < end <= |bytes| && bytesPerChunk > 0 && bytes[begin..end] == c
    requires 0 < Min(bytesPerChunk, |bytes| - begin) <= |c| && c[|c| - 1] == NEWLINE
    requires forall k :: Min(bytesPerChunk, |bytes| - begin) - 1 <= k < |c| - 1 ==> c[k] != NEWLINE
    ensures ChunkEnd(bytes, bytesPerChunk, begin) == Some(end)
    ensures ChunksFrom(bytes, bytesPerChunk, begin) == [c] + ChunksFrom(bytes, bytesPerChunk, end)
  {
    forall k | begin + Min(bytesPerChunk, |bytes| - begin) - 1 <= k < end - 1 ensures bytes[k] != NEWLINE {
      assert bytes[k] == c[k - begin];
    }
    assert bytes[end - 1] == c[|c| - 1];
    ChunkEndAt(bytes, bytesPerChunk, begin, end);
    ChunksFromStep(bytes, bytesPerChunk, begin, end);
  }

  /** The bytes from `begin` on, split after `front`. */
  lemma SplitFrom(s: seq<Byte>, begin: nat, front: seq<Byte>, back: seq<Byte>, end: nat)
    requires begin <= |s| && s[begin..] == front + back && end == begin + |front|
    ensures end <= |s| && s[begin..end] == front && s[end..] == back
  {
    assert s[begin..][..|front|] == front && s[begin..][|front|..] == back;
    assert s[begin..][..|front|] == s[begin..end];
  }

  /** Each reference chunk is non-empty and ends with `\n`. */
  lemma {:induction false} ChunksFromTerminated(bytes: seq<Byte>, bytesPerChunk: nat, begin: nat)
    requires NewlineTerminated(bytes) && begin <= |bytes| && (bytesPerChunk > 0 || bytes == [])
    ensures AllTerminated(ChunksFrom(bytes, bytesPerChunk, begin))
    decreases |bytes| - begin
  {
    if begin < |bytes| {
      ChunkEndDefined(bytes, bytesPerChunk, begin);
      var end := ChunkEnd(bytes, bytesPerChunk, begin).value;
      ChunksFromStep(bytes, bytesPerChunk, begin, end);
      ChunksFromTerminated(bytes, bytesPerChunk, end);
      var c := bytes[begin..end];
      assert c != [] && c[|c| - 1] == NEWLINE;
    }
  }

  lemma {:induction false} ConcatCons(c: seq<Byte>, chunks: seq<seq<Byte>>)
    ensures Concat([c] + chunks) == c + Concat(chunks)
    decreases |chunks|
  {
    if chunks == [] {
      assert [c] + chunks == [c] && [c][..0] == [];
    } else {
      var init := chunks[..|chunks| - 1];
      ConcatCons(c, init);
      assert ([c] + chunks)[..|chunks|] == [c] + init;
    }
  }

  lemma ChunksFromStep(bytes: seq<Byte>, bytesPerChunk: nat, begin: nat, end: nat)
    requires NewlineTerminated(bytes) && begin < |bytes| && bytesPerChunk > 0
    requires ChunkEnd(bytes, bytesPerChunk, begin) == Some(end)
    ensures ChunksFrom(bytes, bytesPerChunk, begin) == [bytes[begin..end]] + ChunksFrom(bytes, bytesPerChunk, end)
  {
  }

  /** Moves a chunk from the chunks still to come to those handed out. */
  lemma Regroup(front: seq<seq<Byte>>, c: seq<Byte>, back: seq<seq<Byte>>, all: seq<seq<Byte>>)
    requires front + ([c] + back) == all
    ensures front + [c] + back == all
  {
  }

  /**
   * The counting step behind "at most `chunkCount` chunks": a chunk that
   * does not reach the end of the file covers at least `bytesPerChunk` bytes.
   */
  lemma CountStep(k: nat, bytesPerChunk: nat, begin: nat, end: nat, len: nat, chunkCount: nat)
    requires chunkCount > 0 && bytesPerChunk == CeilDiv(len, chunkCount) && bytesPerChunk > 0
    requires Counted(len, bytesPerChunk, chunkCount, begin, k)
    requires begin < end <= len
    requires end >= begin + Min(bytesPerChunk, len - begin)
    ensures Counted(len, bytesPerChunk, chunkCount, end, k + 1)
  {
    // `chunkCount` chunks of at least `bytesPerChunk` bytes already cover the file
    MulCommutes(bytesPerChunk, chunkCount);
    assert Mul(k, bytesPerChunk) <= begin < len <= Mul(chunkCount, bytesPerChunk);
    assert Mul(k + 1, bytesPerChunk) == Mul(k, bytesPerChunk) + bytesPerChunk;
  }

  /**
   * The iterator's invariant, over the values of its state: `emitted` are
   * the chunks handed out so far and `consumed` the bytes they cover.
   */
  ghost predicate IterInv(bytes: seq<Byte>, bytesPerChunk: nat, chunkCount: nat, consumed: nat, emitted: seq<seq<Byte>>)
  {
    && chunkCount > 0
    && NewlineTerminated(bytes)
    && bytesPerChunk == CeilDiv(|bytes|, chunkCount)
    && consumed <= |bytes|
    && Concat(emitted) == bytes[..consumed]
    && AllTerminated(emitted)
    && Counted(|bytes|, bytesPerChunk, chunkCount, consumed, |emitted|)
  }

  /**
   * The counting part of the invariant for `k` chunks covering `consumed`
   * bytes: every chunk but the last covers at least `bytesPerChunk` bytes,
   * so there are at most `chunkCount` of them.
   */
  ghost predicate Counted(len: nat, bytesPerChunk: nat, chunkCount: nat, consumed: nat, k: nat)
  {
    && (consumed < len ==> Mul(k, bytesPerChunk) <= consumed)
    && (k > 0 ==> Mul(k - 1, bytesPerChunk) < consumed)
    && k <= chunkCount
  }

  /** Handing out the chunk `bytes[consumed..end]` that `ChunkEnd` selects keeps the invariant. */
  lemma IterInvStep(bytes: seq<Byte>, bytesPerChunk: nat, chunkCount: nat, consumed: nat, emitted: seq<seq<Byte>>, end: nat, chunk: seq<Byte>)
    requires IterInv(bytes, bytesPerChunk, chunkCount, consumed, emitted)
    requires bytesPerChunk > 0 && consumed < end <= |bytes| && bytes[end - 1] == NEWLINE
    requires end >= consumed + Min(bytesPerChunk, |bytes| - consumed)
    requires chunk == bytes[consumed..end]
    ensures IterInv(bytes, bytesPerChunk, chunkCount, end, emitted + [chunk])
  {
    assert chunk != [] && chunk[|chunk| - 1] == NEWLINE;
    CountStep(|emitted|, bytesPerChunk, consumed, end, |bytes|, chunkCount);
    ConcatStep(bytes, consumed, end, emitted);
    TerminatedSnoc(emitted, chunk);
  }

  /** Once every byte is handed out, the chunks reassemble the file. */
  lemma IterInvDone(bytes: seq<Byte>, bytesPerChunk: nat, chunkCount: nat, emitted: seq<seq<Byte>>)
    requires IterInv(bytes, bytesPerChunk, chunkCount, |bytes|, emitted)
    ensures Concat(emitted) == bytes && |emitted| <= chunkCount && AllTerminated(emitted)
  {
    assert bytes[..|bytes|] == bytes;
  }

  lemma ConcatStep(bytes: seq<Byte>, consumed: nat, end: nat, emitted: seq<seq<Byte>>)
    requires consumed <= end <= |bytes|
    requires Concat(emitted) == bytes[..consumed]
    ensures Concat(emitted + [bytes[consumed..end]]) == bytes[..end]
  {
    ConcatSnoc(emitted, bytes[consumed..end]);
    assert bytes[..end] == bytes[..consumed] + bytes[consumed..end];
  }

  /** Every chunk is non-empty and ends with a line terminator. */
  ghost predicate AllTerminated(chunks: seq<seq<Byte>>)
  {
    forall i :: 0 <= i < |chunks| ==> chunks[i] != [] && chunks[i][|chunks[i]| - 1] == NEWLINE
  }

  lemma TerminatedSnoc(chunks: seq<seq<Byte>>, c: seq<Byte>)
    requires AllTerminated(chunks) && c != [] && c[|c| - 1] == NEWLINE
    ensures AllTerminated(chunks + [c])
  {
  }

  class ChunkIter {
    const fileBytes: seq<Byte>
    const bytesPerChunk: nat
    /** Progress: the number of bytes handed out so far. */
    var consumedBytes: nat

    /** The `chunk_count` the iterator was created with; not stored by the program. */
    ghost const chunkCount: nat
    /** The chunks returned so far, in order. */
    ghost var Emitted: seq<seq<Byte>>

    ghost predicate Valid()
      reads this
    {
      IterInv(fileBytes, bytesPerChunk, chunkCount, consumedBytes, Emitted)
    }

    /** `ChunkIter::new(file_bytes, chunk_count)`. */
    constructor (fileBytes: seq<Byte>, chunkCount: nat)
      requires chunkCount > 0 && NewlineTerminated(fileBytes)
      ensures Valid()
      ensures this.fileBytes == fileBytes && this.chunkCount == chunkCount
      ensures bytesPerChunk == CeilDiv(|fileBytes|, chunkCount)
      ensures consumedBytes == 0 && Emitted == []
    {
      this.fileBytes := fileBytes;
      this.bytesPerChunk := CeilDiv(|fileBytes|, chunkCount);
      this.chunkCount := chunkCount;
      consumedBytes := 0;
      Emitted := [];
    }

    /** `Iterator::next`. */
    method Next() returns (r: Option<seq<Byte>>)
      requires Valid()
      modifies this
      ensures Valid()
      ensures r.None? <==> old(consumedBytes) == |fileBytes|
      ensures r.None? ==> consumedBytes == old(consumedBytes) && Emitted == old(Emitted)
      ensures r.Some? ==>
        && ChunkEnd(fileBytes, bytesPerChunk, old(consumedBytes)) == Some(consumedBytes)
        && old(consumedBytes) < consumedBytes
        && r.value == fileBytes[old(consumedBytes)..consumedBytes]
        && Emitted == old(Emitted) + [r.value]
    {
      var bytesLeft := |fileBytes| - consumedBytes;
      if bytesLeft == 0 {
        return None;
      }
      var iBegin := consumedBytes;
      var iEndMin := iBegin + Min(bytesPerChunk, bytesLeft) - 1;
      ChunkEndDefined(fileBytes, bytesPerChunk, iBegin);
      var iEndActual := Find(NEWLINE, fileBytes[iEndMin..]).value + iEndMin;
      var chunk := fileBytes[iBegin..iEndActual + 1];

      ChunkEndFound(fileBytes, bytesPerChunk, iBegin, iEndMin, iEndActual - iEndMin);
      assert iBegin + |chunk| == iEndActual + 1;
      IterInvStep(fileBytes, bytesPerChunk, chunkCount, iBegin, Emitted, iEndActual + 1, chunk);
      consumedBytes := consumedBytes + |chunk|;
      Emitted := Emitted + [chunk];
      r := Some(chunk);
    }
  }

  /**
   * Drains a fresh `ChunkIter`, as `process_multi_threaded` does: the
   * chunks are non-empty, each ends with a line terminator, they
   * concatenate back to the whole file, and there are at most
   * `chunkCount` of them (possibly fewer).
   */
  method AllChunks(fileBytes: seq<Byte>, chunkCount: nat) returns (chunks: seq<seq<Byte>>)
    requires chunkCount > 0 && NewlineTerminated(fileBytes)
    ensures chunks == ChunksFrom(fileBytes, CeilDiv(|fileBytes|, chunkCount), 0)
    ensures Concat(chunks) == fileBytes
    ensures |chunks| <= chunkCount
    ensures AllTerminated(chunks)
  {
    var iter := new ChunkIter(fileBytes, chunkCount);
    ghost var all := ChunksFrom(fileBytes, iter.bytesPerChunk, 0);
    chunks := [];
    var next := iter.Next();
    if next.Some? {
      ChunksFromStep(fileBytes, iter.bytesPerChunk, 0, iter.consumedBytes);
    }
    while next.Some?
      invariant iter.Valid() && iter.fileBytes == fileBytes && iter.chunkCount == chunkCount
      invariant iter.bytesPerChunk == CeilDiv(|fileBytes|, chunkCount)
      invariant next.Some? ==> iter.Emitted == chunks + [next.value]
      invariant next.Some? ==> chunks + [next.value] + ChunksFrom(fileBytes, iter.bytesPerChunk, iter.consumedBytes) == all
      invariant next.None? ==> iter.Emitted == chunks && iter.consumedBytes == |fileBytes| && chunks == all
      decreases |fileBytes| - iter.consumedBytes + (if next.Some? then 1 else 0)
    {
      chunks := chunks + [next.value];
      ghost var begin := iter.consumedBytes;
      next := iter.Next();
      if next.Some? {
        ChunksFromStep(fileBytes, iter.bytesPerChunk, begin, iter.consumedBytes);
        Regroup(chunks, next.value, ChunksFrom(fileBytes, iter.bytesPerChunk, iter.consumedBytes), all);
      } else {
        assert chunks + ChunksFrom(fileBytes, iter.bytesPerChunk, begin) == all;
        assert chunks == all;
      }
    }
    IterInvDone(fileBytes, iter.bytesPerChunk, chunkCount, chunks);
  }
}
