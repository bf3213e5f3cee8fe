/**
 * The chunk splitter on the concrete inputs of its unit tests.
 */
module ChunkExamples {
  import opened Bytes
  import opened Chunks

  const A: Byte := 0x61
  const B: Byte := 0x62
  const C: Byte := 0x63
  const D: Byte := 0x64
  const E: Byte := 0x65
  const F: Byte := 0x66
  const G: Byte := 0x67

  /** `n` copies of `b` followed by a line terminator. */
  function Row(b: Byte, n: nat): (r: seq<Byte>)
    ensures |r| == n + 1 && r[n] == NEWLINE
    ensures forall i :: 0 <= i < n ==> r[i] == b
  {
    seq(n, _ => b) + [NEWLINE]
  }

  /** `bytes_per_chunk` is `len / chunk_count` rounded up. */
  lemma BytesPerChunkRoundsUp()
    ensures CeilDiv(15, 2) == 8 && CeilDiv(20, 5) == 4 && CeilDiv(30, 3) == 10 && CeilDiv(42, 4) == 11
  {
  }

  /** `aaa\nbbb\nccc\nddd\neee\n` asked for five chunks of four bytes: one line each. */
  lemma ChunksAlignWithNewlines()
    ensures var data := Row(A, 3) + Row(B, 3) + Row(C, 3) + Row(D, 3) + Row(E, 3);
      ChunksFrom(data, CeilDiv(|data|, 5), 0) == [Row(A, 3), Row(B, 3), Row(C, 3), Row(D, 3), Row(E, 3)]
  {
    var a, b, c, d, e := Row(A, 3), Row(B, 3), Row(C, 3), Row(D, 3), Row(E, 3);
    var data := a + b + c + d + e;
    assert CeilDiv(|data|, 5) == 4;
    FiveParts(a, b, c, d, e);
    ShapedStep([e], 4, 4, 0);
    ShapedStep([d, e], 4, 8, 4);
    ShapedStep([c, d, e], 4, 12, 8);
    ShapedStep([b, c, d, e], 4, 16, 12);
    ShapedStep([a, b, c, d, e], 4, 20, 16);
    ChunksFromShaped(data, 4, 0, [a, b, c, d, e]);
  }

  lemma FiveParts(a: seq<Byte>, b: seq<Byte>, c: seq<Byte>, d: seq<Byte>, e: seq<Byte>)
    ensures [a, b, c, d, e][1..] == [b, c, d, e] && [b, c, d, e][1..] == [c, d, e] && [c, d, e][1..] == [d, e]
    ensures [d, e][1..] == [e] && [e][1..] == []
    ensures Concat([a, b, c, d, e]) == a + b + c + d + e
  {
    FourParts(a, b, c, d);
    ConcatSnoc([a, b, c, d], e);
    assert [a, b, c, d] + [e] == [a, b, c, d, e];
  }

  lemma FourParts(a: seq<Byte>, b: seq<Byte>, c: seq<Byte>, d: seq<Byte>)
    ensures [a, b, c, d][1..] == [b, c, d] && [b, c, d][1..] == [c, d] && [c, d][1..] == [d] && [d][1..] == []
    ensures Concat([a, b, c, d]) == a + b + c + d
  {
    ConcatSnoc([], a);
    assert [] + [a] == [a] && [] + a == a;
    ConcatSnoc([a], b);
    assert [a] + [b] == [a, b];
    ConcatSnoc([a, b], c);
    assert [a, b] + [c] == [a, b, c];
    ConcatSnoc([a, b, c], d);
    assert [a, b, c] + [d] == [a, b, c, d];
  }

  /** `aa\nbb\ncc\ndd\nee\nff\ngg\n`, the line pattern of the last unit test. */
  function Pattern(): seq<Byte>
  {
    Row(A, 2) + Row(B, 2) + Row(C, 2) + Row(D, 2) + Row(E, 2) + Row(F, 2) + Row(G, 2)
  }

  /**
   * The pattern twice, 42 bytes, asked for four chunks of eleven bytes:
   * three chunks of four lines and a last, shorter one of two lines.
   */
  lemma ChunksNotEvenlySplittable()
    ensures ChunksFrom(Pattern() + Pattern(), CeilDiv(|Pattern() + Pattern()|, 4), 0) == [
      Row(A, 2) + Row(B, 2) + Row(C, 2) + Row(D, 2),
      Row(E, 2) + Row(F, 2) + Row(G, 2) + Row(A, 2),
      Row(B, 2) + Row(C, 2) + Row(D, 2) + Row(E, 2),
      Row(F, 2) + Row(G, 2)]
  {
    var c1 := Row(A, 2) + Row(B, 2) + Row(C, 2) + Row(D, 2);
    var c2 := Row(E, 2) + Row(F, 2) + Row(G, 2) + Row(A, 2);
    var c3 := Row(B, 2) + Row(C, 2) + Row(D, 2) + Row(E, 2);
    var c4 := Row(F, 2) + Row(G, 2);
    var data := Pattern() + Pattern();
    assert c1 + c2 + c3 + c4 == data;
    assert CeilDiv(|data|, 4) == 11;
    FourParts(c1, c2, c3, c4);
    assert c1[10] == D && c2[10] == A && c3[10] == E;
    ShapedStep([c4], 11, 6, 0);
    ShapedStep([c3, c4], 11, 18, 6);
    ShapedStep([c2, c3, c4], 11, 30, 18);
    ShapedStep([c1, c2, c3, c4], 11, 42, 30);
    ChunksFromShaped(data, 11, 0, [c1, c2, c3, c4]);
  }

  /**
   * `aaa\nbbbb\nccccc\ndddddd\neeeeeee\n` asked for three chunks of ten
   * bytes: each chunk runs on to the next terminator, so only two chunks
   * of fifteen bytes come out.
   */
  lemma FewerChunksThanRequested()
    ensures var data := Row(A, 3) + Row(B, 4) + Row(C, 5) + Row(D, 6) + Row(E, 7);
      ChunksFrom(data, CeilDiv(|data|, 3), 0) == [Row(A, 3) + Row(B, 4) + Row(C, 5), Row(D, 6) + Row(E, 7)]
  {
    var data := Row(A, 3) + Row(B, 4) + Row(C, 5) + Row(D, 6) + Row(E, 7);
    assert CeilDiv(|data|, 3) == 10;
    ChunkEndAt(data, 10, 0, 15);
    ChunksFromStep(data, 10, 0, 15);
    ChunkEndAt(data, 10, 15, 30);
    ChunksFromStep(data, 10, 15, 30);
    assert data[0..15] == Row(A, 3) + Row(B, 4) + Row(C, 5);
    assert data[15..30] == Row(D, 6) + Row(E, 7);
  }
}
