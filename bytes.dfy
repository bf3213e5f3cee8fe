/**
 * Bytes of the memory-mapped measurements file, the two delimiter bytes,
 * the forward byte search (`memchr`) used by the chunk splitter and the
 * record scanner, and the byte-lexicographic order of station names.
 */
module Bytes {

  datatype Option<T> = None | Some(value: T)

  newtype Byte = b: int | 0 <= b < 0x100

  /** The smaller and the larger of two integers (`std::cmp::min` and its dual). */
  function Min(x: int, y: int): int { if x <= y then x else y }
  function Max(x: int, y: int): int { if x <= y then y else x }

  /** Line terminator `b'\n'`. */
  const NEWLINE: Byte := 0x0A
  /** Field separator `b';'`. */
  const SEMICOLON: Byte := 0x3B

  /**
   * Forward search for the first occurrence of `b` in `s`, as `memchr`
   * does it: the index of the first match, or `None` when there is none.
   */
  function Find(b: Byte, s: seq<Byte>): (r: Option<nat>)
    ensures r.None? <==> b !in s
    ensures r.Some? ==> r.value < |s| && s[r.value] == b
    ensures r.Some? ==> forall k :: 0 <= k < r.value ==> s[k] != b
  {
    FindAfter(b, s, 0)
  }

  /** The search in `s` from index `from` on: the first `b` at or after `from`. */
  function FindAfter(b: Byte, s: seq<Byte>, from: nat): (r: Option<nat>)
    requires from <= |s|
    ensures r.None? ==> forall k :: from <= k < |s| ==> s[k] != b
    ensures r.Some? ==> from <= r.value < |s| && s[r.value] == b
    ensures r.Some? ==> forall k :: from <= k < r.value ==> s[k] != b
    decreases |s| - from
  {
    if from == |s| then None
    else if s[from] == b then Some(from)
    else FindAfter(b, s, from + 1)
  }

  /** The first `b` at or after `from` is the one `FindAfter` reports. */
  lemma FindAfterAt(b: Byte, s: seq<Byte>, from: nat, i: nat)
    requires from <= i < |s| && s[i] == b && forall k :: from <= k < i ==> s[k] != b
    ensures FindAfter(b, s, from) == Some(i)
  {
  }

  /** `Find` reports the first occurrence. */
  lemma FindAt(b: Byte, s: seq<Byte>, i: nat)
    requires i < |s| && s[i] == b && forall k :: 0 <= k < i ==> s[k] != b
    ensures Find(b, s) == Some(i)
  {
    FindAfterAt(b, s, 0, i);
  }

  /** Searching the slice `s[from..]` is searching `s` from `from`, shifted by `from`. */
  lemma FindSlice(b: Byte, s: seq<Byte>, from: nat)
    requires from <= |s|
    ensures Find(b, s[from..]).None? <==> FindAfter(b, s, from).None?
    ensures Find(b, s[from..]).Some? ==> FindAfter(b, s, from) == Some(Find(b, s[from..]).value + from)
  {
    var t := s[from..];
    var r := FindAfter(b, s, from);
    if r.Some? {
      forall k | 0 <= k < r.value - from ensures t[k] != b {
        assert t[k] == s[from + k];
      }
      FindAt(b, t, r.value - from);
    } else {
      forall k | 0 <= k < |t| ensures t[k] != b {
        assert t[k] == s[from + k];
      }
    }
  }

  /** A `b` found at offset `i` of the slice `s[from..]` is found by `FindAfter` at `from + i`. */
  lemma FindSliceAt(b: Byte, s: seq<Byte>, from: nat, i: nat, at: nat)
    requires from <= |s| && Find(b, s[from..]) == Some(i) && at == from + i
    ensures FindAfter(b, s, from) == Some(at)
  {
    FindSlice(b, s, from);
  }

  /** The first `b` of `a + [b] + tail` is the one after `a` when `a` holds none. */
  lemma FindFirst(b: Byte, a: seq<Byte>, tail: seq<Byte>)
    requires b !in a
    ensures Find(b, a + [b] + tail) == Some(|a|)
  {
    var s := a + [b] + tail;
    forall k | 0 <= k < |a| ensures s[k] != b {
      assert s[k] == a[k];
    }
    FindAt(b, s, |a|);
  }

  /** Concatenation of a sequence of byte strings, in order. */
  function Concat(chunks: seq<seq<Byte>>): seq<Byte>
  {
    if chunks == [] then [] else Concat(chunks[..|chunks| - 1]) + chunks[|chunks| - 1]
  }

  lemma ConcatSnoc(chunks: seq<seq<Byte>>, c: seq<Byte>)
    ensures Concat(chunks + [c]) == Concat(chunks) + c
  {
    assert (chunks + [c])[..|chunks|] == chunks;
  }

  /**
   * Strict byte-lexicographic order, the order `str::partial_cmp` gives two
   * station names: a proper prefix comes first, otherwise the first
   * differing byte decides.
   */
  predicate Below(a: seq<Byte>, b: seq<Byte>)
    ensures Below(a, b) ==> a != b && (|a| <= |b| || a[..|b|] != b)
  {
    if a == [] then b != []
    else if b == [] then false
    else a[0] < b[0] || (a[0] == b[0] && Below(a[1..], b[1..]))
  }

  lemma {:induction false} BelowIrreflexive(a: seq<Byte>)
    ensures !Below(a, a)
  {
    if a != [] {
      BelowIrreflexive(a[1..]);
    }
  }

  lemma {:induction false} BelowTransitive(a: seq<Byte>, b: seq<Byte>, c: seq<Byte>)
    requires Below(a, b) && Below(b, c)
    ensures Below(a, c)
  {
    if a != [] && a[0] == b[0] && b[0] == c[0] {
      BelowTransitive(a[1..], b[1..], c[1..]);
    }
  }

  /** Any two distinct names are ordered one way or the other. */
  lemma {:induction false} BelowTotal(a: seq<Byte>, b: seq<Byte>)
    requires a != b
    ensures Below(a, b) || Below(b, a)
  {
    if a != [] && b != [] && a[0] == b[0] {
      assert a == [a[0]] + a[1..] && b == [b[0]] + b[1..];
      BelowTotal(a[1..], b[1..]);
    }
  }

  lemma {:induction false} BelowAsymmetric(a: seq<Byte>, b: seq<Byte>)
    requires Below(a, b)
    ensures !Below(b, a)
  {
    if a != [] && b != [] && a[0] == b[0] {
      BelowAsymmetric(a[1..], b[1..]);
    }
  }
}
