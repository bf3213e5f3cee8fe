/**
 * The running per-station aggregate (`AggregatedData`): minimum, maximum,
 * sum and sample count, with an "empty" state recognised by the `max`
 * field still holding its sentinel.
 *
 * Measurements are `f32` in the program; here they are integers, and the
 * two sentinels are the exact integer values of `f32::MAX` and `f32::MIN`.
 */
module Aggregates {
  import opened Bytes

  /** `f32::MAX` and `f32::MIN` (= -`f32::MAX`), the sentinels of an empty aggregate. */
  const F32_MAX: int := 340282346638528859811704183484516925440
  const F32_MIN: int := -F32_MAX

  /**
   * The value of an `AggregatedData` (the struct is `Copy` and is stored by
   * value in the per-chunk tables).
   */
  datatype Aggregate = Aggregate(min: int, max: int, sum: int, sampleCount: nat)

  /** `AggregatedData::default()`. */
  const EMPTY: Aggregate := Aggregate(F32_MAX, F32_MIN, 0, 0)

  /** `empty()`: no datapoint has been seen, judged by the `max` sentinel. */
  predicate IsEmpty(a: Aggregate)
  {
    a.max == F32_MIN
  }

  /** What the `else if` in `add_datapoint` relies on: a non-empty aggregate has `min <= max`. */
  predicate Ordered(a: Aggregate)
  {
    IsEmpty(a) || a.min <= a.max
  }

  /**
   * The effect of `add_datapoint(m)` on an aggregate value. On an empty
   * aggregate the measurement becomes both bounds; otherwise, as long as
   * `min <= max`, the two-armed `if`/`else if` is exactly min/max.
   */
  function Added(a: Aggregate, m: int): (r: Aggregate)
    ensures r.sampleCount == a.sampleCount + 1 && r.sum == a.sum + m
    ensures IsEmpty(a) ==> r.min == m && r.max == m
    ensures !IsEmpty(a) && a.min <= a.max ==> r.min == Min(a.min, m) && r.max == Max(a.max, m)
  {
    var (lo, hi) :=
      if IsEmpty(a) then (m, m)
      else if m < a.min then (m, a.max)
      else if m > a.max then (a.min, m)
      else (a.min, a.max);
    Aggregate(lo, hi, a.sum + m, a.sampleCount + 1)
  }

  /** After any datapoint the measurement lies between the bounds, and the bounds are ordered. */
  lemma AddedBrackets(a: Aggregate, m: int)
    requires Ordered(a)
    ensures Added(a, m).min <= m <= Added(a, m).max
    ensures Added(a, m).min <= Added(a, m).max && Ordered(Added(a, m))
  {
  }

  /** The aggregate reached from the default by adding `samples` in order. */
  function Replay(samples: seq<int>): Aggregate
  {
    if samples == [] then EMPTY else Added(Replay(samples[..|samples| - 1]), samples[|samples| - 1])
  }

  /** The aggregate reached from `a` by adding `samples` in order. */
  function ReplayFrom(a: Aggregate, samples: seq<int>): Aggregate
    decreases |samples|
  {
    if samples == [] then a else ReplayFrom(Added(a, samples[0]), samples[1..])
  }

  /** Continuing a replay with more samples is replaying the concatenation. */
  lemma {:induction false} ReplayFromReplay(prefix: seq<int>, samples: seq<int>)
    ensures ReplayFrom(Replay(prefix), samples) == Replay(prefix + samples)
    decreases |samples|
  {
    if samples == [] {
      assert prefix + samples == prefix;
    } else {
      var next := prefix + [samples[0]];
      assert next[..|next| - 1] == prefix && next[|next| - 1] == samples[0];
      assert Replay(next) == Added(Replay(prefix), samples[0]);
      assert ReplayFrom(Replay(prefix), samples) == ReplayFrom(Replay(next), samples[1..]);
      ReplayFromReplay(next, samples[1..]);
      assert next + samples[1..] == prefix + samples;
    }
  }

  lemma ReplayFromEmpty(samples: seq<int>)
    ensures ReplayFrom(EMPTY, samples) == Replay(samples)
  {
    ReplayFromReplay([], samples);
    assert [] + samples == samples;
  }

  /** Reference definitions: the minimum, maximum and sum of a sequence of samples. */
  function SeqMin(s: seq<int>): int
    requires s != []
  {
    if |s| == 1 then s[0] else Min(SeqMin(s[..|s| - 1]), s[|s| - 1])
  }

  function SeqMax(s: seq<int>): int
    requires s != []
  {
    if |s| == 1 then s[0] else Max(SeqMax(s[..|s| - 1]), s[|s| - 1])
  }

  function Sum(s: seq<int>): int
  {
    if s == [] then 0 else Sum(s[..|s| - 1]) + s[|s| - 1]
  }

  /** No sample coincides with the `f32::MIN` sentinel that `empty()` tests for. */
  predicate NoSentinel(samples: seq<int>)
  {
    forall i :: 0 <= i < |samples| ==> samples[i] != F32_MIN
  }

  /** Count and sum are exact for every sequence of samples. */
  lemma {:induction false} ReplayCountsAndSums(samples: seq<int>)
    ensures Replay(samples).sampleCount == |samples|
    ensures Replay(samples).sum == Sum(samples)
  {
    if samples != [] {
      ReplayCountsAndSums(samples[..|samples| - 1]);
    }
  }

  /**
   * Unless a sample equals the `f32::MIN` sentinel, the aggregate of
   * non-empty samples is not empty and its bounds are the minimum and
   * maximum of the samples.
   */
  lemma {:induction false} ReplayBounds(samples: seq<int>)
    requires samples != [] && NoSentinel(samples)
    ensures !IsEmpty(Replay(samples))
    ensures Replay(samples).min == SeqMin(samples) && Replay(samples).max == SeqMax(samples)
  {
    var n := |samples|;
    if n > 1 {
      var init := samples[..n - 1];
      assert NoSentinel(init) by {
        forall i | 0 <= i < |init| ensures init[i] != F32_MIN {
          assert init[i] == samples[i];
        }
      }
      ReplayBounds(init);
      assert SeqMin(init) <= SeqMax(init) by { SeqMinBelowMax(init); }
    }
  }

  lemma {:induction false} SeqMinBelowMax(s: seq<int>)
    requires s != []
    ensures SeqMin(s) <= SeqMax(s)
  {
    if |s| > 1 {
      SeqMinBelowMax(s[..|s| - 1]);
    }
  }

  /** The summary the aggregate stands for: `Replay` equals the reference statistics. */
  lemma ReplayIsSummary(samples: seq<int>)
    requires samples != [] && NoSentinel(samples)
    ensures Replay(samples) == Aggregate(SeqMin(samples), SeqMax(samples), Sum(samples), |samples|)
  {
    ReplayCountsAndSums(samples);
    ReplayBounds(samples);
  }

  /** `empty()` holds exactly while no datapoint was added, given no sample equals the sentinel. */
  lemma ReplayEmptyIff(samples: seq<int>)
    requires NoSentinel(samples)
    ensures IsEmpty(Replay(samples)) <==> samples == []
  {
    if samples != [] {
      ReplayBounds(samples);
    }
  }

  /** Every replayed aggregate keeps the `min <= max` invariant (or is still empty). */
  lemma {:induction false} ReplayOrdered(samples: seq<int>)
    ensures Ordered(Replay(samples))
  {
    if samples != [] {
      ReplayOrdered(samples[..|samples| - 1]);
      AddedBrackets(Replay(samples[..|samples| - 1]), samples[|samples| - 1]);
    }
  }

  /**
   * A measurement equal to `f32::MIN` leaves the aggregate looking empty, so
   * the next datapoint overwrites both bounds and the sentinel-valued sample
   * is lost from `min`.
   */
  lemma SentinelSampleIsForgotten(m: int)
    requires m > F32_MIN
    ensures IsEmpty(Replay([F32_MIN])) && Replay([F32_MIN]).sampleCount == 1
    ensures Replay([F32_MIN, m]).min == m
  {
    assert [F32_MIN, m][..1] == [F32_MIN];
  }

  /**
   * `AggregatedData`: the four fields the program updates in place through
   * `&mut self`.
   */
  class AggregatedData {
    var min: int
    var max: int
    var sum: int
    var sampleCount: nat

    function Value(): Aggregate
      reads this
    {
      Aggregate(min, max, sum, sampleCount)
    }

    ghost predicate Valid()
      reads this
    {
      Ordered(Value())
    }

    /** `Default::default()`: empty, with both sentinels in place. */
    constructor ()
      ensures Valid() && Value() == EMPTY && Empty()
    {
      min := F32_MAX;
      max := F32_MIN;
      sum := 0;
      sampleCount := 0;
    }

    /** A working copy of an aggregate value held in a table. */
    constructor Load(a: Aggregate)
      requires Ordered(a)
      ensures Valid() && Value() == a
    {
      min, max, sum, sampleCount := a.min, a.max, a.sum, a.sampleCount;
    }

    /** `empty()`. */
    function Empty(): (b: bool)
      reads this
      ensures b <==> IsEmpty(Value())
    {
      max == F32_MIN
    }

    /** `add_datapoint(measurement)`. */
    method AddDatapoint(measurement: int)
      requires Valid()
      modifies this
      ensures Valid() && Value() == Added(old(Value()), measurement)
      ensures min <= measurement <= max
    {
      if Empty() {
        min := measurement;
        max := measurement;
      } else {
        if measurement < min {
          min := measurement;
        } else if measurement > max {
          max := measurement;
        }
      }
      sum := sum + measurement;
      sampleCount := sampleCount + 1;
    }
  }
}
