/**
 * `finalize`: the per-chunk tables are folded into one with `reduce`, each
 * fold step inserting the next table's entries into the accumulator or
 * merging them into the entry it already holds for the station; the
 * result is collected into a list of entries and sorted by station name.
 *
 * `AggregatedData::merge` is the parameter `merge(acc, new)`: the value the
 * accumulator's entry takes once `new` has been merged into it.
 */
module Finalization {
  import opened Bytes
  import opened Aggregates
  import opened Scanner

  /** A `(station, aggregate)` pair of the result list. */
  type Entry = (seq<Byte>, Aggregate)

  /**
   * One step of the `reduce`: the accumulator after every entry of `next`
   * has been inserted into it, or merged into its entry for the station.
   */
  function Combine(acc: Stats, next: Stats, merge: (Aggregate, Aggregate) -> Aggregate): Stats
  {
    map k | k in acc.Keys + next.Keys ::
      if k in acc && k in next then merge(acc[k], next[k])
      else if k in acc then acc[k]
      else next[k]
  }

  /**
   * The `for_each` over `next` in the `reduce` closure, in whatever order
   * the table yields its entries: `entry(..).and_modify(merge).or_insert(..)`
   * on the accumulator for each of them.
   */
  method MergeTable(acc: Stats, next: Stats, merge: (Aggregate, Aggregate) -> Aggregate) returns (r: Stats)
    ensures r.Keys == acc.Keys + next.Keys
    ensures forall k :: k in acc && k in next ==> r[k] == merge(acc[k], next[k])
    ensures forall k :: k in acc && k !in next ==> r[k] == acc[k]
    ensures forall k :: k !in acc && k in next ==> r[k] == next[k]
  {
    r := acc;
    var pending := next.Keys;
    MergeNone(acc, next, merge);
    while pending != {}
      invariant pending <= next.Keys
      invariant MergedExcept(acc, next, pending, r, merge)
      decreases |pending|
    {
      var station :| station in pending;
      var newData := next[station];
      var r' := if station in r then r[station := merge(r[station], newData)] else r[station := newData];
      MergeOne(acc, next, pending, r, merge, station, r');
      r := r';
      pending := pending - {station};
    }
    MergeAllDone(acc, next, r, merge);
  }

  /** `r` is `acc` with every entry of `next` except those of `pending` merged in. */
  ghost predicate MergedExcept(acc: Stats, next: Stats, pending: set<seq<Byte>>, r: Stats, merge: (Aggregate, Aggregate) -> Aggregate)
  {
    && r.Keys == acc.Keys + (next.Keys - pending)
    && (forall k :: k in r ==>
          r[k] == if k in acc && k in next && k !in pending then merge(acc[k], next[k])
                  else if k in acc then acc[k]
                  else next[k])
  }

  lemma MergeNone(acc: Stats, next: Stats, merge: (Aggregate, Aggregate) -> Aggregate)
    ensures MergedExcept(acc, next, next.Keys, acc, merge)
  {
  }

  lemma MergeAllDone(acc: Stats, next: Stats, r: Stats, merge: (Aggregate, Aggregate) -> Aggregate)
    requires MergedExcept(acc, next, {}, r, merge)
    ensures r.Keys == acc.Keys + next.Keys
    ensures forall k :: k in acc && k in next ==> r[k] == merge(acc[k], next[k])
    ensures forall k :: k in acc && k !in next ==> r[k] == acc[k]
    ensures forall k :: k !in acc && k in next ==> r[k] == next[k]
  {
  }

  lemma MergeOne(acc: Stats, next: Stats, pending: set<seq<Byte>>, r: Stats, merge: (Aggregate, Aggregate) -> Aggregate,
                 station: seq<Byte>, r': Stats)
    requires pending <= next.Keys && station in pending
    requires MergedExcept(acc, next, pending, r, merge)
    requires r' == if station in r then r[station := merge(r[station], next[station])] else r[station := next[station]]
    ensures MergedExcept(acc, next, pending - {station}, r', merge)
  {
  }

  /** The result of `reduce` over a non-empty list of tables: a left fold of `Combine`. */
  function Merged(tables: seq<Stats>, merge: (Aggregate, Aggregate) -> Aggregate): Stats
    requires tables != []
  {
    if |tables| == 1 then tables[0]
    else Combine(Merged(tables[..|tables| - 1], merge), tables[|tables| - 1], merge)
  }

  /** `stats.reduce(..)`: `None` (where `unwrap` panics) exactly for an empty list of tables. */
  method Reduce(tables: seq<Stats>, merge: (Aggregate, Aggregate) -> Aggregate) returns (r: Option<Stats>)
    ensures r.None? <==> tables == []
    ensures r.Some? ==> r.value == Merged(tables, merge)
  {
    if tables == [] {
      return None;
    }
    var acc := tables[0];
    var i := 1;
    while i < |tables|
      invariant 1 <= i <= |tables|
      invariant acc == Merged(tables[..i], merge)
    {
      var next := MergeTable(acc, tables[i], merge);
      assert next == Combine(acc, tables[i], merge);
      assert tables[..i + 1][..i] == tables[..i];
      acc := next;
      i := i + 1;
    }
    assert tables[..|tables|] == tables;
    return Some(acc);
  }

  /** Reference: every station named in some table. */
  function AllStations(tables: seq<Stats>): set<seq<Byte>>
  {
    if tables == [] then {} else AllStations(tables[..|tables| - 1]) + tables[|tables| - 1].Keys
  }

  /** Reference: the aggregates a station has in the tables, in table order. */
  function Occurrences(tables: seq<Stats>, station: seq<Byte>): seq<Aggregate>
  {
    if tables == [] then []
    else
      var last := tables[|tables| - 1];
      Occurrences(tables[..|tables| - 1], station) + (if station in last then [last[station]] else [])
  }

  /** Reference: `merge` applied left to right over a non-empty list of aggregates. */
  function MergeAll(aggregates: seq<Aggregate>, merge: (Aggregate, Aggregate) -> Aggregate): Aggregate
    requires aggregates != []
  {
    if |aggregates| == 1 then aggregates[0]
    else merge(MergeAll(aggregates[..|aggregates| - 1], merge), aggregates[|aggregates| - 1])
  }

  /** The reduced table names every station of every table, and no other. */
  lemma {:induction false} MergedStations(tables: seq<Stats>, merge: (Aggregate, Aggregate) -> Aggregate)
    requires tables != []
    ensures Merged(tables, merge).Keys == AllStations(tables)
  {
    if |tables| > 1 {
      MergedStations(tables[..|tables| - 1], merge);
    } else {
      assert tables[..0] == [];
    }
  }

  /**
   * Each station's reduced aggregate is its aggregates from the tables
   * merged in table order.
   */
  lemma {:induction false} MergedEntry(tables: seq<Stats>, merge: (Aggregate, Aggregate) -> Aggregate, station: seq<Byte>)
    requires tables != [] && station in Merged(tables, merge)
    ensures Occurrences(tables, station) != []
    ensures Merged(tables, merge)[station] == MergeAll(Occurrences(tables, station), merge)
  {
    var init := tables[..|tables| - 1];
    var last := tables[|tables| - 1];
    if |tables| == 1 {
      assert init == [];
    } else {
      var acc := Merged(init, merge);
      var occ := Occurrences(init, station);
      if station in acc {
        MergedEntry(init, merge, station);
        if station in last {
          assert Occurrences(tables, station) == occ + [last[station]];
          assert (occ + [last[station]])[..|occ|] == occ;
        } else {
          assert Occurrences(tables, station) == occ;
        }
      } else {
        assert station in last;
        MergedStations(init, merge);
        assert occ == [] by {
          OccurrencesEmpty(init, station);
        }
        assert Occurrences(tables, station) == [last[station]];
      }
    }
  }

  lemma {:induction false} OccurrencesEmpty(tables: seq<Stats>, station: seq<Byte>)
    requires station !in AllStations(tables)
    ensures Occurrences(tables, station) == []
  {
    if tables != [] {
      OccurrencesEmpty(tables[..|tables| - 1], station);
    }
  }

  /** A station that only one table names keeps that table's aggregate unchanged. */
  lemma MergedSingle(tables: seq<Stats>, merge: (Aggregate, Aggregate) -> Aggregate, i: nat, station: seq<Byte>)
    requires i < |tables| && station in tables[i]
    requires forall j :: 0 <= j < |tables| && j != i ==> station !in tables[j]
    ensures station in Merged(tables, merge)
    ensures Merged(tables, merge)[station] == tables[i][station]
  {
    MergedStations(tables, merge);
    StationsOfSome(tables, i, station);
    MergedEntry(tables, merge, station);
    OccurrencesSingle(tables, i, station);
  }

  lemma {:induction false} StationsOfSome(tables: seq<Stats>, i: nat, station: seq<Byte>)
    requires i < |tables| && station in tables[i]
    ensures station in AllStations(tables)
  {
    if i < |tables| - 1 {
      StationsOfSome(tables[..|tables| - 1], i, station);
    }
  }

  lemma {:induction false} OccurrencesSingle(tables: seq<Stats>, i: nat, station: seq<Byte>)
    requires i < |tables| && station in tables[i]
    requires forall j :: 0 <= j < |tables| && j != i ==> station !in tables[j]
    ensures Occurrences(tables, station) == [tables[i][station]]
  {
    var init := tables[..|tables| - 1];
    if i == |tables| - 1 {
      assert station !in AllStations(init) by {
        NotInStations(init, station);
      }
      OccurrencesEmpty(init, station);
    } else {
      OccurrencesSingle(init, i, station);
    }
  }

  lemma {:induction false} NotInStations(tables: seq<Stats>, station: seq<Byte>)
    requires forall j :: 0 <= j < |tables| ==> station !in tables[j]
    ensures station !in AllStations(tables)
  {
    if tables != [] {
      NotInStations(tables[..|tables| - 1], station);
    }
  }

  /** The entries are in strictly ascending byte-lexicographic order of station name. */
  predicate StrictlySorted(entries: seq<Entry>)
  {
    forall i, j :: 0 <= i < j < |entries| ==> Below(entries[i].0, entries[j].0)
  }

  ghost predicate DistinctStations(entries: seq<Entry>)
  {
    forall i, j :: 0 <= i < j < |entries| ==> entries[i].0 != entries[j].0
  }

  /** The list holds exactly the entries of the table. */
  ghost predicate Lists(entries: seq<Entry>, table: Stats)
  {
    && (forall e :: e in entries ==> e.0 in table && table[e.0] == e.1)
    && (forall k :: k in table ==> (k, table[k]) in entries)
  }

  /**
   * `stats.into_iter().collect::<Vec<_>>()`: the entries of the table, one
   * per station, in the order the table yields them.
   */
  method CollectEntries(table: Stats) returns (a: array<Entry>)
    ensures fresh(a)
    ensures Lists(a[..], table) && DistinctStations(a[..]) && a.Length == |table|
  {
    var entries: seq<Entry> := [];
    var pending := table.Keys;
    while pending != {}
      invariant pending <= table.Keys
      invariant forall e :: e in entries ==> e.0 in table && table[e.0] == e.1 && e.0 !in pending
      invariant forall k :: k in table ==> k in pending || (k, table[k]) in entries
      invariant DistinctStations(entries)
      invariant |entries| + |pending| == |table|
      decreases |pending|
    {
      var station :| station in pending;
      assert forall i :: 0 <= i < |entries| ==> entries[i].0 != station by {
        forall i | 0 <= i < |entries| ensures entries[i].0 != station {
          assert entries[i] in entries;
        }
      }
      entries := entries + [(station, table[station])];
      pending := pending - {station};
    }
    a := new Entry[|entries|](i requires 0 <= i < |entries| => entries[i]);
    assert a[..] == entries;
  }

  /**
   * `sort_unstable_by` on the station names, as an insertion sort: each
   * entry in turn is swapped down past the entries whose names it precedes.
   * The names are distinct (they are a table's keys), so the order is strict.
   */
  method SortByStation(a: array<Entry>)
    requires DistinctStations(a[..])
    modifies a
    ensures StrictlySorted(a[..])
    ensures multiset(a[..]) == multiset(old(a[..]))
  {
    var i := 0;
    while i < a.Length
      invariant 0 <= i <= a.Length
      invariant SortedUpTo(a[..], i)
      invariant DistinctStations(a[..])
      invariant multiset(a[..]) == multiset(old(a[..]))
    {
      InsertEntry(a, i);
      i := i + 1;
    }
    assert a[..] == a[..a.Length];
  }

  /** One pass of the insertion sort: `a[i]` is swapped down into the sorted `a[..i]`. */
  method InsertEntry(a: array<Entry>, i: nat)
    requires i < a.Length && SortedUpTo(a[..], i) && DistinctStations(a[..])
    modifies a
    ensures SortedUpTo(a[..], i + 1) && DistinctStations(a[..])
    ensures multiset(a[..]) == multiset(old(a[..]))
  {
    var j := i;
    while 0 < j && Below(a[j].0, a[j - 1].0)
      invariant 0 <= j <= i
      invariant Inserting(a[..], i, j)
      invariant DistinctStations(a[..])
      invariant multiset(a[..]) == multiset(old(a[..]))
    {
      ghost var before := a[..];
      a[j - 1], a[j] := a[j], a[j - 1];
      SwapDown(before, a[..], i, j);
      j := j - 1;
    }
    InsertionDone(a[..], i, j);
  }

  /** The first `n` entries are in strict order. */
  ghost predicate SortedUpTo(s: seq<Entry>, n: nat)
    requires n <= |s|
  {
    forall p, q :: 0 <= p < q < n ==> Below(s[p].0, s[q].0)
  }

  /**
   * Inserting `s[j]` into the sorted `s[..i]`: the entries before `j` and
   * those from `j` to `i` are each in order, and every one before `j` is
   * below every one after `j`.
   */
  ghost predicate Inserting(s: seq<Entry>, i: nat, j: nat)
    requires j <= i < |s|
  {
    && (forall p, q :: 0 <= p < q < j ==> Below(s[p].0, s[q].0))
    && (forall p, q :: j <= p < q <= i ==> Below(s[p].0, s[q].0))
    && (forall p, q :: 0 <= p < j && j < q <= i ==> Below(s[p].0, s[q].0))
  }

  /** Swapping the inserted entry below its larger predecessor keeps `Inserting`. */
  lemma SwapDown(s: seq<Entry>, t: seq<Entry>, i: nat, j: nat)
    requires 0 < j <= i < |s| && Inserting(s, i, j) && Below(s[j].0, s[j - 1].0)
    requires t == s[j - 1 := s[j]][j := s[j - 1]]
    ensures Inserting(t, i, j - 1) && multiset(t) == multiset(s)
    ensures DistinctStations(s) ==> DistinctStations(t)
  {
    if DistinctStations(s) {
      forall p, q | 0 <= p < q < |t| ensures t[p].0 != t[q].0 {
        var p' := if p == j - 1 then j else if p == j then j - 1 else p;
        var q' := if q == j - 1 then j else if q == j then j - 1 else q;
        assert t[p] == s[p'] && t[q] == s[q'];
      }
    }
  }

  /**
   * Once the inserted entry stops (its predecessor's name is below its own),
   * the prefix up to it is sorted.
   */
  lemma InsertionDone(s: seq<Entry>, i: nat, j: nat)
    requires j <= i < |s| && Inserting(s, i, j)
    requires 0 < j ==> !Below(s[j].0, s[j - 1].0) && s[j].0 != s[j - 1].0
    ensures SortedUpTo(s, i + 1)
  {
    if 0 < j {
      BelowTotal(s[j].0, s[j - 1].0);
      forall p | 0 <= p < j - 1 ensures Below(s[p].0, s[j].0) {
        BelowTransitive(s[p].0, s[j - 1].0, s[j].0);
      }
    }
  }

  /** A permutation of a list of a table's entries lists the same table. */
  lemma ListsPermutation(s: seq<Entry>, t: seq<Entry>, table: Stats)
    requires multiset(s) == multiset(t) && Lists(s, table)
    ensures Lists(t, table)
  {
    forall e | e in t ensures e.0 in table && table[e.0] == e.1 {
      assert e in multiset(t);
    }
    forall k | k in table ensures (k, table[k]) in t {
      assert (k, table[k]) in multiset(s);
    }
  }

  /**
   * The sorted list is determined by the table alone: whatever order the
   * table yields its entries in, and however the unstable sort breaks ties,
   * two strictly sorted lists of the same table are equal.
   */
  lemma {:induction false} SortedListUnique(s: seq<Entry>, t: seq<Entry>, table: Stats)
    requires StrictlySorted(s) && Lists(s, table)
    requires StrictlySorted(t) && Lists(t, table)
    ensures s == t
    decreases |s|
  {
    if s == [] || t == [] {
      EmptyList(s, table);
      EmptyList(t, table);
    } else {
      HeadsAgree(s, t, table);
      var rest := table - {s[0].0};
      ListsTail(s, table);
      ListsTail(t, table);
      SortedListUnique(s[1..], t[1..], rest);
      assert s == [s[0]] + s[1..] && t == [t[0]] + t[1..];
    }
  }

  lemma EmptyList(s: seq<Entry>, table: Stats)
    requires Lists(s, table)
    ensures s == [] <==> table == map[]
  {
    if s != [] {
      assert s[0] in s;
    }
  }

  /** Both lists start with the table's least station. */
  lemma HeadsAgree(s: seq<Entry>, t: seq<Entry>, table: Stats)
    requires s != [] && StrictlySorted(s) && Lists(s, table)
    requires t != [] && StrictlySorted(t) && Lists(t, table)
    ensures s[0] == t[0]
  {
    assert s[0] in s && t[0] in t;
    if s[0].0 != t[0].0 {
      assert (s[0].0, table[s[0].0]) in t;
      assert (t[0].0, table[t[0].0]) in s;
      var q :| 0 <= q < |t| && t[q] == (s[0].0, table[s[0].0]);
      var p :| 0 <= p < |s| && s[p] == (t[0].0, table[t[0].0]);
      assert Below(t[0].0, s[0].0) && Below(s[0].0, t[0].0);
      BelowAsymmetric(t[0].0, s[0].0);
    }
  }

  /** Past its least entry, a sorted list lists the rest of the table. */
  lemma ListsTail(s: seq<Entry>, table: Stats)
    requires s != [] && StrictlySorted(s) && Lists(s, table)
    ensures StrictlySorted(s[1..]) && Lists(s[1..], table - {s[0].0})
  {
    var k := s[0].0;
    var tail := s[1..];
    assert s[0] in s;
    forall e | e in tail ensures e.0 in table - {k} && (table - {k})[e.0] == e.1 {
      var p :| 0 <= p < |tail| && tail[p] == e;
      assert s[p + 1] == e && e in s;
      assert Below(k, e.0);
      BelowIrreflexive(k);
    }
    forall key | key in table - {k} ensures (key, (table - {k})[key]) in tail {
      assert (key, table[key]) in s;
      var p :| 0 <= p < |s| && s[p] == (key, table[key]);
      assert p != 0;
      assert tail[p - 1] == s[p];
    }
  }

  /**
   * `finalize` up to the printing: reduce the tables, collect the entries
   * and sort them. `None` is the panic of `reduce(..).unwrap()` on no tables.
   */
  method Finalize(tables: seq<Stats>, merge: (Aggregate, Aggregate) -> Aggregate) returns (r: Option<seq<Entry>>)
    ensures r.None? <==> tables == []
    ensures r.Some? ==> StrictlySorted(r.value) && Lists(r.value, Merged(tables, merge))
  {
    var merged := Reduce(tables, merge);
    if merged.None? {
      return None;
    }
    var entries := CollectEntries(merged.value);
    ghost var collected := entries[..];
    SortByStation(entries);
    ListsPermutation(collected, entries[..], merged.value);
    return Some(entries[..]);
  }
}
