/** Batches of rows: the sort check of `append`, the timestamp mask that
    selects one partition's rows, and the split of a batch by the partition
    range map. */
module Batches {
  import opened Codec
  import opened Planner

  const INT64_MIN: int := -0x8000_0000_0000_0000
  const INT64_MAX: int := 0x7FFF_FFFF_FFFF_FFFF

  /** The first column of every table is an int64 timestamp. */
  type Int64 = x: int | INT64_MIN <= x <= INT64_MAX

  /** A record: its millisecond timestamp and the rest of its columns. */
  datatype Row<V> = Row(timestamp: Int64, value: V)

  /** Timestamps never decrease (ties allowed). */
  predicate Sorted<V>(rows: seq<Row<V>>) {
    forall i, j :: 0 <= i <= j < |rows| ==> rows[i].timestamp <= rows[j].timestamp
  }

  /** The sort check of `append`: walk the timestamps keeping the previous
      one, starting from the int64 minimum, and fail at the first one that
      is smaller than its predecessor. */
  method CheckSorted<V>(rows: seq<Row<V>>) returns (ok: bool)
    ensures ok <==> Sorted(rows)
  {
    var prev: int := INT64_MIN;
    var i := 0;
    while i < |rows|
      invariant 0 <= i <= |rows|
      invariant Sorted(rows[..i])
      invariant prev == if i == 0 then INT64_MIN else rows[i - 1].timestamp
    {
      if rows[i].timestamp < prev {
        assert rows[i - 1].timestamp > rows[i].timestamp;
        return false;
      }
      prev := rows[i].timestamp;
      i := i + 1;
    }
    assert rows[..i] == rows;
    return true;
  }

  /** The sort check as written: `prev_ts` is never updated, so a row fails
      only when its timestamp is below the int64 minimum. */
  predicate PassesSortCheckAsWritten<V>(rows: seq<Row<V>>) {
    forall i :: 0 <= i < |rows| ==> !(rows[i].timestamp < INT64_MIN)
  }

  /** The check as written accepts every batch, the unsorted [2, 1] too. */
  lemma SortCheckAsWrittenAcceptsUnsorted()
    ensures PassesSortCheckAsWritten([Row(2, 0), Row(1, 0)])
    ensures !Sorted([Row(2, 0), Row(1, 0)])
  {
    var rows := [Row(2, 0), Row(1, 0)];
    assert rows[0].timestamp > rows[1].timestamp;
  }

  /** The rows whose timestamp lies in the closed range [lo, hi], in their
      original order. */
  function Filter<V>(rows: seq<Row<V>>, lo: int, hi: int): (r: seq<Row<V>>)
    ensures |r| <= |rows|
  {
    if rows == [] then []
    else (if lo <= rows[0].timestamp <= hi then [rows[0]] else []) + Filter(rows[1..], lo, hi)
  }

  /** The filter keeps exactly the rows of [lo, hi]. */
  lemma {:induction false} FilterMembers<V>(rows: seq<Row<V>>, lo: int, hi: int)
    ensures forall x :: x in Filter(rows, lo, hi) ==> x in rows && lo <= x.timestamp <= hi
    ensures forall i :: 0 <= i < |rows| && lo <= rows[i].timestamp <= hi ==> rows[i] in Filter(rows, lo, hi)
  {
    if rows != [] {
      FilterMembers(rows[1..], lo, hi);
      forall i | 0 < i < |rows| ensures rows[i] == rows[1..][i - 1] { }
    }
  }

  lemma {:induction false} FilterConcat<V>(a: seq<Row<V>>, b: seq<Row<V>>, lo: int, hi: int)
    ensures Filter(a + b, lo, hi) == Filter(a, lo, hi) + Filter(b, lo, hi)
  {
    if a != [] {
      assert (a + b)[1..] == a[1..] + b;
      FilterConcat(a[1..], b, lo, hi);
    } else {
      assert a + b == b;
    }
  }

  lemma {:induction false} FilterKeepsAll<V>(rows: seq<Row<V>>, lo: int, hi: int)
    requires forall i :: 0 <= i < |rows| ==> lo <= rows[i].timestamp <= hi
    ensures Filter(rows, lo, hi) == rows
  {
    if rows != [] {
      FilterKeepsAll(rows[1..], lo, hi);
    }
  }

  lemma {:induction false} FilterKeepsNone<V>(rows: seq<Row<V>>, lo: int, hi: int)
    requires forall i :: 0 <= i < |rows| ==> !(lo <= rows[i].timestamp <= hi)
    ensures Filter(rows, lo, hi) == []
  {
    if rows != [] {
      FilterKeepsNone(rows[1..], lo, hi);
    }
  }

  /** A subsequence of a sorted sequence is sorted. */
  lemma {:induction false} FilterSorted<V>(rows: seq<Row<V>>, lo: int, hi: int)
    requires Sorted(rows)
    ensures Sorted(Filter(rows, lo, hi))
  {
    if rows != [] {
      FilterSorted(rows[1..], lo, hi);
      FilterMembers(rows[1..], lo, hi);
      var rest := Filter(rows[1..], lo, hi);
      if lo <= rows[0].timestamp <= hi {
        var r := [rows[0]] + rest;
        forall a, b | 0 <= a <= b < |r| ensures r[a].timestamp <= r[b].timestamp {
          if a == 0 && b > 0 {
            assert r[b] == rest[b - 1];
            var k :| 0 <= k < |rows[1..]| && rows[1..][k] == rest[b - 1];
            assert rows[k + 1] == r[b];
          } else if a > 0 {
            assert r[a] == rest[a - 1] && r[b] == rest[b - 1];
          }
        }
      }
    }
  }

  /** The append mask as written, `(ts >= start) < end`: the comparison
      against `end` is made on the boolean, so a row is kept whenever
      `end` exceeds 0 or 1. */
  function MaskAsWritten<V>(rows: seq<Row<V>>, start: int, end: int): seq<Row<V>> {
    if rows == [] then []
    else
      var selected := (if rows[0].timestamp >= start then 1 else 0) < end;
      (if selected then [rows[0]] else []) + MaskAsWritten(rows[1..], start, end)
  }

  /** The fetch query as written, `(timestamp >= lo) & (timestamp < hi)`:
      the end of the range is left out. */
  function FilterHalfOpen<V>(rows: seq<Row<V>>, lo: int, hi: int): seq<Row<V>> {
    if rows == [] then []
    else (if lo <= rows[0].timestamp < hi then [rows[0]] else []) + FilterHalfOpen(rows[1..], lo, hi)
  }

  /** Reading the single instant 2014-05-05T01:01:01.100Z, where a row is
      stored, finds nothing with the query as written and the row with the
      closed range. */
  lemma PointReadAsWritten()
    ensures FilterHalfOpen([Row(1399251661100, 1)], 1399251661100, 1399251661100) == []
    ensures Filter([Row(1399251661100, 1)], 1399251661100, 1399251661100) == [Row(1399251661100, 1)]
  {
  }

  /** The slice of the batch for each entry of a range map, in map order. */
  function Slices<V>(rows: seq<Row<V>>, plan: seq<Part>): (r: seq<seq<Row<V>>>)
    ensures |r| == |plan|
  {
    seq(|plan|, i requires 0 <= i < |plan| => Filter(rows, plan[i].lo, plan[i].hi))
  }

  function Flatten<T>(ss: seq<seq<T>>): seq<T> {
    if ss == [] then [] else ss[0] + Flatten(ss[1..])
  }

  /** The rows of UTC day `d`. */
  function DaySlice<V>(rows: seq<Row<V>>, d: int): seq<Row<V>> {
    Filter(rows, Midnight(d), Midnight(d + 1) - 1)
  }

  /** Two masks that agree on every row select the same rows. */
  lemma {:induction false} FilterSameRows<V>(rows: seq<Row<V>>, lo1: int, hi1: int, lo2: int, hi2: int)
    requires forall i :: 0 <= i < |rows| ==>
               (lo1 <= rows[i].timestamp <= hi1 <==> lo2 <= rows[i].timestamp <= hi2)
    ensures Filter(rows, lo1, hi1) == Filter(rows, lo2, hi2)
  {
    if rows != [] {
      FilterSameRows(rows[1..], lo1, hi1, lo2, hi2);
    }
  }

  /** Every slice holds exactly the batch's rows of its day, when the map
      is planned over a range that holds the whole batch. */
  lemma SliceIsDay<V>(rows: seq<Row<V>>, s: int, e: int, i: int)
    requires forall k :: 0 <= k < |rows| ==> s <= rows[k].timestamp <= e
    requires 0 <= i < |Plan(s, e)|
    ensures Slices(rows, Plan(s, e))[i] == DaySlice(rows, Plan(s, e)[i].day)
  {
    var p := Plan(s, e)[i];
    forall k | 0 <= k < |rows|
      ensures p.lo <= rows[k].timestamp <= p.hi
              <==> Midnight(p.day) <= rows[k].timestamp <= Midnight(p.day + 1) - 1
    {
      PlanCovers(s, e, i, rows[k].timestamp);
      DayOfBounds(rows[k].timestamp, p.day);
    }
    FilterSameRows(rows, p.lo, p.hi, Midnight(p.day), Midnight(p.day + 1) - 1);
  }

  /** Number of leading rows at or before `hi`. */
  function CountThrough<V>(rows: seq<Row<V>>, hi: int): (n: nat)
    ensures n <= |rows|
    ensures forall k :: 0 <= k < n ==> rows[k].timestamp <= hi
    ensures n < |rows| ==> rows[n].timestamp > hi
  {
    if rows == [] || rows[0].timestamp > hi then 0 else 1 + CountThrough(rows[1..], hi)
  }

  /** On sorted rows that all start at or after `lo`, the rows of [lo, hi]
      are a prefix and everything after it lies beyond `hi`. */
  lemma {:induction false} FilterIsPrefix<V>(rows: seq<Row<V>>, lo: int, hi: int)
    requires Sorted(rows)
    requires forall j :: 0 <= j < |rows| ==> lo <= rows[j].timestamp
    ensures var n := CountThrough(rows, hi);
            Filter(rows, lo, hi) == rows[..n]
            && forall j :: 0 <= j < |rows[n..]| ==> rows[n..][j].timestamp > hi
  {
    var n := CountThrough(rows, hi);
    var head, tail := rows[..n], rows[n..];
    assert Filter(head, lo, hi) == head by {
      HeadInRange(rows, n, lo, hi);
      FilterKeepsAll(head, lo, hi);
    }
    assert forall j :: 0 <= j < |tail| ==> tail[j].timestamp > hi by {
      TailBeyond(rows, n, hi);
    }
    assert Filter(tail, lo, hi) == [] by {
      FilterKeepsNone(tail, lo, hi);
    }
    assert Filter(rows, lo, hi) == Filter(head, lo, hi) + Filter(tail, lo, hi) by {
      assert rows == head + tail;
      FilterConcat(head, tail, lo, hi);
    }
    assert Filter(rows, lo, hi) == head + [];
  }

  lemma HeadInRange<V>(rows: seq<Row<V>>, n: nat, lo: int, hi: int)
    requires n <= |rows|
    requires forall j :: 0 <= j < |rows| ==> lo <= rows[j].timestamp
    requires forall k :: 0 <= k < n ==> rows[k].timestamp <= hi
    ensures forall i :: 0 <= i < |rows[..n]| ==> lo <= rows[..n][i].timestamp <= hi
  {
    forall i | 0 <= i < n ensures lo <= rows[..n][i].timestamp <= hi {
      assert rows[..n][i] == rows[i];
    }
  }

  /** In sorted rows, everything from the first row beyond `hi` on is
      beyond `hi`. */
  lemma TailBeyond<V>(rows: seq<Row<V>>, n: nat, hi: int)
    requires Sorted(rows) && n <= |rows|
    requires n < |rows| ==> rows[n].timestamp > hi
    ensures forall j :: 0 <= j < |rows[n..]| ==> rows[n..][j].timestamp > hi
  {
    forall j | 0 <= j < |rows| - n ensures rows[n..][j].timestamp > hi {
      assert rows[n..][j] == rows[n + j];
      assert rows[n].timestamp <= rows[n + j].timestamp;
    }
  }

  /** Entries in ascending order, each starting one millisecond after its
      predecessor ends. */
  predicate Chained(plan: seq<Part>) {
    && (forall m :: 0 < m < |plan| ==> plan[m].lo == plan[m - 1].hi + 1)
    && (forall a, b :: 0 <= a < b < |plan| ==> plan[a].hi < plan[b].lo)
  }

  lemma PlanChained(s: int, e: int)
    ensures Chained(Plan(s, e))
  {
    var plan := Plan(s, e);
    forall a, b | 0 <= a < b < |plan| ensures plan[a].hi < plan[b].lo {
      assert plan[a].hi <= Midnight(plan[a].day + 1) - 1;
      assert Midnight(plan[b].day) <= plan[b].lo;
    }
  }

  /** Rows entirely before every entry of a map contribute nothing to its
      slices. */
  lemma DropLeadingRows<V>(a: seq<Row<V>>, b: seq<Row<V>>, plan: seq<Part>)
    requires forall k, m :: 0 <= k < |a| && 0 <= m < |plan| ==> a[k].timestamp < plan[m].lo
    ensures Slices(a + b, plan) == Slices(b, plan)
  {
    forall m | 0 <= m < |plan|
      ensures Slices(a + b, plan)[m] == Slices(b, plan)[m]
    {
      FilterConcat(a, b, plan[m].lo, plan[m].hi);
      FilterKeepsNone(a, plan[m].lo, plan[m].hi);
    }
  }

  lemma SortedSuffix<V>(rows: seq<Row<V>>, n: nat)
    requires Sorted(rows) && n <= |rows|
    ensures Sorted(rows[n..])
  {
    var tail := rows[n..];
    forall a, b | 0 <= a <= b < |tail| ensures tail[a].timestamp <= tail[b].timestamp {
      assert tail[a] == rows[n + a] && tail[b] == rows[n + b];
    }
  }

  /** Once the first entry has taken its prefix of the rows, the later
      entries see only the remaining rows. */
  lemma LaterSlices<V>(rows: seq<Row<V>>, plan: seq<Part>, n: nat)
    requires |plan| > 1 && Chained(plan) && n <= |rows|
    requires forall k :: 0 <= k < n ==> rows[k].timestamp <= plan[0].hi
    ensures Slices(rows, plan)[1..] == Slices(rows[n..], plan[1..])
  {
    var head, tail := rows[..n], rows[n..];
    var later := plan[1..];
    assert rows == head + tail;
    assert Slices(rows, plan)[1..] == Slices(rows, later);
    forall k, m | 0 <= k < |head| && 0 <= m < |later| ensures head[k].timestamp < later[m].lo {
      assert later[m] == plan[m + 1];
    }
    DropLeadingRows(head, tail, later);
  }

  /** The rows beyond the first entry lie within the span of the later
      entries, which stay chained. */
  lemma RestInSpan<V>(rows: seq<Row<V>>, plan: seq<Part>, n: nat)
    requires |plan| > 1 && Chained(plan) && n <= |rows|
    requires forall j :: 0 <= j < |rows| ==> rows[j].timestamp <= plan[|plan| - 1].hi
    requires forall j :: 0 <= j < |rows[n..]| ==> rows[n..][j].timestamp > plan[0].hi
    ensures Chained(plan[1..])
    ensures forall j :: 0 <= j < |rows[n..]| ==>
              plan[1..][0].lo <= rows[n..][j].timestamp <= plan[1..][|plan[1..]| - 1].hi
  {
    var later := plan[1..];
    assert later[0].lo == plan[0].hi + 1;
    assert later[|later| - 1] == plan[|plan| - 1];
    forall j | 0 <= j < |rows[n..]| ensures rows[n..][j].timestamp <= later[|later| - 1].hi {
      assert rows[n..][j] == rows[n + j];
    }
    forall m | 0 < m < |later| ensures later[m].lo == later[m - 1].hi + 1 {
      assert later[m] == plan[m + 1] && later[m - 1] == plan[m];
    }
    forall a, b | 0 <= a < b < |later| ensures later[a].hi < later[b].lo {
      assert later[a] == plan[a + 1] && later[b] == plan[b + 1];
    }
  }

  /** A one-entry map whose range holds every row takes them all. */
  lemma ReassembleOne<V>(rows: seq<Row<V>>, p: Part)
    requires forall j :: 0 <= j < |rows| ==> p.lo <= rows[j].timestamp <= p.hi
    ensures Flatten(Slices(rows, [p])) == rows
  {
    FilterKeepsAll(rows, p.lo, p.hi);
    assert Slices(rows, [p]) == [rows];
    assert Flatten(Slices(rows, [p])) == rows + Flatten([]);
  }

  /** The slices of a chained map reassemble the sorted rows that lie within
      the span of the map. */
  lemma {:induction false} ReassembleChained<V>(rows: seq<Row<V>>, plan: seq<Part>)
    requires Sorted(rows) && |plan| > 0 && Chained(plan)
    requires forall j :: 0 <= j < |rows| ==> plan[0].lo <= rows[j].timestamp <= plan[|plan| - 1].hi
    ensures Flatten(Slices(rows, plan)) == rows
    decreases |plan|
  {
    if |plan| == 1 {
      assert plan == [plan[0]];
      ReassembleOne(rows, plan[0]);
    } else {
      var n := CountThrough(rows, plan[0].hi);
      var later := plan[1..];
      assert Sorted(rows[n..]) by { SortedSuffix(rows, n); }
      assert Chained(later) && forall j :: 0 <= j < |rows[n..]| ==>
               later[0].lo <= rows[n..][j].timestamp <= later[|later| - 1].hi by {
        FilterIsPrefix(rows, plan[0].lo, plan[0].hi);
        RestInSpan(rows, plan, n);
      }
      ReassembleChained(rows[n..], later);
      ReassembleStep(rows, plan, n);
    }
  }

  /** The first entry takes the rows up to its end; the later entries,
      reassembled, give the rest. */
  lemma {:induction false} ReassembleStep<V>(rows: seq<Row<V>>, plan: seq<Part>, n: nat)
    requires Sorted(rows) && |plan| > 1 && Chained(plan)
    requires n == CountThrough(rows, plan[0].hi)
    requires forall j :: 0 <= j < |rows| ==> plan[0].lo <= rows[j].timestamp
    requires Flatten(Slices(rows[n..], plan[1..])) == rows[n..]
    ensures Flatten(Slices(rows, plan)) == rows
  {
    FilterIsPrefix(rows, plan[0].lo, plan[0].hi);
    var here := Slices(rows, plan);
    assert here[0] == rows[..n];
    LaterSlices(rows, plan, n);
    assert Flatten(here) == here[0] + Flatten(here[1..]);
    assert rows == rows[..n] + rows[n..];
  }

  /** `append` splits a sorted batch by the map of [first, last] timestamp:
      concatenating the slices in ascending day order gives the batch back,
      with no row dropped or repeated. */
  lemma Reassemble<V>(rows: seq<Row<V>>)
    requires Sorted(rows) && |rows| > 0
    ensures Flatten(Slices(rows, Plan(rows[0].timestamp, rows[|rows| - 1].timestamp))) == rows
  {
    var s, e := rows[0].timestamp, rows[|rows| - 1].timestamp;
    PlanChained(s, e);
    ReassembleChained(rows, Plan(s, e));
  }

  /** The batch of the boundary test: three rows on 2014-05-04, two on
      2014-05-05. */
  function CrossingBatch(): seq<Row<int>> {
    [Row(1399247999998, 1), Row(1399247999999, 2), Row(1399247999999, 3),
     Row(1399248000000, 4), Row(1399248000001, 5)]
  }

  /** The boundary batch splits 3 + 2 at midnight.  As written, the range
      map has a single entry, for 2014-05-04, and its mask keeps all five
      rows. */
  lemma CrossingBatchSplit()
    ensures Slices(CrossingBatch(), Plan(1399247999998, 1399248000001))
            == [CrossingBatch()[..3], CrossingBatch()[3..]]
    ensures |PlanAsWritten(1399247999998, 1399248000001)| == 1
    ensures PlanAsWritten(1399247999998, 1399248000001)[0] == Part(16194, 1399247999998, 1399248000000)
    ensures |MaskAsWritten(CrossingBatch(), PlanAsWritten(1399247999998, 1399248000001)[0].lo,
                           PlanAsWritten(1399247999998, 1399248000001)[0].hi)| == 5
  {
    var b := CrossingBatch();
    CrossingMapAsWritten();
    assert |MaskAsWritten(b, 1399247999998, 1399248000000)| == 5;
    assert Slices(b, Plan(1399247999998, 1399248000001)) == [b[..3], b[3..]] by {
      var plan := Plan(1399247999998, 1399248000001);
      assert plan == [Part(16194, 1399247999998, 1399247999999), Part(16195, 1399248000000, 1399248000001)];
      var first := Filter(b, 1399247999998, 1399247999999);
      var second := Filter(b, 1399248000000, 1399248000001);
      assert first == b[..3];
      assert second == b[3..];
      assert Slices(b, plan) == [first, second];
    }
  }

  /** The range map as written for the boundary batch: one entry, ending at
      the next midnight. */
  lemma CrossingMapAsWritten()
    ensures |PlanAsWritten(1399247999998, 1399248000001)| == 1
    ensures PlanAsWritten(1399247999998, 1399248000001)[0] == Part(16194, 1399247999998, 1399248000000)
  {
    var pa := PlanAsWritten(1399247999998, 1399248000001);
    assert DayCountAsWritten(1399247999998, 1399248000001) == 1;
    assert DayOf(1399247999998) == 16194 && DayOf(1399248000001) == 16195;
    assert pa[0] == Part(16194, 1399247999998, Midnight(16195));
  }

  /** Five rows at the same instant fall into one slice, in order. */
  lemma SameInstantBatch<V>(rows: seq<Row<V>>)
    requires |rows| > 0 && forall k :: 0 <= k < |rows| ==> rows[k].timestamp == rows[0].timestamp
    ensures Plan(rows[0].timestamp, rows[|rows| - 1].timestamp)
            == [Part(DayOf(rows[0].timestamp), rows[0].timestamp, rows[0].timestamp)]
    ensures Slices(rows, Plan(rows[0].timestamp, rows[|rows| - 1].timestamp)) == [rows]
  {
    var t := rows[0].timestamp;
    PlanOneDay(t, t);
    FilterKeepsAll(rows, t, t);
  }
}
