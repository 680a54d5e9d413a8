/** The partition store as a value: the rows of each day's `ts_data` table,
    keyed by UTC day.  These functions say what `append` and a range read
    do to and with the store; the `TsTable` class performs them. */
module Store {
  import opened Codec
  import opened Planner
  import opened Batches

  type Parts<V> = map<int, seq<Row<V>>>

  /** The rows of day `d`'s partition; a missing partition holds none. */
  function Rows<V>(parts: Parts<V>, d: int): seq<Row<V>> {
    if d in parts then parts[d] else []
  }

  /** Every row sits in the partition of its own UTC day. */
  ghost predicate WellPlaced<V>(parts: Parts<V>) {
    forall d, k :: d in parts && 0 <= k < |parts[d]| ==> DayOf(parts[d][k].timestamp) == d
  }

  /** Every partition is in timestamp order. */
  ghost predicate PartitionsSorted<V>(parts: Parts<V>) {
    forall d :: d in parts ==> Sorted(parts[d])
  }

  /** No stored row is later than `t`. */
  ghost predicate NoneAfter<V>(parts: Parts<V>, t: int) {
    forall d, k :: d in parts && 0 <= k < |parts[d]| ==> parts[d][k].timestamp <= t
  }

  /** The partitions' contents after appending `slices[i]` to partition
      `plan[i].day` for each entry in turn, creating missing partitions. */
  function AppendSlices<V>(parts: Parts<V>, plan: seq<Part>, slices: seq<seq<Row<V>>>): Parts<V>
    requires |plan| == |slices|
  {
    if plan == [] then parts
    else
      var n := |plan| - 1;
      var before := AppendSlices(parts, plan[..n], slices[..n]);
      before[plan[n].day := Rows(before, plan[n].day) + slices[n]]
  }

  /** Days strictly ascending, so that no partition is visited twice. */
  predicate Ascending(plan: seq<Part>) {
    forall a, b :: 0 <= a < b < |plan| ==> plan[a].day < plan[b].day
  }

  /** Each visited partition gains exactly its slice; every other partition
      is untouched, and the partitions that exist afterwards are the old
      ones and the visited ones. */
  lemma {:induction false} AppendSlicesEffect<V>(parts: Parts<V>, plan: seq<Part>, slices: seq<seq<Row<V>>>, d: int)
    requires |plan| == |slices| && Ascending(plan)
    ensures var after := AppendSlices(parts, plan, slices);
            (d in after <==> d in parts || exists i :: 0 <= i < |plan| && plan[i].day == d)
            && (forall i :: 0 <= i < |plan| && plan[i].day == d ==> Rows(after, d) == Rows(parts, d) + slices[i])
            && ((forall i :: 0 <= i < |plan| ==> plan[i].day != d) ==> Rows(after, d) == Rows(parts, d))
  {
    if plan != [] {
      var n := |plan| - 1;
      assert Ascending(plan[..n]);
      AppendSlicesEffect(parts, plan[..n], slices[..n], d);
      if plan[n].day == d {
        assert forall i :: 0 <= i < n ==> plan[..n][i].day != d;
      }
    }
  }

  /** The store after a successful `append` of a non-empty batch: its
      range map is planned over [first, last] timestamp and each entry's
      slice goes to that entry's partition. */
  function AppendBatch<V>(parts: Parts<V>, batch: seq<Row<V>>): Parts<V>
    requires |batch| > 0
  {
    var plan := Plan(batch[0].timestamp, batch[|batch| - 1].timestamp);
    AppendSlices(parts, plan, Slices(batch, plan))
  }

  lemma PlanAscending(s: int, e: int)
    ensures Ascending(Plan(s, e))
  {
  }

  /** A sorted batch lies between its first and its last timestamp. */
  lemma SortedWithin<V>(batch: seq<Row<V>>)
    requires Sorted(batch) && |batch| > 0
    ensures forall k :: 0 <= k < |batch| ==>
              batch[0].timestamp <= batch[k].timestamp <= batch[|batch| - 1].timestamp
  {
  }

  /** A sorted batch has no rows on a day outside the days of its first and
      last rows. */
  lemma DaySliceOutside<V>(batch: seq<Row<V>>, d: int)
    requires Sorted(batch) && |batch| > 0
    requires d < DayOf(batch[0].timestamp) || DayOf(batch[|batch| - 1].timestamp) < d
    ensures DaySlice(batch, d) == []
  {
    SortedWithin(batch);
    forall k | 0 <= k < |batch|
      ensures !(Midnight(d) <= batch[k].timestamp <= Midnight(d + 1) - 1)
    {
      DayOfBounds(batch[k].timestamp, d);
    }
    FilterKeepsNone(batch, Midnight(d), Midnight(d + 1) - 1);
  }

  /** `append` sends every row of a sorted batch to its own day's partition,
      after the rows already there and in batch order; the partition of
      every day from the first row's to the last row's exists afterwards,
      and no other partition changes. */
  lemma AppendBatchEffect<V>(parts: Parts<V>, batch: seq<Row<V>>, d: int)
    requires Sorted(batch) && |batch| > 0
    ensures var first, last := batch[0].timestamp, batch[|batch| - 1].timestamp;
            var after := AppendBatch(parts, batch);
            (d in after <==> d in parts || DayOf(first) <= d <= DayOf(last))
            && Rows(after, d) == Rows(parts, d) + DaySlice(batch, d)
  {
    var first, last := batch[0].timestamp, batch[|batch| - 1].timestamp;
    var plan := Plan(first, last);
    PlanAscending(first, last);
    AppendSlicesEffect(parts, plan, Slices(batch, plan), d);
    SortedWithin(batch);
    if DayOf(first) <= d <= DayOf(last) {
      var i := d - DayOf(first);
      assert plan[i].day == d;
      SliceIsDay(batch, first, last, i);
    } else {
      DaySliceOutside(batch, d);
      assert Rows(parts, d) + [] == Rows(parts, d);
    }
  }

  /** The stored rows of `n` consecutive days from day `a`, day by day. */
  function Span<V>(parts: Parts<V>, a: int, n: nat): seq<Row<V>>
    decreases n
  {
    if n == 0 then [] else Rows(parts, a) + Span(parts, a + 1, n - 1)
  }

  /** A range read: each entry's partition fetched (missing partitions
      give no rows) and masked to the entry's sub-range, concatenated in
      map order. */
  function ReadParts<V>(parts: Parts<V>, plan: seq<Part>): seq<Row<V>> {
    if plan == [] then []
    else Filter(Rows(parts, plan[0].day), plan[0].lo, plan[0].hi) + ReadParts(parts, plan[1..])
  }

  /** A map of consecutive days from `a` whose every entry selects, among
      the milliseconds of its own day, exactly those of [s, e]. */
  ghost predicate Windows(plan: seq<Part>, a: int, s: int, e: int) {
    forall i :: 0 <= i < |plan| ==> plan[i].day == a + i && WindowOf(plan[i], s, e)
  }

  ghost predicate WindowOf(p: Part, s: int, e: int) {
    forall t :: DayOf(t) == p.day ==> (p.lo <= t <= p.hi <==> s <= t <= e)
  }

  lemma PlanWindows(s: int, e: int)
    ensures Windows(Plan(s, e), DayOf(s), s, e)
  {
    var plan := Plan(s, e);
    forall i | 0 <= i < |plan| ensures WindowOf(plan[i], s, e) {
      forall t | DayOf(t) == plan[i].day ensures plan[i].lo <= t <= plan[i].hi <==> s <= t <= e {
        PlanCovers(s, e, i, t);
      }
    }
  }

  /** An entry's mask selects from its own well-placed partition exactly the
      rows of [s, e]. */
  lemma EntryReadsDay<V>(parts: Parts<V>, p: Part, s: int, e: int)
    requires WellPlaced(parts) && WindowOf(p, s, e)
    ensures Filter(Rows(parts, p.day), p.lo, p.hi) == Filter(Rows(parts, p.day), s, e)
  {
    var here := Rows(parts, p.day);
    forall k | 0 <= k < |here|
      ensures p.lo <= here[k].timestamp <= p.hi <==> s <= here[k].timestamp <= e
    {
      assert DayOf(here[k].timestamp) == p.day;
    }
    FilterSameRows(here, p.lo, p.hi, s, e);
  }

  lemma WindowsTail(plan: seq<Part>, a: int, s: int, e: int)
    requires Windows(plan, a, s, e) && plan != []
    ensures Windows(plan[1..], a + 1, s, e)
  {
    forall i | 0 <= i < |plan[1..]|
      ensures plan[1..][i].day == a + 1 + i && WindowOf(plan[1..][i], s, e)
    {
      assert plan[1..][i] == plan[i + 1];
    }
  }

  lemma {:induction false} ReadSpan<V>(parts: Parts<V>, plan: seq<Part>, a: int, s: int, e: int)
    requires WellPlaced(parts) && Windows(plan, a, s, e)
    ensures ReadParts(parts, plan) == Filter(Span(parts, a, |plan|), s, e)
    decreases |plan|
  {
    if plan != [] {
      var here := Rows(parts, a);
      assert plan[0].day == a && WindowOf(plan[0], s, e);
      EntryReadsDay(parts, plan[0], s, e);
      WindowsTail(plan, a, s, e);
      ReadSpan(parts, plan[1..], a + 1, s, e);
      FilterConcat(here, Span(parts, a + 1, |plan| - 1), s, e);
    }
  }

  /** Reading [s, e] returns the stored rows of the days of `s` through `e`,
      day by day, that lie in [s, e]: the map's per-day masks lose nothing
      and add nothing. */
  lemma ReadIsFilter<V>(parts: Parts<V>, s: int, e: int)
    requires WellPlaced(parts)
    ensures ReadParts(parts, Plan(s, e)) == Filter(Span(parts, DayOf(s), |Plan(s, e)|), s, e)
  {
    PlanWindows(s, e);
    ReadSpan(parts, Plan(s, e), DayOf(s), s, e);
  }

  /** On a well-placed store with sorted partitions, consecutive days read
      in order give sorted rows, all within those days. */
  lemma {:induction false} SpanSorted<V>(parts: Parts<V>, a: int, n: nat)
    requires WellPlaced(parts) && PartitionsSorted(parts)
    ensures Sorted(Span(parts, a, n))
    ensures forall k :: 0 <= k < |Span(parts, a, n)| ==> a <= DayOf(Span(parts, a, n)[k].timestamp) < a + n
    decreases n
  {
    if n > 0 {
      SpanSorted(parts, a + 1, n - 1);
      var here, rest := Rows(parts, a), Span(parts, a + 1, n - 1);
      var all := here + rest;
      forall k | 0 <= k < |all| ensures a <= DayOf(all[k].timestamp) < a + n {
        if k >= |here| { assert all[k] == rest[k - |here|]; }
      }
      forall i, j | 0 <= i <= j < |all| ensures all[i].timestamp <= all[j].timestamp {
        if j < |here| {
        } else if i >= |here| {
          assert all[i] == rest[i - |here|] && all[j] == rest[j - |here|];
        } else {
          assert all[j] == rest[j - |here|];
          assert DayOf(all[i].timestamp) < DayOf(all[j].timestamp);
        }
      }
    }
  }

  /** A range read of a well-placed store with sorted partitions is in
      timestamp order. */
  lemma ReadSorted<V>(parts: Parts<V>, s: int, e: int)
    requires WellPlaced(parts) && PartitionsSorted(parts)
    ensures Sorted(ReadParts(parts, Plan(s, e)))
  {
    ReadIsFilter(parts, s, e);
    SpanSorted(parts, DayOf(s), |Plan(s, e)|);
    FilterSorted(Span(parts, DayOf(s), |Plan(s, e)|), s, e);
  }

  /** Some stored row has timestamp `t`. */
  ghost predicate HasRowAt<V>(parts: Parts<V>, t: int) {
    exists d, k :: d in parts && 0 <= k < |parts[d]| && parts[d][k].timestamp == t
  }

  /** No partition holds a row. */
  ghost predicate NoRows<V>(parts: Parts<V>) {
    forall d :: d in parts ==> parts[d] == []
  }

  /** A new, empty partition changes neither the placement, the order nor
      the extent of the stored rows. */
  lemma AddEmptyPartition<V>(parts: Parts<V>, d: int)
    requires d !in parts
    ensures var after := parts[d := []];
            && (WellPlaced(parts) ==> WellPlaced(after))
            && (PartitionsSorted(parts) ==> PartitionsSorted(after))
            && (NoRows(parts) ==> NoRows(after))
            && (forall t :: NoneAfter(parts, t) ==> NoneAfter(after, t))
            && (forall t :: HasRowAt(parts, t) ==> HasRowAt(after, t))
  {
    var after := parts[d := []];
    forall t | HasRowAt(parts, t) ensures HasRowAt(after, t) {
      var d', k :| d' in parts && 0 <= k < |parts[d']| && parts[d'][k].timestamp == t;
      assert after[d'] == parts[d'];
    }
  }

  /** When no stored row is later than `t`, every partition after the day
      of `t` is empty. */
  lemma NothingAfterDay<V>(parts: Parts<V>, t: int)
    requires WellPlaced(parts) && NoneAfter(parts, t)
    ensures forall d :: d > DayOf(t) ==> Rows(parts, d) == []
  {
    forall d | d > DayOf(t) ensures Rows(parts, d) == [] {
      if d in parts && |parts[d]| > 0 {
        DayOfMonotone(parts[d][0].timestamp, t);
      }
    }
  }

  /** The rows of a sorted batch on day `d` lie on that day and between the
      batch's first and last timestamps, in order. */
  lemma DaySliceRows<V>(batch: seq<Row<V>>, d: int)
    requires Sorted(batch) && |batch| > 0
    ensures var rows := DaySlice(batch, d);
            Sorted(rows)
            && forall j :: 0 <= j < |rows| ==>
                 DayOf(rows[j].timestamp) == d
                 && batch[0].timestamp <= rows[j].timestamp <= batch[|batch| - 1].timestamp
  {
    var rows := DaySlice(batch, d);
    SortedWithin(batch);
    FilterMembers(batch, Midnight(d), Midnight(d + 1) - 1);
    FilterSorted(batch, Midnight(d), Midnight(d + 1) - 1);
    forall j | 0 <= j < |rows|
      ensures DayOf(rows[j].timestamp) == d
              && batch[0].timestamp <= rows[j].timestamp <= batch[|batch| - 1].timestamp
    {
      assert rows[j] in rows;
      DayOfBounds(rows[j].timestamp, d);
    }
  }

  /** Sorted rows followed by sorted rows that are no earlier are sorted. */
  lemma SortedConcat<V>(a: seq<Row<V>>, b: seq<Row<V>>, t: int)
    requires Sorted(a) && Sorted(b)
    requires forall k :: 0 <= k < |a| ==> a[k].timestamp <= t
    requires forall k :: 0 <= k < |b| ==> t <= b[k].timestamp
    ensures Sorted(a + b)
  {
    var rows := a + b;
    forall i, j | 0 <= i <= j < |rows| ensures rows[i].timestamp <= rows[j].timestamp {
      if j < |a| {
        assert rows[i] == a[i] && rows[j] == a[j];
      } else if i >= |a| {
        assert rows[i] == b[i - |a|] && rows[j] == b[j - |a|];
      } else {
        assert rows[i] == a[i] && rows[j] == b[j - |a|];
      }
    }
  }

  /** A partition after the append: still sorted, its rows all of its
      own day and none later than the batch's last. */
  lemma AppendedPartition<V>(parts: Parts<V>, batch: seq<Row<V>>, rows: seq<Row<V>>, d: int)
    requires WellPlaced(parts) && PartitionsSorted(parts)
    requires Sorted(batch) && |batch| > 0 && NoneAfter(parts, batch[0].timestamp)
    requires rows == Rows(parts, d) + DaySlice(batch, d)
    ensures Sorted(rows)
    ensures forall k :: 0 <= k < |rows| ==>
              DayOf(rows[k].timestamp) == d && rows[k].timestamp <= batch[|batch| - 1].timestamp
  {
    var first, last := batch[0].timestamp, batch[|batch| - 1].timestamp;
    var old_, new_ := Rows(parts, d), DaySlice(batch, d);
    assert forall k :: 0 <= k < |old_| ==> DayOf(old_[k].timestamp) == d && old_[k].timestamp <= first;
    assert Sorted(old_);
    DaySliceRows(batch, d);
    SortedConcat(old_, new_, first);
    forall k | 0 <= k < |rows|
      ensures DayOf(rows[k].timestamp) == d && rows[k].timestamp <= last
    {
      if k >= |old_| { assert rows[k] == new_[k - |old_|]; } else { assert rows[k] == old_[k]; }
    }
  }

  /** Rows of one day appended after rows of that day that are no later
      keep the partition sorted and well placed. */
  lemma AppendedRowsFit<V>(before: seq<Row<V>>, rows: seq<Row<V>>, day: int)
    requires Sorted(before) && forall k :: 0 <= k < |before| ==> DayOf(before[k].timestamp) == day
    requires Sorted(rows) && forall k :: 0 <= k < |rows| ==> DayOf(rows[k].timestamp) == day
    requires |rows| > 0 ==> forall k :: 0 <= k < |before| ==> before[k].timestamp <= rows[0].timestamp
    ensures Sorted(before + rows)
    ensures forall k :: 0 <= k < |before + rows| ==> DayOf((before + rows)[k].timestamp) == day
  {
    if |rows| > 0 {
      SortedConcat(before, rows, rows[0].timestamp);
    } else {
      assert before + rows == before;
    }
    forall k | 0 <= k < |before + rows| ensures DayOf((before + rows)[k].timestamp) == day {
      if k >= |before| { assert (before + rows)[k] == rows[k - |before|]; }
    }
  }

  /** Rows of one day, sorted and no earlier than that day's stored rows,
      appended to that day's partition keep every partition sorted and
      well placed, and no partition appears or disappears. */
  lemma ExtendPartition<V>(parts: Parts<V>, d: int, rows: seq<Row<V>>)
    requires WellPlaced(parts) && PartitionsSorted(parts) && d in parts
    requires Sorted(rows) && forall k :: 0 <= k < |rows| ==> DayOf(rows[k].timestamp) == d
    requires |rows| > 0 ==> forall k :: 0 <= k < |parts[d]| ==> parts[d][k].timestamp <= rows[0].timestamp
    ensures var after := parts[d := parts[d] + rows];
            after.Keys == parts.Keys && WellPlaced(after) && PartitionsSorted(after)
  {
    AppendedRowsFit(parts[d], rows, d);
  }

  /** The batch's last row is stored after the append. */
  lemma LastRowStored<V>(parts: Parts<V>, batch: seq<Row<V>>)
    requires Sorted(batch) && |batch| > 0
    ensures HasRowAt(AppendBatch(parts, batch), batch[|batch| - 1].timestamp)
  {
    var after := AppendBatch(parts, batch);
    var last := batch[|batch| - 1].timestamp;
    var d := DayOf(last);
    AppendBatchEffect(parts, batch, d);
    assert d in after;
    FilterMembers(batch, Midnight(d), Midnight(d + 1) - 1);
    DayOfBounds(last, d);
    var new_ := DaySlice(batch, d);
    assert batch[|batch| - 1] in new_;
    var j :| 0 <= j < |new_| && new_[j] == batch[|batch| - 1];
    assert after[d] == Rows(parts, d) + new_;
    assert after[d][|Rows(parts, d)| + j].timestamp == last;
  }

  /** A batch that starts no earlier than every stored row keeps the store
      well placed and every partition sorted; afterwards no row is later
      than the batch's last, which is stored. */
  lemma AppendKeepsOrder<V>(parts: Parts<V>, batch: seq<Row<V>>)
    requires WellPlaced(parts) && PartitionsSorted(parts)
    requires Sorted(batch) && |batch| > 0 && NoneAfter(parts, batch[0].timestamp)
    ensures var after := AppendBatch(parts, batch);
            WellPlaced(after) && PartitionsSorted(after)
            && NoneAfter(after, batch[|batch| - 1].timestamp)
            && HasRowAt(after, batch[|batch| - 1].timestamp)
  {
    var after := AppendBatch(parts, batch);
    forall d | d in after
      ensures Sorted(after[d])
      && forall k :: 0 <= k < |after[d]| ==>
           DayOf(after[d][k].timestamp) == d && after[d][k].timestamp <= batch[|batch| - 1].timestamp
    {
      AppendBatchEffect(parts, batch, d);
      AppendedPartition(parts, batch, after[d], d);
    }
    LastRowStored(parts, batch);
  }

  /** Later timestamps never fall on earlier days. */
  lemma DayOfMonotone(x: int, y: int)
    requires x <= y
    ensures DayOf(x) <= DayOf(y)
  {
    DayOfBounds(x, DayOf(x));
    DayOfBounds(y, DayOf(y));
  }

  /** The batch's rows of `n` consecutive days from day `a`, day by day. */
  function DaySpan<V>(batch: seq<Row<V>>, a: int, n: nat): seq<Row<V>>
    decreases n
  {
    if n == 0 then [] else DaySlice(batch, a) + DaySpan(batch, a + 1, n - 1)
  }

  /** Rows before day `a` add nothing to the day slices from day `a` on. */
  lemma {:induction false} DaySpanDrop<V>(rows: seq<Row<V>>, m: nat, a: int, n: nat)
    requires m <= |rows|
    requires forall k :: 0 <= k < m ==> rows[k].timestamp < Midnight(a)
    ensures DaySpan(rows, a, n) == DaySpan(rows[m..], a, n)
    decreases n
  {
    if n > 0 {
      var head, tail := rows[..m], rows[m..];
      assert rows == head + tail;
      FilterConcat(head, tail, Midnight(a), Midnight(a + 1) - 1);
      FilterKeepsNone(head, Midnight(a), Midnight(a + 1) - 1);
      DaySpanDrop(rows, m, a + 1, n - 1);
    }
  }

  /** Sorted rows from midnight of day `a` on: the day-`a` slice is a
      prefix, and the rows after it start at the next midnight or later. */
  lemma FirstDaySlice<V>(batch: seq<Row<V>>, a: int)
    requires Sorted(batch)
    requires forall k :: 0 <= k < |batch| ==> Midnight(a) <= batch[k].timestamp
    ensures var m := CountThrough(batch, Midnight(a + 1) - 1);
            DaySlice(batch, a) == batch[..m]
            && forall k :: m <= k < |batch| ==> Midnight(a + 1) <= batch[k].timestamp
  {
    var hi := Midnight(a + 1) - 1;
    FilterIsPrefix(batch, Midnight(a), hi);
    var m := CountThrough(batch, hi);
    forall k | m <= k < |batch| ensures Midnight(a + 1) <= batch[k].timestamp {
      assert batch[m..][k - m] == batch[k];
    }
  }

  /** Sorted rows between midnight of day `a` and midnight of day `a + n`
      are their own day slices over those days, concatenated. */
  lemma {:induction false} DaySpanOf<V>(batch: seq<Row<V>>, a: int, n: nat)
    requires Sorted(batch) && n >= 1
    requires forall k :: 0 <= k < |batch| ==> Midnight(a) <= batch[k].timestamp < Midnight(a + n)
    ensures DaySpan(batch, a, n) == batch
    decreases n
  {
    if n == 1 {
      FilterKeepsAll(batch, Midnight(a), Midnight(a + 1) - 1);
      assert DaySpan(batch, a, 1) == DaySlice(batch, a) + [];
    } else {
      FirstDaySlice(batch, a);
      var m := CountThrough(batch, Midnight(a + 1) - 1);
      var tail := batch[m..];
      SortedSuffix(batch, m);
      forall k | 0 <= k < |tail| ensures Midnight(a + 1) <= tail[k].timestamp < Midnight(a + 1 + (n - 1)) {
        assert tail[k] == batch[m + k];
      }
      DaySpanOf(tail, a + 1, n - 1);
      DaySpanDrop(batch, m, a + 1, n - 1);
      var first, rest := DaySlice(batch, a), DaySpan(batch, a + 1, n - 1);
      assert first == batch[..m];
      assert rest == tail;
      assert batch[..m] + batch[m..] == batch;
      calc {
        DaySpan(batch, a, n);
        first + rest;
        batch[..m] + tail;
        batch;
      }
    }
  }

  /** The day slices of a sorted batch, over any run of days holding all of
      its rows, give the batch back. */
  lemma DaySpanIsBatch<V>(batch: seq<Row<V>>, a: int, n: nat)
    requires Sorted(batch) && |batch| > 0
    requires a <= DayOf(batch[0].timestamp) && DayOf(batch[|batch| - 1].timestamp) < a + n
    ensures DaySpan(batch, a, n) == batch
  {
    SortedWithin(batch);
    DayOfBounds(batch[0].timestamp, DayOf(batch[0].timestamp));
    DayOfBounds(batch[|batch| - 1].timestamp, DayOf(batch[|batch| - 1].timestamp));
    DaySpanOf(batch, a, n);
  }
  lemma {:induction false} SpanEmptyAfter<V>(parts: Parts<V>, d0: int, a: int, n: nat)
    requires forall d :: d > d0 ==> Rows(parts, d) == []
    requires a > d0
    ensures Span(parts, a, n) == []
    decreases n
  {
    if n > 0 {
      SpanEmptyAfter(parts, d0, a + 1, n - 1);
    }
  }

  /** Appending a batch that starts no earlier than every stored row adds
      the batch's rows of each day after the old rows of every day read. */
  lemma {:induction false} SpanAfterAppend<V>(parts: Parts<V>, after: Parts<V>, batch: seq<Row<V>>, a: int, n: nat)
    requires Sorted(batch) && |batch| > 0
    requires forall d :: d > DayOf(batch[0].timestamp) ==> Rows(parts, d) == []
    requires forall d :: Rows(after, d) == Rows(parts, d) + DaySlice(batch, d)
    ensures Span(after, a, n) == Span(parts, a, n) + DaySpan(batch, a, n)
    decreases n
  {
    if n > 0 {
      var d0 := DayOf(batch[0].timestamp);
      SpanAfterAppend(parts, after, batch, a + 1, n - 1);
      var old_, slice := Rows(parts, a), DaySlice(batch, a);
      var oldRest, sliceRest := Span(parts, a + 1, n - 1), DaySpan(batch, a + 1, n - 1);
      assert Span(after, a, n) == (old_ + slice) + (oldRest + sliceRest);
      assert Span(parts, a, n) == old_ + oldRest;
      assert DaySpan(batch, a, n) == slice + sliceRest;
      if a < d0 {
        assert slice == [] by { DaySliceOutside(batch, a); }
      } else {
        assert oldRest == [] by { SpanEmptyAfter(parts, d0, a + 1, n - 1); }
      }
      Interleave(old_, slice, oldRest, sliceRest);
    }
  }

  /** Two interleaved concatenations agree when one middle part is empty. */
  lemma Interleave<T>(a: seq<T>, b: seq<T>, c: seq<T>, d: seq<T>)
    requires b == [] || c == []
    ensures (a + b) + (c + d) == (a + c) + (b + d)
  {
    if b == [] {
      assert a + b == a && b + d == d;
    } else {
      assert c + d == d && a + c == a;
    }
  }

  /** Reading any range that holds a freshly appended batch returns the
      rows stored before it that lie in the range, then the batch itself,
      whole and in order. */
  lemma ReadAfterAppend<V>(parts: Parts<V>, batch: seq<Row<V>>, s: int, e: int)
    requires WellPlaced(parts) && PartitionsSorted(parts)
    requires Sorted(batch) && |batch| > 0 && NoneAfter(parts, batch[0].timestamp)
    requires s <= batch[0].timestamp && batch[|batch| - 1].timestamp <= e
    ensures ReadParts(AppendBatch(parts, batch), Plan(s, e))
            == ReadParts(parts, Plan(s, e)) + batch
  {
    var after := AppendBatch(parts, batch);
    var first, last := batch[0].timestamp, batch[|batch| - 1].timestamp;
    var a, n := DayOf(s), |Plan(s, e)|;
    AppendKeepsOrder(parts, batch);
    ReadIsFilter(after, s, e);
    ReadIsFilter(parts, s, e);
    NothingAfterDay(parts, first);
    forall d ensures Rows(after, d) == Rows(parts, d) + DaySlice(batch, d) {
      AppendBatchEffect(parts, batch, d);
    }
    SpanAfterAppend(parts, after, batch, a, n);
    DaySpanIsBatch(batch, a, n);
    FilterConcat(Span(parts, a, n), batch, s, e);
    SortedWithin(batch);
    FilterKeepsAll(batch, s, e);
  }

  /** A store whose partitions are all empty reads back exactly the batch
      appended to it, over any range that holds the batch. */
  lemma ReadBackFromEmpty<V>(parts: Parts<V>, batch: seq<Row<V>>, s: int, e: int)
    requires NoRows(parts)
    requires Sorted(batch) && |batch| > 0
    requires s <= batch[0].timestamp && batch[|batch| - 1].timestamp <= e
    ensures ReadParts(AppendBatch(parts, batch), Plan(s, e)) == batch
  {
    ReadAfterAppend(parts, batch, s, e);
    ReadIsFilter(parts, s, e);
    EmptySpan(parts, DayOf(s), |Plan(s, e)|);
    assert ReadParts(parts, Plan(s, e)) == [];
  }

  lemma {:induction false} EmptySpan<V>(parts: Parts<V>, a: int, n: nat)
    requires NoRows(parts)
    ensures Span(parts, a, n) == []
    decreases n
  {
    if n > 0 {
      EmptySpan(parts, a + 1, n - 1);
    }
  }
}
