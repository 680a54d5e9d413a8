/** `TsTable`: one time series, stored as one `ts_data` table per UTC day
    under the groups `y%Y/m%m/d%d` of its root group. */
module TsTables {
  import opened Calendar
  import opened Results
  import opened Codec
  import opened Planner
  import opened Batches
  import opened Store
  import opened Partitions

  /** The row count PyTables is told to expect in each partition. */
  const DEFAULT_EXPECTED_ROWS: nat := 10000

  /** The table settings every partition's `ts_data` table is created with.
      The record description and the filters are PyTables objects; they
      are carried through by name. */
  datatype TableConfig = TableConfig(
    description: string,
    title: string,
    filters: Option<string>,
    expectedRows: nat,
    chunkshape: Option<seq<nat>>,
    byteorder: Option<string>)

  /** The settings when only the description is given. */
  function DefaultConfig(description: string): TableConfig {
    TableConfig(description, "", None, DEFAULT_EXPECTED_ROWS, None, None)
  }

  /** Why `append` refuses a batch. */
  datatype AppendError = EmptyBatch | UnsortedBatch | BeforeStoredRows | OutsideDatetimeRange

  /** The `y`, `y/m` and `y/m/d` groups of day `day`'s partition. */
  function PathGroups(day: int): (gs: set<seq<string>>)
    requires InDatetimeRange(day)
    ensures PartitionPath(day) in gs
  {
    var p := PartitionPath(day);
    {p[..1], p[..2], p}
  }

  /** The groups on the paths of the partitions of `days`. */
  ghost function GroupsOf(days: set<int>): set<seq<string>> {
    set d, g | d in days && InDatetimeRange(d) && g in PathGroups(d) :: g
  }

  /** A new partition adds the groups of its own path and no others. */
  lemma GroupsOfInsert(days: set<int>, day: int)
    requires InDatetimeRange(day)
    ensures GroupsOf(days + {day}) == GroupsOf(days) + PathGroups(day)
  {
  }

  /** The only partition whose groups include day `day`'s full path is
      that day's own. */
  lemma FullPathOwner(day: int, d: int)
    requires InDatetimeRange(day) && InDatetimeRange(d) && PartitionPath(day) in PathGroups(d)
    ensures day == d
  {
    PathInjective(day, d);
  }

  /** A day's full path is a group exactly when its partition exists, and
      then so are the two groups above it. */
  lemma DayGroup(days: set<int>, day: int)
    requires InDatetimeRange(day) && forall d :: d in days ==> InDatetimeRange(d)
    ensures PartitionPath(day) in GroupsOf(days) <==> day in days
    ensures day in days ==> PathGroups(day) <= GroupsOf(days)
  {
    if PartitionPath(day) in GroupsOf(days) {
      var d :| d in days && InDatetimeRange(d) && PartitionPath(day) in PathGroups(d);
      FullPathOwner(day, d);
    }
    if day in days {
      forall g | g in PathGroups(day) ensures g in GroupsOf(days) {
        assert day in days && InDatetimeRange(day) && g in PathGroups(day);
      }
    }
  }

  class TsTable<V> {
    /** The path of the series' root group in the file. */
    const root: seq<string>
    const config: TableConfig
    /** The groups below the root, as paths relative to it. */
    var groups: set<seq<string>>
    /** The `ts_data` table under each day's group, by UTC day. */
    var partitions: Parts<V>
    /** The largest stored timestamp, `None` while no row is stored. */
    var maxTs: Option<int>

    /** The shape of the stored series: every partition is of a datetime
        Python can represent, holds only rows of its own day in timestamp
        order, and the groups are exactly the paths of the partitions. */
    ghost predicate StoreValid()
      reads this
    {
      && (forall d :: d in partitions ==> InDatetimeRange(d))
      && groups == GroupsOf(partitions.Keys)
      && WellPlaced(partitions)
      && PartitionsSorted(partitions)
    }

    /** `maxTs` is the largest stored timestamp. */
    ghost predicate ExtentValid()
      reads this
    {
      match maxTs
      case None => NoRows(partitions)
      case Some(t) => NoneAfter(partitions, t) && HasRowAt(partitions, t)
    }

    ghost predicate Valid()
      reads this
    {
      StoreValid() && ExtentValid()
    }

    /** A series object over an empty root group. */
    constructor (root: seq<string>, config: TableConfig)
      ensures this.root == root && this.config == config
      ensures partitions == map[] && groups == {} && maxTs == None
      ensures Valid()
    {
      this.root := root;
      this.config := config;
      partitions := map[];
      groups := {};
      maxTs := None;
    }

    /** `__fetch_partition_group`: walk `y`, `m`, `d` below the root; the
        partition exists exactly when all three groups do. */
    method FetchPartitionGroup(day: int) returns (found: bool)
      requires StoreValid() && InDatetimeRange(day)
      ensures found <==> day in partitions
    {
      var p := PartitionPath(day);
      found := p[..1] in groups && p[..2] in groups && p in groups;
      DayGroup(partitions.Keys, day);
    }

    /** The group half of `__create_partition`: create each of the `y`,
        `y/m` and `y/m/d` groups of day `day` that is missing, leaving the
        others as they are. */
    method CreateGroups(day: int)
      requires InDatetimeRange(day)
      modifies this
      ensures groups == old(groups) + PathGroups(day)
      ensures partitions == old(partitions) && maxTs == old(maxTs)
    {
      var p := PartitionPath(day);
      if p[..1] !in groups {
        groups := groups + {p[..1]};
      }
      if p[..2] !in groups {
        groups := groups + {p[..2]};
      }
      if p !in groups {
        groups := groups + {p};
      }
    }

    /** `__create_partition`: create the missing groups of the day's path,
        then an empty `ts_data` table in the day group. */
    method CreatePartition(day: int)
      requires StoreValid() && InDatetimeRange(day) && day !in partitions
      modifies this
      ensures partitions == old(partitions)[day := []]
      ensures maxTs == old(maxTs)
      ensures StoreValid()
      ensures old(ExtentValid()) ==> ExtentValid()
    {
      CreateGroups(day);
      GroupsOfInsert(partitions.Keys, day);
      AddEmptyPartition(partitions, day);
      partitions := partitions[day := []];
      assert partitions.Keys == old(partitions).Keys + {day};
    }

    /** `__fetch_or_create_partition_table`: the day's table, created with
        its groups when the partition is missing. */
    method FetchOrCreatePartitionTable(day: int)
      requires StoreValid() && InDatetimeRange(day)
      modifies this
      ensures partitions == if day in old(partitions) then old(partitions) else old(partitions)[day := []]
      ensures maxTs == old(maxTs)
      ensures StoreValid()
    {
      var found := FetchPartitionGroup(day);
      if !found {
        CreatePartition(day);
      }
    }

    /** `__append_rows_to_partition`: append rows of one day, sorted and no
        earlier than the partition's rows, to that day's table; no other
        partition changes. */
    method AppendRowsToPartition(day: int, rows: seq<Row<V>>)
      requires StoreValid() && InDatetimeRange(day)
      requires Sorted(rows) && forall k :: 0 <= k < |rows| ==> DayOf(rows[k].timestamp) == day
      requires |rows| > 0 ==> forall k :: 0 <= k < |Rows(partitions, day)| ==>
                 Rows(partitions, day)[k].timestamp <= rows[0].timestamp
      modifies this
      ensures partitions == old(partitions)[day := Rows(old(partitions), day) + rows]
      ensures maxTs == old(maxTs)
      ensures StoreValid()
    {
      FetchOrCreatePartitionTable(day);
      var before := partitions[day];
      assert before == Rows(old(partitions), day);
      ExtendPartition(partitions, day, rows);
      partitions := partitions[day := before + rows];
    }

    /** `__fetch_rows_from_partition`: no rows when a group of the day's
        path is missing, else the rows of its table in [lo, hi]. */
    function FetchRows(day: int, lo: int, hi: int): (r: seq<Row<V>>)
      reads this
      requires StoreValid() && InDatetimeRange(day)
      ensures r == Filter(Rows(partitions, day), lo, hi)
    {
      var p := PartitionPath(day);
      DayGroup(partitions.Keys, day);
      if p[..1] in groups && p[..2] in groups && p in groups then
        Filter(partitions[day], lo, hi)
      else
        []
    }

    /** The per-entry fetches of a range map, concatenated in map order. */
    function FetchAll(plan: seq<Part>): (r: seq<Row<V>>)
      reads this
      requires StoreValid() && forall i :: 0 <= i < |plan| ==> InDatetimeRange(plan[i].day)
      ensures r == ReadParts(partitions, plan)
    {
      if plan == [] then []
      else FetchRows(plan[0].day, plan[0].lo, plan[0].hi) + FetchAll(plan[1..])
    }

    /** `read_range`: the stored rows from `start` to `end`, both included,
        in timestamp order: the rows of the days of `start` through `end`
        that lie in the range.  An inverted range reads nothing. */
    function ReadRange(start: Instant, end: Instant): (r: seq<Row<V>>)
      reads this
      requires StoreValid() && ValidInstant(start) && ValidInstant(end)
      ensures var s, e := DtToTs(start), DtToTs(end);
              r == Filter(Span(partitions, start.days, |Plan(s, e)|), s, e)
      ensures Sorted(r)
    {
      var s, e := DtToTs(start), DtToTs(end);
      var plan := Plan(s, e);
      DayOfDtToTs(start);
      DayOfDtToTs(end);
      ReadIsFilter(partitions, s, e);
      ReadSorted(partitions, s, e);
      FetchAll(plan)
    }

    /** `append`: refuse an empty batch, a batch out of timestamp order, a
        batch starting before the latest stored row and a batch whose ends
        lie outside the datetimes Python can represent, changing nothing;
        otherwise split the batch by UTC day over its own range and append
        each day's slice to that day's partition, creating missing ones,
        and record the batch's last timestamp as the series' latest. */
    method Append(batch: seq<Row<V>>) returns (r: Result<(), AppendError>)
      requires Valid()
      modifies this
      ensures Valid()
      ensures |batch| == 0 ==> r == Err(EmptyBatch)
      ensures |batch| > 0 && !Sorted(batch) ==> r == Err(UnsortedBatch)
      ensures |batch| > 0 && Sorted(batch) && old(maxTs).Some? && batch[0].timestamp < old(maxTs).value
              ==> r == Err(BeforeStoredRows)
      ensures r.Ok? <==>
              |batch| > 0 && Sorted(batch)
              && (old(maxTs).Some? ==> old(maxTs).value <= batch[0].timestamp)
              && InDatetimeRange(DayOf(batch[0].timestamp))
              && InDatetimeRange(DayOf(batch[|batch| - 1].timestamp))
      ensures r.Err? ==> partitions == old(partitions) && groups == old(groups) && maxTs == old(maxTs)
      ensures r.Ok? ==> partitions == AppendBatch(old(partitions), batch)
                        && maxTs == Some(batch[|batch| - 1].timestamp)
    {
      if |batch| == 0 {
        return Err(EmptyBatch);
      }
      var sorted := CheckSorted(batch);
      if !sorted {
        return Err(UnsortedBatch);
      }
      var minTs, maxTsOfBatch := batch[0].timestamp, batch[|batch| - 1].timestamp;
      if maxTs.Some? && minTs < maxTs.value {
        return Err(BeforeStoredRows);
      }
      var minDt, maxDt := TsToDt(minTs), TsToDt(maxTsOfBatch);
      if minDt.Err? || maxDt.Err? {
        return Err(OutsideDatetimeRange);
      }
      var plan := Plan(DtToTs(minDt.value), DtToTs(maxDt.value));
      assert plan == Plan(minTs, maxTsOfBatch);
      assert NoneAfter(partitions, minTs);
      WriteSlices(batch, plan);
      assert NoneAfter(partitions, maxTsOfBatch) && HasRowAt(partitions, maxTsOfBatch) by {
        AppendKeepsOrder(old(partitions), batch);
      }
      maxTs := Some(maxTsOfBatch);
      return Ok(());
    }

    /** The write loop of `append`: each entry of the range map sends its
        slice of the batch to its day's partition, in map order. */
    method WriteSlices(batch: seq<Row<V>>, plan: seq<Part>)
      requires StoreValid() && Sorted(batch) && |batch| > 0
      requires NoneAfter(partitions, batch[0].timestamp)
      requires InDatetimeRange(DayOf(batch[0].timestamp))
      requires InDatetimeRange(DayOf(batch[|batch| - 1].timestamp))
      requires plan == Plan(batch[0].timestamp, batch[|batch| - 1].timestamp)
      modifies this
      ensures StoreValid() && maxTs == old(maxTs)
      ensures partitions == AppendBatch(old(partitions), batch)
    {
      var slices := Slices(batch, plan);
      ghost var before := partitions;
      var i := 0;
      while i < |plan|
        invariant 0 <= i <= |plan|
        invariant StoreValid() && maxTs == old(maxTs)
        invariant partitions == AppendSlices(before, plan[..i], slices[..i])
      {
        var day, rows := plan[i].day, slices[i];
        assert && InDatetimeRange(day) && Sorted(rows)
               && (forall k :: 0 <= k < |rows| ==> DayOf(rows[k].timestamp) == day)
               && (|rows| > 0 ==> forall k :: 0 <= k < |Rows(partitions, day)| ==>
                     Rows(partitions, day)[k].timestamp <= rows[0].timestamp)
               && AppendSlices(before, plan[..i + 1], slices[..i + 1])
                  == partitions[day := Rows(partitions, day) + rows] by {
          SliceReady(before, batch, i);
        }
        AppendRowsToPartition(day, rows);
        i := i + 1;
      }
      assert plan[..i] == plan && slices[..i] == slices;
    }
  }

  /** Before entry `i` of `append`'s loop: the entry's day is a datetime
      Python can represent, its slice is sorted and of that day, that day's
      partition still holds only rows from before the batch, and appending
      the slice extends the loop's account of the store by one entry. */
  lemma SliceReady<V>(before: Parts<V>, batch: seq<Row<V>>, i: int)
    requires Sorted(batch) && |batch| > 0 && NoneAfter(before, batch[0].timestamp)
    requires InDatetimeRange(DayOf(batch[0].timestamp))
    requires InDatetimeRange(DayOf(batch[|batch| - 1].timestamp))
    requires 0 <= i < |Plan(batch[0].timestamp, batch[|batch| - 1].timestamp)|
    ensures var plan := Plan(batch[0].timestamp, batch[|batch| - 1].timestamp);
            var slices := Slices(batch, plan);
            var current := AppendSlices(before, plan[..i], slices[..i]);
            && InDatetimeRange(plan[i].day)
            && Sorted(slices[i])
            && (forall k :: 0 <= k < |slices[i]| ==> DayOf(slices[i][k].timestamp) == plan[i].day)
            && Rows(current, plan[i].day) == Rows(before, plan[i].day)
            && (|slices[i]| > 0 ==> forall k :: 0 <= k < |Rows(current, plan[i].day)| ==>
                  Rows(current, plan[i].day)[k].timestamp <= slices[i][0].timestamp)
            && AppendSlices(before, plan[..i + 1], slices[..i + 1])
               == current[plan[i].day := Rows(current, plan[i].day) + slices[i]]
  {
    var first, last := batch[0].timestamp, batch[|batch| - 1].timestamp;
    var plan := Plan(first, last);
    var slices := Slices(batch, plan);
    var p := plan[i];
    var current := AppendSlices(before, plan[..i], slices[..i]);
    SortedWithin(batch);
    SliceIsDay(batch, first, last, i);
    DaySliceRows(batch, p.day);
    assert Ascending(plan[..i]) by { PlanAscending(first, last); }
    AppendSlicesEffect(before, plan[..i], slices[..i], p.day);
    assert plan[..i + 1][..i] == plan[..i] && slices[..i + 1][..i] == slices[..i];
  }
}
