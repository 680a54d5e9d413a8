# TsTables time-series engine, modelled in Dafny

TsTables stores one time series in a PyTables (HDF5) file as one `ts_data`
table per UTC day. Each table sits under the groups `y%Y/m%m/d%d` of the
series' root group. Rows carry an int64 timestamp in milliseconds since
1970-01-01T00:00:00Z as their first column. Batches are append-only: a batch
must be sorted and must start no earlier than the latest stored row. It is
split at UTC midnights and each day's slice is appended to that day's table,
creating the table and any missing groups first. A range read fetches each
day's table, masked to the part of the range that falls on that day, and
concatenates the results in day order.

The model has eight files:

- `calendar.dfy` (`Calendar`): the proleptic Gregorian calendar as
  Python's `date` counts it (ordinals, the 400/100/4/1-year decomposition of
  `fromordinal`, years 1 to 9999).
- `codec.dfy` (`Results`, `Codec`): a datetime as Python's normalised
  timedelta from the epoch (`days`, `seconds`, `micros`), the millisecond codec
  `__dt_to_ts`/`__ts_to_dt`, and the day of a timestamp (`ts / 86400000`,
  floor division).
- `partition.dfy` (`Partitions`): the `y%Y`, `m%m`, `d%d` names of a day's
  partition, with the year filled to four digits and month and day to two.
- `planner.dfy` (`Planner`): `__dtrange_to_partition_ranges`, the map from
  a range to one clipped sub-range per UTC calendar date.
- `batch.dfy` (`Batches`): rows, the sort check, the timestamp mask and the
  split of a batch by the range map.
- `store.dfy` (`Store`): the stored rows as a map from UTC day to that day's
  rows, and what appends and range reads do to and with it.
- `tstable.dfy` (`TsTables`): the table settings and `DefaultConfig`, the
  defaults `__init__` gives them (an expected 10000 rows per partition); the
  `TsTable` class: its table settings, its
  group set and day map, and the methods that fetch, create and append to
  partitions, `append` and `read_range`.
- `file.dfy` (`TsFile`): the groups and attributes of the PyTables file that
  `create_ts` touches, and `create_ts` itself.

All ranges are closed ranges of integer milliseconds `[lo, hi]`. A range-map
entry that stops before the end of the request ends at its day's last
millisecond, the next midnight minus 1 ms. This is the convention of
`src/tstables/tests/test_tstable_static.py:45-47`. It also makes the
smallest-range reads of `src/tstables/tests/test_tstable_file.py` return all
the stored rows: the read at :92-93 of a single instant, and the read at
:135-136 from the batch's first timestamp to its last, across midnight, which
keeps the row at exactly its end. The code's own exclusive ends are modelled
as written too: the next-midnight ends of the range map (tstable.py:26, 41-42)
in `Planner.PlanAsWritten`, and the half-open fetch query (tstable.py:74-75) in
`Batches.FilterHalfOpen`, which is recorded under Findings.

The largest stored timestamp, which `append` reads as `self.max_ts` but
nothing defines, is the field `maxTs`. `TsTable.Valid()` ties it to the
stored rows: `None` when no row is stored, otherwise no stored row is later
and some stored row has exactly that timestamp.

`append` follows the code: every day of the batch's range map receives its
slice, possibly an empty one. So a day between two rows of the batch gets a
partition even when it gets no rows.

## Model

| member | source | states |
|---|---|---|
| Calendar.FromOrdinal | src/tstables/tstable.py:29-30 | the date of a proleptic Gregorian ordinal, by the 400/100/4/1-year split of Python's `date.fromordinal`; its month is 1 to 12 and its day at least 1 (exactness in `FromOrdinalInverts`) |
| Calendar.DateOfDay | src/tstables/tstable.py:29-33 | `.date()` of a UTC datetime on day `d` after the epoch: the date of ordinal `d + 719163` (exactness in `DateOfDayInverts`) |
| Calendar.FromOrdinalInverts | src/tstables/tstable.py:29-30 | the date of an ordinal is a real calendar date (month 1 to 12, day within the month) whose ordinal is that number, so `date()` loses nothing |
| Calendar.DateOfDayInverts | src/tstables/tstable.py:30 | the UTC date of day `d` is a real calendar date exactly `d` days after 1970-01-01 |
| Calendar.YearPositive | src/tstables/tstable.py:133 | every day a Python datetime can represent falls in year 1 or later |
| Codec.FromMicros | src/tstables/tstable.py:60-61 | `timedelta(microseconds=us)` is in Python's normal form (0 <= seconds < 86400, 0 <= micros < 10^6) and is exactly `us` microseconds long |
| Codec.NormalisedUnique | src/tstables/tstable.py:60-61 | two normalised timedeltas of the same length are equal |
| Codec.DtToTs | src/tstables/tstable.py:48-53 | the timestamp of a datetime is the floor of its distance from the epoch in milliseconds; sub-millisecond parts are dropped |
| Codec.TsToDt | src/tstables/tstable.py:55-62 | succeeds exactly when the timestamp's day is a date of years 1 to 9999; the datetime it gives is normalised, in range, millisecond-aligned, and `DtToTs` turns it back into the same timestamp |
| Codec.TsToDtFields | src/tstables/tstable.py:58-61 | splitting off `ts % 1000` (0 to 999) and adding seconds then milliseconds gives day `ts / 86400000` and `(ts % 1000) * 1000` microseconds, and `DtToTs` inverts it |
| Codec.DtRoundTrip | src/tstables/tstable.py:48-62 | a representable, millisecond-aligned datetime survives `DtToTs` then `TsToDt` unchanged |
| Codec.DayOf | src/tstables/tstable.py:29-33 | the partition key of a timestamp: its UTC day, `ts / 86400000` rounded down (meaning in `DayOfBounds` and `DayOfDtToTs`) |
| Codec.DayOfDtToTs | src/tstables/tstable.py:30 | the partition day of a datetime's timestamp is the datetime's UTC date |
| Codec.DayOfBounds | src/tstables/tstable.py:36-42 | a timestamp lies on day `d` exactly when it lies between `d`'s midnight and the next midnight minus 1 ms |
| Codec.FieldsExamples | src/tstables/tests/test_tstable_static.py:88-105 | 1970-01-01, 1971-01-01 and 2014-05-05T01:01:01.100 as timedeltas from the epoch (0, 365 and 16195 days) |
| Codec.CodecExamples | src/tstables/tests/test_tstable_static.py:88-124 | the epoch is 0, 1971-01-01 is 31536000000 and 2014-05-05T01:01:01.100Z is 1399251661100, in both directions |
| Codec.DtToTsAsWritten | src/tstables/tstable.py:48-53 | `__dt_to_ts` as written: whole seconds truncated toward zero, times 1000, plus the millisecond part of the microsecond field |
| Codec.DtToTsAsWrittenBeforeEpoch | src/tstables/tstable.py:50-52 | half a second before the epoch, the code as written yields 500 where the floor is -500 |
| Codec.DtToTsAsWrittenFromEpoch | src/tstables/tstable.py:49-52 | from the epoch on, truncating `total_seconds()` agrees with the floor |
| Codec.TsToDtAsWritten | src/tstables/tstable.py:55-62 | `__ts_to_dt` as written: `ts - ts % 1000` passed as seconds, then `ts % 1000` milliseconds added; fails outside years 1 to 9999 |
| Codec.TsToDtAsWrittenScalesByThousand | src/tstables/tstable.py:58-60 | the code as written maps 31536000000 (1971-01-01) to day 365000 instead of day 365 |
| Partitions.PaddedAreDigits | src/tstables/tstable.py:133 | a zero-filled field is all decimal digits |
| Partitions.PaddedRoundTrip | src/tstables/tstable.py:133 | reading a zero-filled field back as a decimal number gives the number |
| Partitions.YearBelow10000 | src/tstables/tstable.py:133 | every representable day has a year of at most four digits |
| Partitions.PartitionPath | src/tstables/tstable.py:129-133 | a day's path is three names `yYYYY`, `mMM`, `dDD` of lengths 5, 3 and 3 (their contents: `PathNamesDate`) |
| Partitions.PathNamesDate | src/tstables/tstable.py:129-133 | after its letter, each name is decimal digits that read back as the year, the month and the day of the day's UTC date |
| Partitions.PathInjective | src/tstables/tstable.py:129-133 | distinct days have distinct paths, so each day has a group of its own |
| Partitions.PathExample | src/tstables/tests/test_tstable_static.py:126-131 | the path of 2014-05-05 is `['y2014', 'm05', 'd05']` |
| Planner.Plan | src/tstables/tstable.py:21-46 | one entry per UTC date from the date of `s` to the date of `e`, in ascending consecutive day order (none when `s > e`); the first starts at `s`, the last ends at `e`, interior boundaries fall at midnight and midnight minus 1 ms, every entry lies inside both the request and its own day, and each entry starts 1 ms after its predecessor ends |
| Planner.EntriesWithinDays | src/tstables/tstable.py:32-44 | each clipped entry lies inside the request and inside its own day |
| Planner.PlanCovers | src/tstables/tstable.py:29-44 | a millisecond belongs to an entry exactly when it lies in the request and on that entry's day: the entries partition the request by UTC date |
| Planner.PlanFindsDay | src/tstables/tstable.py:29-30 | every millisecond of the request belongs to the entry of its own date |
| Planner.PlanOneDay | src/tstables/tstable.py:33-39 | a request within one day maps to the single entry `(day, s, e)` |
| Planner.PlanExamples | src/tstables/tests/test_tstable_static.py:10-86 | the maps the tests expect for the same instant, the same day, two days, three days and the two milliseconds around 2014-04-01T00:00Z |
| Planner.DayCountAsWritten | src/tstables/tstable.py:27-28 | the number of keys as written: the whole days of `end - start`, plus one when a part of a day is left over |
| Planner.PlanAsWritten | src/tstables/tstable.py:21-46 | the range map as written: that many consecutive dates from `start.date()`, clipped to `start` and `end` on their own dates, other entries running from midnight to the next midnight |
| Planner.PlanAsWrittenMissesDates | src/tstables/tstable.py:27-30 | the duration-based day count as written gives no entry for a single instant and one entry for a range that spans two dates |
| Batches.CheckSorted | src/tstables/tstable.py:97-102 | the sort check passes exactly when the timestamps never decrease |
| Batches.PassesSortCheckAsWritten | src/tstables/tstable.py:97-102 | the sort check as written: every timestamp compared with the int64 minimum, which is never updated |
| Batches.SortCheckAsWrittenAcceptsUnsorted | src/tstables/tstable.py:99-102 | with `prev_ts` never updated, the batch of timestamps [2, 1] passes the check although it is not sorted |
| Batches.Filter | src/tstables/tstable.py:74-75 | the closed-range mask `lo <= timestamp <= hi`, keeping the rows' order; never longer than its input (which rows it keeps: `FilterMembers`) |
| Batches.FilterMembers | src/tstables/tstable.py:74-75 | the mask keeps exactly the rows whose timestamp lies in the range, and only rows of the input |
| Batches.FilterConcat | src/tstables/tstable.py:74-75 | masking a concatenation masks each part |
| Batches.FilterSorted | src/tstables/tstable.py:123-126 | the rows a mask selects from sorted rows are sorted |
| Batches.FilterHalfOpen | src/tstables/tstable.py:74-75 | the fetch query as written, `lo <= timestamp < hi`, keeping the rows' order |
| Batches.PointReadAsWritten | src/tstables/tstable.py:74-75 | the half-open query as written finds nothing when reading the single instant of a stored row; the closed range finds the row |
| Batches.Slices | src/tstables/tstable.py:119-126 | the split of a batch by a range map: one slice per entry, the batch masked to that entry's range (what a slice holds: `SliceIsDay`) |
| Batches.SliceIsDay | src/tstables/tstable.py:119-124 | when the map is planned over a range that holds the batch, each entry's slice is exactly the batch's rows of that entry's day |
| Batches.PlanChained | src/tstables/tstable.py:32-44 | the entries are contiguous and do not overlap: each starts 1 ms after the previous one ends |
| Batches.ReassembleChained | src/tstables/tstable.py:119-126 | the slices of a chained map whose span holds a sorted batch, concatenated in map order, give the batch back |
| Batches.Reassemble | src/tstables/tstable.py:113-126 | splitting a sorted batch by the map of its own first and last timestamps loses, repeats and reorders no row |
| Batches.MaskAsWritten | src/tstables/tstable.py:123 | the mask as written, `(ts >= start) < end`: a boolean, as 0 or 1, compared with `end` |
| Batches.CrossingBatchSplit | src/tstables/tests/test_tstable_file.py:99-125 | the boundary batch splits into 3 rows on 2014-05-04 and 2 on 2014-05-05; the range map as written has one entry, for 2014-05-04 up to the next midnight, and the mask as written keeps all 5 rows for it |
| Batches.SameInstantBatch | src/tstables/tests/test_tstable_file.py:62-82 | rows that all share one timestamp map to one entry whose slice holds them all, in order |
| Store.AppendSlices | src/tstables/tstable.py:119-126 | the write loop as a value: each entry's slice appended, in map order, to the partition of its day, created empty first when missing (effect in `AppendSlicesEffect`) |
| Store.AppendBatch | src/tstables/tstable.py:104-126 | `append`'s writes: the batch split by the map of its first and last timestamps, and the slices written in map order (effect in `AppendBatchEffect`) |
| Store.AppendSlicesEffect | src/tstables/tstable.py:119-126 | writing the slices of a map with ascending days appends each slice after its day's old rows and leaves every other partition as it was; the partitions afterwards are the old ones and those of the map's days |
| Store.AppendBatchEffect | src/tstables/tstable.py:113-126 | after appending a sorted batch, each day's partition holds its old rows followed by the batch's rows of that day; the partitions of all days from the first row's to the last row's exist, and no others are added |
| Store.ReadParts | src/tstables/tstable.py:65-79 | a range read: each entry's partition masked to the entry's range, concatenated in map order; a missing partition gives nothing (meaning in `ReadIsFilter`) |
| Store.ReadIsFilter | src/tstables/tstable.py:65-79 | a range read returns the stored rows of the days of `s` to `e`, day by day, that lie in `[s, e]`: the per-day masks lose nothing and add nothing |
| Store.SpanSorted | src/tstables/tstable.py:65-79 | on a store whose rows sit in their own day's partition in timestamp order, consecutive days read in order give sorted rows of those days |
| Store.ReadSorted | src/tstables/tstable.py:77-79 | a range read of such a store is in timestamp order |
| Store.AddEmptyPartition | src/tstables/tstable.py:181-182 | a new, empty `ts_data` table changes neither where rows sit, nor their order, nor the latest stored timestamp |
| Store.ExtendPartition | src/tstables/tstable.py:135-143 | appending rows of one day, sorted and no earlier than that day's stored rows, keeps every partition sorted and well placed, and adds or removes no partition |
| Store.LastRowStored | src/tstables/tstable.py:106 | after an append, the batch's last timestamp is stored |
| Store.AppendKeepsOrder | src/tstables/tstable.py:104-126 | a batch starting no earlier than every stored row keeps rows in their own day and every partition sorted; afterwards the batch's last timestamp is stored and no row is later |
| Store.DaySpanIsBatch | src/tstables/tstable.py:113-126 | the batch's day slices over any run of days that holds the batch, concatenated, give the batch back |
| Store.ReadAfterAppend | src/tstables/tstable.py:77-126 | reading a range that holds a freshly appended batch returns the old rows in the range followed by the whole batch, in order |
| Store.ReadBackFromEmpty | src/tstables/tests/test_tstable_file.py:84-97 | a series with no rows reads back exactly the batch appended to it, over any range that holds the batch |
| TsTables.PathGroups | src/tstables/tstable.py:159-178 | the groups of a day's partition include its full `y/m/d` path |
| TsTables.GroupsOfInsert | src/tstables/tstable.py:159-178 | a new partition adds the groups of its own path and no others |
| TsTables.DayGroup | src/tstables/tstable.py:145-153 | a day's full path is a group exactly when its partition exists, and then its `y` and `y/m` groups exist too |
| TsTables.TsTable.constructor | src/tstables/tstable.py:9-18 | a series object bound to its root with the given table settings; bound to the fresh group `create_ts` makes, it holds no partition and no rows |
| TsTables.TsTable.FetchPartitionGroup | src/tstables/tstable.py:145-153 | the `y`, `m` and `d` groups are all found exactly when the day's partition exists |
| TsTables.TsTable.CreateGroups | src/tstables/tstable.py:159-178 | the groups afterwards are the old ones plus the day's `y`, `y/m` and `y/m/d` groups; partitions and the latest timestamp are unchanged |
| TsTables.TsTable.CreatePartition | src/tstables/tstable.py:155-184 | adds an empty table for the day and the groups of its path, keeps the store's shape and leaves the latest timestamp valid |
| TsTables.TsTable.FetchOrCreatePartitionTable | src/tstables/tstable.py:186-191 | the day's partition is created empty only when it is missing; otherwise nothing changes |
| TsTables.TsTable.AppendRowsToPartition | src/tstables/tstable.py:135-143 | the day's partition gains the rows after its old ones (it is created first when missing), no other partition changes, and the store keeps its shape |
| TsTables.TsTable.FetchRows | src/tstables/tstable.py:65-75 | a missing partition yields no rows; an existing one yields its rows in the range, in stored order |
| TsTables.TsTable.FetchAll | src/tstables/tstable.py:65-79 | the per-entry fetches of a map, concatenated in map order |
| TsTables.TsTable.ReadRange | src/tstables/tstable.py:77-79 | the stored rows of the days of `start` to `end` that lie in `[start, end]`, in timestamp order |
| TsTables.TsTable.Append | src/tstables/tstable.py:81-126 | refuses an empty batch, an unsorted batch, a batch starting before the latest stored row, and a batch whose ends are outside years 1 to 9999, changing nothing; otherwise succeeds, and the store becomes `AppendBatch` of the old store, the latest timestamp becomes the batch's last, and the series stays valid |
| TsTables.TsTable.WriteSlices | src/tstables/tstable.py:113-126 | the write loop leaves the store equal to `AppendBatch` of the old store, keeping its shape |
| TsTables.SliceReady | src/tstables/tstable.py:119-126 | before each entry of the write loop: the entry's day is representable, its slice is sorted and of that day, the day's partition still holds only older rows, and the write extends the loop's account by one entry |
| TsFile.Prefixes | src/tstables/file.py:10 | the groups from the root to a path are exactly its prefixes |
| TsFile.AncestorsPresent | src/tstables/file.py:10 | in a file whose groups form a tree, every ancestor of a group is a group |
| TsFile.AddPrefixes | src/tstables/file.py:10 | adding a path together with its ancestors keeps the groups a tree |
| TsFile.PtFile.CreateGroup | src/tstables/file.py:10 | fails when the node exists, or when the parent is missing and parents are not to be created, and then changes nothing; otherwise creates the group and its missing ancestors |
| TsFile.PtFile.SetAttr | src/tstables/file.py:13-14 | sets one attribute of one node and touches nothing else |
| TsFile.PtFile.MarkSeries | src/tstables/file.py:12-14 | the root gets `_TS_TABLES_CLASS = 'TIMESERIES'` and `_TS_TABLES_VERSION = '0.0.1'` |
| TsFile.CreateTs | src/tstables/file.py:5-23 | the group errors of `create_group` change nothing; on success the new group is marked as a series root, and a fresh series is returned, bound to it with the given settings, holding exactly one empty partition, that of today's date |
| TsFile.NewSeries | src/tstables/file.py:16-21 | a fresh series with the given root and settings, whose only partition is the empty one of `today` and which holds no rows |
| TsFile.NewSeriesShape | src/tstables/file.py:19-21 | the new series' groups are exactly the `y`, `y/m` and `y/m/d` groups of today's path, and it stores no rows |

## Left out

- The HDF5 storage through PyTables is abstracted (tstable.py:74, 151, 166-182): `_f_get_child`, `create_group`, `create_table` and the `read_where` query string. A series is a set of group paths relative to its root plus a map from UTC day to that day's rows. A missing `ts_data` table under an existing day group cannot arise this way, so the model has no such state.
- Converting the rows through `tables.flavor_of`, `array_as_internal` and `numpy.rec.array` is left out (tstable.py:84-91). A batch is a sequence of rows, each an int64 timestamp plus the rest of its columns.
- The first-column type check is left out (tstable.py:93-95). Timestamps are int64 by their type. As written, the check compares a type object with the string `'numpy.int64'`; that never holds, so every `append` raises there.
- Floating-point `total_seconds()`, `pytz` and time-zone localisation are replaced by exact integer microseconds in UTC. The truncation of `total_seconds()` is modelled; its rounding is not.
- `datetime.utcnow()` (file.py:21) becomes the parameter `today` of `CreateTs`.
- The missing `self` parameters are not modelled. Neither are the undefined `self.__offset` (tstable.py:60), read as the epoch, and `self.max_ts` (tstable.py:109), modelled as the field `maxTs`.
- `read_range` is unfinished in the code (tstable.py:77-79): it builds the range map and returns nothing. `ReadRange` models what the tests expect: the per-day fetches concatenated in day order.
- An empty batch makes the code fail indexing `wbufRA[0,0]`. It is modelled as the error `EmptyBatch`, not as an append that does nothing.
- For an inverted range (start after end), the code's day count is not positive, so it builds an empty map. The model gives an empty map and reads nothing; it does not refuse the range with an error.
- TsTables.TsTable.FetchRows: the code reads the table as `d_group.tsdata` (tstable.py:74), but creates and fetches it under the name `ts_data` (tstable.py:181, 189). As written, fetching from an existing partition would fail on the attribute name. The model reads the day's `ts_data` rows.
- TsTables.TsTable.CreateGroups: `NoSuchNodeError` (tstable.py:165, 171, 177) is never imported (tstable.py:1-4). As written, a missing `y`, `m` or `d` group raises `NameError` instead of being created. The model creates it. The model also does not distinguish the `KeyError` that `__fetch_partition_group` catches (tstable.py:152) from the `NoSuchNodeError` that `__create_partition` expects from the same `_f_get_child` calls: both mean the group is missing.
- TsTables.TsTable.Append: the mask and the slice (tstable.py:123, 126) index `rows`, the unconverted input, rather than the converted `wbufRA`. The model has one batch, so both are the same sequence of rows.
- Partitions.PartitionPath: years are filled to four digits (`y0999`). Python's `strftime('%Y')` does not fill years below 1000 to four digits on every platform (glibc gives `y999`). Such years are modelled with the four-digit name only.
- Comparing with `self.max_ts` while nothing is stored is modelled as no constraint.
- `TsFile.CreateTs`: the partition groups `y/m/d` of today's date are recorded in the returned series' own group set, relative to its root, not in the file's group set. The table settings are carried by name, because the record description and the filters are PyTables objects.
- PyTables node-name validation is not modelled. Neither are the `title` and `filters` arguments of `create_group`.
- The test at test_tstable_file.py:44 reads a `_TS_TABLES_EXPECTEDROWS_PER_PARTITION` attribute that the code never sets. It is not modelled.
- Int64 overflow is not modelled. Timestamps of years 1 to 9999 fit in int64, so the codec never wraps around.
- Concurrency and atomicity across partitions are not modelled: the code implements neither.
- src/tstables/group.py, src/tstables/__init__.py, src/tstables/table.py, benchmark.py, setup.py and release.py are not part of this model. They hold printing, monkey-patching of PyTables, an unused copy of `create_ts`, timing and packaging. Reopening a populated series (`get_timeseries`, group.py:73-79) is outside the model: the `TsTable` constructor models only the binding to the fresh group `create_ts` makes, which holds no partition and no rows.

## Findings

| source | as written | input that shows it | evidently intended | confidence | as-written member | corrected member |
|---|---|---|---|---|---|---|
| src/tstables/tstable.py:27-30 | the number of days is counted from the duration `end - start` (`Planner.PlanAsWritten`) | [2014-04-01T01:00Z, 2014-04-01T01:00Z] gets no entry; [2014-03-31T23:59:59.999Z, 2014-04-01T00:00:00.001Z] gets one entry for two dates | one entry per calendar date from `start.date()` to `end.date()` | high, not executed | Planner.PlanAsWrittenMissesDates | Planner.Plan |
| src/tstables/tstable.py:58-60 | `ts - ts % 1000`, still a count of milliseconds, is passed as `seconds` (`Codec.TsToDtAsWritten`) | 31536000000 (1971-01-01) becomes a datetime 365000 days after the epoch | `(ts - ts % 1000) / 1000` seconds | high, not executed | Codec.TsToDtAsWrittenScalesByThousand | Codec.TsToDt |
| src/tstables/tstable.py:99-102 | `prev_ts` is never updated, so no timestamp is below it (`Batches.PassesSortCheckAsWritten`) | the batch with timestamps [2, 1] passes the sort check | `prev_ts = ts` after each comparison | high, not executed | Batches.SortCheckAsWrittenAcceptsUnsorted | Batches.CheckSorted |
| src/tstables/tstable.py:123 | `(rows[:,0] >= start_ts) < end_ts` compares a boolean with `end_ts` (`Batches.MaskAsWritten`) | the boundary batch of 2014-05-04/05: the range map as written has one entry, and its mask keeps all 5 rows for 2014-05-04 | the rows with `start_ts <= ts <= end_ts` | high, not executed | Batches.CrossingBatchSplit | Batches.Reassemble |
| src/tstables/tstable.py:74-75 | the fetch query excludes the end of the range (`Batches.FilterHalfOpen`) | reading the single instant 2014-05-05T01:01:01.100Z where a row is stored finds nothing | a closed range, as the single-instant reads of test_tstable_file.py:92-93 expect | medium, not executed | Batches.PointReadAsWritten | TsTables.TsTable.FetchRows |
| src/tstables/tstable.py:50 | `int64(total_seconds())` truncates toward zero (`Codec.DtToTsAsWritten`) | 1969-12-31T23:59:59.500Z gives 500 | the floor, -500 | medium, not executed | Codec.DtToTsAsWrittenBeforeEpoch | Codec.DtToTs |
