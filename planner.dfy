/** `__dtrange_to_partition_ranges`: a closed millisecond range [s, e] cut
    at UTC midnights into one entry per calendar day, in ascending day
    order.  Ranges are closed at both ends: an entry that stops before the
    range does ends at its day's last millisecond, midnight minus 1 ms. */
module Planner {
  import opened Codec

  /** One entry of the partition range map: partition `day` owns the
      closed sub-range [lo, hi] of the request. */
  datatype Part = Part(day: int, lo: int, hi: int)

  /** The entry for day `d` of a request [s, e]: it starts at `s` on the
      first day and at midnight otherwise, and ends at `e` on the last day
      and one millisecond before the next midnight otherwise. */
  function Entry(s: int, e: int, d: int): Part {
    Part(d,
         if d == DayOf(s) then s else Midnight(d),
         if d == DayOf(e) then e else Midnight(d + 1) - 1)
  }

  /** The partition range map of [s, e], one entry per UTC calendar date from
      the date of `s` to the date of `e`; empty when `s > e`. */
  function Plan(s: int, e: int): (r: seq<Part>)
    ensures s > e ==> r == []
    ensures s <= e ==> |r| == DayOf(e) - DayOf(s) + 1 && r[0].lo == s && r[|r| - 1].hi == e
    ensures forall i :: 0 <= i < |r| ==> r[i].day == DayOf(s) + i
    ensures forall i :: 0 <= i < |r| ==>
              s <= r[i].lo <= r[i].hi <= e
              && Midnight(r[i].day) <= r[i].lo && r[i].hi <= Midnight(r[i].day + 1) - 1
    ensures forall i :: 0 < i < |r| ==> r[i].lo == Midnight(r[i].day)
    ensures forall i :: 0 <= i < |r| - 1 ==> r[i].hi == Midnight(r[i].day + 1) - 1
    ensures forall i :: 0 < i < |r| ==> r[i].lo == r[i - 1].hi + 1
  {
    if s > e then []
    else
      var n := DayOf(e) - DayOf(s) + 1;
      var r := seq(n, i requires 0 <= i < n => Entry(s, e, DayOf(s) + i));
      assert forall i :: 0 <= i < n ==> r[i] == Entry(s, e, DayOf(s) + i);
      EntriesWithinDays(s, e);
      r
  }

  /** Every entry of [s, e] lies inside both the request and its own day. */
  lemma EntriesWithinDays(s: int, e: int)
    requires s <= e
    ensures DayOf(s) <= DayOf(e)
    ensures forall d {:trigger Entry(s, e, d)} :: DayOf(s) <= d <= DayOf(e) ==>
              var p := Entry(s, e, d);
              s <= p.lo <= p.hi <= e && Midnight(d) <= p.lo && p.hi <= Midnight(d + 1) - 1
  {
    DayOfBounds(s, DayOf(s));
    DayOfBounds(e, DayOf(e));
  }

  /** Each entry owns exactly the milliseconds of the request that fall on
      its day: the entries partition [s, e] by UTC date. */
  lemma PlanCovers(s: int, e: int, i: int, t: int)
    requires 0 <= i < |Plan(s, e)|
    ensures var p := Plan(s, e)[i];
            p.lo <= t <= p.hi <==> s <= t <= e && DayOf(t) == p.day
  {
    var p := Plan(s, e)[i];
    DayOfBounds(t, p.day);
  }

  /** Every millisecond of the request is owned by the entry of its day. */
  lemma PlanFindsDay(s: int, e: int, t: int)
    requires s <= t <= e
    ensures var i := DayOf(t) - DayOf(s);
            0 <= i < |Plan(s, e)| && Plan(s, e)[i].lo <= t <= Plan(s, e)[i].hi
  {
    var i := DayOf(t) - DayOf(s);
    assert DayOf(s) <= DayOf(t) <= DayOf(e);
    PlanCovers(s, e, i, t);
  }

  /** A request within one day maps to itself. */
  lemma PlanOneDay(s: int, e: int)
    requires s <= e && DayOf(s) == DayOf(e)
    ensures Plan(s, e) == [Part(DayOf(s), s, e)]
  {
  }

  /** The day count as written: `delta.days`, plus one when the timedelta
      has a remainder. */
  function DayCountAsWritten(s: int, e: int): int {
    var delta := e - s;
    delta / MS_PER_DAY + (if delta % MS_PER_DAY > 0 then 1 else 0)
  }

  /** `__dtrange_to_partition_ranges` as written: keys are `start.date()`
      plus 0 .. DayCountAsWritten - 1 days, and a non-last entry ends at the
      next midnight, exclusive. */
  function PlanAsWritten(s: int, e: int): seq<Part> {
    var n := DayCountAsWritten(s, e);
    if n <= 0 then []
    else
      seq(n, i requires 0 <= i < n =>
        var d := DayOf(s) + i;
        Part(d, if d == DayOf(s) then s else Midnight(d), if d == DayOf(e) then e else Midnight(d + 1)))
  }

  /** The day count as written counts durations, not calendar dates: the
      range [2014-04-01T01:00Z, 2014-04-01T01:00Z] gets no entry, and
      [2014-03-31T23:59:59.999Z, 2014-04-01T00:00:00.001Z] gets one entry
      where its two dates need two. */
  lemma PlanAsWrittenMissesDates()
    ensures |PlanAsWritten(1396314000000, 1396314000000)| == 0
    ensures |Plan(1396314000000, 1396314000000)| == 1
    ensures |PlanAsWritten(1396310399999, 1396310400001)| == 1
    ensures |Plan(1396310399999, 1396310400001)| == 2
  {
  }

  /** The planner on the dates the tests use: 2014-04-01T01:00Z to the same
      instant, to 04:00Z the same day, to 2014-04-02T04:00Z, to
      2014-04-03T04:00Z, and the two milliseconds around 2014-04-01T00:00Z. */
  lemma PlanExamples()
    ensures Plan(1396314000000, 1396314000000) == [Part(16161, 1396314000000, 1396314000000)]
    ensures Plan(1396314000000, 1396324800000) == [Part(16161, 1396314000000, 1396324800000)]
    ensures Plan(1396314000000, 1396411200000)
            == [Part(16161, 1396314000000, 1396396799999), Part(16162, 1396396800000, 1396411200000)]
    ensures Plan(1396314000000, 1396497600000)
            == [Part(16161, 1396314000000, 1396396799999),
                Part(16162, 1396396800000, 1396483199999),
                Part(16163, 1396483200000, 1396497600000)]
    ensures Plan(1396310399999, 1396310400001)
            == [Part(16160, 1396310399999, 1396310399999), Part(16161, 1396310400000, 1396310400001)]
  {
  }
}
