/** Outcome of an operation that can fail with an error of type `E`, and
    an optional value. */
module Results {
  datatype Result<+T, +E> = Ok(value: T) | Err(error: E)

  datatype Option<+T> = None | Some(value: T)
}

/** The timestamp codec of `TsTable`: UTC datetimes to int64 milliseconds
    since 1970-01-01T00:00:00Z and back. */
module Codec {
  import opened Calendar
  import opened Results

  const MS_PER_DAY: int := 86400000
  const SECONDS_PER_DAY: int := 86400
  const MICROS_PER_SECOND: int := 1000000
  const MICROS_PER_DAY: int := 86400000000

  /** A UTC datetime, held as Python holds `dt - EPOCH`: a timedelta of
      `days`, `seconds` and `micros`. */
  datatype Instant = Instant(days: int, seconds: int, micros: int)

  /** Python's normal form of a timedelta. */
  predicate Normalised(t: Instant) {
    0 <= t.seconds < SECONDS_PER_DAY && 0 <= t.micros < MICROS_PER_SECOND
  }

  /** A datetime Python can represent (years 1 to 9999). */
  predicate ValidInstant(t: Instant) {
    Normalised(t) && InDatetimeRange(t.days)
  }

  /** The whole length of the timedelta, in microseconds. */
  function TotalMicros(t: Instant): int {
    (t.days * SECONDS_PER_DAY + t.seconds) * MICROS_PER_SECOND + t.micros
  }

  /** The normalised timedelta of `us` microseconds (the constructor
      `timedelta(microseconds=us)`; adding timedeltas adds their lengths). */
  function FromMicros(us: int): (t: Instant)
    ensures Normalised(t) && TotalMicros(t) == us
  {
    var days := us / MICROS_PER_DAY;
    var rest := us % MICROS_PER_DAY;
    var t := Instant(days, rest / MICROS_PER_SECOND, rest % MICROS_PER_SECOND);
    assert rest == (rest / MICROS_PER_SECOND) * MICROS_PER_SECOND + rest % MICROS_PER_SECOND;
    t
  }

  /** A datetime with no sub-millisecond part, the image of the codec. */
  predicate MillisecondAligned(t: Instant) {
    t.micros % 1000 == 0
  }

  /** `__dt_to_ts`: whole seconds scaled to milliseconds, plus the
      milliseconds of the microsecond field; sub-millisecond parts are
      dropped.  The result is the floor of the timedelta in milliseconds. */
  function DtToTs(t: Instant): (ts: int)
    requires Normalised(t)
    ensures ts * 1000 <= TotalMicros(t) < ts * 1000 + 1000
  {
    (t.days * SECONDS_PER_DAY + t.seconds) * 1000 + t.micros / 1000
  }

  /** `__dt_to_ts` as written: `int64(delta.total_seconds())` truncates
      towards zero, which is the floor only when the timedelta is not
      negative. */
  function DtToTsAsWritten(t: Instant): int
    requires Normalised(t)
  {
    var total := TotalMicros(t);
    var wholeSeconds :=
      if total >= 0 then total / MICROS_PER_SECOND else -((-total) / MICROS_PER_SECOND);
    wholeSeconds * 1000 + t.micros / 1000
  }

  /** For 1969-12-31T23:59:59.500Z, half a second before the epoch, the
      code as written yields +500 instead of -500. */
  lemma DtToTsAsWrittenBeforeEpoch()
    ensures DtToTsAsWritten(Instant(-1, 86399, 500000)) == 500
    ensures DtToTs(Instant(-1, 86399, 500000)) == -500
  {
  }

  /** From the epoch on, the code as written agrees with `DtToTs`. */
  lemma DtToTsAsWrittenFromEpoch(t: Instant)
    requires Normalised(t) && t.days >= 0
    ensures DtToTsAsWritten(t) == DtToTs(t)
  {
    var s := t.days * SECONDS_PER_DAY + t.seconds;
    assert TotalMicros(t) == s * MICROS_PER_SECOND + t.micros;
    assert TotalMicros(t) / MICROS_PER_SECOND == s;
  }

  datatype CodecError = OutOfRange

  /** `__ts_to_dt`: split off `ts % 1000` (in 0..999), add the whole seconds
      to the epoch, then the milliseconds; Python raises OverflowError when
      the datetime leaves the years 1 to 9999. */
  function TsToDt(ts: int): (r: Result<Instant, CodecError>)
    ensures r.Ok? <==> InDatetimeRange(ts / MS_PER_DAY)
    ensures r.Ok? ==> ValidInstant(r.value) && MillisecondAligned(r.value)
                      && DtToTs(r.value) == ts
  {
    var millis := ts % 1000;
    var seconds := (ts - millis) / 1000;
    var t := FromMicros(seconds * MICROS_PER_SECOND + millis * 1000);
    TsToDtFields(ts, t);
    if InDatetimeRange(t.days) then Ok(t) else Err(OutOfRange)
  }

  lemma TsToDtFields(ts: int, t: Instant)
    requires t == FromMicros((ts - ts % 1000) / 1000 * MICROS_PER_SECOND + ts % 1000 * 1000)
    ensures t.days == ts / MS_PER_DAY && t.micros == ts % 1000 * 1000
    ensures Normalised(t) && MillisecondAligned(t) && DtToTs(t) == ts
  {
    var q := ts / 1000;
    var ms := ts % 1000;
    assert (ts - ms) / 1000 == q;
    var us := q * MICROS_PER_SECOND + ms * 1000;
    assert us == ts * 1000;
    var d := ts / MS_PER_DAY;
    var r := ts % MS_PER_DAY;
    assert us / MICROS_PER_DAY == d && us % MICROS_PER_DAY == r * 1000 by {
      DivModUnique(us, d, r * 1000, MICROS_PER_DAY);
    }
    assert r * 1000 % MICROS_PER_SECOND == r % 1000 * 1000 by {
      DivModUnique(r * 1000, r / 1000, r % 1000 * 1000, MICROS_PER_SECOND);
    }
    assert r % 1000 == ms by {
      DivModUnique(r, q - d * SECONDS_PER_DAY, ms, 1000);
    }
    var back := DtToTs(t);
    assert back * 1000 <= ts * 1000 < back * 1000 + 1000;
  }

  /** Quotient and remainder are the only pair that rebuilds `x`. */
  lemma DivModUnique(x: int, a: int, b: int, m: int)
    requires m > 0 && 0 <= b < m && x == a * m + b
    ensures x / m == a && x % m == b
  {
    var a', b' := x / m, x % m;
    assert (a' - a) * m == b - b' by {
      assert x == a' * m + b';
      assert (a' - a) * m == a' * m - a * m;
    }
    if a' > a {
      MultipleAtLeast(a' - a, m);
      assert false;
    } else if a' < a {
      MultipleAtLeast(a - a', m);
      assert false;
    }
  }

  lemma MultipleAtLeast(k: int, m: int)
    requires k >= 1 && m > 0
    ensures k * m >= m
  {
    assert k * m == (k - 1) * m + m;
  }

  /** `__ts_to_dt` as written: `ts - ts % 1000` is still a count of
      milliseconds but is passed as seconds. */
  function TsToDtAsWritten(ts: int): Result<Instant, CodecError> {
    var millis := ts % 1000;
    var seconds := ts - millis;
    var t := FromMicros(seconds * MICROS_PER_SECOND + millis * 1000);
    if InDatetimeRange(t.days) then Ok(t) else Err(OutOfRange)
  }

  /** 31536000000 (1971-01-01T00:00:00Z) comes back as a date in the year
      2969 from the code as written. */
  lemma TsToDtAsWrittenScalesByThousand()
    ensures TsToDtAsWritten(31536000000) == Ok(Instant(365000, 0, 0))
    ensures TsToDt(31536000000) == Ok(Instant(365, 0, 0))
  {
  }

  /** The other half of the round trip: a representable, millisecond-aligned
      datetime survives `DtToTs` then `TsToDt`. */
  lemma {:induction false} DtRoundTrip(t: Instant)
    requires ValidInstant(t) && MillisecondAligned(t)
    ensures TsToDt(DtToTs(t)) == Ok(t)
  {
    var ts := DtToTs(t);
    assert TotalMicros(t) == ts * 1000;
    assert ts / MS_PER_DAY == t.days by {
      assert ts == t.days * MS_PER_DAY + (t.seconds * 1000 + t.micros / 1000);
    }
    var r := TsToDt(ts);
    assert r.Ok?;
    assert TotalMicros(r.value) == TotalMicros(t);
    NormalisedUnique(r.value, t);
  }

  /** A normalised timedelta is determined by its length. */
  lemma NormalisedUnique(t1: Instant, t2: Instant)
    requires Normalised(t1) && Normalised(t2) && TotalMicros(t1) == TotalMicros(t2)
    ensures t1 == t2
  {
    var s1 := t1.days * SECONDS_PER_DAY + t1.seconds;
    var s2 := t2.days * SECONDS_PER_DAY + t2.seconds;
    assert s1 == TotalMicros(t1) / MICROS_PER_SECOND;
    assert s2 == TotalMicros(t2) / MICROS_PER_SECOND;
    assert t1.days == s1 / SECONDS_PER_DAY;
    assert t2.days == s2 / SECONDS_PER_DAY;
  }

  /** The partition (UTC day index) of a timestamp. */
  function DayOf(ts: int): int {
    ts / MS_PER_DAY
  }

  /** The first millisecond of day `day`. */
  function Midnight(day: int): int {
    day * MS_PER_DAY
  }

  /** A datetime's calendar day is the day of its timestamp. */
  lemma DayOfDtToTs(t: Instant)
    requires Normalised(t)
    ensures DayOf(DtToTs(t)) == t.days
  {
    var ts := DtToTs(t);
    assert ts == t.days * MS_PER_DAY + (t.seconds * 1000 + t.micros / 1000);
  }

  /** Two timestamps share a partition exactly when they fall in the same
      UTC day, and a partition holds exactly the milliseconds
      `[Midnight(d), Midnight(d + 1) - 1]`. */
  lemma DayOfBounds(ts: int, day: int)
    ensures DayOf(ts) == day <==> Midnight(day) <= ts <= Midnight(day + 1) - 1
  {
  }

  /** A datetime given by its calendar fields, as `datetime(y, m, d, hh,
      mm, ss, us, tzinfo=utc)` builds it. */
  function FromFields(y: int, m: int, d: int, hh: int, mm: int, ss: int, us: int): Instant
    requires 1 <= m <= 12
  {
    Instant(Ordinal(Date(y, m, d)) - EPOCH_ORDINAL, hh * 3600 + mm * 60 + ss, us)
  }

  /** The three datetimes of the codec's examples, as timedeltas. */
  lemma FieldsExamples()
    ensures FromFields(1970, 1, 1, 0, 0, 0, 0) == Instant(0, 0, 0)
    ensures FromFields(1971, 1, 1, 0, 0, 0, 0) == Instant(365, 0, 0)
    ensures FromFields(2014, 5, 5, 1, 1, 1, 100000) == Instant(16195, 3661, 100000)
  {
    assert DaysBeforeYear(1970) == 719162;
    assert DaysBeforeYear(1971) == 719527;
    assert DaysBeforeYear(2014) == 735233;
  }

  /** The codec's fixed points, both ways: the epoch is 0, 1971-01-01 is
      31536000000 and 2014-05-05T01:01:01.100Z is 1399251661100 (see
      `FieldsExamples` for the datetimes). */
  lemma CodecExamples()
    ensures DtToTs(Instant(0, 0, 0)) == 0
    ensures DtToTs(Instant(365, 0, 0)) == 31536000000
    ensures DtToTs(Instant(16195, 3661, 100000)) == 1399251661100
    ensures TsToDt(0) == Ok(Instant(0, 0, 0))
    ensures TsToDt(31536000000) == Ok(Instant(365, 0, 0))
    ensures TsToDt(1399251661100) == Ok(Instant(16195, 3661, 100000))
  {
    DtRoundTrip(Instant(0, 0, 0));
    DtRoundTrip(Instant(365, 0, 0));
    DtRoundTrip(Instant(16195, 3661, 100000));
  }
}
