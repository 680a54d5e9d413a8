/** Partition naming: the three group names `y%Y`, `m%m`, `d%d` under which
    a day's `ts_data` table lives. */
module Partitions {
  import opened Calendar

  predicate IsDigit(c: char) {
    '0' as int <= c as int <= '9' as int
  }

  function DigitChar(n: nat): (c: char)
    requires n < 10
    ensures IsDigit(c) && c as int - '0' as int == n
  {
    ('0' as int + n) as char
  }

  /** Decimal digits of `n`, no leading zeros (`"0"` for zero). */
  function Digits(n: nat): (s: string)
    ensures 1 <= |s|
  {
    if n < 10 then [DigitChar(n)] else Digits(n / 10) + [DigitChar(n % 10)]
  }

  function Zeros(k: nat): (s: string)
    ensures |s| == k
  {
    if k == 0 then [] else Zeros(k - 1) + ['0']
  }

  /** `n` in decimal, zero-filled on the left to at least `width` characters,
      the names use width 4 for the year and width 2 for month and day. */
  function ZeroPadded(n: nat, width: nat): (s: string)
    ensures |s| >= width
  {
    var d := Digits(n);
    if |d| >= width then d else Zeros(width - |d|) + d
  }

  predicate AllDigits(s: string) {
    forall i :: 0 <= i < |s| ==> IsDigit(s[i])
  }

  lemma {:induction false} DigitsAreDigits(n: nat)
    ensures AllDigits(Digits(n))
  {
    if n >= 10 {
      DigitsAreDigits(n / 10);
    }
  }

  lemma {:induction false} ZerosAreDigits(k: nat)
    ensures AllDigits(Zeros(k))
  {
    if k > 0 {
      ZerosAreDigits(k - 1);
    }
  }

  /** A zero-filled field is all decimal digits. */
  lemma PaddedAreDigits(n: nat, width: nat)
    ensures AllDigits(ZeroPadded(n, width))
  {
    var d := Digits(n);
    DigitsAreDigits(n);
    if |d| < width {
      ZerosAreDigits(width - |d|);
      var z := Zeros(width - |d|);
      forall i | 0 <= i < |z + d| ensures IsDigit((z + d)[i]) {
        if i >= |z| { assert (z + d)[i] == d[i - |z|]; }
      }
    }
  }

  /** The number a string of decimal digits denotes, reading each
      character as its distance from `'0'`. */
  function Value(s: string): int {
    if s == [] then 0
    else Value(s[..|s| - 1]) * 10 + (s[|s| - 1] as int - '0' as int)
  }

  lemma {:induction false} ValueOfDigits(n: nat)
    ensures Value(Digits(n)) == n
  {
    if n >= 10 {
      var s := Digits(n);
      assert s[..|s| - 1] == Digits(n / 10);
      ValueOfDigits(n / 10);
    }
  }

  lemma {:induction false} LeadingZeros(k: nat, s: string)
    ensures Value(Zeros(k) + s) == Value(s)
    decreases |s|, k
  {
    var z := Zeros(k);
    if s == [] {
      assert z + s == z;
      if k > 0 {
        assert z[..k - 1] == Zeros(k - 1);
        LeadingZeros(k - 1, []);
        assert Zeros(k - 1) + [] == Zeros(k - 1);
      }
    } else {
      var t := z + s;
      assert t[..|t| - 1] == z + s[..|s| - 1];
      LeadingZeros(k, s[..|s| - 1]);
    }
  }

  /** Zero-filling loses nothing: reading the digits back gives `n`. */
  lemma PaddedRoundTrip(n: nat, width: nat)
    ensures Value(ZeroPadded(n, width)) == n
  {
    var d := Digits(n);
    ValueOfDigits(n);
    if |d| < width {
      LeadingZeros(width - |d|, d);
    }
  }

  /** `__partition_date_to_path_array`: the group names of the partition
      of UTC day `day` (days since 1970-01-01). */
  function PartitionPath(day: int): (p: seq<string>)
    requires InDatetimeRange(day)
    ensures |p| == 3 && |p[0]| == 5 && |p[1]| == 3 && |p[2]| == 3
    ensures p[0][0] == 'y' && p[1][0] == 'm' && p[2][0] == 'd'
  {
    var date := DateOfDay(day);
    DateOfDayInverts(day);
    YearPositive(day);
    assert date.year < 10000 by { YearBelow10000(day); }
    assert |Digits(date.year)| <= 4 by { DigitsLength(date.year, 4); }
    assert |Digits(date.month)| <= 2 by { DigitsLength(date.month, 2); }
    assert |Digits(date.day)| <= 2 by { DigitsLength(date.day, 2); }
    ["y" + ZeroPadded(date.year, 4), "m" + ZeroPadded(date.month, 2), "d" + ZeroPadded(date.day, 2)]
  }

  /** The partition names encode the day's date: after its letter, each
      name is decimal digits that read back as the year, the month and the
      day of the month. */
  lemma PathNamesDate(day: int)
    requires InDatetimeRange(day)
    ensures var p, date := PartitionPath(day), DateOfDay(day);
            && AllDigits(p[0][1..]) && Value(p[0][1..]) == date.year
            && AllDigits(p[1][1..]) && Value(p[1][1..]) == date.month
            && AllDigits(p[2][1..]) && Value(p[2][1..]) == date.day
  {
    var p, date := PartitionPath(day), DateOfDay(day);
    YearPositive(day);
    DateOfDayInverts(day);
    assert p[0][1..] == ZeroPadded(date.year, 4);
    assert p[1][1..] == ZeroPadded(date.month, 2);
    assert p[2][1..] == ZeroPadded(date.day, 2);
    PaddedRoundTrip(date.year, 4);
    PaddedRoundTrip(date.month, 2);
    PaddedRoundTrip(date.day, 2);
    PaddedAreDigits(date.year, 4);
    PaddedAreDigits(date.month, 2);
    PaddedAreDigits(date.day, 2);
  }

  function Pow10(k: nat): nat {
    if k == 0 then 1 else 10 * Pow10(k - 1)
  }

  lemma {:induction false} DigitsLength(n: nat, k: nat)
    requires n < Pow10(k) && k >= 1
    ensures |Digits(n)| <= k
  {
    if n >= 10 {
      DigitsLength(n / 10, k - 1);
    }
  }

  /** Python's datetime stops at 9999-12-31. */
  lemma YearBelow10000(day: int)
    requires InDatetimeRange(day)
    ensures DateOfDay(day).year < 10000
  {
    var date := DateOfDay(day);
    DateOfDayInverts(day);
    if date.year >= 10000 {
      DaysBeforeYearMonotone(10000, date.year);
      assert false;
    }
  }

  lemma DaysBeforeYearMonotone(y1: int, y2: int)
    requires y1 <= y2
    ensures DaysBeforeYear(y1) <= DaysBeforeYear(y2)
  {
  }

  /** Distinct days have distinct partition paths. */
  lemma PathInjective(d1: int, d2: int)
    requires InDatetimeRange(d1) && InDatetimeRange(d2)
    requires PartitionPath(d1) == PartitionPath(d2)
    ensures d1 == d2
  {
    PathNamesDate(d1);
    PathNamesDate(d2);
    assert DateOfDay(d1) == DateOfDay(d2);
    DateOfDayInverts(d1);
    DateOfDayInverts(d2);
  }

  /** The partition of 2014-05-05 is `y2014/m05/d05`. */
  lemma PathExample()
    ensures PartitionPath(16195) == ["y2014", "m05", "d05"]
  {
    ExampleDate();
    ExampleFields();
    var p := PartitionPath(16195);
    assert p[0] == "y2014";
    assert p[1] == "m05";
    assert p[2] == "d05";
  }

  /** Day 16195 after the epoch is 2014-05-05. */
  lemma ExampleDate()
    ensures DateOfDay(16195) == Date(2014, 5, 5)
  {
    MonthOfBounds(2014, 124, 12);
  }

  lemma ExampleFields()
    ensures ZeroPadded(2014, 4) == "2014" && ZeroPadded(5, 2) == "05"
  {
    assert Digits(2014) == "2014" by {
      assert Digits(2) == "2";
      assert Digits(20) == "20";
      assert Digits(201) == "201";
    }
    assert Digits(5) == "5";
    assert Zeros(1) == "0";
  }
}
