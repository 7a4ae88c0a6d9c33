/** The 7-byte wall-clock stamp of a record and its conversion to seconds since
    the Unix epoch, read as UTC with no local-time offset. */
module Clock {
  import opened Wrappers
  import opened Bytes
  import opened Arith

  datatype WallClock = WallClock(year: nat, month: nat, day: nat, hour: nat, minute: nat, second: nat)

  /** Little-endian year in two bytes, then month, day, hour, minute, second. */
  function ReadWallClock(b: seq<byte>): (c: WallClock)
    requires |b| >= 7
    ensures c.year < 65536 && c.month < 256 && c.day < 256
    ensures ToLittleEndian(c.year, 2) == b[0..2]
  {
    ToLittleEndianRoundTrip(b[0..2]);
    WallClock(LittleEndian(b[0..2]), b[2], b[3], b[4], b[5], b[6])
  }

  predicate IsLeapYear(y: int) {
    y % 4 == 0 && (y % 100 != 0 || y % 400 == 0)
  }

  function YearLength(y: int): nat {
    if IsLeapYear(y) then 366 else 365
  }

  function DaysInMonth(y: int, m: nat): (r: nat)
    requires 1 <= m <= 12
    ensures 28 <= r <= 31
  {
    if m == 2 then (if IsLeapYear(y) then 29 else 28)
    else if m == 4 || m == 6 || m == 9 || m == 11 then 30
    else 31
  }

  predicate IsDate(y: int, m: nat, d: nat) {
    1 <= y && 1 <= m <= 12 && 1 <= d <= DaysInMonth(y, m)
  }

  /** The stamps `time.strptime` accepts once they are printed zero-padded as
      "%Y-%m-%d %H:%M:%S": a four-digit year from 1, a real calendar date, and
      seconds up to 61. */
  predicate Accepted(c: WallClock) {
    && c.year <= 9999
    && IsDate(c.year, c.month, c.day)
    && c.hour <= 23 && c.minute <= 59 && c.second <= 61
  }

  /** Days in the years 1 .. y-1 of the proleptic Gregorian calendar. */
  function DaysBeforeYear(y: nat): nat
    requires y >= 1
  {
    var p := y - 1;
    365 * p + p / 4 - p / 100 + p / 400
  }

  /** Days in the months 1 .. m-1 of year y. */
  function DaysBeforeMonth(y: int, m: nat): nat
    requires 1 <= m <= 12
  {
    var common := [0, 0, 31, 59, 90, 120, 151, 181, 212, 243, 273, 304, 334][m];
    if m > 2 && IsLeapYear(y) then common + 1 else common
  }

  /** Proleptic Gregorian ordinal of 1970-01-01. */
  const EpochOrdinal: nat := 719163

  /** Days from 1970-01-01 to the given date. */
  function DayNumber(y: nat, m: nat, d: nat): int
    requires IsDate(y, m, d)
  {
    DaysBeforeYear(y) + DaysBeforeMonth(y, m) + d - EpochOrdinal
  }

  /** `calendar.timegm` of the stamp. */
  function EpochSeconds(c: WallClock): int
    requires Accepted(c)
  {
    DayNumber(c.year, c.month, c.day) * 86400 + c.hour * 3600 + c.minute * 60 + c.second
  }

  /** The stamp at the start of `b`, which is the 7-byte window of the record
      and is shorter when the record is truncated. */
  function ParseTimestamp(b: seq<byte>): (r: Result<int>)
    ensures |b| < 7 ==> r == Failure(IndexOutOfRange)
    ensures |b| >= 7 ==> (r.Success? <==> Accepted(ReadWallClock(b)))
    ensures r.Success? ==> r.value == EpochSeconds(ReadWallClock(b))
    ensures r.Failure? ==> r.error in {IndexOutOfRange, InvalidValue}
  {
    if |b| < 7 then Failure(IndexOutOfRange)
    else
      var c := ReadWallClock(b);
      if Accepted(c) then Success(EpochSeconds(c)) else Failure(InvalidValue)
  }

  // ---- calendar facts ---------------------------------------------------

  /** One more multiple of k lies in 1..y than in 1..y-1 exactly when k divides y. */
  lemma FloorStep(y: nat, k: pos)
    requires y >= 1
    ensures y / k - (y - 1) / k == if y % k == 0 then 1 else 0
  {
    var q := (y - 1) / k;
    var r := (y - 1) % k;
    assert y - 1 == q * k + r;
    if r + 1 == k {
      DivModUnique(y, k, q + 1, 0);
    } else {
      DivModUnique(y, k, q, r + 1);
    }
  }

  lemma MultipleOfMultiple(y: nat, a: pos, b: pos)
    requires y % (a * b) == 0
    ensures y % a == 0
  {
    var q := y / (a * b);
    assert y == q * (a * b);
    assert y == (q * b) * a;
    DivModUnique(y, a, q * b, 0);
  }

  /** The closed form of the Gregorian leap rule counts each year's length. */
  lemma {:induction false} DaysBeforeYearStep(y: nat)
    requires y >= 1
    ensures DaysBeforeYear(y + 1) == DaysBeforeYear(y) + YearLength(y)
  {
    FloorStep(y, 4);
    FloorStep(y, 100);
    FloorStep(y, 400);
    if y % 400 == 0 {
      MultipleOfMultiple(y, 100, 4);
      MultipleOfMultiple(y, 4, 100);
    } else if y % 100 == 0 {
      MultipleOfMultiple(y, 4, 25);
    }
  }

  /** Days from 1970-01-01 to January 1st of year y, counted year by year. */
  function DaysSince1970(y: nat): int
    decreases if y < 1970 then 1970 - y else y - 1970
  {
    if y == 1970 then 0
    else if y > 1970 then DaysSince1970(y - 1) + YearLength(y - 1)
    else DaysSince1970(y + 1) - YearLength(y)
  }

  /** The closed-form day number agrees with counting year lengths. */
  lemma {:induction false} DayNumberCountsYears(y: nat)
    requires y >= 1
    ensures DayNumber(y, 1, 1) == DaysSince1970(y)
    decreases if y < 1970 then 1970 - y else y - 1970
  {
    if y > 1970 {
      DayNumberCountsYears(y - 1);
      DaysBeforeYearStep(y - 1);
    } else if y < 1970 {
      DayNumberCountsYears(y + 1);
      DaysBeforeYearStep(y);
    }
  }

  /** The stamp's seconds since the epoch, counted independently of the
      closed form: the lengths of the years from 1970, the months before the
      stamp's month and the days before its day, then the time of day. */
  lemma ParseTimestampCountsDays(b: seq<byte>)
    ensures |b| < 7 ==> ParseTimestamp(b) == Failure(IndexOutOfRange)
    ensures |b| >= 7 ==>
      var c := ReadWallClock(b);
      ParseTimestamp(b) ==
        if Accepted(c)
        then Success((DaysSince1970(c.year) + DaysBeforeMonth(c.year, c.month) + c.day - 1) * 86400
                     + c.hour * 3600 + c.minute * 60 + c.second)
        else Failure(InvalidValue)
  {
    if |b| >= 7 && Accepted(ReadWallClock(b)) {
      DayNumberCountsYears(ReadWallClock(b).year);
    }
  }

  /** The calendar day after a date. */
  function Tomorrow(y: nat, m: nat, d: nat): (r: (nat, nat, nat))
    requires IsDate(y, m, d)
    ensures IsDate(r.0, r.1, r.2)
  {
    if d < DaysInMonth(y, m) then (y, m, d + 1)
    else if m < 12 then (y, m + 1, 1)
    else (y + 1, 1, 1)
  }

  /** Consecutive calendar days have consecutive day numbers, across month and
      year boundaries. */
  lemma DayAfter(y: nat, m: nat, d: nat)
    requires IsDate(y, m, d)
    ensures var t := Tomorrow(y, m, d); DayNumber(t.0, t.1, t.2) == DayNumber(y, m, d) + 1
  {
    if d == DaysInMonth(y, m) && m == 12 {
      DaysBeforeYearStep(y);
    }
  }

  /** The epoch itself converts to zero: no local-time offset is applied. */
  lemma EpochOrigin()
    ensures EpochSeconds(WallClock(1970, 1, 1, 0, 0, 0)) == 0
  {
    assert 1969 / 4 == 492 && 1969 / 100 == 19 && 1969 / 400 == 4;
    assert DaysBeforeYear(1970) == 719162;
  }
}
