/** The measurement store (`VivaPersistence`) with SQLite replaced by two
    in-memory tables: measurement rows and sync rows, each in insertion order. */
module Persistence {
  import opened Wrappers
  import opened FixedPoint
  import opened Measurement
  import opened MeasurementRecord

  /** A row of the `measurements` table. The integer columns hold `int(...)`
      of a reading; the real columns hold the reading itself, or NULL. */
  datatype Row = Row(
    sequenceNumber: int,
    timeStamp: int,
    userId: int,
    weight: Option<Value>,
    bmi: Option<Value>,
    height: Option<Value>,
    bodyFatPercentage: Option<Value>,
    basalMetabolism: int,
    skeletalMusclePercentage: Option<Value>,
    visceralFatLevel: Option<Value>,
    bodyAge: int)

  /** A row of the `syncs` table. */
  datatype SyncRow = SyncRow(timeStamp: int, userId: int)

  datatype Store = Store(measurements: seq<Row>, syncs: seq<SyncRow>)

  /** `int(x)` of a reading: counts and instants as they are, a decimal
      truncated toward zero (which, for a non-negative one, is rounding down). */
  function IntOf(v: Value): int {
    match v
    case Count(n) => n
    case Instant(s) => s
    case Quantity(q) => q.units / Pow10(q.places)
  }

  /** A reading of the record, `None` when no buffer announced the field. */
  function Reading(r: Record, f: Field): Option<Value> {
    if f in r.readings then Some(r.readings[f]) else None
  }

  /** `int(...)` of a reading; `int(None)` raises. */
  function Required(r: Record, f: Field): (n: Result<int>)
    ensures n.Success? <==> f in r.readings
    ensures n.Failure? ==> n.error == MissingField
  {
    if f in r.readings then Success(IntOf(r.readings[f])) else Failure(MissingField)
  }

  /** `SELECT COUNT(*) FROM measurements WHERE SequenceNumber = ? AND UserID = ?`. */
  function KeyCount(rows: seq<Row>, sequenceNumber: int, user: int): nat {
    if |rows| == 0 then 0
    else
      var last := rows[|rows| - 1];
      KeyCount(rows[..|rows| - 1], sequenceNumber, user)
        + (if last.sequenceNumber == sequenceNumber && last.userId == user then 1 else 0)
  }

  /** Whether some row has the key (sequence number, user). */
  predicate HasKey(rows: seq<Row>, sequenceNumber: int, user: int) {
    exists k :: 0 <= k < |rows| && rows[k].sequenceNumber == sequenceNumber && rows[k].userId == user
  }

  /** The store's invariant: no two rows share a (sequence number, user) key. */
  predicate UniqueKeys(rows: seq<Row>) {
    forall j, k :: 0 <= j < k < |rows| ==>
      !(rows[j].sequenceNumber == rows[k].sequenceNumber && rows[j].userId == rows[k].userId)
  }

  /** The count is positive exactly when some row has the key; under the
      invariant it is at most one. */
  lemma {:induction false} KeyCountCounts(rows: seq<Row>, sequenceNumber: int, user: int)
    ensures KeyCount(rows, sequenceNumber, user) > 0 <==> HasKey(rows, sequenceNumber, user)
    ensures UniqueKeys(rows) ==> KeyCount(rows, sequenceNumber, user) <= 1
    decreases |rows|
  {
    if |rows| > 0 {
      var pre, last := rows[..|rows| - 1], rows[|rows| - 1];
      KeyCountCounts(pre, sequenceNumber, user);
      if HasKey(rows, sequenceNumber, user) && !(last.sequenceNumber == sequenceNumber && last.userId == user) {
        var k :| 0 <= k < |rows| && rows[k].sequenceNumber == sequenceNumber && rows[k].userId == user;
        assert pre[k] == rows[k];
      }
      if HasKey(pre, sequenceNumber, user) {
        var k :| 0 <= k < |pre| && pre[k].sequenceNumber == sequenceNumber && pre[k].userId == user;
        assert rows[k] == pre[k];
        if UniqueKeys(rows) {
          assert !(last.sequenceNumber == sequenceNumber && last.userId == user);
        }
      }
      if UniqueKeys(rows) {
        assert UniqueKeys(pre);
      }
    }
  }

  /** The row `persist_measurement` inserts for a record whose required readings are present. */
  function RowOf(r: Record, sequenceNumber: int, timeStamp: int, user: int, basal: int, age: int): Row {
    Row(sequenceNumber, timeStamp, user,
        Reading(r, Weight), Reading(r, Bmi), Reading(r, Height), Reading(r, BodyFatPercentage),
        basal, Reading(r, SkeletalMusclePercentage), Reading(r, VisceralFatLevel), age)
  }

  /** `persist_measurement(r)`: look the key up (converting the sequence number
      and user, which raises when either is absent); a known key inserts
      nothing; otherwise convert the remaining integer columns, which raises
      when the time stamp, basal metabolism or body age is absent, and append
      one row. */
  function Persist(s: Store, r: Record): (o: Result<Store>)
    ensures o.Failure? ==> o.error == MissingField
    ensures o.Success? ==> o.value.syncs == s.syncs
  {
    var sequenceNumber :- Required(r, SequenceNumber);
    var user :- Required(r, UserId);
    if KeyCount(s.measurements, sequenceNumber, user) > 0 then Success(s)
    else
      var timeStamp :- Required(r, TimeStamp);
      var basal :- Required(r, BasalMetabolism);
      var age :- Required(r, BodyAge);
      Success(s.(measurements := s.measurements + [RowOf(r, sequenceNumber, timeStamp, user, basal, age)]))
  }

  /** The record's key, when both key readings are present. */
  function KeyOf(r: Record): (int, int)
    requires SequenceNumber in r.readings && UserId in r.readings
  {
    (IntOf(r.readings[SequenceNumber]), IntOf(r.readings[UserId]))
  }

  /** Persisting fails exactly when a key reading is absent, or when the key
      is new and a time stamp, basal metabolism or body age reading is absent. */
  lemma PersistSucceeds(s: Store, r: Record)
    ensures Persist(s, r).Success? <==>
      && SequenceNumber in r.readings && UserId in r.readings
      && (HasKey(s.measurements, KeyOf(r).0, KeyOf(r).1)
          || (TimeStamp in r.readings && BasalMetabolism in r.readings && BodyAge in r.readings))
  {
    if SequenceNumber in r.readings && UserId in r.readings {
      KeyCountCounts(s.measurements, KeyOf(r).0, KeyOf(r).1);
    }
  }

  /** A record whose key is already stored changes nothing; one whose key is
      new appends exactly one row, carrying that key and the record's readings. */
  lemma PersistDeduplicates(s: Store, r: Record)
    requires SequenceNumber in r.readings && UserId in r.readings
    ensures HasKey(s.measurements, KeyOf(r).0, KeyOf(r).1) ==> Persist(s, r) == Success(s)
    ensures !HasKey(s.measurements, KeyOf(r).0, KeyOf(r).1) && Persist(s, r).Success? ==>
      && |Persist(s, r).value.measurements| == |s.measurements| + 1
      && Persist(s, r).value.measurements[..|s.measurements|] == s.measurements
      && var row := Persist(s, r).value.measurements[|s.measurements|];
         && row.sequenceNumber == KeyOf(r).0 && row.userId == KeyOf(r).1
         && row.timeStamp == IntOf(r.readings[TimeStamp])
         && row.weight == Reading(r, Weight) && row.bmi == Reading(r, Bmi)
         && row.height == Reading(r, Height)
         && row.bodyFatPercentage == Reading(r, BodyFatPercentage)
         && row.basalMetabolism == IntOf(r.readings[BasalMetabolism])
         && row.skeletalMusclePercentage == Reading(r, SkeletalMusclePercentage)
         && row.visceralFatLevel == Reading(r, VisceralFatLevel)
         && row.bodyAge == IntOf(r.readings[BodyAge])
  {
    KeyCountCounts(s.measurements, KeyOf(r).0, KeyOf(r).1);
  }

  /** Persisting keeps at most one row per (sequence number, user) and leaves
      the record's key stored. */
  lemma PersistKeepsKeysUnique(s: Store, r: Record)
    requires UniqueKeys(s.measurements) && Persist(s, r).Success?
    ensures UniqueKeys(Persist(s, r).value.measurements)
    ensures HasKey(Persist(s, r).value.measurements, KeyOf(r).0, KeyOf(r).1)
  {
    var key := KeyOf(r);
    KeyCountCounts(s.measurements, key.0, key.1);
    var rows := Persist(s, r).value.measurements;
    if !HasKey(s.measurements, key.0, key.1) {
      var n := |s.measurements|;
      assert rows[n].sequenceNumber == key.0 && rows[n].userId == key.1;
      forall j, k | 0 <= j < k < |rows|
        ensures !(rows[j].sequenceNumber == rows[k].sequenceNumber && rows[j].userId == rows[k].userId)
      {
        if k == n {
          assert rows[j] == s.measurements[j];
        } else {
          assert rows[j] == s.measurements[j] && rows[k] == s.measurements[k];
        }
      }
    }
  }

  /** Persisting the same record twice is the same as persisting it once. */
  lemma PersistIdempotent(s: Store, r: Record)
    requires Persist(s, r).Success?
    ensures Persist(Persist(s, r).value, r) == Persist(s, r)
  {
    var key := KeyOf(r);
    var t := Persist(s, r).value;
    KeyCountCounts(s.measurements, key.0, key.1);
    if !HasKey(s.measurements, key.0, key.1) {
      var n := |s.measurements|;
      assert t.measurements[n].sequenceNumber == key.0 && t.measurements[n].userId == key.1;
    }
    KeyCountCounts(t.measurements, key.0, key.1);
  }

  /** `get_highest_sequence_number_for_user(u)`: the greatest sequence number
      among the user's rows, `None` when the user has none. */
  function HighestSequence(rows: seq<Row>, user: int): Option<int> {
    if |rows| == 0 then None
    else
      var earlier := HighestSequence(rows[..|rows| - 1], user);
      var last := rows[|rows| - 1];
      if last.userId != user then earlier
      else if earlier.None? || earlier.value < last.sequenceNumber then Some(last.sequenceNumber)
      else earlier
  }

  /** The result is `None` exactly when the user has no rows; otherwise it is
      the sequence number of one of the user's rows and no smaller than any. */
  lemma {:induction false} HighestIsMaximum(rows: seq<Row>, user: int)
    ensures HighestSequence(rows, user).None? <==> forall k :: 0 <= k < |rows| ==> rows[k].userId != user
    ensures HighestSequence(rows, user).Some? ==>
      && HasKey(rows, HighestSequence(rows, user).value, user)
      && forall k :: 0 <= k < |rows| && rows[k].userId == user ==> rows[k].sequenceNumber <= HighestSequence(rows, user).value
    decreases |rows|
  {
    if |rows| > 0 {
      var pre := rows[..|rows| - 1];
      HighestIsMaximum(pre, user);
      assert forall k :: 0 <= k < |pre| ==> rows[k] == pre[k];
      var h := HighestSequence(rows, user);
      if h.Some? && h == HighestSequence(pre, user) {
        var k :| 0 <= k < |pre| && pre[k].sequenceNumber == h.value && pre[k].userId == user;
        assert rows[k] == pre[k];
      }
    }
  }

  /** `store_success(u)` at time `now` (`int(time.time())`): the row (now, u)
      is appended to the sync table and nothing else changes. */
  function StoreSuccess(s: Store, now: int, user: int): (o: Store)
    ensures o.measurements == s.measurements
    ensures |o.syncs| == |s.syncs| + 1 && o.syncs[..|s.syncs|] == s.syncs
    ensures o.syncs[|s.syncs|] == SyncRow(now, user)
  {
    s.(syncs := s.syncs + [SyncRow(now, user)])
  }

  /** The position of the first row, in insertion order, with the greatest time stamp. */
  function LatestIndex(syncs: seq<SyncRow>): (k: nat)
    requires |syncs| > 0
    ensures k < |syncs|
  {
    if |syncs| == 1 then 0
    else
      var k := LatestIndex(syncs[..|syncs| - 1]);
      if syncs[k].timeStamp < syncs[|syncs| - 1].timeStamp then |syncs| - 1 else k
  }

  /** `get_last_sync_user()`, `SELECT MAX(TimeStamp), UserID FROM syncs`: the
      row with the greatest time stamp, the first such when several tie;
      `None` for the empty table (where SQLite answers `(None, None)`). */
  function LastSync(syncs: seq<SyncRow>): (r: Option<SyncRow>)
    ensures r.None? <==> |syncs| == 0
  {
    if |syncs| == 0 then None else Some(syncs[LatestIndex(syncs)])
  }

  /** No row has a later time stamp than the latest one, and every row before
      it has an earlier one. */
  lemma {:induction false} LatestIndexIsFirstMaximum(syncs: seq<SyncRow>)
    requires |syncs| > 0
    ensures forall j :: 0 <= j < |syncs| ==> syncs[j].timeStamp <= syncs[LatestIndex(syncs)].timeStamp
    ensures forall j :: 0 <= j < LatestIndex(syncs) ==> syncs[j].timeStamp < syncs[LatestIndex(syncs)].timeStamp
    decreases |syncs|
  {
    if |syncs| > 1 {
      var pre := syncs[..|syncs| - 1];
      LatestIndexIsFirstMaximum(pre);
      assert forall j :: 0 <= j < |pre| ==> syncs[j] == pre[j];
    }
  }

  /** A success stored later than every earlier one becomes the last sync;
      one stored no later than the latest leaves the last sync as it was. */
  lemma StoreSuccessIsLastSync(s: Store, now: int, user: int)
    ensures (forall j :: 0 <= j < |s.syncs| ==> s.syncs[j].timeStamp < now) ==>
      LastSync(StoreSuccess(s, now, user).syncs) == Some(SyncRow(now, user))
    ensures (exists j :: 0 <= j < |s.syncs| && now <= s.syncs[j].timeStamp) ==>
      LastSync(StoreSuccess(s, now, user).syncs) == LastSync(s.syncs)
  {
    var t := StoreSuccess(s, now, user).syncs;
    assert t[..|s.syncs|] == s.syncs;
    if |s.syncs| > 0 {
      LatestIndexIsFirstMaximum(s.syncs);
    }
  }
}
