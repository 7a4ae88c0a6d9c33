/** The flag-driven decoder of one body-composition record: a fixed, ordered
    table of optional fields, each consumed only when its flag bit is set. */
module Measurement {
  import opened Wrappers
  import opened Bytes
  import opened FixedPoint
  import opened Clock
  import opened Flags
  import opened Arith

  /** The value slots of a record, in table order. */
  datatype Field =
    | SequenceNumber
    | Weight
    | TimeStamp
    | UserId
    | Bmi
    | Height
    | BodyFatPercentage
    | BasalMetabolism
    | MusclePercentage
    | MuscleMass
    | FatFreeMass
    | SoftLeanMass
    | BodyWaterMass
    | Impedance
    | SkeletalMusclePercentage
    | VisceralFatLevel
    | BodyAge
    | BodyFatPercentageStageEvaluation
    | SkeletalMusclePercentageStageEvaluation
    | VisceralFatLevelStageEvaluation

  /** Where a scaled field takes its resolution from. */
  datatype Resolution = WeightResolution | HeightResolution | Constant(ratio: Ratio)

  datatype Transform =
    | Integer                              // the raw value as it is
    | Scaled(res: Resolution, places: nat) // raw × resolution, rounded half-up
    | Stamp                                // a wall-clock stamp, as epoch seconds

  datatype Entry = Entry(flag: Flag, field: Field, width: nat, transform: Transform)

  /** The field table, in consumption order. The BMI-and-height bit guards two
      consecutive 2-byte entries; the unit and multi-packet bits guard none. */
  const Table: seq<Entry> := [
    Entry(SequenceNumberPresent, SequenceNumber, 2, Integer),
    Entry(WeightPresent, Weight, 2, Scaled(WeightResolution, 3)),
    Entry(TimeStampPresent, TimeStamp, 7, Stamp),
    Entry(UserIDPresent, UserId, 1, Integer),
    Entry(BMIAndHeightPresent, Bmi, 2, Scaled(Constant(Ratio(1, 10)), 3)),
    Entry(BMIAndHeightPresent, Height, 2, Scaled(HeightResolution, 1)),
    Entry(BodyFatPercentagePresent, BodyFatPercentage, 2, Scaled(Constant(Ratio(1, 1000)), 3)),
    Entry(BasalMetabolismPresent, BasalMetabolism, 2, Integer),
    Entry(MusclePercentagePresent, MusclePercentage, 2, Scaled(Constant(Ratio(1, 1000)), 3)),
    Entry(MuscleMassPresent, MuscleMass, 2, Scaled(WeightResolution, 3)),
    Entry(FatFreeMassPresent, FatFreeMass, 2, Scaled(WeightResolution, 3)),
    Entry(SoftLeanMassPresent, SoftLeanMass, 2, Scaled(WeightResolution, 3)),
    Entry(BodyWaterMassPresent, BodyWaterMass, 2, Scaled(WeightResolution, 3)),
    Entry(ImpedancePresent, Impedance, 2, Scaled(Constant(Ratio(1, 10)), 3)),
    Entry(SkeletalMusclePercentagePresent, SkeletalMusclePercentage, 2, Scaled(Constant(Ratio(1, 1000)), 3)),
    Entry(VisceralFatLevelPresent, VisceralFatLevel, 1, Scaled(Constant(Ratio(1, 2)), 3)),
    Entry(BodyAgePresent, BodyAge, 1, Integer),
    Entry(BodyFatPercentageStageEvaluationPresent, BodyFatPercentageStageEvaluation, 1, Integer),
    Entry(SkeletalMusclePercentageStageEvaluationPresent, SkeletalMusclePercentageStageEvaluation, 1, Integer),
    Entry(VisceralFatLevelStageEvaluationPresent, VisceralFatLevelStageEvaluation, 1, Integer)]

  /** The row of the table that fills a field. */
  function Row(f: Field): (j: nat)
    ensures j < 20 && Table[j].field == f
  {
    match f
    case SequenceNumber => 0
    case Weight => 1
    case TimeStamp => 2
    case UserId => 3
    case Bmi => 4
    case Height => 5
    case BodyFatPercentage => 6
    case BasalMetabolism => 7
    case MusclePercentage => 8
    case MuscleMass => 9
    case FatFreeMass => 10
    case SoftLeanMass => 11
    case BodyWaterMass => 12
    case Impedance => 13
    case SkeletalMusclePercentage => 14
    case VisceralFatLevel => 15
    case BodyAge => 16
    case BodyFatPercentageStageEvaluation => 17
    case SkeletalMusclePercentageStageEvaluation => 18
    case VisceralFatLevelStageEvaluation => 19
  }

  lemma TableRowsAreFields()
    ensures forall j :: 0 <= j < 20 ==> Row(Table[j].field) == j
  {
  }

  /** The unit system one buffer's flags select, with the default resolutions. */
  datatype Units = Units(weightUnit: string, heightUnit: string, weight: Ratio, height: Ratio)

  const Metric: Units := Units("kg", "m", Ratio(5, 1000), Ratio(1, 1000))
  const Imperial: Units := Units("lb", "in", Ratio(1, 100), Ratio(1, 10))

  function UnitsOf(mask: nat): (u: Units)
    ensures u == (if IsSet(mask, Bit(ImperialUnit)) then Imperial else Metric)
  {
    if IsSet(mask, 0) then Imperial else Metric
  }

  function ResolutionOf(res: Resolution, units: Units): Ratio {
    match res
    case WeightResolution => units.weight
    case HeightResolution => units.height
    case Constant(r) => r
  }

  /** A decoded reading. */
  datatype Value = Count(n: nat) | Quantity(q: Fixed) | Instant(seconds: int)

  /** The raw integer of a field: a 1-byte field is an index read, which fails
      past the end; a wider field reads the clipped slice little-endian, so a
      truncated buffer silently yields fewer bytes. */
  function ReadRaw(data: seq<byte>, at: nat, width: nat): (r: Result<nat>)
    ensures width == 1 ==> (r.Success? <==> at < |data|)
    ensures width == 1 && at < |data| ==> r.value == data[at]
    ensures width != 1 ==> r.Success?
    ensures width != 1 && at + width <= |data| ==> r.value == LittleEndian(data[at..at + width])
  {
    if width == 1 then
      if at < |data| then Success(data[at]) else Failure(IndexOutOfRange)
    else
      Success(LittleEndian(Slice(data, at, at + width)))
  }

  function DecodeEntry(e: Entry, data: seq<byte>, at: nat, units: Units): Result<Value> {
    match e.transform
    case Stamp =>
      var t :- ParseTimestamp(Slice(data, at, at + 7));
      Success(Instant(t))
    case Integer =>
      var n :- ReadRaw(data, at, e.width);
      Success(Count(n))
    case Scaled(res, places) =>
      var n :- ReadRaw(data, at, e.width);
      Success(Quantity(Scale(n, ResolutionOf(res, units), places)))
  }

  /** Whether a row is consumed under a mask. */
  predicate Selected(mask: nat, e: Entry) {
    IsSet(mask, Bit(e.flag))
  }

  /** The rows a mask selects. */
  function Selector(mask: nat): Entry -> bool {
    (e: Entry) => Selected(mask, e)
  }

  /** The cursor before row k of a table: three flag bytes, then the widths
      of the selected rows before k. */
  function Cursor(rows: seq<Entry>, sel: Entry -> bool, k: nat): (c: nat)
    requires k <= |rows|
    ensures c >= 3
  {
    if k == 0 then 3
    else Cursor(rows, sel, k - 1) + (if sel(rows[k - 1]) then rows[k - 1].width else 0)
  }

  /** Walks a table from row k with the cursor at `at`, decoding each
      selected row with `decode` and collecting the readings into `acc`;
      yields the readings and the final cursor. */
  function Walk(rows: seq<Entry>, sel: Entry -> bool, decode: (Entry, nat) -> Result<Value>, k: nat, at: nat,
                acc: map<Field, Value>): Result<(map<Field, Value>, nat)>
    requires k <= |rows|
    decreases |rows| - k
  {
    if k == |rows| then Success((acc, at))
    else if sel(rows[k]) then
      var v :- decode(rows[k], at);
      Walk(rows, sel, decode, k + 1, at + rows[k].width, acc[rows[k].field := v])
    else
      Walk(rows, sel, decode, k + 1, at, acc)
  }

  /** The outcome of parsing one buffer. */
  datatype Parsed = Parsed(units: Units, readings: map<Field, Value>, consumed: nat)

  /** How a row decodes in a buffer, with the units the buffer's flags select. */
  function Decoder(data: seq<byte>): (Entry, nat) -> Result<Value> {
    (e: Entry, at: nat) => DecodeEntry(e, data, at, UnitsOf(Mask(data)))
  }

  /** The offset at which a field is read in a buffer. */
  function FieldOffset(data: seq<byte>, f: Field): nat {
    Cursor(Table, Selector(Mask(data)), Row(f))
  }

  /** What a field decodes to when read at its offset. */
  function DecodeField(data: seq<byte>, f: Field): Result<Value> {
    DecodeEntry(Table[Row(f)], data, FieldOffset(data, f), UnitsOf(Mask(data)))
  }

  /** Whether a buffer's flags announce a field. */
  predicate Announced(data: seq<byte>, f: Field) {
    Selected(Mask(data), Table[Row(f)])
  }

  /** One buffer parsed as the program does it (the as-written decoder). */
  function ParseBuffer(data: seq<byte>): Result<Parsed>
  {
    var mask := Mask(data);
    var w :- Walk(Table, Selector(mask), Decoder(data), 0, 3, map[]);
    Success(Parsed(UnitsOf(mask), w.0, w.1))
  }

  // ---- where every field is read -----------------------------------------

  /** The first table row guarded by bit b or a later bit. */
  function RowStart(b: nat): (j: nat)
    requires b <= 21
    ensures j <= 20
  {
    if b <= 1 then 0 else if b <= 5 then b - 1 else if b <= 20 then b else 20
  }

  /** Rows 0..4 are guarded by bits 1..5, rows 5..19 by their own index. */
  lemma TableBits()
    ensures forall j :: 0 <= j < 20 ==> Bit(Table[j].flag) == if j <= 4 then j + 1 else j
  {
    forall j | 0 <= j < 20
      ensures Bit(Table[j].flag) == if j <= 4 then j + 1 else j
    {
      if j < 10 {
        TableBitsBelow(j);
      } else {
        TableBitsFrom(j);
      }
    }
  }

  lemma TableBitsBelow(j: nat)
    requires j < 10
    ensures Bit(Table[j].flag) == if j <= 4 then j + 1 else j
  {
  }

  lemma TableBitsFrom(j: nat)
    requires 10 <= j < 20
    ensures Bit(Table[j].flag) == j
  {
  }

  lemma TableWidths()
    ensures forall j :: 0 <= j < 20 && j != 4 && j != 5 ==> Table[j].width == FlagWidth(Table[j].flag)
  {
  }

  /** Every bit other than 0, 5 and 20 guards exactly one row, as wide as the bit announces. */
  lemma SingleRowBits()
    ensures forall b :: (1 <= b <= 4 || 6 <= b <= 19) ==>
      && RowStart(b + 1) == RowStart(b) + 1
      && Bit(Table[RowStart(b)].flag) == b
      && Table[RowStart(b)].width == FlagWidth(AllFlags[b])
  {
    TableBits();
    TableWidths();
    forall b | 1 <= b <= 4 || 6 <= b <= 19
      ensures Table[RowStart(b)].width == FlagWidth(AllFlags[b])
    {
      var f := Table[RowStart(b)].flag;
      assert Bit(f) == b;
      assert AllFlags[b] == f;
    }
  }

  lemma BitAdvancesCursor(mask: nat, b: nat)
    requires b < 21
    ensures Cursor(Table, Selector(mask), RowStart(b + 1)) == Cursor(Table, Selector(mask), RowStart(b)) + BitWidth(mask, b)
  {
    AllFlagsInBitOrder();
    var r := RowStart(b);
    if b == 0 || b == 20 {
      assert RowStart(b + 1) == r;
      assert FlagWidth(AllFlags[b]) == 0;
    } else if b == 5 {
      assert Bit(Table[4].flag) == 5 && Bit(Table[5].flag) == 5;
      assert Cursor(Table, Selector(mask), 5) == Cursor(Table, Selector(mask), 4) + (if IsSet(mask, 5) then 2 else 0);
      assert Cursor(Table, Selector(mask), 6) == Cursor(Table, Selector(mask), 5) + (if IsSet(mask, 5) then 2 else 0);
    } else {
      SingleRowBits();
      assert RowStart(b + 1) == r + 1;
      assert Cursor(Table, Selector(mask), r + 1) == Cursor(Table, Selector(mask), r) + (if Selected(mask, Table[r]) then Table[r].width else 0);
    }
  }

  lemma CountedThroughNextBit(mask: nat, b: nat)
    requires b < 21
    requires Cursor(Table, Selector(mask), RowStart(b)) == 3 + PayloadWidth(mask, b)
    ensures Cursor(Table, Selector(mask), RowStart(b + 1)) == 3 + PayloadWidth(mask, b + 1)
  {
    BitAdvancesCursor(mask, b);
  }

  lemma {:induction false} CursorCountsFlagWidths(mask: nat, b: nat)
    requires b <= 21
    ensures Cursor(Table, Selector(mask), RowStart(b)) == 3 + PayloadWidth(mask, b)
  {
    if b == 0 {
      assert RowStart(b) == 0;
    } else {
      CursorCountsFlagWidths(mask, b - 1);
      CountedThroughNextBit(mask, b - 1);
    }
  }

  /** The cursor after the last row is the length the mask announces: three
      bytes plus the widths of the set bits. */
  lemma ConsumedIsAnnouncedLength(mask: nat)
    ensures Cursor(Table, Selector(mask), |Table|) == AnnouncedLength(mask)
  {
    CursorCountsFlagWidths(mask, 21);
  }

  /** Rows are read in table order, each after the previous one ends. */
  lemma {:induction false} CursorMonotone(rows: seq<Entry>, sel: Entry -> bool, j: nat, k: nat)
    requires j <= k <= |rows|
    ensures Cursor(rows, sel, j) <= Cursor(rows, sel, k)
    ensures j < k && sel(rows[j]) ==> Cursor(rows, sel, j) + rows[j].width <= Cursor(rows, sel, k)
    decreases k - j
  {
    if j < k {
      CursorMonotone(rows, sel, j + 1, k);
    }
  }

  predicate DistinctFields(rows: seq<Entry>) {
    forall i, j :: 0 <= i < j < |rows| ==> rows[i].field != rows[j].field
  }

  /** The fields of the selected rows from k on. */
  function SelectedFields(rows: seq<Entry>, sel: Entry -> bool, k: nat): set<Field>
    requires k <= |rows|
  {
    set j | k <= j < |rows| && sel(rows[j]) :: rows[j].field
  }

  /** Walking from row k with the cursor in place fails exactly when a
      selected later row fails to decode at its own cursor. */
  lemma {:induction false} WalkSucceedsIffRowsDecode(rows: seq<Entry>, sel: Entry -> bool, decode: (Entry, nat) -> Result<Value>,
                                                     k: nat, acc: map<Field, Value>)
    requires k <= |rows|
    ensures Walk(rows, sel, decode, k, Cursor(rows, sel, k), acc).Success? <==>
      forall j :: k <= j < |rows| && sel(rows[j]) ==> decode(rows[j], Cursor(rows, sel, j)).Success?
    decreases |rows| - k
  {
    if k < |rows| {
      var at := Cursor(rows, sel, k);
      if sel(rows[k]) {
        var d := decode(rows[k], at);
        if d.Success? {
          WalkSucceedsIffRowsDecode(rows, sel, decode, k + 1, acc[rows[k].field := d.value]);
        }
      } else {
        WalkSucceedsIffRowsDecode(rows, sel, decode, k + 1, acc);
      }
    }
  }

  /** A successful walk ends at the cursor after the last row. */
  lemma {:induction false} WalkEndsAtLastCursor(rows: seq<Entry>, sel: Entry -> bool, decode: (Entry, nat) -> Result<Value>,
                                                k: nat, acc: map<Field, Value>)
    requires k <= |rows|
    ensures var r := Walk(rows, sel, decode, k, Cursor(rows, sel, k), acc);
      r.Success? ==> r.value.1 == Cursor(rows, sel, |rows|)
    decreases |rows| - k
  {
    if k < |rows| {
      var at := Cursor(rows, sel, k);
      if sel(rows[k]) {
        var d := decode(rows[k], at);
        if d.Success? {
          WalkEndsAtLastCursor(rows, sel, decode, k + 1, acc[rows[k].field := d.value]);
        }
      } else {
        WalkEndsAtLastCursor(rows, sel, decode, k + 1, acc);
      }
    }
  }

  /** A successful walk adds exactly the fields of the selected later rows. */
  lemma {:induction false} WalkCollectsSelectedFields(rows: seq<Entry>, sel: Entry -> bool, decode: (Entry, nat) -> Result<Value>,
                                                      k: nat, acc: map<Field, Value>)
    requires k <= |rows|
    ensures var r := Walk(rows, sel, decode, k, Cursor(rows, sel, k), acc);
      r.Success? ==> r.value.0.Keys == acc.Keys + SelectedFields(rows, sel, k)
    decreases |rows| - k
  {
    if k < |rows| {
      var at := Cursor(rows, sel, k);
      if sel(rows[k]) {
        var d := decode(rows[k], at);
        if d.Success? {
          WalkCollectsSelectedFields(rows, sel, decode, k + 1, acc[rows[k].field := d.value]);
          assert SelectedFields(rows, sel, k) == {rows[k].field} + SelectedFields(rows, sel, k + 1);
        }
      } else {
        WalkCollectsSelectedFields(rows, sel, decode, k + 1, acc);
        assert SelectedFields(rows, sel, k) == SelectedFields(rows, sel, k + 1);
      }
    }
  }

  /** A successful walk keeps what was collected before it, for fields no later
      row fills. */
  lemma {:induction false} WalkKeepsEarlierReadings(rows: seq<Entry>, sel: Entry -> bool, decode: (Entry, nat) -> Result<Value>,
                                                    k: nat, acc: map<Field, Value>, f: Field)
    requires k <= |rows|
    requires f in acc
    requires forall j :: k <= j < |rows| ==> rows[j].field != f
    ensures var r := Walk(rows, sel, decode, k, Cursor(rows, sel, k), acc);
      r.Success? ==> f in r.value.0 && r.value.0[f] == acc[f]
    decreases |rows| - k
  {
    if k < |rows| {
      var at := Cursor(rows, sel, k);
      if sel(rows[k]) {
        var d := decode(rows[k], at);
        if d.Success? {
          WalkKeepsEarlierReadings(rows, sel, decode, k + 1, acc[rows[k].field := d.value], f);
        }
      } else {
        WalkKeepsEarlierReadings(rows, sel, decode, k + 1, acc, f);
      }
    }
  }

  /** In a successful walk over a table of distinct fields, every selected
      later row's field holds what that row decodes to at its cursor. */
  lemma {:induction false} WalkReadsSelectedRows(rows: seq<Entry>, sel: Entry -> bool, decode: (Entry, nat) -> Result<Value>,
                                                 k: nat, acc: map<Field, Value>, j: nat)
    requires k <= j < |rows|
    requires DistinctFields(rows)
    requires sel(rows[j])
    ensures var r := Walk(rows, sel, decode, k, Cursor(rows, sel, k), acc);
      r.Success? ==> (rows[j].field in r.value.0 &&
        Success(r.value.0[rows[j].field]) == decode(rows[j], Cursor(rows, sel, j)))
    decreases |rows| - k
  {
    var at := Cursor(rows, sel, k);
    var d := decode(rows[k], at);
    if k == j {
      if d.Success? {
        var acc' := acc[rows[k].field := d.value];
        WalkKeepsEarlierReadings(rows, sel, decode, k + 1, acc', rows[k].field);
      }
    } else if sel(rows[k]) {
      if d.Success? {
        WalkReadsSelectedRows(rows, sel, decode, k + 1, acc[rows[k].field := d.value], j);
      }
    } else {
      WalkReadsSelectedRows(rows, sel, decode, k + 1, acc, j);
    }
  }

  lemma TableHasDistinctFields()
    ensures DistinctFields(Table)
  {
    TableRowsAreFields();
  }

  /** A buffer parses exactly when every field its flags announce decodes at
      its offset. */
  lemma ParseBufferSucceedsIffAnnouncedDecode(data: seq<byte>)
    ensures ParseBuffer(data).Success? <==> forall f :: Announced(data, f) ==> DecodeField(data, f).Success?
  {
    var sel, dec := Selector(Mask(data)), Decoder(data);
    assert Cursor(Table, sel, 0) == 3;
    WalkSucceedsIffRowsDecode(Table, sel, dec, 0, map[]);
    TableRowsAreFields();
    if forall f :: Announced(data, f) ==> DecodeField(data, f).Success? {
      forall j | 0 <= j < |Table| && sel(Table[j])
        ensures dec(Table[j], Cursor(Table, sel, j)).Success?
      {
        assert Announced(data, Table[j].field);
      }
    }
  }

  /** A parsed buffer carries the units bit 0 selects and consumed three bytes
      plus the widths of its set bits. */
  lemma ParseBufferConsumesAnnouncedLength(data: seq<byte>)
    ensures ParseBuffer(data).Success? ==>
      && ParseBuffer(data).value.units == UnitsOf(Mask(data))
      && ParseBuffer(data).value.consumed == AnnouncedLength(Mask(data))
  {
    var sel, dec := Selector(Mask(data)), Decoder(data);
    assert Cursor(Table, sel, 0) == 3;
    WalkEndsAtLastCursor(Table, sel, dec, 0, map[]);
    ConsumedIsAnnouncedLength(Mask(data));
  }

  /** A parsed buffer holds a reading for exactly the fields its flags
      announce, each what that field decodes to at its offset. */
  lemma ParseBufferReadsAnnouncedFields(data: seq<byte>)
    ensures ParseBuffer(data).Success? ==>
      && (forall f :: f in ParseBuffer(data).value.readings <==> Announced(data, f))
      && (forall f :: f in ParseBuffer(data).value.readings ==>
            Success(ParseBuffer(data).value.readings[f]) == DecodeField(data, f))
  {
    var sel, dec := Selector(Mask(data)), Decoder(data);
    assert Cursor(Table, sel, 0) == 3;
    var w := Walk(Table, sel, dec, 0, 3, map[]);
    if w.Success? {
      TableRowsAreFields();
      TableHasDistinctFields();
      WalkCollectsSelectedFields(Table, sel, dec, 0, map[]);
      forall f
        ensures f in w.value.0 <==> Announced(data, f)
      {
        if Announced(data, f) {
          assert f == Table[Row(f)].field;
        }
      }
      forall f | f in w.value.0
        ensures Success(w.value.0[f]) == DecodeField(data, f)
      {
        WalkReadsSelectedRows(Table, sel, dec, 0, map[], Row(f));
      }
    }
  }

  /** A buffer whose announced fields are exactly the keys of m, each
      decoding to its value in m, parses to m. */
  lemma ParseBufferReadsExactly(data: seq<byte>, m: map<Field, Value>)
    requires forall f :: Announced(data, f) <==> f in m
    requires forall f :: f in m ==> DecodeField(data, f) == Success(m[f])
    ensures ParseBuffer(data) == Success(Parsed(UnitsOf(Mask(data)), m, AnnouncedLength(Mask(data))))
  {
    ParseBufferSucceedsIffAnnouncedDecode(data);
    ParseBufferConsumesAnnouncedLength(data);
    ParseBufferReadsAnnouncedFields(data);
    assert ParseBuffer(data).value.readings == m;
  }

  /** The bit guarding a field's row. */
  function RowBit(f: Field): (b: nat)
    ensures 1 <= b < 20
  {
    if Row(f) <= 4 then Row(f) + 1 else Row(f)
  }

  /** A field is announced exactly when the bit guarding its row is set. */
  lemma AnnouncedByRowBit(data: seq<byte>, f: Field)
    ensures Announced(data, f) <==> IsSet(Mask(data), RowBit(f))
  {
    if Row(f) < 10 {
      TableBitsBelow(Row(f));
    } else {
      TableBitsFrom(Row(f));
    }
  }

  /** A field is read after the flag bytes and the payload of every lower
      bit; height also after BMI, which shares its bit. */
  lemma FieldOffsetIsPayloadBefore(data: seq<byte>, f: Field)
    ensures FieldOffset(data, f) ==
      3 + PayloadWidth(Mask(data), RowBit(f)) + (if f == Height && IsSet(Mask(data), 5) then 2 else 0)
  {
    CursorAtRow(Mask(data), Row(f));
    assert Row(f) == 5 <==> f == Height;
  }

  lemma CursorAtRow(mask: nat, j: nat)
    requires j < 20
    ensures Cursor(Table, Selector(mask), j) ==
      3 + PayloadWidth(mask, if j <= 4 then j + 1 else j) + (if j == 5 && IsSet(mask, 5) then 2 else 0)
  {
    if j == 5 {
      CursorCountsFlagWidths(mask, 5);
      assert Bit(Table[4].flag) == 5;
      assert Cursor(Table, Selector(mask), 5) == Cursor(Table, Selector(mask), 4) + (if IsSet(mask, 5) then 2 else 0);
    } else {
      var b := if j <= 4 then j + 1 else j;
      assert RowStart(b) == j;
      CursorCountsFlagWidths(mask, b);
    }
  }

  // ---- what each field reads ----------------------------------------------

  /** An announced field lies after the flag bytes and inside the announced length. */
  lemma AnnouncedFieldFits(data: seq<byte>, f: Field)
    requires Announced(data, f)
    ensures 3 <= FieldOffset(data, f)
    ensures FieldOffset(data, f) + Table[Row(f)].width <= AnnouncedLength(Mask(data))
  {
    CursorMonotone(Table, Selector(Mask(data)), Row(f), |Table|);
    ConsumedIsAnnouncedLength(Mask(data));
  }

  /** The two little-endian bytes at an offset. */
  function Word(data: seq<byte>, at: nat): nat
    requires at + 2 <= |data|
  {
    LittleEndian(data[at..at + 2])
  }

  /** A 2-byte field of a complete buffer reads the word at its offset. */
  lemma WordFieldReadsWord(data: seq<byte>, f: Field)
    requires Announced(data, f) && Table[Row(f)].width == 2
    requires |data| >= AnnouncedLength(Mask(data))
    ensures FieldOffset(data, f) + 2 <= |data|
    ensures ReadRaw(data, FieldOffset(data, f), 2) == Success(Word(data, FieldOffset(data, f)))
  {
    AnnouncedFieldFits(data, f);
  }

  /** A scaled field of a complete buffer is its raw value times the
      resolution its row names, under the buffer's units. */
  lemma ScaledFieldReads(data: seq<byte>, f: Field)
    requires Announced(data, f) && Table[Row(f)].transform.Scaled?
    requires |data| >= AnnouncedLength(Mask(data))
    ensures ReadRaw(data, FieldOffset(data, f), Table[Row(f)].width).Success?
    ensures var e := Table[Row(f)];
      DecodeField(data, f) == Success(Quantity(Scale(ReadRaw(data, FieldOffset(data, f), e.width).value,
                                                     ResolutionOf(e.transform.res, UnitsOf(Mask(data))),
                                                     e.transform.places)))
  {
    AnnouncedFieldFits(data, f);
  }

  /** A scaled value that is a whole number of units of the last place is
      exactly that number. */
  lemma ExactScale(raw: nat, r: Ratio, places: nat, k: nat)
    requires raw * r.num * Pow10(places) == k * r.den
    ensures Scale(raw, r, places) == Fixed(k, places)
  {
    RoundHalfUpExact(raw * r.num, r.den, places, k);
  }

  lemma ExactScaleSteps(raw: nat)
    ensures Scale(raw, Ratio(5, 1000), 3) == Fixed(5 * raw, 3)
    ensures Scale(raw, Ratio(1, 100), 3) == Fixed(10 * raw, 3)
    ensures Scale(raw, Ratio(1, 1000), 3) == Fixed(raw, 3)
    ensures Scale(raw, Ratio(1, 10), 3) == Fixed(100 * raw, 3)
    ensures Scale(raw, Ratio(1, 2), 3) == Fixed(500 * raw, 3)
    ensures Scale(raw, Ratio(1, 10), 1) == Fixed(raw, 1)
  {
    assert Pow10(1) == 10;
    assert Pow10(3) == 1000;
    ExactScale(raw, Ratio(5, 1000), 3, 5 * raw);
    ExactScale(raw, Ratio(1, 100), 3, 10 * raw);
    ExactScale(raw, Ratio(1, 1000), 3, raw);
    ExactScale(raw, Ratio(1, 10), 3, 100 * raw);
    ExactScale(raw, Ratio(1, 2), 3, 500 * raw);
    ExactScale(raw, Ratio(1, 10), 1, raw);
  }

  /** Weight and the four mass fields. */
  predicate IsMass(f: Field) {
    f == Weight || f == MuscleMass || f == FatFreeMass || f == SoftLeanMass || f == BodyWaterMass
  }

  lemma MassRows(f: Field)
    requires IsMass(f)
    ensures Table[Row(f)].width == 2 && Table[Row(f)].transform == Scaled(WeightResolution, 3)
  {
  }

  /** Weight and the four mass fields are raw × 0.005 kg, or raw × 0.01 lb
      when bit 0 is set, exactly, as thousandths. */
  lemma MassIsRawTimesWeightResolution(data: seq<byte>, f: Field)
    requires IsMass(f)
    requires Announced(data, f)
    requires |data| >= AnnouncedLength(Mask(data))
    ensures FieldOffset(data, f) + 2 <= |data|
    ensures var raw := Word(data, FieldOffset(data, f));
      DecodeField(data, f) == Success(Quantity(Fixed(if IsSet(Mask(data), 0) then 10 * raw else 5 * raw, 3)))
  {
    MassRows(f);
    WordFieldReadsWord(data, f);
    ScaledFieldReads(data, f);
    var raw := Word(data, FieldOffset(data, f));
    ExactScaleSteps(raw);
  }

  /** The body-fat, muscle and skeletal-muscle percentages. */
  predicate IsPercentage(f: Field) {
    f == BodyFatPercentage || f == MusclePercentage || f == SkeletalMusclePercentage
  }

  lemma PercentageRows(f: Field)
    requires IsPercentage(f)
    ensures Table[Row(f)].width == 2 && Table[Row(f)].transform == Scaled(Constant(Ratio(1, 1000)), 3)
  {
  }

  /** The body-fat, muscle and skeletal-muscle percentages are raw × 0.001,
      so the raw value is the reading in thousandths. */
  lemma PercentageIsRawThousandths(data: seq<byte>, f: Field)
    requires IsPercentage(f)
    requires Announced(data, f)
    requires |data| >= AnnouncedLength(Mask(data))
    ensures FieldOffset(data, f) + 2 <= |data|
    ensures DecodeField(data, f) == Success(Quantity(Fixed(Word(data, FieldOffset(data, f)), 3)))
  {
    PercentageRows(f);
    WordFieldReadsWord(data, f);
    ScaledFieldReads(data, f);
    var raw := Word(data, FieldOffset(data, f));
    ExactScaleSteps(raw);
  }

  /** BMI and impedance. */
  predicate IsTenths(f: Field) {
    f == Bmi || f == Impedance
  }

  lemma TenthsRows(f: Field)
    requires IsTenths(f)
    ensures Table[Row(f)].width == 2 && Table[Row(f)].transform == Scaled(Constant(Ratio(1, 10)), 3)
  {
  }

  /** BMI and impedance are raw × 0.1, that is 100 × raw thousandths. */
  lemma TenthsAreRawTimesHundredThousandths(data: seq<byte>, f: Field)
    requires IsTenths(f)
    requires Announced(data, f)
    requires |data| >= AnnouncedLength(Mask(data))
    ensures FieldOffset(data, f) + 2 <= |data|
    ensures DecodeField(data, f) == Success(Quantity(Fixed(100 * Word(data, FieldOffset(data, f)), 3)))
  {
    TenthsRows(f);
    WordFieldReadsWord(data, f);
    ScaledFieldReads(data, f);
    var raw := Word(data, FieldOffset(data, f));
    ExactScaleSteps(raw);
  }

  /** Rounding thousandths of a metre half-up to tenths. */
  lemma MillimetresToTenths(raw: nat)
    ensures Scale(raw, Ratio(1, 1000), 1) == Fixed((raw + 50) / 100, 1)
  {
    assert Scale(raw, Ratio(1, 1000), 1).units == (20 * raw + 1000) / 2000;
    DivModUnique(20 * raw + 1000, 2000, (raw + 50) / 100, 20 * ((raw + 50) % 100));
  }

  /** Tenths of an inch stay as they are; thousandths of a metre round to tenths. */
  lemma HeightScale(raw: nat, imperial: bool)
    ensures Scale(raw, if imperial then Ratio(1, 10) else Ratio(1, 1000), 1) ==
      Fixed(if imperial then raw else (raw + 50) / 100, 1)
  {
    if imperial {
      assert Pow10(1) == 10;
      ExactScale(raw, Ratio(1, 10), 1, raw);
    } else {
      MillimetresToTenths(raw);
    }
  }

  lemma HeightRow()
    ensures Table[Row(Height)].width == 2 && Table[Row(Height)].transform == Scaled(HeightResolution, 1)
  {
  }

  /** Height is raw × 0.001 m rounded half-up to tenths of a metre, or raw ×
      0.1 in (exactly raw tenths of an inch) when bit 0 is set. */
  lemma HeightRoundsToTenths(data: seq<byte>)
    requires Announced(data, Height)
    requires |data| >= AnnouncedLength(Mask(data))
    ensures FieldOffset(data, Height) + 2 <= |data|
    ensures DecodeField(data, Height).Success? && DecodeField(data, Height).value.Quantity?
    ensures var raw, q := Word(data, FieldOffset(data, Height)), DecodeField(data, Height).value.q;
      && q.places == 1
      && (IsSet(Mask(data), 0) ==> q.units == raw)
      && (!IsSet(Mask(data), 0) ==> 100 * q.units <= raw + 50 < 100 * q.units + 100)
  {
    HeightReadsWord(data);
    HeightFromScale(DecodeField(data, Height), Word(data, FieldOffset(data, Height)), IsSet(Mask(data), 0));
  }

  lemma HeightReadsWord(data: seq<byte>)
    requires Announced(data, Height)
    requires |data| >= AnnouncedLength(Mask(data))
    ensures FieldOffset(data, Height) + 2 <= |data|
    ensures DecodeField(data, Height) == Success(Quantity(Scale(Word(data, FieldOffset(data, Height)),
      if IsSet(Mask(data), 0) then Ratio(1, 10) else Ratio(1, 1000), 1)))
  {
    HeightRow();
    WordFieldReadsWord(data, Height);
    ScaledFieldReads(data, Height);
  }

  lemma HeightFromScale(d: Result<Value>, raw: nat, imperial: bool)
    requires d == Success(Quantity(Scale(raw, if imperial then Ratio(1, 10) else Ratio(1, 1000), 1)))
    ensures d.Success? && d.value.Quantity? && d.value.q.places == 1
    ensures imperial ==> d.value.q.units == raw
    ensures !imperial ==> 100 * d.value.q.units <= raw + 50 < 100 * d.value.q.units + 100
  {
    HeightScale(raw, imperial);
  }

  /** Visceral fat is one byte × 0.5, that is 500 × raw thousandths. */
  lemma VisceralFatIsHalfSteps(data: seq<byte>)
    requires Announced(data, VisceralFatLevel)
    requires |data| >= AnnouncedLength(Mask(data))
    ensures FieldOffset(data, VisceralFatLevel) < |data|
    ensures DecodeField(data, VisceralFatLevel) ==
      Success(Quantity(Fixed(500 * (data[FieldOffset(data, VisceralFatLevel)] as int), 3)))
  {
    VisceralFatReadsByte(data);
    HalfStepsFromScale(DecodeField(data, VisceralFatLevel), data[FieldOffset(data, VisceralFatLevel)]);
  }

  lemma VisceralFatRow()
    ensures Table[Row(VisceralFatLevel)].width == 1
    ensures Table[Row(VisceralFatLevel)].transform == Scaled(Constant(Ratio(1, 2)), 3)
  {
  }

  lemma VisceralFatReadsByte(data: seq<byte>)
    requires Announced(data, VisceralFatLevel)
    requires |data| >= AnnouncedLength(Mask(data))
    ensures FieldOffset(data, VisceralFatLevel) < |data|
    ensures DecodeField(data, VisceralFatLevel) ==
      Success(Quantity(Scale(data[FieldOffset(data, VisceralFatLevel)] as nat, Ratio(1, 2), 3)))
  {
    VisceralFatRow();
    AnnouncedFieldFits(data, VisceralFatLevel);
    ScaledFieldReads(data, VisceralFatLevel);
  }

  lemma HalfStepsFromScale(d: Result<Value>, raw: nat)
    requires d == Success(Quantity(Scale(raw, Ratio(1, 2), 3)))
    ensures d == Success(Quantity(Fixed(500 * raw, 3)))
  {
    ExactScaleSteps(raw);
  }

  /** An integer field reads its raw value, failing where the read fails. */
  lemma IntegerFieldReads(data: seq<byte>, f: Field)
    requires Table[Row(f)].transform == Integer
    ensures var raw := ReadRaw(data, FieldOffset(data, f), Table[Row(f)].width);
      && (DecodeField(data, f).Success? <==> raw.Success?)
      && (raw.Success? ==> DecodeField(data, f) == Success(Count(raw.value)))
  {
  }

  /** The sequence number and basal metabolism. */
  predicate IsWordCount(f: Field) {
    f == SequenceNumber || f == BasalMetabolism
  }

  lemma WordCountRows(f: Field)
    requires IsWordCount(f)
    ensures Table[Row(f)].width == 2 && Table[Row(f)].transform == Integer
  {
  }

  /** The sequence number and basal metabolism are the word at their offset. */
  lemma CountWordIsRaw(data: seq<byte>, f: Field)
    requires IsWordCount(f)
    requires Announced(data, f)
    requires |data| >= AnnouncedLength(Mask(data))
    ensures FieldOffset(data, f) + 2 <= |data|
    ensures DecodeField(data, f) == Success(Count(Word(data, FieldOffset(data, f))))
  {
    WordCountRows(f);
    WordFieldReadsWord(data, f);
    IntegerFieldReads(data, f);
  }

  /** The user id, body age and the three stage evaluations. */
  predicate IsByteCount(f: Field) {
    f == UserId || f == BodyAge || f == BodyFatPercentageStageEvaluation
    || f == SkeletalMusclePercentageStageEvaluation || f == VisceralFatLevelStageEvaluation
  }

  lemma ByteCountRows(f: Field)
    requires IsByteCount(f)
    ensures Table[Row(f)].width == 1 && Table[Row(f)].transform == Integer
  {
  }

  /** The user id, body age and the three stage evaluations are the byte at
      their offset; past the end of the buffer they fail, even in a buffer
      whose flags announce them. */
  lemma CountByteIsRaw(data: seq<byte>, f: Field)
    requires IsByteCount(f)
    ensures DecodeField(data, f).Success? <==> FieldOffset(data, f) < |data|
    ensures FieldOffset(data, f) < |data| ==> DecodeField(data, f) == Success(Count(data[FieldOffset(data, f)]))
  {
    ByteCountRows(f);
    IntegerFieldReads(data, f);
  }

  /** The stamp is the seven bytes at its offset, read as a UTC wall clock. */
  lemma StampIsEpochSeconds(data: seq<byte>)
    requires Announced(data, TimeStamp)
    requires |data| >= AnnouncedLength(Mask(data))
    ensures FieldOffset(data, TimeStamp) + 7 <= |data|
    ensures var o := FieldOffset(data, TimeStamp);
      match ParseTimestamp(data[o..o + 7])
      case Success(t) => DecodeField(data, TimeStamp) == Success(Instant(t))
      case Failure(e) => DecodeField(data, TimeStamp) == Failure(e)
  {
    AnnouncedFieldFits(data, TimeStamp);
  }

  // ---- complete and truncated buffers --------------------------------------

  /** The stamp is the only row read as a date. */
  lemma StampRow(f: Field)
    ensures Table[Row(f)].transform.Stamp? <==> f == TimeStamp
  {
  }

  /** A row other than the stamp decodes whenever its bytes lie inside the buffer. */
  lemma EntryDecodesWhenItFits(e: Entry, data: seq<byte>, at: nat, units: Units)
    requires !e.transform.Stamp?
    requires at + e.width <= |data|
    ensures DecodeEntry(e, data, at, units).Success?
  {
  }

  /** Whether a buffer's stamp, when announced, is a date `time.strptime` accepts. */
  predicate StampAccepted(data: seq<byte>) {
    var o := FieldOffset(data, TimeStamp);
    Announced(data, TimeStamp) ==> ParseTimestamp(Slice(data, o, o + 7)).Success?
  }

  /** In a buffer at least as long as its flags announce, every field but the
      stamp decodes, so the buffer parses exactly when its stamp is accepted. */
  lemma CompleteBufferParses(data: seq<byte>)
    requires |data| >= AnnouncedLength(Mask(data))
    ensures ParseBuffer(data).Success? <==> StampAccepted(data)
  {
    ParseBufferSucceedsIffAnnouncedDecode(data);
    forall f | Announced(data, f) && f != TimeStamp
      ensures DecodeField(data, f).Success?
    {
      AnnouncedFieldFits(data, f);
      StampRow(f);
      EntryDecodesWhenItFits(Table[Row(f)], data, FieldOffset(data, f), UnitsOf(Mask(data)));
    }
    if Announced(data, TimeStamp) {
      StampIsEpochSeconds(data);
    }
  }

  /** One buffer parsed with a length check first: a buffer shorter than its
      flags announce is a truncated record. */
  function StrictParseBuffer(data: seq<byte>): (r: Result<Parsed>)
    ensures |data| < AnnouncedLength(Mask(data)) ==> r == Failure(TruncatedRecord)
  {
    if |data| < AnnouncedLength(Mask(data)) then Failure(TruncatedRecord) else ParseBuffer(data)
  }

  /** The strict parse accepts exactly the complete buffers whose stamp is
      accepted, never reads past the end, and agrees with the plain parse on
      every buffer it accepts. */
  lemma StrictParseReadsWithinBuffer(data: seq<byte>)
    ensures StrictParseBuffer(data).Success? <==>
      |data| >= AnnouncedLength(Mask(data)) && StampAccepted(data)
    ensures StrictParseBuffer(data).Success? ==>
      && StrictParseBuffer(data).value.consumed <= |data|
      && StrictParseBuffer(data) == ParseBuffer(data)
  {
    if |data| >= AnnouncedLength(Mask(data)) {
      CompleteBufferParses(data);
      ParseBufferConsumesAnnouncedLength(data);
    }
  }

  /** A 4-byte buffer `06 00 00 b`: its flags announce a sequence number and
      a weight, four bytes of payload of which only one is there. */
  function Truncated(b: byte): (data: seq<byte>)
    ensures |data| == 4
  {
    [0x06, 0x00, 0x00, b]
  }


  /** Mask 6 sets bits 1 and 2 only. */
  lemma BitsOfSix(c: nat)
    requires c < 21
    ensures IsSet(6, c) <==> c == 1 || c == 2
  {
    if c >= 3 {
      HighBitsClear(6, 3, c);
    }
  }

  lemma TruncatedAnnounces(b: byte)
    ensures Mask(Truncated(b)) == 6
    ensures AnnouncedLength(6) == 7
    ensures forall f :: Announced(Truncated(b), f) <==> f == SequenceNumber || f == Weight
  {
    MaskReadsFirstThreeBytes(Truncated(b));
    SixAnnouncesSeven();
    forall f
      ensures Announced(Truncated(b), f) <==> f == SequenceNumber || f == Weight
    {
      AnnouncedByRowBit(Truncated(b), f);
      FieldsOfSix(f);
    }
  }

  lemma SixAnnouncesSeven()
    ensures AnnouncedLength(6) == 7
  {
    AllFlagsInBitOrder();
    BitsOfSix(0);
    BitsOfSix(1);
    BitsOfSix(2);
    SmallMaskPayload(6, 3);
  }

  lemma FieldsOfSix(f: Field)
    ensures IsSet(6, RowBit(f)) <==> f == SequenceNumber || f == Weight
  {
    BitsOfSix(RowBit(f));
  }

  /** What the two announced fields of that buffer decode to: the sequence
      number from the one byte left, the weight from none. */
  lemma TruncatedFields(b: byte)
    ensures DecodeField(Truncated(b), SequenceNumber) == Success(Count(b as nat))
    ensures DecodeField(Truncated(b), Weight) == Success(Quantity(Fixed(0, 3)))
  {
    TruncatedSequenceNumber(b);
    TruncatedWeight(b);
  }

  lemma TruncatedSequenceNumber(b: byte)
    ensures DecodeField(Truncated(b), SequenceNumber) == Success(Count(b as nat))
  {
    var data := Truncated(b);
    assert FieldOffset(data, SequenceNumber) == 3;
    assert Slice(data, 3, 5) == [b];
  }

  lemma TruncatedWeight(b: byte)
    ensures DecodeField(Truncated(b), Weight) == Success(Quantity(Fixed(0, 3)))
  {
    var data := Truncated(b);
    TruncatedWeightOffset(b);
    MassRows(Weight);
    BitsOfSix(0);
    assert Slice(data, 5, 7) == [];
    assert ReadRaw(data, 5, 2) == Success(0);
    ExactScaleSteps(0);
  }

  /** In that buffer the weight is read at 5, after the sequence number. */
  lemma TruncatedWeightOffset(b: byte)
    ensures Mask(Truncated(b)) == 6
    ensures FieldOffset(Truncated(b), Weight) == 5
  {
    MaskReadsFirstThreeBytes(Truncated(b));
    FieldOffsetIsPayloadBefore(Truncated(b), Weight);
    BitsOfSix(0);
    BitsOfSix(1);
    assert RowBit(Weight) == 2;
    assert PayloadWidth(6, 2) == 2;
  }

  /** The plain parse accepts that buffer and claims seven bytes of four. */
  lemma ParseBufferAcceptsTruncatedRecord(b: byte)
    ensures ParseBuffer(Truncated(b)) ==
      Success(Parsed(Metric, map[SequenceNumber := Count(b as nat), Weight := Quantity(Fixed(0, 3))], 7))
    ensures 7 > |Truncated(b)|
  {
    var m := map[SequenceNumber := Count(b as nat), Weight := Quantity(Fixed(0, 3))];
    TruncatedAnnounces(b);
    TruncatedFields(b);
    BitsOfSix(0);
    ParseBufferReadsExactly(Truncated(b), m);
  }

  /** The strict parse rejects it. */
  lemma StrictParseRejectsTruncatedRecord(b: byte)
    ensures StrictParseBuffer(Truncated(b)) == Failure(TruncatedRecord)
  {
    TruncatedAnnounces(b);
  }
}
