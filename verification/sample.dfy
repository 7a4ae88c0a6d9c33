/** The three-record buffer the repository decodes in its own usage example,
    and the layout of the two buffer kinds it consists of. */
module SampleRecords {
  import opened Wrappers
  import opened Bytes
  import opened Flags
  import opened Clock
  import opened FixedPoint
  import opened Measurement
  import opened MeasurementRecord
  import opened Chunks

  /** The flags of a first buffer: sequence number, weight, time stamp, user
      id, BMI with height, and the multi-packet bit. */
  const FirstMask: nat := 0x10003e

  /** The flags of a second buffer: sequence number, body fat, basal
      metabolism, skeletal muscle, visceral fat, body age, the three stage
      evaluations, and the multi-packet bit. */
  const SecondMask: nat := 0x1fc0c2

  lemma FirstMaskBits(c: nat)
    requires c < 21
    ensures IsSet(FirstMask, c) <==> 1 <= c <= 5 || c == 20
  {
  }

  lemma SecondMaskBits(c: nat)
    requires c < 21
    ensures IsSet(SecondMask, c) <==> c == 1 || c == 6 || c == 7 || 14 <= c <= 20
  {
  }

  lemma FirstMaskLowBits()
    ensures !IsSet(FirstMask, 0) && IsSet(FirstMask, 1) && IsSet(FirstMask, 2) && IsSet(FirstMask, 3)
  {
  }

  lemma FirstMaskHighBits()
    ensures IsSet(FirstMask, 4) && IsSet(FirstMask, 5)
  {
  }

  /** Payload before each bit of the first mask: 2 + 2 + 7 + 1 + 4 bytes. */
  lemma FirstMaskPayload()
    ensures PayloadWidth(FirstMask, 1) == 0 && PayloadWidth(FirstMask, 2) == 2
    ensures PayloadWidth(FirstMask, 3) == 4 && PayloadWidth(FirstMask, 4) == 11
    ensures PayloadWidth(FirstMask, 5) == 12 && PayloadWidth(FirstMask, 21) == 16
  {
    AllFlagsInBitOrder();
    FirstMaskBits(0);
    FirstMaskBits(1);
    FirstMaskBits(2);
    FirstMaskBits(3);
    FirstMaskBits(4);
    FirstMaskBits(5);
    assert PayloadWidth(FirstMask, 6) == 16;
    forall c | 6 <= c < 21
      ensures BitWidth(FirstMask, c) == 0
    {
      FirstMaskBits(c);
    }
    PayloadWidthFlat(FirstMask, 6, 21);
  }

  lemma SecondMaskPayloadLow()
    ensures PayloadWidth(SecondMask, 1) == 0 && PayloadWidth(SecondMask, 6) == 2
    ensures PayloadWidth(SecondMask, 7) == 4 && PayloadWidth(SecondMask, 8) == 6
  {
    AllFlagsInBitOrder();
    SecondMaskBits(0);
    SecondMaskBits(1);
    assert PayloadWidth(SecondMask, 2) == 2;
    forall c: nat | 2 <= c < 6
      ensures BitWidth(SecondMask, c) == 0
    {
      SecondMaskBits(c);
    }
    PayloadWidthFlat(SecondMask, 2, 6);
    SecondMaskBits(6);
    SecondMaskBits(7);
  }

  /** Payload before each bit of the second mask: 2 + 2 + 2 + 2 + 1 + 1 + 1 + 1 + 1 bytes. */
  lemma SecondMaskPayload()
    ensures PayloadWidth(SecondMask, 1) == 0 && PayloadWidth(SecondMask, 6) == 2
    ensures PayloadWidth(SecondMask, 7) == 4 && PayloadWidth(SecondMask, 14) == 6
    ensures PayloadWidth(SecondMask, 15) == 8 && PayloadWidth(SecondMask, 16) == 9
    ensures PayloadWidth(SecondMask, 17) == 10 && PayloadWidth(SecondMask, 18) == 11
    ensures PayloadWidth(SecondMask, 19) == 12 && PayloadWidth(SecondMask, 21) == 13
  {
    AllFlagsInBitOrder();
    SecondMaskPayloadLow();
    forall c: nat | 8 <= c < 14
      ensures BitWidth(SecondMask, c) == 0
    {
      SecondMaskBits(c);
    }
    PayloadWidthFlat(SecondMask, 8, 14);
    SecondMaskBits(14);
    SecondMaskBits(15);
    SecondMaskBits(16);
    SecondMaskBits(17);
    SecondMaskBits(18);
    SecondMaskBits(19);
    SecondMaskBits(20);
  }

  // ---- the two buffer kinds ---------------------------------------------

  /** Whether a buffer starts with the first mask's flag bytes `3e 00 10`. */
  predicate FirstKind(d: seq<byte>) {
    |d| >= 3 && d[0] == 0x3e && d[1] == 0x00 && d[2] == 0x10
  }

  /** The fields of a first buffer. */
  const FirstFields: set<Field> := {SequenceNumber, Weight, TimeStamp, UserId, Bmi, Height}

  /** A first buffer announces 19 bytes. */
  lemma FirstKindLength(d: seq<byte>)
    requires FirstKind(d)
    ensures Mask(d) == FirstMask && AnnouncedLength(Mask(d)) == 19
  {
    MaskReadsFirstThreeBytes(d);
    FirstMaskPayload();
  }

  /** A first buffer announces exactly the six fields of a first buffer. */
  lemma FirstKindAnnounces(d: seq<byte>)
    requires FirstKind(d)
    ensures forall f :: Announced(d, f) <==> f in FirstFields
  {
    MaskReadsFirstThreeBytes(d);
    assert Mask(d) == FirstMask;
    forall f
      ensures Announced(d, f) <==> f in FirstFields
    {
      AnnouncedByRowBit(d, f);
      FirstMaskFields(f);
    }
  }

  lemma FirstMaskFields(f: Field)
    ensures IsSet(FirstMask, RowBit(f)) <==> f in FirstFields
  {
    FirstMaskBits(RowBit(f));
  }

  /** The cursor before each of the first six rows under the first mask. */
  lemma FirstMaskCursors()
    ensures Cursor(Table, Selector(FirstMask), 1) == 5 && Cursor(Table, Selector(FirstMask), 2) == 7
    ensures Cursor(Table, Selector(FirstMask), 3) == 14 && Cursor(Table, Selector(FirstMask), 4) == 15
    ensures Cursor(Table, Selector(FirstMask), 5) == 17
  {
    FirstMaskLowBits();
    FirstMaskHighBits();
  }

  /** In a first buffer the sequence number is at 3, the weight at 5, the
      stamp at 7, the user id at 14, BMI at 15 and height at 17. */
  lemma FirstKindOffsets(d: seq<byte>)
    requires FirstKind(d)
    ensures FieldOffset(d, SequenceNumber) == 3 && FieldOffset(d, Weight) == 5
    ensures FieldOffset(d, TimeStamp) == 7 && FieldOffset(d, UserId) == 14
    ensures FieldOffset(d, Bmi) == 15 && FieldOffset(d, Height) == 17
  {
    MaskReadsFirstThreeBytes(d);
    FirstMaskCursors();
  }

  /** The integer fields of a complete first buffer: the sequence number is
      the word at 3 and the user id the byte at 14. */
  lemma FirstKindCounts(d: seq<byte>)
    requires FirstKind(d) && |d| >= 19
    ensures DecodeField(d, SequenceNumber) == Success(Count(Word(d, 3)))
    ensures DecodeField(d, UserId) == Success(Count(d[14]))
  {
    FirstKindLength(d);
    FirstKindAnnounces(d);
    FirstKindOffsets(d);
    CountWordIsRaw(d, SequenceNumber);
    CountByteIsRaw(d, UserId);
  }

  /** Weight in a complete metric first buffer is the word at 5 in steps of 5 g. */
  lemma FirstKindWeight(d: seq<byte>)
    requires FirstKind(d) && |d| >= 19
    ensures DecodeField(d, Weight) == Success(Quantity(Fixed(5 * Word(d, 5), 3)))
  {
    FirstKindLength(d);
    FirstKindAnnounces(d);
    FirstKindOffsets(d);
    FirstMaskBits(0);
    MassIsRawTimesWeightResolution(d, Weight);
  }

  /** BMI in a complete first buffer is the word at 15 in tenths. */
  lemma FirstKindBmi(d: seq<byte>)
    requires FirstKind(d) && |d| >= 19
    ensures DecodeField(d, Bmi) == Success(Quantity(Fixed(100 * Word(d, 15), 3)))
  {
    FirstKindLength(d);
    FirstKindAnnounces(d);
    FirstKindOffsets(d);
    TenthsAreRawTimesHundredThousandths(d, Bmi);
  }

  /** Height in a complete metric first buffer is the word at 17 in
      millimetres, scaled to metres and rounded to one place. */
  lemma FirstKindHeight(d: seq<byte>)
    requires FirstKind(d) && |d| >= 19
    ensures DecodeField(d, Height) == Success(Quantity(Scale(Word(d, 17), Ratio(1, 1000), 1)))
  {
    FirstKindLength(d);
    FirstKindAnnounces(d);
    FirstKindOffsets(d);
    FirstMaskBits(0);
    HeightReadsWord(d);
  }

  /** The stamp of a complete first buffer is the seven bytes at 7. */
  lemma FirstKindStamp(d: seq<byte>)
    requires FirstKind(d) && |d| >= 19
    ensures ParseTimestamp(d[7..14]).Success? ==>
      DecodeField(d, TimeStamp) == Success(Instant(ParseTimestamp(d[7..14]).value))
  {
    FirstKindLength(d);
    FirstKindAnnounces(d);
    FirstKindOffsets(d);
    StampIsEpochSeconds(d);
  }

  // ---- the second buffer kind ----------------------------------------------

  /** Whether a buffer starts with the second mask's flag bytes `c2 c0 1f`. */
  predicate SecondKind(d: seq<byte>) {
    |d| >= 3 && d[0] == 0xc2 && d[1] == 0xc0 && d[2] == 0x1f
  }

  /** The fields of a second buffer. */
  const SecondFields: set<Field> := {SequenceNumber, BodyFatPercentage, BasalMetabolism, SkeletalMusclePercentage,
    VisceralFatLevel, BodyAge, BodyFatPercentageStageEvaluation, SkeletalMusclePercentageStageEvaluation,
    VisceralFatLevelStageEvaluation}

  /** A second buffer announces 16 bytes. */
  lemma SecondKindLength(d: seq<byte>)
    requires SecondKind(d)
    ensures Mask(d) == SecondMask && AnnouncedLength(Mask(d)) == 16
  {
    MaskReadsFirstThreeBytes(d);
    SecondMaskPayload();
  }

  /** A second buffer announces exactly the nine fields of a second buffer. */
  lemma SecondKindAnnounces(d: seq<byte>)
    requires SecondKind(d)
    ensures forall f :: Announced(d, f) <==> f in SecondFields
  {
    MaskReadsFirstThreeBytes(d);
    assert Mask(d) == SecondMask;
    forall f
      ensures Announced(d, f) <==> f in SecondFields
    {
      AnnouncedByRowBit(d, f);
      SecondMaskFields(f);
    }
  }

  lemma SecondMaskFields(f: Field)
    ensures IsSet(SecondMask, RowBit(f)) <==> f in SecondFields
  {
    SecondMaskBits(RowBit(f));
  }

  // ---- a record made of a first and a second buffer -------------------------

  /** A complete first buffer with an accepted stamp followed by a complete
      second buffer. */
  predicate Chunk(d1: seq<byte>, d2: seq<byte>) {
    && FirstKind(d1) && |d1| >= 19 && ParseTimestamp(d1[7..14]).Success?
    && SecondKind(d2) && |d2| >= 16
  }

  /** A complete first buffer with an accepted stamp parses. */
  lemma FirstKindParses(d: seq<byte>)
    requires FirstKind(d) && |d| >= 19 && ParseTimestamp(d[7..14]).Success?
    ensures Parses(d)
  {
    FirstKindLength(d);
    FirstKindOffsets(d);
    assert Slice(d, 7, 14) == d[7..14];
  }

  /** A complete second buffer parses: it carries no stamp. */
  lemma SecondKindParses(d: seq<byte>)
    requires SecondKind(d) && |d| >= 16
    ensures Parses(d)
  {
    SecondKindLength(d);
    AnnouncedByRowBit(d, TimeStamp);
    SecondMaskBits(3);
  }

  /** Such a pair builds a record. */
  lemma ChunkBuildsRecord(d1: seq<byte>, d2: seq<byte>)
    requires Chunk(d1, d2)
    ensures FromBuffers(d1, d2).Success?
  {
    FirstKindParses(d1);
    SecondKindParses(d2);
    FromBuffersSucceeds(d1, d2);
  }

  /** The record holds a reading for the fields of both buffers and no other. */
  lemma ChunkFields(d1: seq<byte>, d2: seq<byte>)
    requires Chunk(d1, d2)
    ensures FromBuffers(d1, d2).Success?
    ensures FromBuffers(d1, d2).value.readings.Keys == FirstFields + SecondFields
  {
    ChunkBuildsRecord(d1, d2);
    FirstKindAnnounces(d1);
    SecondKindAnnounces(d2);
    FromBuffersReadings(d1, d2);
  }

  /** A field only the first buffer announces is read from the first buffer. */
  lemma ReadsFirst(d1: seq<byte>, d2: seq<byte>, f: Field)
    requires FromBuffers(d1, d2).Success?
    requires Announced(d1, f) && !Announced(d2, f)
    ensures f in FromBuffers(d1, d2).value.readings
    ensures Success(FromBuffers(d1, d2).value.readings[f]) == DecodeField(d1, f)
  {
    FromBuffersReadings(d1, d2);
  }

  /** A field a non-empty second buffer announces is read from the second buffer. */
  lemma ReadsSecond(d1: seq<byte>, d2: seq<byte>, f: Field)
    requires FromBuffers(d1, d2).Success?
    requires |d2| > 0 && Announced(d2, f)
    ensures f in FromBuffers(d1, d2).value.readings
    ensures Success(FromBuffers(d1, d2).value.readings[f]) == DecodeField(d2, f)
  {
    FromBuffersReadings(d1, d2);
  }

  /** The weight, stamp and user id are in a first buffer and not in a second. */
  lemma OnlyFirstAnnounces(d1: seq<byte>, d2: seq<byte>)
    requires FirstKind(d1) && SecondKind(d2)
    ensures Announced(d1, Weight) && !Announced(d2, Weight)
    ensures Announced(d1, TimeStamp) && !Announced(d2, TimeStamp)
    ensures Announced(d1, UserId) && !Announced(d2, UserId)
  {
    MaskReadsFirstThreeBytes(d1);
    MaskReadsFirstThreeBytes(d2);
    FirstMaskLowBits();
    FirstMaskHighBits();
    SecondMaskBits(2);
    SecondMaskBits(3);
    SecondMaskBits(4);
    AnnouncedByRowBit(d1, Weight);
    AnnouncedByRowBit(d2, Weight);
    AnnouncedByRowBit(d1, TimeStamp);
    AnnouncedByRowBit(d2, TimeStamp);
    AnnouncedByRowBit(d1, UserId);
    AnnouncedByRowBit(d2, UserId);
  }

  /** The record's sequence number is the one the second buffer announces. */
  lemma ChunkSequenceNumber(d1: seq<byte>, d2: seq<byte>)
    requires Chunk(d1, d2)
    ensures FromBuffers(d1, d2).Success?
    ensures var r := FromBuffers(d1, d2).value;
      SequenceNumber in r.readings && r.readings[SequenceNumber] == Count(Word(d2, 3))
  {
    ChunkBuildsRecord(d1, d2);
    SecondKindLength(d2);
    MaskReadsFirstThreeBytes(d2);
    SecondMaskBits(1);
    AnnouncedByRowBit(d2, SequenceNumber);
    ReadsSecond(d1, d2, SequenceNumber);
    CountWordIsRaw(d2, SequenceNumber);
  }

  /** The record's weight, in thousandths of a kilogram, is five times the
      word at 5 of the first buffer. */
  lemma ChunkWeight(d1: seq<byte>, d2: seq<byte>)
    requires Chunk(d1, d2)
    ensures FromBuffers(d1, d2).Success?
    ensures var r := FromBuffers(d1, d2).value;
      Weight in r.readings && r.readings[Weight] == Quantity(Fixed(5 * Word(d1, 5), 3))
  {
    ChunkBuildsRecord(d1, d2);
    OnlyFirstAnnounces(d1, d2);
    ReadsFirst(d1, d2, Weight);
    FirstKindWeight(d1);
  }

  /** The record's user id is byte 14 of the first buffer. */
  lemma ChunkUser(d1: seq<byte>, d2: seq<byte>)
    requires Chunk(d1, d2)
    ensures FromBuffers(d1, d2).Success?
    ensures var r := FromBuffers(d1, d2).value;
      UserId in r.readings && r.readings[UserId] == Count(d1[14])
  {
    ChunkBuildsRecord(d1, d2);
    OnlyFirstAnnounces(d1, d2);
    ReadsFirst(d1, d2, UserId);
    FirstKindCounts(d1);
  }

  /** The record's stamp is the seven bytes at 7 of the first buffer. */
  lemma ChunkStamp(d1: seq<byte>, d2: seq<byte>)
    requires Chunk(d1, d2)
    ensures FromBuffers(d1, d2).Success?
    ensures var r := FromBuffers(d1, d2).value;
      TimeStamp in r.readings && r.readings[TimeStamp] == Instant(ParseTimestamp(d1[7..14]).value)
  {
    ChunkBuildsRecord(d1, d2);
    OnlyFirstAnnounces(d1, d2);
    ReadsFirst(d1, d2, TimeStamp);
    FirstKindStamp(d1);
  }

  /** The record is metric: neither buffer sets bit 0. */
  lemma ChunkUnits(d1: seq<byte>, d2: seq<byte>)
    requires Chunk(d1, d2)
    ensures FromBuffers(d1, d2).Success?
    ensures FromBuffers(d1, d2).value.weightUnit == "kg" && FromBuffers(d1, d2).value.heightUnit == "m"
  {
    ChunkBuildsRecord(d1, d2);
    FromBuffersUnits(d1, d2);
    MaskReadsFirstThreeBytes(d2);
    SecondMaskBits(0);
  }

  // ---- the sample buffer ----------------------------------------------------

  const FirstOfRecord1: seq<byte> :=
    [0x3e, 0x00, 0x10, 0x01, 0x00, 0x90, 0x3d, 0xe8, 0x07, 0x0c, 0x01, 0x0a, 0x17, 0x38, 0x01, 0xfe, 0x00, 0xe0, 0x06]
  const SecondOfRecord1: seq<byte> :=
    [0xc2, 0xc0, 0x1f, 0x01, 0x00, 0xe9, 0x00, 0x9a, 0x1b, 0x60, 0x01, 0x08, 0x34, 0x09, 0x06, 0x06]
  const FirstOfRecord2: seq<byte> :=
    [0x3e, 0x00, 0x10, 0x02, 0x00, 0x90, 0x3d, 0xe8, 0x07, 0x0c, 0x01, 0x0a, 0x2b, 0x17, 0x01, 0xfe, 0x00, 0xe0, 0x06]
  const SecondOfRecord2: seq<byte> :=
    [0xc2, 0xc0, 0x1f, 0x02, 0x00, 0xec, 0x00, 0x47, 0x1b, 0x57, 0x01, 0x08, 0x37, 0x09, 0x06, 0x06]
  const FirstOfRecord3: seq<byte> :=
    [0x3e, 0x00, 0x10, 0x03, 0x00, 0xcc, 0x3d, 0xe8, 0x07, 0x0c, 0x1e, 0x10, 0x1c, 0x2d, 0x01, 0xff, 0x00, 0xe0, 0x06]
  const SecondOfRecord3: seq<byte> :=
    [0xc2, 0xc0, 0x1f, 0x03, 0x00, 0xdd, 0x00, 0xbb, 0x1c, 0x7e, 0x01, 0x08, 0x2b, 0x09, 0x06, 0x06]

  const SamplePairs: seq<(seq<byte>, seq<byte>)> :=
    [(FirstOfRecord1, SecondOfRecord1), (FirstOfRecord2, SecondOfRecord2), (FirstOfRecord3, SecondOfRecord3)]

  /** The 105-byte buffer of the usage example. */
  const Sample: seq<byte> := Join(SamplePairs)

  /** Seven stamp bytes spelling out an accepted wall clock convert to its
      epoch seconds. */
  lemma StampOfBytes(b: seq<byte>, c: WallClock)
    requires |b| == 7 && b[0] as nat + 256 * b[1] as nat == c.year
    requires b[2] == c.month && b[3] == c.day && b[4] == c.hour && b[5] == c.minute && b[6] == c.second
    requires Accepted(c)
    ensures ParseTimestamp(b) == Success(EpochSeconds(c))
  {
    TwoBytes(b[0..2]);
  }

  /** December 2024 starts on day 20058 after the epoch. */
  lemma December2024(d: nat)
    requires 1 <= d <= 31
    ensures IsDate(2024, 12, d) && DayNumber(2024, 12, d) == 20057 + d
  {
    assert DaysBeforeYear(2024) == 738885;
    assert DaysBeforeMonth(2024, 12) == 335;
  }

  /** A December 2024 wall clock converts to its epoch seconds. */
  lemma December2024Stamp(b: seq<byte>, d: nat, hh: nat, mm: nat, ss: nat)
    requires 1 <= d <= 31 && hh <= 23 && mm <= 59 && ss <= 59
    requires b == [0xe8, 0x07, 0x0c, d as byte, hh as byte, mm as byte, ss as byte]
    ensures ParseTimestamp(b) == Success((20057 + d) * 86400 + hh * 3600 + mm * 60 + ss)
  {
    December2024(d);
    StampOfBytes(b, WallClock(2024, 12, d, hh, mm, ss));
  }

  lemma SampleStamp1()
    ensures ParseTimestamp(FirstOfRecord1[7..14]) == Success(1733048636)
  {
    assert FirstOfRecord1[7..14] == [0xe8, 0x07, 0x0c, 0x01, 0x0a, 0x17, 0x38];
    December2024Stamp(FirstOfRecord1[7..14], 1, 10, 23, 56);
  }

  lemma SampleStamp2()
    ensures ParseTimestamp(FirstOfRecord2[7..14]) == Success(1733049803)
  {
    assert FirstOfRecord2[7..14] == [0xe8, 0x07, 0x0c, 0x01, 0x0a, 0x2b, 0x17];
    December2024Stamp(FirstOfRecord2[7..14], 1, 10, 43, 23);
  }

  lemma SampleStamp3()
    ensures ParseTimestamp(FirstOfRecord3[7..14]) == Success(1735576125)
  {
    assert FirstOfRecord3[7..14] == [0xe8, 0x07, 0x0c, 0x1e, 0x10, 0x1c, 0x2d];
    December2024Stamp(FirstOfRecord3[7..14], 30, 16, 28, 45);
  }

  /** A metric record with the given sequence number, weight in thousandths
      of a kilogram, user id and stamp. */
  predicate Shows(r: Record, seqNo: nat, thousandths: nat, user: nat, stamp: int) {
    && r.weightUnit == "kg" && r.heightUnit == "m"
    && SequenceNumber in r.readings && r.readings[SequenceNumber] == Count(seqNo)
    && Weight in r.readings && r.readings[Weight] == Quantity(Fixed(thousandths, 3))
    && UserId in r.readings && r.readings[UserId] == Count(user)
    && TimeStamp in r.readings && r.readings[TimeStamp] == Instant(stamp)
  }

  /** A pair of buffers shows the values its bytes spell out. */
  lemma ChunkShows(d1: seq<byte>, d2: seq<byte>, seqNo: nat, thousandths: nat, user: nat, stamp: int)
    requires Chunk(d1, d2)
    requires d2[3] as nat + 256 * d2[4] as nat == seqNo
    requires 5 * (d1[5] as nat + 256 * d1[6] as nat) == thousandths
    requires d1[14] == user
    requires ParseTimestamp(d1[7..14]) == Success(stamp)
    ensures FromBuffers(d1, d2).Success? && Shows(FromBuffers(d1, d2).value, seqNo, thousandths, user, stamp)
  {
    ChunkUnits(d1, d2);
    ChunkSequenceNumber(d1, d2);
    ChunkWeight(d1, d2);
    ChunkUser(d1, d2);
    ChunkStamp(d1, d2);
    TwoBytes(d2[3..5]);
    TwoBytes(d1[5..7]);
  }

  /** Both buffers of such a pair are consumed to their last byte. */
  lemma ChunkConsumesBoth(d1: seq<byte>, d2: seq<byte>)
    requires Chunk(d1, d2) && |d1| == 19 && |d2| == 16
    ensures StrictParseBuffer(d1).Success? && StrictParseBuffer(d1).value.consumed == |d1|
    ensures StrictParseBuffer(d2).Success? && StrictParseBuffer(d2).value.consumed == |d2|
  {
    FirstKindParses(d1);
    SecondKindParses(d2);
    FirstKindLength(d1);
    SecondKindLength(d2);
    StrictParseReadsWithinBuffer(d1);
    StrictParseReadsWithinBuffer(d2);
    ParseBufferConsumesAnnouncedLength(d1);
    ParseBufferConsumesAnnouncedLength(d2);
  }

  lemma SampleChunk1()
    ensures Chunk(FirstOfRecord1, SecondOfRecord1)
  {
    SampleStamp1();
  }

  /** Record 1: the values the bytes spell out, with both buffers consumed
      to their last byte. */
  lemma SampleRecord1()
    ensures FromBuffers(FirstOfRecord1, SecondOfRecord1).Success?
    ensures Shows(FromBuffers(FirstOfRecord1, SecondOfRecord1).value, 1, 78800, 1, 1733048636)
    ensures StrictParseBuffer(FirstOfRecord1).Success? && StrictParseBuffer(FirstOfRecord1).value.consumed == 19
    ensures StrictParseBuffer(SecondOfRecord1).Success? && StrictParseBuffer(SecondOfRecord1).value.consumed == 16
  {
    SampleChunk1();
    SampleStamp1();
    ChunkShows(FirstOfRecord1, SecondOfRecord1, 1, 78800, 1, 1733048636);
    ChunkConsumesBoth(FirstOfRecord1, SecondOfRecord1);
  }

  lemma SampleChunk2()
    ensures Chunk(FirstOfRecord2, SecondOfRecord2)
  {
    SampleStamp2();
  }

  /** Record 2: the values the bytes spell out, with both buffers consumed
      to their last byte. */
  lemma SampleRecord2()
    ensures FromBuffers(FirstOfRecord2, SecondOfRecord2).Success?
    ensures Shows(FromBuffers(FirstOfRecord2, SecondOfRecord2).value, 2, 78800, 1, 1733049803)
    ensures StrictParseBuffer(FirstOfRecord2).Success? && StrictParseBuffer(FirstOfRecord2).value.consumed == 19
    ensures StrictParseBuffer(SecondOfRecord2).Success? && StrictParseBuffer(SecondOfRecord2).value.consumed == 16
  {
    SampleChunk2();
    SampleStamp2();
    ChunkShows(FirstOfRecord2, SecondOfRecord2, 2, 78800, 1, 1733049803);
    ChunkConsumesBoth(FirstOfRecord2, SecondOfRecord2);
  }

  lemma SampleChunk3()
    ensures Chunk(FirstOfRecord3, SecondOfRecord3)
  {
    SampleStamp3();
  }

  /** Record 3: the values the bytes spell out, with both buffers consumed
      to their last byte. */
  lemma SampleRecord3()
    ensures FromBuffers(FirstOfRecord3, SecondOfRecord3).Success?
    ensures Shows(FromBuffers(FirstOfRecord3, SecondOfRecord3).value, 3, 79100, 1, 1735576125)
    ensures StrictParseBuffer(FirstOfRecord3).Success? && StrictParseBuffer(FirstOfRecord3).value.consumed == 19
    ensures StrictParseBuffer(SecondOfRecord3).Success? && StrictParseBuffer(SecondOfRecord3).value.consumed == 16
  {
    SampleChunk3();
    SampleStamp3();
    ChunkShows(FirstOfRecord3, SecondOfRecord3, 3, 79100, 1, 1735576125);
    ChunkConsumesBoth(FirstOfRecord3, SecondOfRecord3);
  }

  lemma SamplePairsDecode()
    ensures forall k :: 0 <= k < |SamplePairs| ==> FromBuffers(SamplePairs[k].0, SamplePairs[k].1).Success?
  {
    forall k | 0 <= k < |SamplePairs|
      ensures FromBuffers(SamplePairs[k].0, SamplePairs[k].1).Success?
    {
      if k == 0 {
        SampleRecord1();
      } else if k == 1 {
        SampleRecord2();
      } else {
        SampleRecord3();
      }
    }
  }

  /** The sample is 105 bytes and decodes into one record per pair. */
  lemma SampleRecordsArePairs()
    ensures |Sample| == 105
    ensures Records(Sample).Success? && |Records(Sample).value| == 3
    ensures forall k :: 0 <= k < 3 ==> Success(Records(Sample).value[k]) == FromBuffers(SamplePairs[k].0, SamplePairs[k].1)
  {
    assert FullPairs(SamplePairs);
    JoinLength(SamplePairs);
    RecordsOfJoin(SamplePairs);
    SamplePairsDecode();
  }

  /** The sample holds three records, sequence numbers 1, 2 and 3 of user 1,
      weighing 78.800, 78.800 and 79.100 kg. */
  lemma SampleDecodes()
    ensures Records(Sample).Success? && |Records(Sample).value| == 3
    ensures Shows(Records(Sample).value[0], 1, 78800, 1, 1733048636)
    ensures Shows(Records(Sample).value[1], 2, 78800, 1, 1733049803)
    ensures Shows(Records(Sample).value[2], 3, 79100, 1, 1735576125)
  {
    SampleRecordsArePairs();
    SampleRecord1();
    SampleRecord2();
    SampleRecord3();
  }
}
