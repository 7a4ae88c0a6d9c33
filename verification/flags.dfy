/** The presence bit mask that leads every measurement buffer. */
module Flags {
  import opened Bytes
  import opened Arith

  /** The named bits, in bit order: bit 0 selects imperial units, bits 1..19
      announce optional fields, bit 20 marks a multi-packet measurement. */
  datatype Flag =
    | ImperialUnit
    | SequenceNumberPresent
    | WeightPresent
    | TimeStampPresent
    | UserIDPresent
    | BMIAndHeightPresent
    | BodyFatPercentagePresent
    | BasalMetabolismPresent
    | MusclePercentagePresent
    | MuscleMassPresent
    | FatFreeMassPresent
    | SoftLeanMassPresent
    | BodyWaterMassPresent
    | ImpedancePresent
    | SkeletalMusclePercentagePresent
    | VisceralFatLevelPresent
    | BodyAgePresent
    | BodyFatPercentageStageEvaluationPresent
    | SkeletalMusclePercentageStageEvaluationPresent
    | VisceralFatLevelStageEvaluationPresent
    | MultiplePacketMeasurement

  function Bit(f: Flag): (b: nat)
    ensures b < 21 && AllFlags[b] == f
  {
    match f
    case ImperialUnit => 0
    case SequenceNumberPresent => 1
    case WeightPresent => 2
    case TimeStampPresent => 3
    case UserIDPresent => 4
    case BMIAndHeightPresent => 5
    case BodyFatPercentagePresent => 6
    case BasalMetabolismPresent => 7
    case MusclePercentagePresent => 8
    case MuscleMassPresent => 9
    case FatFreeMassPresent => 10
    case SoftLeanMassPresent => 11
    case BodyWaterMassPresent => 12
    case ImpedancePresent => 13
    case SkeletalMusclePercentagePresent => 14
    case VisceralFatLevelPresent => 15
    case BodyAgePresent => 16
    case BodyFatPercentageStageEvaluationPresent => 17
    case SkeletalMusclePercentageStageEvaluationPresent => 18
    case VisceralFatLevelStageEvaluationPresent => 19
    case MultiplePacketMeasurement => 20
  }

  /** Every flag, in declaration (and bit) order. */
  const AllFlags: seq<Flag> := [
    ImperialUnit, SequenceNumberPresent, WeightPresent, TimeStampPresent,
    UserIDPresent, BMIAndHeightPresent, BodyFatPercentagePresent,
    BasalMetabolismPresent, MusclePercentagePresent, MuscleMassPresent,
    FatFreeMassPresent, SoftLeanMassPresent, BodyWaterMassPresent,
    ImpedancePresent, SkeletalMusclePercentagePresent, VisceralFatLevelPresent,
    BodyAgePresent, BodyFatPercentageStageEvaluationPresent,
    SkeletalMusclePercentageStageEvaluationPresent,
    VisceralFatLevelStageEvaluationPresent, MultiplePacketMeasurement]

  lemma AllFlagsInBitOrder()
    ensures |AllFlags| == 21
    ensures forall i :: 0 <= i < 21 ==> Bit(AllFlags[i]) == i
  {
  }

  /** `1 << b` for each bit a flag occupies. */
  const Powers: seq<nat> := [
    1, 2, 4, 8, 16, 32, 64, 128, 256, 512, 1024, 2048, 4096, 8192, 16384,
    32768, 65536, 131072, 262144, 524288, 1048576]

  /** Whether bit `bit` of `mask` is one: `mask & (1 << bit) != 0`. */
  predicate IsSet(mask: nat, bit: nat)
    requires bit < 21
  {
    (mask / Powers[bit]) % 2 == 1
  }

  /** The powers grow with the bit. */
  lemma {:induction false} PowersGrow(i: nat, j: nat)
    requires i <= j < 21
    ensures Powers[i] <= Powers[j]
    decreases j - i
  {
    if i < j {
      PowersGrow(i + 1, j);
    }
  }

  /** A mask below `1 << lo` has no bit at or above lo. */
  lemma HighBitsClear(mask: nat, lo: nat, c: nat)
    requires lo <= c < 21
    requires mask < Powers[lo]
    ensures !IsSet(mask, c)
  {
    PowersGrow(lo, c);
    assert mask / Powers[c] == 0;
  }

  /** `Flag.parse`: the flags of `AllFlags[k..]` whose bit is set, in order. */
  function ParseFrom(mask: nat, k: nat): (r: seq<Flag>)
    requires k <= 21
    ensures forall f :: f in r <==> Bit(f) >= k && IsSet(mask, Bit(f))
    ensures forall i, j :: 0 <= i < j < |r| ==> Bit(r[i]) < Bit(r[j])
    ensures forall i :: 0 <= i < |r| ==> Bit(r[i]) >= k
    decreases 21 - k
  {
    AllFlagsInBitOrder();
    if k == 21 then []
    else
      var rest := ParseFrom(mask, k + 1);
      assert Bit(AllFlags[k]) == k;
      if IsSet(mask, k) then [AllFlags[k]] + rest else rest
  }

  /** `Flag.parse(mask)`: the set flags, least significant bit first. */
  function Parse(mask: nat): (r: seq<Flag>)
    ensures forall f :: f in r <==> IsSet(mask, Bit(f))
    ensures forall i, j :: 0 <= i < j < |r| ==> Bit(r[i]) < Bit(r[j])
  {
    ParseFrom(mask, 0)
  }

  /** The flag mask of a buffer: its first three bytes read little-endian and
      masked to 24 bits (a buffer shorter than three bytes gives fewer). */
  function Mask(data: seq<byte>): nat
  {
    LittleEndian(Slice(data, 0, 3)) % 0x100_0000
  }

  lemma MaskReadsFirstThreeBytes(data: seq<byte>)
    requires |data| >= 3
    ensures Mask(data) == data[0] as int + 256 * data[1] as int + 65536 * data[2] as int
    ensures Mask(data) < 0x100_0000
  {
    var s := Slice(data, 0, 3);
    assert s == data[0..3];
    assert s[1..][1..] == [data[2]];
    assert LittleEndian(s[1..][1..][1..]) == 0;
    assert LittleEndian(s[1..][1..]) == data[2];
    assert LittleEndian(s[1..]) == data[1] as int + 256 * data[2] as int;
    assert LittleEndian(s) == data[0] as int + 256 * data[1] as int + 65536 * data[2] as int;
  }

  /** The bytes a set flag announces, independently of any field table: two
      each for the 16-bit fields, seven for the stamp, four for BMI with
      height, one each for the byte fields, none for the unit and
      multi-packet bits. */
  function FlagWidth(f: Flag): nat {
    match f
    case ImperialUnit => 0
    case SequenceNumberPresent => 2
    case WeightPresent => 2
    case TimeStampPresent => 7
    case UserIDPresent => 1
    case BMIAndHeightPresent => 4
    case BodyFatPercentagePresent => 2
    case BasalMetabolismPresent => 2
    case MusclePercentagePresent => 2
    case MuscleMassPresent => 2
    case FatFreeMassPresent => 2
    case SoftLeanMassPresent => 2
    case BodyWaterMassPresent => 2
    case ImpedancePresent => 2
    case SkeletalMusclePercentagePresent => 2
    case VisceralFatLevelPresent => 1
    case BodyAgePresent => 1
    case BodyFatPercentageStageEvaluationPresent => 1
    case SkeletalMusclePercentageStageEvaluationPresent => 1
    case VisceralFatLevelStageEvaluationPresent => 1
    case MultiplePacketMeasurement => 0
  }

  /** The bytes bit b contributes under a mask. */
  function BitWidth(mask: nat, b: nat): nat
    requires b < 21
  {
    if IsSet(mask, b) then FlagWidth(AllFlags[b]) else 0
  }

  /** The widths of the set flags among bits 0 .. b-1. */
  function PayloadWidth(mask: nat, b: nat): nat
    requires b <= 21
  {
    if b == 0 then 0 else PayloadWidth(mask, b - 1) + BitWidth(mask, b - 1)
  }

  /** The length a mask announces: three flag bytes plus its set flags' widths. */
  function AnnouncedLength(mask: nat): nat {
    3 + PayloadWidth(mask, 21)
  }

  /** Bits that add no width add nothing to the payload. */
  lemma {:induction false} PayloadWidthFlat(mask: nat, lo: nat, b: nat)
    requires lo <= b <= 21
    requires forall c :: lo <= c < b ==> BitWidth(mask, c) == 0
    ensures PayloadWidth(mask, b) == PayloadWidth(mask, lo)
    decreases b - lo
  {
    if lo < b {
      PayloadWidthFlat(mask, lo, b - 1);
    }
  }

  /** The payload of a mask below `1 << lo` ends at bit lo. */
  lemma SmallMaskPayload(mask: nat, lo: nat)
    requires lo <= 21
    requires lo < 21 ==> mask < Powers[lo]
    ensures PayloadWidth(mask, 21) == PayloadWidth(mask, lo)
  {
    forall c | lo <= c < 21
      ensures BitWidth(mask, c) == 0
    {
      HighBitsClear(mask, lo, c);
    }
    PayloadWidthFlat(mask, lo, 21);
  }
}
