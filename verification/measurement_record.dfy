/** A body-composition record as the device sends it: a first buffer, and a
    second buffer that is parsed on top of the first when it is not empty. */
module MeasurementRecord {
  import opened Wrappers
  import opened Bytes
  import opened Flags
  import opened Measurement

  /** The decoded record: the unit labels of the last buffer parsed and one
      reading per field any buffer announced (a field no buffer announced is
      absent, the program's `None`). */
  datatype Record = Record(weightUnit: string, heightUnit: string, readings: map<Field, Value>)

  /** Builds a record from its two buffers, each parsed from its own offset 0
      with its own flags. An empty second buffer is skipped; a non-empty one
      overwrites the fields it announces and sets the unit labels again. */
  function FromBuffers(data1: seq<byte>, data2: seq<byte>): (r: Result<Record>)
    ensures StrictParseBuffer(data1).Failure? ==> r == Failure(StrictParseBuffer(data1).error)
    ensures |data2| > 0 && StrictParseBuffer(data2).Failure? ==> r.Failure?
  {
    var p1 :- StrictParseBuffer(data1);
    if |data2| == 0 then
      Success(Record(p1.units.weightUnit, p1.units.heightUnit, p1.readings))
    else
      var p2 :- StrictParseBuffer(data2);
      Success(Record(p2.units.weightUnit, p2.units.heightUnit, p1.readings + p2.readings))
  }

  /** Whether the buffers of a record announce a field. */
  predicate RecordAnnounces(data1: seq<byte>, data2: seq<byte>, f: Field) {
    Announced(data1, f) || (|data2| > 0 && Announced(data2, f))
  }

  /** Whether a buffer is parsed by the strict parse without error. */
  predicate Parses(data: seq<byte>) {
    |data| >= AnnouncedLength(Mask(data)) && StampAccepted(data)
  }

  /** A record is built exactly when its first buffer parses and its second
      buffer is empty or parses. */
  lemma FromBuffersSucceeds(data1: seq<byte>, data2: seq<byte>)
    ensures FromBuffers(data1, data2).Success? <==> Parses(data1) && (|data2| == 0 || Parses(data2))
  {
    StrictParseReadsWithinBuffer(data1);
    StrictParseReadsWithinBuffer(data2);
  }

  /** A built record holds a reading for exactly the fields its buffers
      announce; a field the second buffer announces is read from the second
      buffer, any other from the first. */
  lemma FromBuffersReadings(data1: seq<byte>, data2: seq<byte>)
    requires FromBuffers(data1, data2).Success?
    ensures var r := FromBuffers(data1, data2).value;
      forall f :: f in r.readings <==> RecordAnnounces(data1, data2, f)
    ensures var r := FromBuffers(data1, data2).value;
      forall f :: f in r.readings ==>
        Success(r.readings[f]) ==
          if |data2| > 0 && Announced(data2, f) then DecodeField(data2, f) else DecodeField(data1, f)
  {
    StrictParseReadsWithinBuffer(data1);
    ParseBufferReadsAnnouncedFields(data1);
    if |data2| > 0 {
      StrictParseReadsWithinBuffer(data2);
      ParseBufferReadsAnnouncedFields(data2);
    }
  }

  /** The unit labels come from the last buffer parsed. */
  lemma FromBuffersUnits(data1: seq<byte>, data2: seq<byte>)
    requires FromBuffers(data1, data2).Success?
    ensures var u := UnitsOf(Mask(if |data2| > 0 then data2 else data1));
      && FromBuffers(data1, data2).value.weightUnit == u.weightUnit
      && FromBuffers(data1, data2).value.heightUnit == u.heightUnit
  {
    StrictParseReadsWithinBuffer(data1);
    ParseBufferConsumesAnnouncedLength(data1);
    if |data2| > 0 {
      StrictParseReadsWithinBuffer(data2);
      ParseBufferConsumesAnnouncedLength(data2);
    }
  }
}
