/** The fixed-width control packets the program writes to the scale: user
    consent and registration on the user control point, and the
    record-access filter on the record access control point. */
module Packets {
  import opened Wrappers
  import opened Bytes
  import Arith

  /** The consent code every packet carries, `0x020E`. */
  const ConsentCode: nat := 0x020E

  /** `get_consent(u)`: opcode 2, the user index, then the consent code
      little-endian. A user index outside 0..255 cannot be stored in a
      `bytearray` and raises. */
  function Consent(user: int): (r: Result<seq<byte>>)
    ensures r.Success? <==> 0 <= user < 256
    ensures r.Failure? ==> r.error == InvalidValue
    ensures r.Success? ==> |r.value| == 4
  {
    if 0 <= user < 256 then Success([0x02, user, ConsentCode % 256, ConsentCode / 256])
    else Failure(InvalidValue)
  }

  /** The user a consent packet names, if it is one. */
  function ConsentUser(p: seq<byte>): Option<int> {
    if |p| == 4 && p[0] == 0x02 && LittleEndian(p[2..4]) == ConsentCode then Some(p[1]) else None
  }

  /** A consent packet carries its user and the consent code, and nothing else. */
  lemma ConsentRoundTrip(user: int)
    requires 0 <= user < 256
    ensures Consent(user).Success?
    ensures ConsentUser(Consent(user).value) == Some(user)
    ensures Consent(user).value == [0x02, user, 0x0E, 0x02]
  {
    TwoBytes(Consent(user).value[2..4]);
  }

  /** A packet naming a user is that user's consent packet. */
  lemma ConsentUserIsConsent(p: seq<byte>)
    requires ConsentUser(p).Some?
    ensures Consent(ConsentUser(p).value) == Success(p)
  {
    TwoBytes(p[2..4]);
    Arith.DivModUnique(ConsentCode, 256, p[3], p[2]);
    assert p == [p[0], p[1], p[2], p[3]];
  }

  /** `get_register_new_user(u)`: opcode 1 and the consent code little-endian.
      The user index is accepted and ignored. */
  function RegisterNewUser(user: int): (r: seq<byte>)
    ensures |r| == 3
  {
    [0x01, ConsentCode % 256, ConsentCode / 256]
  }

  /** The registration packet is the same for every user and carries the consent code. */
  lemma RegisterIgnoresUser(a: int, b: int)
    ensures RegisterNewUser(a) == RegisterNewUser(b)
    ensures RegisterNewUser(a)[0] == 0x01 && LittleEndian(RegisterNewUser(a)[1..]) == ConsentCode
  {
    TwoBytes(RegisterNewUser(a)[1..]);
  }

  /** Record access opcodes. */
  const ReportStoredRecords: byte := 0x01
  const ReportNumberOfStoredRecords: byte := 0x04
  /** Operator "greater than or equal to" and filter type "sequence number". */
  const GreaterThanOrEqualTo: byte := 0x03
  const FilterBySequenceNumber: byte := 0x01

  /** `get_filter(s, countOnly)`: the opcode, the operator and filter type,
      then `s & 0xFF` and `(s >> 8) & 0xFF`. Python's `&` and `>>` act on the
      two's complement of a negative `s`, which is floor division and
      Euclidean remainder by powers of two. */
  function Filter(sequenceNumber: int, countOnly: bool): (r: seq<byte>)
    ensures |r| == 5
  {
    [if countOnly then ReportNumberOfStoredRecords else ReportStoredRecords,
     GreaterThanOrEqualTo, FilterBySequenceNumber,
     sequenceNumber % 256, (sequenceNumber / 256) % 256]
  }

  /** The lower bound a filter packet asks for, read back little-endian. */
  function FilterFrom(p: seq<byte>): nat
    requires |p| == 5
  {
    LittleEndian(p[3..5])
  }

  /** The filter carries its sequence number modulo 2^16 and the opcode its
      flag selects; a sequence number below 2^16 comes back unchanged. */
  lemma FilterCarriesSequence(sequenceNumber: int, countOnly: bool)
    ensures var p := Filter(sequenceNumber, countOnly);
      && p[3] as int + 256 * p[4] as int == sequenceNumber % 65536
      && FilterFrom(p) == sequenceNumber % 65536
      && (p[0] == ReportNumberOfStoredRecords <==> countOnly)
      && p[1] == GreaterThanOrEqualTo && p[2] == FilterBySequenceNumber
    ensures 0 <= sequenceNumber < 65536 ==> FilterFrom(Filter(sequenceNumber, countOnly)) == sequenceNumber
  {
    var p := Filter(sequenceNumber, countOnly);
    TwoBytes(p[3..5]);
    var q := sequenceNumber / 256;
    var r := sequenceNumber % 256;
    assert sequenceNumber == 256 * q + r;
    var q2 := q / 256;
    assert q == 256 * q2 + q % 256;
    assert sequenceNumber == 65536 * q2 + (r + 256 * (q % 256));
    assert 0 <= r + 256 * (q % 256) < 65536;
    Arith.DivModUniqueInt(sequenceNumber, 65536, q2, r + 256 * (q % 256));
  }
}
