/** Byte sequences as the program handles them: clipped slicing, little-endian
    integers and the lower-case hex strings packets travel as. */
module Bytes {
  import opened Wrappers

  type byte = b: int | 0 <= b < 256

  function Min(a: nat, b: nat): nat { if a <= b then a else b }

  /** `data[lo:hi]` on non-negative bounds: a bound past the end is clipped to
      the end, and a slice whose start is not before its end is empty. */
  function Slice(data: seq<byte>, lo: nat, hi: nat): (r: seq<byte>)
    ensures |r| == if Min(hi, |data|) <= lo then 0 else Min(hi, |data|) - lo
    ensures forall i :: 0 <= i < |r| ==> r[i] == data[lo + i]
    ensures hi <= |data| && lo <= hi ==> r == data[lo..hi]
  {
    var a := Min(lo, |data|);
    var b := if hi < a then a else Min(hi, |data|);
    data[a..b]
  }

  /** 256 to the power n: the number of values n bytes can hold. */
  function Pow256(n: nat): (r: nat)
    ensures r > 0
  {
    if n == 0 then 1 else 256 * Pow256(n - 1)
  }

  /** `int.from_bytes(bs, byteorder='little')`. */
  function LittleEndian(bs: seq<byte>): (r: nat)
    ensures r < Pow256(|bs|)
  {
    if |bs| == 0 then 0 else bs[0] + 256 * LittleEndian(bs[1..])
  }

  /** Two bytes read little-endian: the low byte first. */
  lemma TwoBytes(bs: seq<byte>)
    requires |bs| == 2
    ensures LittleEndian(bs) == bs[0] as nat + 256 * bs[1] as nat
  {
    assert bs[1..][1..] == [];
  }

  /** The `width` low bytes of `n`, least significant first. */
  function ToLittleEndian(n: nat, width: nat): (r: seq<byte>)
    ensures |r| == width
  {
    if width == 0 then [] else [n % 256] + ToLittleEndian(n / 256, width - 1)
  }

  lemma {:induction false} LittleEndianRoundTrip(n: nat, width: nat)
    requires n < Pow256(width)
    ensures LittleEndian(ToLittleEndian(n, width)) == n
    decreases width
  {
    if width > 0 {
      var t := ToLittleEndian(n, width);
      assert t[1..] == ToLittleEndian(n / 256, width - 1);
      LittleEndianRoundTrip(n / 256, width - 1);
    }
  }

  lemma {:induction false} ToLittleEndianRoundTrip(bs: seq<byte>)
    ensures ToLittleEndian(LittleEndian(bs), |bs|) == bs
    decreases |bs|
  {
    if |bs| > 0 {
      var n := LittleEndian(bs);
      assert n % 256 == bs[0] && n / 256 == LittleEndian(bs[1..]);
      ToLittleEndianRoundTrip(bs[1..]);
    }
  }

  // ---- hex strings ------------------------------------------------------

  /** The lower-case digit for a nibble. */
  function HexDigit(n: nat): (c: char)
    requires n < 16
    ensures IsLowerHexDigit(c)
  {
    if n < 10 then ('0' as int + n) as char else ('a' as int + n - 10) as char
  }

  predicate IsLowerHexDigit(c: char) {
    '0' <= c <= '9' || 'a' <= c <= 'f'
  }

  /** The value of one hex digit of either case, as `bytearray.fromhex` reads it. */
  function DigitValue(c: char): (r: Option<nat>)
    ensures r.Some? ==> r.value < 16
    ensures IsLowerHexDigit(c) ==> r.Some? && HexDigit(r.value) == c
  {
    if '0' <= c <= '9' then Some(c as int - '0' as int)
    else if 'a' <= c <= 'f' then Some(c as int - 'a' as int + 10)
    else if 'A' <= c <= 'F' then Some(c as int - 'A' as int + 10)
    else None
  }

  /** `bytes(bs).hex()`: two lower-case digits per byte, high nibble first. */
  function ToHex(bs: seq<byte>): (r: string)
    ensures |r| == 2 * |bs|
    ensures forall i :: 0 <= i < |r| ==> IsLowerHexDigit(r[i])
  {
    if |bs| == 0 then ""
    else [HexDigit(bs[0] / 16), HexDigit(bs[0] % 16)] + ToHex(bs[1..])
  }

  /** The ASCII white space `bytearray.fromhex` skips between digit pairs. */
  predicate IsSpace(c: char) {
    c == ' ' || c == '\t' || c == '\n' || c == '\r' || c as int == 0x0b || c as int == 0x0c
  }

  /** `bytearray.fromhex(s)`: pairs of hex digits of either case, with white
      space allowed before each pair; a failure otherwise. */
  function FromHex(s: string): (r: Option<seq<byte>>)
    ensures r.Some? ==> 2 * |r.value| <= |s|
  {
    if |s| == 0 then Some([])
    else if IsSpace(s[0]) then FromHex(s[1..])
    else if |s| == 1 then None
    else
      var hi :- DigitValue(s[0]);
      var lo :- DigitValue(s[1]);
      var rest :- FromHex(s[2..]);
      Some([16 * hi + lo] + rest)
  }

  lemma {:induction false} FromHexToHex(bs: seq<byte>)
    ensures FromHex(ToHex(bs)) == Some(bs)
    decreases |bs|
  {
    if |bs| > 0 {
      var s := ToHex(bs);
      assert s[2..] == ToHex(bs[1..]);
      FromHexToHex(bs[1..]);
      assert DigitValue(s[0]) == Some(bs[0] / 16);
      assert DigitValue(s[1]) == Some(bs[0] % 16);
      assert 16 * (bs[0] / 16) + bs[0] % 16 == bs[0];
      assert [bs[0]] + bs[1..] == bs;
    }
  }

  lemma {:induction false} ToHexFromHex(s: string)
    requires forall i :: 0 <= i < |s| ==> IsLowerHexDigit(s[i])
    requires FromHex(s).Some?
    ensures ToHex(FromHex(s).value) == s
    decreases |s|
  {
    if |s| > 0 {
      var bs := FromHex(s).value;
      var hi := DigitValue(s[0]).value;
      var lo := DigitValue(s[1]).value;
      ToHexFromHex(s[2..]);
      assert bs[1..] == FromHex(s[2..]).value;
      assert bs[0] / 16 == hi && bs[0] % 16 == lo;
      assert ToHex(bs) == [s[0], s[1]] + s[2..];
    }
  }
}
