/** Exact decimal fixed-point values and the half-up rounding with which the
    decoder quantizes every scaled reading. */
module FixedPoint {
  import opened Arith

  /** A non-negative rational resolution `num / den`. */
  datatype Ratio = Ratio(num: nat, den: pos)

  /** The decimal `units * 10^-places`, e.g. Fixed(78800, 3) is 78.800. */
  datatype Fixed = Fixed(units: nat, places: nat)

  function Pow10(n: nat): (r: pos)
  {
    if n == 0 then 1 else 10 * Pow10(n - 1)
  }

  /** `num / den` rounded half-up to `places` decimals. */
  function RoundHalfUp(num: nat, den: pos, places: nat): (r: Fixed)
    ensures r.places == places
  {
    Fixed((2 * (num * Pow10(places)) + den) / (2 * den), places)
  }

  /** Half-up rounding picks the one multiple u of 10^-places with
      u - 1/2 <= num / den * 10^places < u + 1/2. */
  lemma RoundHalfUpIsNearest(num: nat, den: pos, places: nat)
    ensures var u := RoundHalfUp(num, den, places).units;
      && (2 * u - 1) * den <= 2 * (num * Pow10(places))
      && 2 * (num * Pow10(places)) < (2 * u + 1) * den
  {
    var x := num * Pow10(places);
    var a := 2 * x + den;
    var q := a / (2 * den);
    var rem := a % (2 * den);
    assert a == q * (2 * den) + rem;
    assert (2 * q - 1) * den == 2 * x - rem;
    assert (2 * q + 1) * den == 2 * x + 2 * den - rem;
  }

  /** `raw * res` rounded half-up to `places` decimals. */
  function Scale(raw: nat, res: Ratio, places: nat): (r: Fixed)
    ensures r.places == places
  {
    RoundHalfUp(raw * res.num, res.den, places)
  }

  /** When the exact value has at most `places` decimals, rounding keeps it. */
  lemma RoundHalfUpExact(num: nat, den: pos, places: nat, k: nat)
    requires num * Pow10(places) == k * den
    ensures RoundHalfUp(num, den, places).units == k
  {
    var u := RoundHalfUp(num, den, places).units;
    RoundHalfUpIsNearest(num, den, places);
    assert 2 * (k * den) == (2 * k) * den;
    assert (2 * u - 1) * den <= (2 * k) * den;
    CancelFactor(2 * u - 1, 2 * k, den);
    assert (2 * k) * den <= (2 * u + 1) * den;
    CancelFactor(2 * k, 2 * u + 1, den);
  }

  /** Half-up rounding never decreases when the exact value grows. */
  lemma RoundHalfUpMonotone(n1: nat, n2: nat, den: pos, places: nat)
    requires n1 <= n2
    ensures RoundHalfUp(n1, den, places).units <= RoundHalfUp(n2, den, places).units
  {
    var p := Pow10(places);
    var u1 := RoundHalfUp(n1, den, places).units;
    var u2 := RoundHalfUp(n2, den, places).units;
    RoundHalfUpIsNearest(n1, den, places);
    RoundHalfUpIsNearest(n2, den, places);
    MulMono(n1, n2, p);
    assert (2 * u1 - 1) * den <= (2 * u2 + 1) * den;
    CancelFactor(2 * u1 - 1, 2 * u2 + 1, den);
  }
}
