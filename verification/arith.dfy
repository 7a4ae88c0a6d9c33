/** Small facts of integer arithmetic that the solver does not find alone. */
module Arith {

  type pos = n: nat | n > 0 witness 1

  lemma MulMono(a: int, b: int, d: nat)
    requires a <= b
    ensures a * d <= b * d
  {
    assert b * d - a * d == (b - a) * d;
  }

  /** Cancelling a positive factor keeps a non-strict comparison. */
  lemma CancelFactor(a: int, b: int, d: pos)
    requires a * d <= b * d
    ensures a <= b
  {
    var e := a - b;
    assert a * d == b * d + e * d;
    if e > 0 {
      assert false;
    }
  }

  /** Quotient and remainder are the only such pair. */
  lemma DivModUnique(a: nat, k: pos, q: nat, r: nat)
    requires a == q * k + r && r < k
    ensures a / k == q && a % k == r
  {
    var q' := a / k;
    var r' := a % k;
    assert a == q' * k + r';
    if q' > q {
      MulMono(q + 1, q', k);
      assert false;
    }
    if q' < q {
      MulMono(q' + 1, q, k);
      assert false;
    }
  }

  /** The same on integers of either sign: the quotient rounds down. */
  lemma DivModUniqueInt(a: int, k: pos, q: int, r: nat)
    requires a == q * k + r && r < k
    ensures a / k == q && a % k == r
  {
    var q' := a / k;
    var r' := a % k;
    assert a == q' * k + r';
    if q' > q {
      MulMono(q + 1, q', k);
      assert false;
    }
    if q' < q {
      MulMono(q' + 1, q, k);
      assert false;
    }
  }

  /** Counting on by one steps the remainder on by one, wrapping to 0 at k. */
  lemma ModSucc(x: int, k: pos)
    ensures (x + 1) % k == if x % k + 1 < k then x % k + 1 else 0
  {
    var q, r := x / k, x % k;
    if r + 1 < k {
      DivModUniqueInt(x + 1, k, q, r + 1);
    } else {
      assert x + 1 == (q + 1) * k + 0;
      DivModUniqueInt(x + 1, k, q + 1, 0);
    }
  }
}
