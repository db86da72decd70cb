/** Money is counted in whole cents. The source computes with floats and
    rounds with Python's `round(x, 2)`; here an amount that is not a whole
    number of cents is kept exact as the fraction a/d cents, and rounding it
    to cents is `RoundHalfEven(a, d)`. */
module Money {

  function Abs(x: int): (r: nat)
    ensures r == x || r == -x
  {
    if x < 0 then -x else x
  }

  /** The whole number nearest to a/d, the even one of the two on a tie:
      Python's `round` applied to the exact value a/d cents. */
  function RoundHalfEven(a: int, d: int): (r: int)
    requires d > 0
    ensures 2 * Abs(a - d * r) <= d
    ensures 2 * Abs(a - d * r) == d ==> r % 2 == 0
  {
    var q := a / d;
    var rest := a % d;
    assert a - d * q == rest;
    assert a - d * (q + 1) == rest - d;
    if 2 * rest < d then q
    else if 2 * rest > d then q + 1
    else if q % 2 == 0 then q
    else q + 1
  }

  /** The two postconditions of RoundHalfEven determine its result: no other
      whole number of cents is as near to a/d under the same tie rule. */
  lemma RoundHalfEvenUnique(a: int, d: int, r: int)
    requires d > 0
    requires 2 * Abs(a - d * r) <= d
    requires 2 * Abs(a - d * r) == d ==> r % 2 == 0
    ensures r == RoundHalfEven(a, d)
  {
    var r0 := RoundHalfEven(a, d);
    var e, e0 := a - d * r, a - d * r0;
    assert d * (r - r0) == e0 - e;
    // |r - r0| <= 1; and r, r0 one apart would make both exact ties, both even
    MultipleWithinOne(d, r - r0);
  }

  /** A multiple d * k of d > 0 that lies within d of zero has |k| <= 1;
      for k = 1 or k = -1 it lies exactly d from zero. */
  lemma MultipleWithinOne(d: int, k: int)
    requires d > 0
    ensures Abs(d * k) <= d ==> -1 <= k <= 1
    ensures k == 1 || k == -1 ==> Abs(d * k) == d
  {
  }

  /** A whole number of cents is left unchanged by rounding. */
  lemma RoundWhole(k: int, d: int)
    requires d > 0
    ensures RoundHalfEven(k * d, d) == k
  {
  }

  /** Sum of a sequence of amounts, added left to right. */
  function Sum(xs: seq<int>): int
    decreases |xs|
  {
    if |xs| == 0 then 0 else Sum(xs[..|xs| - 1]) + xs[|xs| - 1]
  }

  /** The sum is additive: splitting a list of amounts in two splits the
      sum the same way. */
  lemma {:induction false} SumAppend(xs: seq<int>, ys: seq<int>)
    ensures Sum(xs + ys) == Sum(xs) + Sum(ys)
    decreases |ys|
  {
    if |ys| > 0 {
      var n := |ys| - 1;
      assert (xs + ys)[..|xs + ys| - 1] == xs + ys[..n];
      SumAppend(xs, ys[..n]);
    } else {
      assert xs + ys == xs;
    }
  }
}
