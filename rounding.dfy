/** Python 3's built-in round() applied to an exact rational number n/d:
    the nearest integer, with ties going to the even neighbour. */
module PyRound {

  function Abs(x: int): int { if x < 0 then -x else x }

  /** The defining property of round(n/d): r is within half a unit of n/d,
      and on an exact tie r is even.  Both conditions are scaled by 2*d so
      that they stay in integers. */
  predicate IsRoundHalfEven(n: int, d: int, r: int)
    requires d != 0
  {
    var e := 2 * (n - r * d);
    -Abs(d) <= e <= Abs(d) && (Abs(e) == Abs(d) ==> r % 2 == 0)
  }

  /** round(n / d) for d != 0. */
  function RoundHalfEven(n: int, d: int): (r: int)
    requires d != 0
    ensures IsRoundHalfEven(n, d, r)
    decreases if d < 0 then 1 else 0
  {
    if d < 0 then
      NegateBoth(n, d);
      RoundHalfEven(-n, -d)
    else
      var q, rem := n / d, n % d;
      assert n == q * d + rem;
      if 2 * rem < d then q
      else if 2 * rem > d then q + 1
      else if q % 2 == 0 then q
      else q + 1
  }

  /** Rounding -n/-d is rounding n/d. */
  lemma NegateBoth(n: int, d: int)
    requires d < 0
    ensures forall r :: IsRoundHalfEven(-n, -d, r) ==> IsRoundHalfEven(n, d, r)
  {
    forall r | IsRoundHalfEven(-n, -d, r) ensures IsRoundHalfEven(n, d, r) {
      assert 2 * (-n - r * (-d)) == -(2 * (n - r * d));
    }
  }

  /** The defining property pins round(n / d) down completely, so
      RoundHalfEven is Python's round and nothing else. */
  lemma RoundHalfEvenUnique(n: int, d: int, r: int)
    requires d != 0
    requires IsRoundHalfEven(n, d, r)
    ensures r == RoundHalfEven(n, d)
  {
    if d < 0 {
      assert 2 * (-n - r * (-d)) == -(2 * (n - r * d));
      assert IsRoundHalfEven(-n, -d, r);
      UniquePositive(-n, -d, r, RoundHalfEven(-n, -d));
    } else {
      UniquePositive(n, d, r, RoundHalfEven(n, d));
    }
  }

  lemma UniquePositive(n: int, d: int, r: int, r0: int)
    requires d > 0
    requires IsRoundHalfEven(n, d, r) && IsRoundHalfEven(n, d, r0)
    ensures r == r0
  {
    if r != r0 {
      var lo, hi := if r < r0 then r else r0, if r < r0 then r0 else r;
      var plo, phi := lo * d, hi * d;
      assert -d <= 2 * (n - plo) <= d && -d <= 2 * (n - phi) <= d;
      assert phi - plo == (hi - lo) * d;
      StepIsOne(hi - lo, d);
      assert false;
    }
  }

  /** A positive multiple k*d of d > 0 that is at most d has k == 1. */
  lemma StepIsOne(k: int, d: int)
    requires d > 0 && k >= 1 && k * d <= d
    ensures k == 1
  {
  }
}
