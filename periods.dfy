/** The interval search of periods.py (calculate_periods): split the time
    left before a stop time into n work periods and n-1 breaks, for
    n = 1, 2, ..., 19, shrinking each proposal until it fits. */
module IntervalSearch {
  import opened PyRound

  /** A work period shorter than this ends the search. */
  const MinWork := 19
  /** Interval counts are tried from 1 up to, not including, this bound. */
  const CountBound := 20

  /** One schedule: `intervals` work periods of `work` minutes separated by
      `intervals - 1` breaks of `breakLen` minutes. */
  datatype Candidate = Candidate(work: int, breakLen: int, intervals: int)

  /** The exceptions the search can raise at the division of the initial
      break length: a denominator of 0 (exactly when the ratio is 0), or a
      denominator too large for Python to convert to a float before it
      divides the float minutes by it. */
  datatype Error = ZeroDivision | Overflow

  /** float() of an integer raises OverflowError when its magnitude is at
      least 2^1024 - 2^970 = (2^54 - 1) * 2^970: round-to-nearest-even takes
      such a value past the largest finite double.  For a natural a this is
      a / 2^970 >= 2^54 - 1 (ThresholdByQuotient). */
  const MantissaLimit := 0x3F_FFFF_FFFF_FFFF

  predicate TooLargeForFloat(x: int) {
    Shift970(Abs(x)) >= MantissaLimit
  }

  /** a / 2^970: fifteen divisions by 2^64 and one by 2^10, which is one
      division by their product (NestedDivision).  No numeral wider than
      2^64 enters a proof. */
  function Shift970(a: nat): nat {
    Shift64(a, 15) / 1024
  }

  /** a divided by 2^64 the given number of times. */
  function Shift64(a: nat, times: nat): nat {
    if times == 0 then a else Shift64(a / 0x1_0000_0000_0000_0000, times - 1)
  }

  /** Shifting never makes a number larger. */
  lemma {:induction false} Shift64Bound(a: nat, times: nat)
    ensures Shift64(a, times) <= a
  {
    if times > 0 {
      Shift64Bound(a / 0x1_0000_0000_0000_0000, times - 1);
    }
  }

  function Pow2(k: nat): (p: nat)
    ensures p > 0
  {
    if k == 0 then 1 else 2 * Pow2(k - 1)
  }

  lemma {:induction false} Pow2Add(a: nat, b: nat)
    ensures Pow2(a + b) == Pow2(a) * Pow2(b)
  {
    if b > 0 {
      Pow2Add(a, b - 1);
      assert Pow2(a + b) == 2 * Pow2(a + b - 1);
    }
  }

  lemma Pow2Of64()
    ensures Pow2(64) == 0x1_0000_0000_0000_0000
  {
    Pow2Of16();
    Pow2Add(16, 16);
    Pow2Add(32, 32);
  }

  lemma Pow2Of16()
    ensures Pow2(16) == 0x1_0000
  {
    Pow2Add(8, 8);
    assert Pow2(8) == 256;
  }

  /** Shifting k times divides by 2^(64 k). */
  lemma {:induction false} Shift64Div(a: nat, k: nat)
    ensures Shift64(a, k) == a / Pow2(64 * k)
  {
    if k > 0 {
      Shift64Div(a / 0x1_0000_0000_0000_0000, k - 1);
      Pow2Of64();
      Pow2Add(64, 64 * (k - 1));
      NestedDivision(a, Pow2(64), Pow2(64 * (k - 1)));
    }
  }

  /** Shift970 divides by 2^970. */
  lemma Shift970Div(a: nat)
    ensures Shift970(a) == a / Pow2(970)
  {
    Shift64Div(a, 15);
    Pow2Add(960, 10);
    assert Pow2(10) == 1024;
    NestedDivision(a, Pow2(960), 1024);
  }

  /** The overflow test is the magnitude reaching (2^54 - 1) * 2^970. */
  lemma ThresholdExact(x: int)
    ensures TooLargeForFloat(x) <==> Abs(x) >= MantissaLimit * Pow2(970)
  {
    Shift970Div(Abs(x));
    ThresholdByQuotient(Abs(x), Pow2(970), MantissaLimit);
  }

  /** Dividing twice is dividing by the product. */
  lemma NestedDivision(a: nat, b: nat, c: nat)
    requires b > 0 && c > 0
    ensures a / b / c == a / (b * c)
  {
    var q, r := a / b, a % b;
    var q', r' := q / c, q % c;
    assert a == (q' * c + r') * b + r;
    assert a == q' * (b * c) + (r' * b + r);
    assert 0 <= r' * b + r < b * c by {
      MulLeft(r', c - 1, b);
    }
    DivisionUnique(a, b * c, q', r' * b + r);
  }

  lemma MulLeft(x: int, y: int, b: nat)
    requires x <= y
    ensures x * b <= y * b
  {
  }

  /** The quotient and remainder of a division are the only ones. */
  lemma DivisionUnique(a: int, d: int, q: int, r: int)
    requires d > 0 && a == q * d + r && 0 <= r < d
    ensures a / d == q && a % d == r
  {
    var q0, r0 := a / d, a % d;
    assert (q - q0) * d == r0 - r;
    if q - q0 >= 1 {
      MulLeft(1, q - q0, d);
    } else if q - q0 <= -1 {
      MulLeft(q - q0, -1, d);
    }
  }

  /** A quotient reaches q exactly when the dividend reaches q times the
      divisor. */
  lemma ThresholdByQuotient(a: nat, d: nat, q: nat)
    requires d > 0
    ensures a / d >= q <==> a >= q * d
  {
    if a / d >= q {
      MulLeft(q, a / d, d);
    } else {
      MulLeft(a / d, q - 1, d);
    }
  }

  datatype Result<T> = Ok(value: T) | Err(error: Error)

  /** Minutes taken by n work periods and n-1 breaks. */
  function Total(work: int, breakLen: int, n: int): int {
    work * n + breakLen * (n - 1)
  }

  /** The budget is `seconds / 60` minutes; a total exceeds it exactly when
      sixty times the total exceeds the seconds. */
  predicate OverBudget(work: int, breakLen: int, n: int, seconds: int) {
    60 * Total(work, breakLen, n) > seconds
  }

  /** Number of break-sized units in the budget: n*ratio for the work
      periods plus n-1 for the breaks. */
  function Denominator(n: int, ratio: int): int {
    n * ratio + n - 1
  }

  lemma DenominatorZero(n: int, ratio: int)
    requires n >= 1
    ensures Denominator(n, ratio) == 0 <==> n == 1 && ratio == 0
  {
    if ratio >= 0 {
      MulSign(n, ratio);
    } else {
      MulSign(n, -ratio - 1);
      assert n * ratio == -(n * (-ratio - 1)) - n;
    }
  }

  lemma MulSign(n: int, m: int)
    requires n >= 1 && m >= 0
    ensures n * m >= 0
    ensures m >= 1 ==> n * m >= n
  {
  }

  /** Minutes cut from the work length by tries 1 .. t: every try whose
      number is not a multiple of 3. */
  function WorkCuts(t: nat): int {
    t - t / 3
  }

  /** Minutes cut from the break length by tries 1 .. t: every try whose
      number is a multiple of 3. */
  function BreakCuts(t: nat): int {
    t / 3
  }

  lemma OneTry(t: nat)
    ensures BreakCuts(t + 1) == BreakCuts(t) + if (t + 1) % 3 == 0 then 1 else 0
    ensures WorkCuts(t + 1) == WorkCuts(t) + if (t + 1) % 3 == 0 then 0 else 1
  {
  }

  /** Cutting one minute of work saves n minutes, one minute of break n-1. */
  lemma TotalCuts(work: int, breakLen: int, n: int)
    ensures Total(work - 1, breakLen, n) == Total(work, breakLen, n) - n
    ensures Total(work, breakLen - 1, n) == Total(work, breakLen, n) - (n - 1)
  {
  }

  /** The variables of the correction loop: the two lengths and the number
      of tries made so far. */
  datatype ShrinkState = ShrinkState(work: int, breakLen: int, tries: nat)

  /** One try of the correction loop: count it, then cut the work length
      when the try number is not a multiple of 3, the break length when it
      is. */
  function Step(s: ShrinkState): (r: ShrinkState)
  {
    var t := s.tries + 1;
    if t % 3 != 0 then ShrinkState(s.work - 1, s.breakLen, t)
    else ShrinkState(s.work, s.breakLen - 1, t)
  }

  /** A try cuts one minute from exactly one of the two lengths. */
  lemma StepCuts(s: ShrinkState)
    ensures Step(s).tries == s.tries + 1
    ensures Step(s).work == s.work - (WorkCuts(s.tries + 1) - WorkCuts(s.tries))
    ensures Step(s).breakLen == s.breakLen - (BreakCuts(s.tries + 1) - BreakCuts(s.tries))
  {
    OneTry(s.tries);
  }

  /** The correction loop: try again while the total is over budget.  It
      ends, and it ends within budget. */
  function Shrink(s: ShrinkState, n: int, seconds: int): (r: ShrinkState)
    requires n >= 1
    ensures r.tries >= s.tries
    ensures !OverBudget(r.work, r.breakLen, n, seconds)
    decreases 60 * Total(s.work, s.breakLen, n) - seconds, s.tries % 3
  {
    if OverBudget(s.work, s.breakLen, n, seconds) then
      TotalCuts(s.work, s.breakLen, n);
      Shrink(Step(s), n, seconds)
    else
      s
  }

  /** A try made while over budget leaves the loop's result unchanged. */
  lemma ShrinkStep(s: ShrinkState, n: int, seconds: int)
    requires n >= 1 && OverBudget(s.work, s.breakLen, n, seconds)
    ensures Shrink(s, n, seconds) == Shrink(Step(s), n, seconds)
  {
  }

  /** A state within budget is where the loop stops. */
  lemma ShrinkStops(s: ShrinkState, n: int, seconds: int)
    requires n >= 1 && !OverBudget(s.work, s.breakLen, n, seconds)
    ensures Shrink(s, n, seconds) == s
  {
  }

  /** The state k tries after s, budget or not. */
  function Advance(s: ShrinkState, k: nat): ShrinkState
    decreases k
  {
    if k == 0 then s else Advance(Step(s), k - 1)
  }

  /** k tries cut the work length on the tries whose number is not a
      multiple of 3 and the break length on the others. */
  lemma {:induction false} AdvanceCuts(s: ShrinkState, k: nat)
    ensures Advance(s, k) ==
      ShrinkState(s.work - (WorkCuts(s.tries + k) - WorkCuts(s.tries)),
                  s.breakLen - (BreakCuts(s.tries + k) - BreakCuts(s.tries)), s.tries + k)
    decreases k
  {
    if k > 0 {
      StepCuts(s);
      AdvanceCuts(Step(s), k - 1);
    }
  }

  /** The loop's result is the state reached after as many tries as it
      made. */
  lemma {:induction false} ShrinkAdvances(s: ShrinkState, n: int, seconds: int)
    requires n >= 1
    ensures Shrink(s, n, seconds) == Advance(s, Shrink(s, n, seconds).tries - s.tries)
    decreases 60 * Total(s.work, s.breakLen, n) - seconds, s.tries % 3
  {
    if OverBudget(s.work, s.breakLen, n, seconds) {
      TotalCuts(s.work, s.breakLen, n);
      ShrinkAdvances(Step(s), n, seconds);
    }
  }

  /** The loop cuts the work length on two tries out of three and the
      break length on every third, and nothing else. */
  lemma ShrinkCuts(s: ShrinkState, n: int, seconds: int)
    requires n >= 1
    ensures var r := Shrink(s, n, seconds);
      r == ShrinkState(s.work - (WorkCuts(r.tries) - WorkCuts(s.tries)),
                       s.breakLen - (BreakCuts(r.tries) - BreakCuts(s.tries)), r.tries)
  {
    ShrinkAdvances(s, n, seconds);
    AdvanceCuts(s, Shrink(s, n, seconds).tries - s.tries);
  }

  /** The loop stops at the first try that fits: every state it passed
      through before the last one was still over budget. */
  lemma {:induction false} ShrinkStopsAtFirstFit(s: ShrinkState, n: int, seconds: int, k: nat)
    requires n >= 1
    requires k < Shrink(s, n, seconds).tries - s.tries
    ensures OverBudget(Advance(s, k).work, Advance(s, k).breakLen, n, seconds)
    decreases k
  {
    if k > 0 {
      ShrinkStopsAtFirstFit(Step(s), n, seconds, k - 1);
    }
  }

  /** The rounded initial break length: round(minutes / denominator) with
      minutes = seconds / 60. */
  function InitialBreak(seconds: nat, ratio: int, n: int): (b: int)
    requires n >= 1 && ratio != 0
    ensures IsRoundHalfEven(seconds, 60 * Denominator(n, ratio), b)
  {
    DenominatorZero(n, ratio);
    RoundHalfEven(seconds, 60 * Denominator(n, ratio))
  }

  /** The shrink loop's run for n intervals, started from the initial
      break length and ratio times it as work length. */
  function ShrinkRun(seconds: nat, ratio: int, n: int): (r: ShrinkState)
    requires n >= 1 && ratio != 0
    ensures !OverBudget(r.work, r.breakLen, n, seconds)
  {
    var b0 := InitialBreak(seconds, ratio, n);
    Shrink(ShrinkState(b0 * ratio, b0, 0), n, seconds)
  }

  /** What one pass of the outer loop computes for n intervals, before the
      floor test decides whether it is kept. */
  function Outcome(seconds: nat, ratio: int, n: int): (c: Candidate)
    requires n >= 1 && ratio != 0
    ensures c.intervals == n
    ensures !OverBudget(c.work, c.breakLen, n, seconds)
  {
    var r := ShrinkRun(seconds, ratio, n);
    Candidate(r.work, r.breakLen, n)
  }

  /** The outcomes of the passes for interval counts 1, 2, ..., 19, as if
      none of them stopped the search. */
  function Outcomes(seconds: nat, ratio: int): (os: seq<Candidate>)
    requires ratio != 0
    ensures |os| == CountBound - 1
  {
    seq(CountBound - 1, k requires 0 <= k < CountBound - 1 => Outcome(seconds, ratio, k + 1))
  }

  /** The outer loop's early exit: the outcomes up to, not including, the
      first one whose work length is below the floor. */
  function KeptPrefix(outcomes: seq<Candidate>): (r: seq<Candidate>)
    ensures |r| <= |outcomes| && r == outcomes[..|r|]
    ensures forall k :: 0 <= k < |r| ==> r[k].work >= MinWork
    ensures |r| < |outcomes| ==> outcomes[|r|].work < MinWork
  {
    if |outcomes| == 0 || outcomes[0].work < MinWork then []
    else [outcomes[0]] + KeptPrefix(outcomes[1..])
  }

  /** The list calculate_periods returns for a nonzero ratio. */
  function Periods(seconds: nat, ratio: int): (r: seq<Candidate>)
    requires ratio != 0
    ensures |r| < CountBound
    ensures forall k :: 0 <= k < |r| ==> r[k].intervals == k + 1
    ensures forall k :: 0 <= k < |r| ==> r[k].work >= MinWork
    ensures forall k :: 0 <= k < |r| ==> 60 * Total(r[k].work, r[k].breakLen, r[k].intervals) <= seconds
  {
    var os := Outcomes(seconds, ratio);
    var r := KeptPrefix(os);
    assert forall k :: 0 <= k < |r| ==> r[k] == os[k];
    r
  }

  /** A prefix of the outcomes that keeps going while the floor is met and
      stops at the first miss is the kept prefix: there is only one. */
  lemma {:induction false} KeptPrefixUnique(outcomes: seq<Candidate>, r: seq<Candidate>)
    requires |r| <= |outcomes| && r == outcomes[..|r|]
    requires forall k :: 0 <= k < |r| ==> r[k].work >= MinWork
    requires |r| < |outcomes| ==> outcomes[|r|].work < MinWork
    ensures r == KeptPrefix(outcomes)
  {
    if |r| > 0 {
      assert r[0] == outcomes[0];
      var r', os' := r[1..], outcomes[1..];
      assert r' == os'[..|r'|];
      assert forall k :: 0 <= k < |r'| ==> r'[k] == r[k + 1];
      assert |r'| < |os'| ==> os'[|r'|] == outcomes[|r|];
      KeptPrefixUnique(os', r');
      assert r == [r[0]] + r';
    }
  }

  /** A prefix of the outcomes that all meet the floor is part of the kept
      prefix. */
  lemma KeptPrefixLength(outcomes: seq<Candidate>, r: seq<Candidate>)
    requires |r| <= |outcomes| && r == outcomes[..|r|]
    requires forall k :: 0 <= k < |r| ==> r[k].work >= MinWork
    ensures |r| <= |KeptPrefix(outcomes)|
  {
  }

  /** One pass of calculate_periods' outer loop for n intervals: the
      rounded initial lengths, then the correction loop. */
  method FitIntervals(seconds: nat, ratio: int, n: int) returns (workLen: int, breakLen: int)
    requires n >= 1 && ratio != 0
    ensures Candidate(workLen, breakLen, n) == Outcome(seconds, ratio, n)
  {
    var tries: nat := 0;
    breakLen := InitialBreak(seconds, ratio, n);
    workLen := breakLen * ratio;
    var totalTime := Total(workLen, breakLen, n);
    ghost var run := ShrinkRun(seconds, ratio, n);
    while 60 * totalTime > seconds
      invariant totalTime == Total(workLen, breakLen, n)
      invariant Shrink(ShrinkState(workLen, breakLen, tries), n, seconds) == run
      decreases 60 * totalTime - seconds, tries % 3
    {
      ghost var before := ShrinkState(workLen, breakLen, tries);
      tries := tries + 1;
      if tries % 3 != 0 {
        workLen := workLen - 1;
      } else {
        breakLen := breakLen - 1;
      }
      assert ShrinkState(workLen, breakLen, tries) == Step(before);
      assert Shrink(Step(before), n, seconds) == run by {
        ShrinkStep(before, n, seconds);
      }
      assert Total(workLen, breakLen, n) <= totalTime - (if tries % 3 != 0 then 1 else 0) by {
        TotalCuts(before.work, before.breakLen, n);
      }
      totalTime := Total(workLen, breakLen, n);
    }
    assert ShrinkState(workLen, breakLen, tries) == run by {
      ShrinkStops(ShrinkState(workLen, breakLen, tries), n, seconds);
    }
  }

  /** The search reaches a pass whose denominator cannot be converted to a
      float: one of the passes up to and including the first one that is
      not kept. */
  predicate OverflowReached(seconds: nat, ratio: int)
    requires ratio != 0
  {
    exists i :: 1 <= i < CountBound && i <= |Periods(seconds, ratio)| + 1 &&
      TooLargeForFloat(Denominator(i, ratio))
  }

  /** When every pass before m converts its denominator and the search
      stops before m, no pass overflows. */
  lemma NoOverflowBefore(seconds: nat, ratio: int, m: int)
    requires ratio != 0
    requires forall j :: 1 <= j < m ==> !TooLargeForFloat(Denominator(j, ratio))
    requires |Periods(seconds, ratio)| + 1 < m || m == CountBound
    ensures !OverflowReached(seconds, ratio)
  {
  }

  /** The pass for n is the outcome at position n - 1. */
  lemma OutcomeAt(seconds: nat, ratio: int, n: int)
    requires ratio != 0 && 1 <= n < CountBound
    ensures Outcomes(seconds, ratio)[n - 1] == Outcome(seconds, ratio, n)
  {
  }

  /** A pass whose denominator overflows, reached while every earlier pass
      was kept, is reached by the search. */
  lemma OverflowExit(seconds: nat, ratio: int, choices: seq<Candidate>, n: int)
    requires ratio != 0 && 1 <= n < CountBound
    requires choices == Outcomes(seconds, ratio)[..n - 1]
    requires forall k :: 0 <= k < |choices| ==> choices[k].work >= MinWork
    requires TooLargeForFloat(Denominator(n, ratio))
    ensures OverflowReached(seconds, ratio)
  {
    KeptPrefixLength(Outcomes(seconds, ratio), choices);
    assert n <= |Periods(seconds, ratio)| + 1;
  }

  /** Stopping at the first pass below the floor, with no overflow up to
      it, returns the search result. */
  lemma FloorExit(seconds: nat, ratio: int, choices: seq<Candidate>, n: int)
    requires ratio != 0 && 1 <= n < CountBound
    requires choices == Outcomes(seconds, ratio)[..n - 1]
    requires forall k :: 0 <= k < |choices| ==> choices[k].work >= MinWork
    requires Outcomes(seconds, ratio)[n - 1].work < MinWork
    requires forall j :: 1 <= j <= n ==> !TooLargeForFloat(Denominator(j, ratio))
    ensures choices == Periods(seconds, ratio) && !OverflowReached(seconds, ratio)
  {
    KeptPrefixUnique(Outcomes(seconds, ratio), choices);
    NoOverflowBefore(seconds, ratio, n + 1);
  }

  /** Running through every pass without a miss or an overflow returns the
      search result. */
  lemma ExhaustedExit(seconds: nat, ratio: int, choices: seq<Candidate>)
    requires ratio != 0
    requires choices == Outcomes(seconds, ratio)[..CountBound - 1]
    requires forall k :: 0 <= k < |choices| ==> choices[k].work >= MinWork
    requires forall j :: 1 <= j < CountBound ==> !TooLargeForFloat(Denominator(j, ratio))
    ensures choices == Periods(seconds, ratio) && !OverflowReached(seconds, ratio)
  {
    KeptPrefixUnique(Outcomes(seconds, ratio), choices);
    NoOverflowBefore(seconds, ratio, CountBound);
  }

  /** calculate_periods with the time left given as whole seconds: the
      outer loop over interval counts, its early exit, and the two errors
      the division can raise. */
  method CalculatePeriods(seconds: nat, ratio: int) returns (res: Result<seq<Candidate>>)
    ensures ratio == 0 ==> res == Err(ZeroDivision)
    ensures ratio != 0 ==> (res == Err(Overflow) <==> OverflowReached(seconds, ratio))
    ensures ratio != 0 && !OverflowReached(seconds, ratio) ==> res == Ok(Periods(seconds, ratio))
  {
    var choices: seq<Candidate> := [];
    for i := 1 to CountBound
      invariant ratio == 0 ==> i == 1
      invariant ratio != 0 ==> choices == Outcomes(seconds, ratio)[..i - 1]
      invariant forall k :: 0 <= k < |choices| ==> choices[k].work >= MinWork
      invariant forall j :: 1 <= j < i ==> !TooLargeForFloat(Denominator(j, ratio))
    {
      Shift64Bound(Abs(Denominator(i, ratio)), 15);
      if TooLargeForFloat(Denominator(i, ratio)) {
        OverflowExit(seconds, ratio, choices, i);
        return Err(Overflow);
      }
      DenominatorZero(i, ratio);
      if Denominator(i, ratio) == 0 {
        return Err(ZeroDivision);
      }
      var workLen, breakLen := FitIntervals(seconds, ratio, i);
      OutcomeAt(seconds, ratio, i);
      if workLen < MinWork {
        FloorExit(seconds, ratio, choices, i);
        return Ok(choices);
      }
      ghost var os := Outcomes(seconds, ratio);
      assert os[..i] == os[..i - 1] + [os[i - 1]];
      choices := choices + [Candidate(workLen, breakLen, i)];
    }
    if ratio != 0 {
      ExhaustedExit(seconds, ratio, choices);
    }
    return Ok(choices);
  }
}
