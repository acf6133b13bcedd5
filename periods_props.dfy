/** Properties of the interval search that relate several passes, several
    tries of the correction loop, or a whole run of calculate_periods. */
module SearchProperties {
  import opened PyRound
  import opened IntervalSearch
  import StopTime

  /** The search is an early exit, not a filter: a list is the result of
      calculate_periods exactly when it holds the outcomes for 1, 2, ...
      in order, each at or above the floor, and the next count either does
      not exist or falls below the floor. */
  lemma PeriodsCharacterized(seconds: nat, ratio: int, r: seq<Candidate>)
    requires ratio != 0
    ensures r == Periods(seconds, ratio) <==>
      (|r| < CountBound &&
       (forall k :: 0 <= k < |r| ==> r[k] == Outcome(seconds, ratio, k + 1) && r[k].work >= MinWork) &&
       (|r| + 1 < CountBound ==> Outcome(seconds, ratio, |r| + 1).work < MinWork))
  {
    var os := Outcomes(seconds, ratio);
    if r == Periods(seconds, ratio) {
      forall k | 0 <= k < |r|
        ensures r[k] == Outcome(seconds, ratio, k + 1)
      {
        assert r[k] == os[k];
      }
    }
    if |r| < CountBound &&
       (forall k :: 0 <= k < |r| ==> r[k] == Outcome(seconds, ratio, k + 1) && r[k].work >= MinWork) &&
       (|r| + 1 < CountBound ==> Outcome(seconds, ratio, |r| + 1).work < MinWork)
    {
      assert r == os[..|r|];
      KeptPrefixUnique(os, r);
    }
  }

  /** Once a pass falls below the floor no later interval count is offered,
      even one whose own outcome would pass. */
  lemma EarlyExit(seconds: nat, ratio: int, m: int)
    requires ratio != 0 && 1 <= m < CountBound
    requires Outcome(seconds, ratio, m).work < MinWork
    ensures |Periods(seconds, ratio)| < m
    ensures forall c :: c in Periods(seconds, ratio) ==> c.intervals < m
  {
    var os := Outcomes(seconds, ratio);
    assert os[m - 1].work < MinWork;
  }

  /** With the seconds a timedelta can hold, a ratio far below the float
      range already ends the search after the first pass, so the search
      overflows exactly when the first denominator, the ratio itself, is
      beyond the float range. */
  lemma OverflowOnlyAtFirstPass(seconds: nat, ratio: int)
    requires seconds < StopTime.SecondsPerDay && ratio != 0
    ensures OverflowReached(seconds, ratio) <==> TooLargeForFloat(ratio)
  {
    if Abs(ratio) >= 2 * StopTime.SecondsPerDay {
      LargeRatioStops(seconds, ratio);
      OverflowWhenNothingKept(seconds, ratio);
    } else {
      NoOverflowForSmallRatio(seconds, ratio);
    }
  }

  /** When nothing is kept only the first pass runs, and its denominator
      is the ratio. */
  lemma OverflowWhenNothingKept(seconds: nat, ratio: int)
    requires ratio != 0 && Periods(seconds, ratio) == []
    ensures OverflowReached(seconds, ratio) <==> TooLargeForFloat(ratio)
  {
    assert Denominator(1, ratio) == ratio;
  }

  /** A ratio below two days of seconds keeps every denominator far inside
      the float range. */
  lemma NoOverflowForSmallRatio(seconds: nat, ratio: int)
    requires ratio != 0 && Abs(ratio) < 2 * StopTime.SecondsPerDay
    ensures !OverflowReached(seconds, ratio) && !TooLargeForFloat(ratio)
  {
    forall i | 1 <= i < CountBound
      ensures !TooLargeForFloat(Denominator(i, ratio))
    {
      var a := Abs(Denominator(i, ratio));
      DenominatorBound(i, ratio);
      Shift64Bound(a, 15);
      assert Shift970(a) <= a / 1024;
    }
    assert Denominator(1, ratio) == ratio;
  }

  /** Once |60 * ratio| is at least twice the seconds, the first pass
      rounds the break length to 0, offers no work, and ends the search. */
  lemma LargeRatioStops(seconds: nat, ratio: int)
    requires ratio != 0 && 60 * Abs(ratio) >= 2 * seconds
    ensures Outcome(seconds, ratio, 1) == Candidate(0, 0, 1)
    ensures Periods(seconds, ratio) == []
  {
    FirstBreakZero(seconds, ratio);
    ZeroBreakNoWork(seconds, ratio);
    LargeRatioKeepsNothing(seconds, ratio);
  }

  /** Such a ratio leaves the first pass without work. */
  lemma FirstPassNoWork(seconds: nat, ratio: int)
    requires ratio != 0 && 60 * Abs(ratio) >= 2 * seconds
    ensures Outcome(seconds, ratio, 1).work == 0
  {
    FirstBreakZero(seconds, ratio);
    ZeroBreakNoWork(seconds, ratio);
  }

  /** Such a ratio keeps no candidate. */
  lemma LargeRatioKeepsNothing(seconds: nat, ratio: int)
    requires ratio != 0 && 60 * Abs(ratio) >= 2 * seconds
    ensures Periods(seconds, ratio) == []
  {
    FirstPassNoWork(seconds, ratio);
    EarlyExit(seconds, ratio, 1);
  }

  /** The first pass rounds the break length to 0. */
  lemma FirstBreakZero(seconds: nat, ratio: int)
    requires ratio != 0 && 60 * Abs(ratio) >= 2 * seconds
    ensures InitialBreak(seconds, ratio, 1) == 0
  {
    var d := 60 * Denominator(1, ratio);
    assert Abs(d) == 60 * Abs(ratio);
    assert IsRoundHalfEven(seconds, d, 0);
    RoundHalfEvenUnique(seconds, d, 0);
  }

  /** A break length of 0 gives no work and no cuts. */
  lemma ZeroBreakNoWork(seconds: nat, ratio: int)
    requires ratio != 0 && InitialBreak(seconds, ratio, 1) == 0
    ensures Outcome(seconds, ratio, 1) == Candidate(0, 0, 1)
  {
    var b0 := InitialBreak(seconds, ratio, 1);
    assert b0 * ratio == 0;
    NothingToCut(0, 0, 1, seconds);
  }

  /** The denominators of a small ratio stay small. */
  lemma DenominatorBound(i: int, ratio: int)
    requires 1 <= i < CountBound && Abs(ratio) < 2 * StopTime.SecondsPerDay
    ensures Abs(Denominator(i, ratio)) < 40 * 2 * StopTime.SecondsPerDay
  {
    if ratio >= 0 {
      MulSign(i, ratio);
      assert i * ratio <= 19 * ratio;
    } else {
      MulSign(i, -ratio);
      assert i * (-ratio) <= 19 * (-ratio);
    }
  }

  /** After t tries the work length has lost t - t/3 minutes and the break
      length t/3 minutes; the loop ran exactly until the first try count at
      which the total fits. */
  lemma ShrinkPattern(seconds: nat, ratio: int, n: int)
    requires n >= 1 && ratio != 0
    ensures var b0 := InitialBreak(seconds, ratio, n);
            var t := ShrinkRun(seconds, ratio, n).tries;
            var c := Outcome(seconds, ratio, n);
            c.work == b0 * ratio - (t - t / 3) &&
            c.breakLen == b0 - t / 3 &&
            !OverBudget(c.work, c.breakLen, n, seconds) &&
            forall u: nat :: u < t ==>
              OverBudget(b0 * ratio - WorkCuts(u), b0 - BreakCuts(u), n, seconds)
  {
    RunClosedForm(seconds, ratio, n);
    RunOverBudgetBefore(seconds, ratio, n);
  }

  /** The closed form of one pass's lengths. */
  lemma RunClosedForm(seconds: nat, ratio: int, n: int)
    requires n >= 1 && ratio != 0
    ensures var b0 := InitialBreak(seconds, ratio, n);
            var r := ShrinkRun(seconds, ratio, n);
            r.work == b0 * ratio - (r.tries - r.tries / 3) &&
            r.breakLen == b0 - r.tries / 3
  {
    var b0 := InitialBreak(seconds, ratio, n);
    ShrinkCuts(ShrinkState(b0 * ratio, b0, 0), n, seconds);
  }

  /** Every try count of one pass before its last is over budget. */
  lemma RunOverBudgetBefore(seconds: nat, ratio: int, n: int)
    requires n >= 1 && ratio != 0
    ensures var b0 := InitialBreak(seconds, ratio, n);
            forall u: nat :: u < ShrinkRun(seconds, ratio, n).tries ==>
              OverBudget(b0 * ratio - WorkCuts(u), b0 - BreakCuts(u), n, seconds)
  {
    var b0 := InitialBreak(seconds, ratio, n);
    OverBudgetUntilStop(ShrinkState(b0 * ratio, b0, 0), n, seconds);
  }

  /** Every try count before the one the loop stops at is over budget. */
  lemma OverBudgetUntilStop(s: ShrinkState, n: int, seconds: int)
    requires n >= 1
    ensures forall u: nat :: s.tries <= u < Shrink(s, n, seconds).tries ==>
      OverBudget(s.work - (WorkCuts(u) - WorkCuts(s.tries)),
                 s.breakLen - (BreakCuts(u) - BreakCuts(s.tries)), n, seconds)
  {
    forall u: nat | s.tries <= u < Shrink(s, n, seconds).tries
      ensures OverBudget(s.work - (WorkCuts(u) - WorkCuts(s.tries)),
                         s.breakLen - (BreakCuts(u) - BreakCuts(s.tries)), n, seconds)
    {
      ShrinkStopsAtFirstFit(s, n, seconds, u - s.tries);
      AdvanceCuts(s, u - s.tries);
    }
  }

  /** The loop runs zero times exactly when the rounded initial lengths
      already fit; then the offered lengths are round(minutes / denominator)
      and ratio times that. */
  lemma UnchangedIffWithinBudget(seconds: nat, ratio: int, n: int)
    requires n >= 1 && ratio != 0
    ensures var b0 := InitialBreak(seconds, ratio, n);
            Outcome(seconds, ratio, n) == Candidate(b0 * ratio, b0, n) <==>
            !OverBudget(b0 * ratio, b0, n, seconds)
  {
    var b0 := InitialBreak(seconds, ratio, n);
    var r := ShrinkRun(seconds, ratio, n);
    if OverBudget(b0 * ratio, b0, n, seconds) {
      ShrinkCuts(ShrinkState(b0 * ratio, b0, 0), n, seconds);
      assert r.tries >= 1;
      assert r.work < b0 * ratio;
    }
  }

  /** Every three tries take 3n - 1 >= 2 minutes off the total, whatever the
      starting lengths: two work cuts of n minutes and one break cut of n-1.
      This is why the correction loop ends. */
  lemma ThreeTriesLowerTotal(work: int, breakLen: int, n: int, t: nat)
    requires n >= 1
    ensures Total(work - WorkCuts(t + 3), breakLen - BreakCuts(t + 3), n) ==
            Total(work - WorkCuts(t), breakLen - BreakCuts(t), n) - (3 * n - 1)
    ensures 3 * n - 1 >= 2
  {
    var w, b := work - WorkCuts(t), breakLen - BreakCuts(t);
    assert WorkCuts(t + 3) == WorkCuts(t) + 2;
    assert BreakCuts(t + 3) == BreakCuts(t) + 1;
    TotalCuts(w, b, n);
    TotalCuts(w - 1, b, n);
    TotalCuts(w - 2, b, n);
  }

  /** For a single work period the break length is never used, yet the loop
      still cuts it on every third try, so the offered break can be
      negative: with 19 minutes left and ratio 25 the only candidate is 19
      minutes of work with a break of -1 minute. */
  lemma SinglePeriodNegativeBreak(seconds: nat, ratio: int)
    requires seconds == 1140 && ratio == 25
    ensures Periods(seconds, ratio) == [Candidate(19, -1, 1)]
  {
    SingleOutcomeExample(seconds, ratio);
    SecondOutcomeExample(seconds, ratio);
    PeriodsCharacterized(seconds, ratio, [Candidate(19, -1, 1)]);
  }

  lemma SingleOutcomeExample(seconds: nat, ratio: int)
    requires seconds == 1140 && ratio == 25
    ensures Outcome(seconds, ratio, 1) == Candidate(19, -1, 1)
  {
    var b0 := InitialBreak(seconds, ratio, 1);
    assert b0 == 1 by {
      assert Denominator(1, ratio) == 25;
      assert RoundHalfEven(seconds, 1500) == 1;
    }
    assert WorkCuts(8) == 6 && WorkCuts(7) == 5 && BreakCuts(8) == 2;
    SingleShrinkTries(b0 * ratio, b0, seconds, 8);
    ShrinkCuts(ShrinkState(b0 * ratio, b0, 0), 1, seconds);
  }

  lemma SecondOutcomeExample(seconds: nat, ratio: int)
    requires seconds == 1140 && ratio == 25
    ensures Outcome(seconds, ratio, 2).work == 0
  {
    var b0 := InitialBreak(seconds, ratio, 2);
    assert b0 == 0 by {
      assert Denominator(2, ratio) == 51;
      assert RoundHalfEven(seconds, 3060) == 0;
    }
    NothingToCut(b0 * ratio, b0, 2, seconds);
  }

  /** For one work period the loop stops at the first try count whose work
      length fits on its own. */
  lemma SingleShrink(work: int, breakLen: int, seconds: int)
    ensures var t := Shrink(ShrinkState(work, breakLen, 0), 1, seconds).tries;
      60 * (work - WorkCuts(t)) <= seconds &&
      (60 * work > seconds ==> t >= 1) &&
      (t >= 1 ==> 60 * (work - WorkCuts(t - 1)) > seconds)
  {
    var s0 := ShrinkState(work, breakLen, 0);
    var r := Shrink(s0, 1, seconds);
    var t := r.tries;
    ShrinkCuts(s0, 1, seconds);
    SinglePeriodTotal(r.work, r.breakLen);
    SinglePeriodTotal(work, breakLen);
    if t >= 1 {
      ShrinkStopsAtFirstFit(s0, 1, seconds, t - 1);
      AdvanceCuts(s0, t - 1);
      SinglePeriodTotal(work - WorkCuts(t - 1), breakLen - BreakCuts(t - 1));
    }
  }

  /** For one work period, a try count at which the work length fits while
      one try fewer did not is the count the loop stops at. */
  lemma SingleShrinkTries(work: int, breakLen: int, seconds: int, t: nat)
    requires t >= 1
    requires 60 * (work - WorkCuts(t)) <= seconds
    requires 60 * (work - WorkCuts(t - 1)) > seconds
    ensures Shrink(ShrinkState(work, breakLen, 0), 1, seconds).tries == t
  {
    SingleShrink(work, breakLen, seconds);
    FirstFitUnique(work, seconds, t, Shrink(ShrinkState(work, breakLen, 0), 1, seconds).tries);
  }

  /** Work cuts only grow with the try count, so at most one try count fits
      while the one before it does not. */
  lemma FirstFitUnique(work: int, seconds: int, t: nat, t': nat)
    requires t >= 1
    requires 60 * (work - WorkCuts(t)) <= seconds
    requires 60 * (work - WorkCuts(t - 1)) > seconds
    requires 60 * (work - WorkCuts(t')) <= seconds
    requires t' >= 1 ==> 60 * (work - WorkCuts(t' - 1)) > seconds
    requires 60 * work > seconds ==> t' >= 1
    ensures t' == t
  {
    WorkCutsMonotone();
  }

  /** Later tries never give back a cut. */
  lemma WorkCutsMonotone()
    ensures forall u: nat, v: nat :: u <= v ==> WorkCuts(u) <= WorkCuts(v)
  {
  }

  /** With one work period the break length does not enter the total. */
  lemma SinglePeriodTotal(work: int, breakLen: int)
    ensures Total(work, breakLen, 1) == work
  {
  }

  lemma NothingToCut(work: int, breakLen: int, n: int, seconds: int)
    requires n >= 1 && !OverBudget(work, breakLen, n, seconds)
    ensures Shrink(ShrinkState(work, breakLen, 0), n, seconds) == ShrinkState(work, breakLen, 0)
  {
  }
}
