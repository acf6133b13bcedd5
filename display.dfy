/** The numbers of one table row printed by display_intervals; the
    formatting and printing themselves are not modelled. */
module Display {
  import opened IntervalSearch

  /** CHOICE, WORK, BREAK, PERIODS, T.WORK, T.BREAK and TOTAL TIME. */
  datatype Row = Row(choice: int, work: int, shownBreak: int, periods: int,
                     totalWork: int, totalBreak: int, total: int)

  /** The row for the candidate at position index.  The BREAK column is
      Python's `n - 1 and breakLen`: n - 1 itself when that is 0. */
  function RowOf(index: nat, c: Candidate): (r: Row)
    ensures r.choice == index + 1 && r.periods == c.intervals
    ensures r.shownBreak == (if c.intervals == 1 then 0 else c.breakLen)
    ensures r.total == r.totalWork + r.totalBreak == Total(c.work, c.breakLen, c.intervals)
  {
    var n := c.intervals;
    Row(index + 1, c.work, if n - 1 == 0 then n - 1 else c.breakLen, n,
        n * c.work, (n - 1) * c.breakLen, c.work * n + c.breakLen * (n - 1))
  }

  /** One row per candidate in order, numbered from 1; a single work
      period shows no break; the total is the work total plus the break
      total. */
  function DisplayRows(choices: seq<Candidate>): (rows: seq<Row>)
    ensures |rows| == |choices|
    ensures forall k :: 0 <= k < |rows| ==>
      rows[k].choice == k + 1 &&
      rows[k].work == choices[k].work &&
      rows[k].periods == choices[k].intervals &&
      rows[k].shownBreak == (if choices[k].intervals == 1 then 0 else choices[k].breakLen) &&
      rows[k].totalWork == choices[k].intervals * choices[k].work &&
      rows[k].totalBreak == (choices[k].intervals - 1) * choices[k].breakLen &&
      rows[k].total == rows[k].totalWork + rows[k].totalBreak
  {
    seq(|choices|, k requires 0 <= k < |choices| => RowOf(k, choices[k]))
  }

  /** The table of a search result: the choice number equals the number of
      work periods, every total fits in the time left, and the work column
      is at least the floor. */
  lemma PeriodsTable(seconds: nat, ratio: int)
    requires ratio != 0
    ensures var rows := DisplayRows(Periods(seconds, ratio));
      |rows| < CountBound &&
      forall k :: 0 <= k < |rows| ==>
        rows[k].choice == rows[k].periods &&
        rows[k].work >= MinWork &&
        60 * rows[k].total <= seconds
  {
    var r := Periods(seconds, ratio);
    var rows := DisplayRows(r);
    forall k | 0 <= k < |rows|
      ensures 60 * rows[k].total <= seconds
    {
      assert rows[k].total == Total(r[k].work, r[k].breakLen, r[k].intervals);
    }
  }

  /** The table hides the negative break of a single-period candidate: the
      BREAK column shows 0 although -1 is what the search returned. */
  lemma NegativeBreakShownAsZero()
    ensures var rows := DisplayRows([Candidate(19, -1, 1)]);
      |rows| == 1 && rows[0].shownBreak == 0 && rows[0].total == 19
  {
  }
}
