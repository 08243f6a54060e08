/** The event query keeps a row only when its end is NULL or after the start
    of today. For a recurring row that end is the end of the series' first
    instance, so a series that began before today is never fetched, although
    its expansion has instances today. This module exhibits that on a daily
    series and proves that the corrected clause, which fetches every
    recurring row, loses no meeting. */
module Findings {
  import opened Wrappers
  import opened Calendar
  import opened Exceptions
  import opened Prefilter
  import opened Resolver
  import opened Meetings
  import opened Scenarios

  /** A daily stand-up that started yesterday at 09:00 and lasted half an
      hour has an instance today at 09:00, and resolving its row yields that
      meeting; yet the query as written never fetches the row, so the day
      reports no meeting at all. */
  lemma PastSeriesDroppedAsWritten(dayStart: int)
    ensures var w := Window(dayStart, dayStart + Day - 1);
            var anchor := dayStart - Day + 9 * Hour;
            var row := EventRow("standup", "cal", Some(anchor), Some(anchor + Hour / 2), None, Some("FREQ=DAILY"));
            && DailyOracle("FREQ=DAILY", anchor, None, w) == Some([dayStart + 9 * Hour])
            && Collect([row], {}, w, DailyOracle) == [dayStart + 9 * Hour]
            && GetMeetings(Snapshot([], [row]), w, dayStart + 8 * Hour, DailyOracle) == Summary(None, 0, None)
  {
    var w := Window(dayStart, dayStart + Day - 1);
    var anchor := dayStart - Day + 9 * Hour;
    var row := EventRow("standup", "cal", Some(anchor), Some(anchor + Hour / 2), None, Some("FREQ=DAILY"));
    assert (anchor - dayStart) % Day == 9 * Hour;
    assert Resolve(row, {}, w, DailyOracle) == [dayStart + 9 * Hour];
    assert Collect([row], {}, w, DailyOracle) == [dayStart + 9 * Hour] + Collect([], {}, w, DailyOracle);
    assert Candidates([row], dayStart) == [];
  }

  /** With the corrected clause the same stand-up is today's next meeting. */
  lemma PastSeriesKeptCorrected(dayStart: int)
    ensures var w := Window(dayStart, dayStart + Day - 1);
            var anchor := dayStart - Day + 9 * Hour;
            var row := EventRow("standup", "cal", Some(anchor), Some(anchor + Hour / 2), None, Some("FREQ=DAILY"));
            GetMeetingsCorrected(Snapshot([], [row]), w, dayStart + 8 * Hour, DailyOracle)
              == Summary(Some(dayStart + 9 * Hour), 1, None)
  {
    var w := Window(dayStart, dayStart + Day - 1);
    var anchor := dayStart - Day + 9 * Hour;
    var row := EventRow("standup", "cal", Some(anchor), Some(anchor + Hour / 2), None, Some("FREQ=DAILY"));
    assert (anchor - dayStart) % Day == 9 * Hour;
    assert Resolve(row, {}, w, DailyOracle) == [dayStart + 9 * Hour];
    assert Collect([row], {}, w, DailyOracle) == [dayStart + 9 * Hour] + Collect([], {}, w, DailyOracle);
    assert CandidatesCorrected([row], dayStart) == [row];
  }

  /** A row whose end, when both are known, lies after its start. */
  predicate PositiveDuration(row: EventRow) {
    row.start.Some? && row.end.Some? ==> row.start.value < row.end.value
  }

  /** With the corrected clause the query is only an optimisation: on rows
      whose events have a positive duration, resolving the fetched rows gives
      exactly the meetings of resolving every row of the table. */
  lemma {:induction false} CorrectedFilterLosesNothing(rows: seq<EventRow>, exc: set<Key>, w: Window, expand: Expander)
    requires forall i :: 0 <= i < |rows| ==> PositiveDuration(rows[i])
    ensures Collect(CandidatesCorrected(rows, w.dayStart), exc, w, expand) == Collect(rows, exc, w, expand)
  {
    if |rows| > 0 {
      var row := rows[0];
      assert rows == [row] + rows[1..];
      CandidatesCorrectedAppend([row], rows[1..], w.dayStart);
      CorrectedFilterLosesNothing(rows[1..], exc, w, expand);
      CollectAppend([row], rows[1..], exc, w, expand);
      CollectAppend(CandidatesCorrected([row], w.dayStart), CandidatesCorrected(rows[1..], w.dayStart), exc, w, expand);
      assert Collect([row], exc, w, expand) == Resolve(row, exc, w, expand) + Collect([], exc, w, expand);
      if !IsCandidateCorrected(row, w.dayStart) {
        assert CandidatesCorrected([row], w.dayStart) == [];
        assert Resolve(row, exc, w, expand) == [];
      } else {
        assert CandidatesCorrected([row], w.dayStart) == [row];
      }
    }
  }

  /** Hence the corrected summary equals the summary of resolving the whole
      table, while every recurring row is fetched whatever its end. */
  lemma CorrectedSummaryMissesNothing(exceptionRows: seq<ExceptionRow>, eventRows: seq<EventRow>,
                                      w: Window, now: int, expand: Expander)
    requires forall i :: 0 <= i < |eventRows| ==> PositiveDuration(eventRows[i])
    ensures GetMeetingsCorrected(Snapshot(exceptionRows, eventRows), w, now, expand)
              == Summarize(eventRows, BuildExceptions(exceptionRows), w, now, expand)
    ensures forall row :: row in eventRows && row.IsRecurring() ==> row in CandidatesCorrected(eventRows, w.dayStart)
  {
    CorrectedFilterLosesNothing(eventRows, BuildExceptions(exceptionRows), w, expand);
    forall row | row in eventRows && row.IsRecurring()
      ensures row in CandidatesCorrected(eventRows, w.dayStart)
    {
      assert multiset(eventRows)[row] > 0;
      assert multiset(CandidatesCorrected(eventRows, w.dayStart))[row] > 0;
    }
  }
}
