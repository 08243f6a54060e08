/** Worked days: concrete rows, a fixed clock and what the indicator shows
    for them. */
module Scenarios {
  import opened Wrappers
  import opened Calendar
  import opened Exceptions
  import opened Prefilter
  import opened Resolver
  import opened Ordering
  import opened Meetings

  const Hour: int := 3_600_000_000
  const Day: int := 24 * Hour

  /** A single meeting at 14:00 seen at 10:00 is the next meeting, and the
      day has one meeting. */
  lemma SingleAfternoonMeeting(dayStart: int, expand: Expander)
    ensures var row := EventRow("a", "cal", Some(dayStart + 14 * Hour), None, None, None);
            GetMeetings(Snapshot([], [row]), Window(dayStart, dayStart + Day - 1), dayStart + 10 * Hour, expand)
              == Summary(Some(dayStart + 14 * Hour), 1, None)
  {
    var row := EventRow("a", "cal", Some(dayStart + 14 * Hour), None, None, None);
    var w := Window(dayStart, dayStart + Day - 1);
    assert Candidates([row], dayStart) == [row];
    assert Collect([row], {}, w, expand) == [dayStart + 14 * Hour];
  }

  /** A meeting earlier today still counts: with meetings at 08:00 and 14:00
      seen at 10:00, the next one is 14:00 and the total is two. */
  lemma PastMeetingCounted(dayStart: int, expand: Expander)
    ensures var morning := EventRow("m", "cal", Some(dayStart + 8 * Hour), None, None, None);
            var afternoon := EventRow("a", "cal", Some(dayStart + 14 * Hour), None, None, None);
            GetMeetings(Snapshot([], [afternoon, morning]), Window(dayStart, dayStart + Day - 1),
                        dayStart + 10 * Hour, expand)
              == Summary(Some(dayStart + 14 * Hour), 2, None)
  {
    var morning := EventRow("m", "cal", Some(dayStart + 8 * Hour), None, None, None);
    var afternoon := EventRow("a", "cal", Some(dayStart + 14 * Hour), None, None, None);
    var w := Window(dayStart, dayStart + Day - 1);
    var now := dayStart + 10 * Hour;
    var rows := [afternoon, morning];
    assert rows[1..] == [morning];
    assert Candidates([morning], dayStart) == [morning];
    assert Candidates(rows, dayStart) == rows;
    assert Resolve(morning, {}, w, expand) == [dayStart + 8 * Hour];
    assert Resolve(afternoon, {}, w, expand) == [dayStart + 14 * Hour];
    assert Collect([morning], {}, w, expand) == [dayStart + 8 * Hour];
    var meetings := Collect(rows, {}, w, expand);
    assert meetings == [dayStart + 14 * Hour, dayStart + 8 * Hour];
    var next := NextMeeting(meetings, now);
    assert dayStart + 14 * Hour in meetings;
    assert next == Some(dayStart + 14 * Hour);
    assert Summarize(rows, {}, w, now, expand) == Summary(Some(dayStart + 14 * Hour), 2, None);
  }

  /** A stand-in for the recurrence expansion that understands only the
      rule `FREQ=DAILY` and is asked about windows of at most one day: the
      first instance at or after the start of the window, if the window
      reaches it. Any other rule text fails to parse. */
  function DailyOracle(rule: string, anchor: int, zone: Option<string>, w: Window): Option<seq<int>>
  {
    if rule != "FREQ=DAILY" then None
    else
      var first := if anchor >= w.dayStart then anchor else w.dayStart + (anchor - w.dayStart) % Day;
      if first <= w.dayEnd then Some([first]) else Some([])
  }

  lemma DailyOracleStaysInWindow()
    ensures StaysInWindow(DailyOracle)
  {
  }

  /** A daily stand-up at 09:00 today: a cancellation of today's instance
      removes it; a row for the same instant whose `is_negative` flag is not
      1 removes nothing. */
  lemma CancelledStandup(dayStart: int)
    ensures var w := Window(dayStart, dayStart + Day - 1);
            var anchor := dayStart + 9 * Hour;
            var row := EventRow("standup", "cal", Some(anchor), Some(anchor + Hour / 2), None, Some("FREQ=DAILY"));
            && GetMeetings(Snapshot([ExceptionRow("cal", Some(anchor), Some(1))], [row]), w, dayStart, DailyOracle)
                 == Summary(None, 0, None)
            && GetMeetings(Snapshot([ExceptionRow("cal", Some(anchor), Some(0))], [row]), w, dayStart, DailyOracle)
                 == Summary(Some(anchor), 1, None)
  {
    var w := Window(dayStart, dayStart + Day - 1);
    var anchor := dayStart + 9 * Hour;
    var row := EventRow("standup", "cal", Some(anchor), Some(anchor + Hour / 2), None, Some("FREQ=DAILY"));
    var cancel := ExceptionRow("cal", Some(anchor), Some(1));
    var other := ExceptionRow("cal", Some(anchor), Some(0));
    assert Candidates([row], dayStart) == [row];
    assert BuildExceptions([cancel]) == {Key("cal", Some(anchor))};
    assert BuildExceptions([other]) == {};
    assert DailyOracle("FREQ=DAILY", anchor, None, w) == Some([anchor]);
    assert Resolve(row, {Key("cal", Some(anchor))}, w, DailyOracle) == [];
    assert Resolve(row, {}, w, DailyOracle) == [anchor];
    assert Collect([row], {Key("cal", Some(anchor))}, w, DailyOracle) == [] + Collect([], {Key("cal", Some(anchor))}, w, DailyOracle);
    assert Collect([row], {}, w, DailyOracle) == [anchor] + Collect([], {}, w, DailyOracle);
  }
}
