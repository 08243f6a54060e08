/** The `WHERE` clause of the event query: a row is fetched when its end is
    NULL or lies strictly after the start of today. */
module Prefilter {
  import opened Calendar

  /** `e.event_end > dayStart OR e.event_end IS NULL`. */
  predicate IsCandidate(row: EventRow, dayStart: int) {
    row.end.None? || row.end.value > dayStart
  }

  /** The rows the query returns, in store order. */
  function Candidates(rows: seq<EventRow>, dayStart: int): (out: seq<EventRow>)
    ensures |out| <= |rows|
    ensures forall row ::
              multiset(out)[row] == if IsCandidate(row, dayStart) then multiset(rows)[row] else 0
  {
    if |rows| == 0 then []
    else
      assert rows == [rows[0]] + rows[1..];
      var rest := Candidates(rows[1..], dayStart);
      if IsCandidate(rows[0], dayStart) then [rows[0]] + rest else rest
  }

  /** A row is returned exactly when it is in the table and passes the
      clause, whatever the other rows. */
  lemma CandidateMembership(rows: seq<EventRow>, dayStart: int, row: EventRow)
    ensures row in Candidates(rows, dayStart) <==> row in rows && IsCandidate(row, dayStart)
  {
    assert row in Candidates(rows, dayStart) <==> multiset(Candidates(rows, dayStart))[row] > 0;
    assert row in rows <==> multiset(rows)[row] > 0;
  }

  /** The filter distributes over concatenation, so it keeps store order. */
  lemma {:induction false} CandidatesAppend(a: seq<EventRow>, b: seq<EventRow>, dayStart: int)
    ensures Candidates(a + b, dayStart) == Candidates(a, dayStart) + Candidates(b, dayStart)
  {
    if |a| == 0 {
      assert a + b == b;
    } else {
      assert (a + b)[1..] == a[1..] + b;
      CandidatesAppend(a[1..], b, dayStart);
    }
  }

  /** The clause as the query would evaluate it if recurring rows were
      fetched whatever their end: the end of a series' master row is the end
      of its first instance and says nothing about later instances. */
  predicate IsCandidateCorrected(row: EventRow, dayStart: int) {
    row.IsRecurring() || IsCandidate(row, dayStart)
  }

  function CandidatesCorrected(rows: seq<EventRow>, dayStart: int): (out: seq<EventRow>)
    ensures |out| <= |rows|
    ensures forall row ::
              multiset(out)[row] == if IsCandidateCorrected(row, dayStart) then multiset(rows)[row] else 0
  {
    if |rows| == 0 then []
    else
      assert rows == [rows[0]] + rows[1..];
      var rest := CandidatesCorrected(rows[1..], dayStart);
      if IsCandidateCorrected(rows[0], dayStart) then [rows[0]] + rest else rest
  }

  lemma {:induction false} CandidatesCorrectedAppend(a: seq<EventRow>, b: seq<EventRow>, dayStart: int)
    ensures CandidatesCorrected(a + b, dayStart) == CandidatesCorrected(a, dayStart) + CandidatesCorrected(b, dayStart)
  {
    if |a| == 0 {
      assert a + b == b;
    } else {
      assert (a + b)[1..] == a[1..] + b;
      CandidatesCorrectedAppend(a[1..], b, dayStart);
    }
  }
}
