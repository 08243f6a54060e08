/** The set of cancelled instances, built from the `cal_exceptions` rows
    whose `is_negative` flag is 1. */
module Exceptions {
  import opened Wrappers
  import opened Calendar

  /** The keys of the cancellation rows among `rows`, folded from the front. */
  function BuildExceptions(rows: seq<ExceptionRow>): (exc: set<Key>)
    ensures forall k :: k in exc <==>
      exists j :: 0 <= j < |rows| && rows[j].IsCancellation() && rows[j].AsKey() == k
  {
    if |rows| == 0 then {}
    else
      var rest := BuildExceptions(rows[1..]);
      assert forall j :: 1 <= j < |rows| ==> rows[j] == rows[1..][j - 1];
      if rows[0].IsCancellation() then {rows[0].AsKey()} + rest else rest
  }

  /** A row that is not a cancellation leaves the set unchanged, wherever it
      stands among the rows. */
  lemma {:induction false} NonCancellationIgnored(before: seq<ExceptionRow>, row: ExceptionRow, after: seq<ExceptionRow>)
    requires !row.IsCancellation()
    ensures BuildExceptions(before + [row] + after) == BuildExceptions(before + after)
  {
    var withRow := before + [row] + after;
    var without := before + after;
    forall k | k in BuildExceptions(withRow)
      ensures k in BuildExceptions(without)
    {
      var j :| 0 <= j < |withRow| && withRow[j].IsCancellation() && withRow[j].AsKey() == k;
      if j < |before| {
        assert without[j] == withRow[j];
      } else {
        assert j > |before|;
        assert without[j - 1] == withRow[j];
      }
    }
    forall k | k in BuildExceptions(without)
      ensures k in BuildExceptions(withRow)
    {
      var j :| 0 <= j < |without| && without[j].IsCancellation() && without[j].AsKey() == k;
      if j < |before| {
        assert withRow[j] == without[j];
      } else {
        assert withRow[j + 1] == without[j];
      }
    }
  }

  /** Only an `is_negative = 1` row with a non-null instant can cancel an
      instance: a key with a known instant is in the set exactly when such a
      row carries it. */
  lemma CancelledInstant(rows: seq<ExceptionRow>, calId: string, t: int)
    ensures Key(calId, Some(t)) in BuildExceptions(rows) <==>
      exists j :: 0 <= j < |rows| && rows[j].isNegative == Some(1)
                  && rows[j].calId == calId && rows[j].recurrenceId == Some(t)
  {
    if Key(calId, Some(t)) in BuildExceptions(rows) {
      var j :| 0 <= j < |rows| && rows[j].IsCancellation() && rows[j].AsKey() == Key(calId, Some(t));
      assert rows[j].calId == calId && rows[j].recurrenceId == Some(t);
    }
  }
}
