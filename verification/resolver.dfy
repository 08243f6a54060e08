/** Turning the fetched rows into today's meeting instants: a single event
    is kept when its start lies in today's window; a series is expanded over
    the window and its cancelled instances are dropped. A row whose start
    cannot be decoded, or whose rule cannot be evaluated, contributes nothing
    and the remaining rows are still resolved. */
module Resolver {
  import opened Wrappers
  import opened Calendar

  /** The expansion of a recurring row over today's window, anchored at the
      row's decoded start and interpreted in the row's zone. */
  function Expansion(row: EventRow, w: Window, expand: Expander): Option<seq<int>>
    requires row.IsRecurring() && row.start.Some?
  {
    expand(row.rrule.value, row.start.value, row.zone, w)
  }

  predicate Cancelled(calId: string, t: int, exc: set<Key>) {
    Key(calId, Some(t)) in exc
  }

  /** The instances no cancellation names, in expansion order. */
  function Uncancelled(calId: string, instances: seq<int>, exc: set<Key>): (kept: seq<int>)
    ensures |kept| <= |instances|
    ensures forall t ::
              multiset(kept)[t] == if Cancelled(calId, t, exc) then 0 else multiset(instances)[t]
  {
    if |instances| == 0 then []
    else
      assert instances == [instances[0]] + instances[1..];
      var rest := Uncancelled(calId, instances[1..], exc);
      if Cancelled(calId, instances[0], exc) then rest else [instances[0]] + rest
  }

  /** The meetings one row contributes today. */
  function Resolve(row: EventRow, exc: set<Key>, w: Window, expand: Expander): (occ: seq<int>)
    ensures row.IsRecurring() || |occ| <= 1
    ensures forall t :: t in occ ==>
              && row.start.Some?
              && if row.IsRecurring()
                 then Expansion(row, w, expand).Some? && t in Expansion(row, w, expand).value
                      && !Cancelled(row.calId, t, exc)
                 else t == row.start.value && w.Contains(t)
  {
    match row.start
    case None => []
    case Some(s) =>
      if row.IsRecurring() then
        match Expansion(row, w, expand)
        case None => []
        case Some(instances) =>
          var kept := Uncancelled(row.calId, instances, exc);
          assert forall t :: t in kept ==> multiset(kept)[t] > 0;
          kept
      else if w.Contains(s) then [s]
      else []
  }

  /** A single event yields exactly its start when, and only when, that start
      lies in today's window, both bounds included; otherwise nothing. */
  lemma SingleEventInWindow(row: EventRow, exc: set<Key>, w: Window, expand: Expander)
    requires row.start.Some? && !row.IsRecurring()
    ensures Resolve(row, exc, w, expand) == [row.start.value] <==> w.dayStart <= row.start.value <= w.dayEnd
    ensures Resolve(row, exc, w, expand) == [] <==> !(w.dayStart <= row.start.value <= w.dayEnd)
  {
  }

  /** An instance of a successfully expanded series is a meeting today
      exactly when no cancellation of the row's calendar names its instant,
      and it is kept as many times as the expansion returned it. */
  lemma SeriesInstanceKept(row: EventRow, exc: set<Key>, w: Window, expand: Expander, t: int)
    requires row.start.Some? && row.IsRecurring() && Expansion(row, w, expand).Some?
    ensures t in Resolve(row, exc, w, expand) <==>
              t in Expansion(row, w, expand).value && Key(row.calId, Some(t)) !in exc
    ensures Key(row.calId, Some(t)) !in exc ==>
              multiset(Resolve(row, exc, w, expand))[t] == multiset(Expansion(row, w, expand).value)[t]
  {
    var occ := Resolve(row, exc, w, expand);
    var xs := Expansion(row, w, expand).value;
    assert t in occ <==> multiset(occ)[t] > 0;
    assert t in xs <==> multiset(xs)[t] > 0;
  }

  /** A cancelled instant never appears among the meetings of a series of
      the same calendar. */
  lemma CancelledInstanceSuppressed(row: EventRow, exc: set<Key>, w: Window, expand: Expander, t: int)
    requires row.IsRecurring() && Key(row.calId, Some(t)) in exc
    ensures t !in Resolve(row, exc, w, expand)
  {
  }

  /** A row whose start cannot be decoded, or whose rule cannot be
      evaluated, contributes no meeting. */
  lemma DefectiveRowContributesNothing(row: EventRow, exc: set<Key>, w: Window, expand: Expander)
    requires row.start.None? || (row.IsRecurring() && Expansion(row, w, expand).None?)
    ensures Resolve(row, exc, w, expand) == []
  {
  }

  /** Every meeting of a row lies in today's window, given an expansion that
      keeps to the window it is asked about. */
  lemma ResolveInWindow(row: EventRow, exc: set<Key>, w: Window, expand: Expander)
    requires StaysInWindow(expand)
    ensures forall t :: t in Resolve(row, exc, w, expand) ==> w.dayStart <= t <= w.dayEnd
  {
    forall t | t in Resolve(row, exc, w, expand)
      ensures w.Contains(t)
    {
      if row.IsRecurring() {
        var rule: string, anchor: int := row.rrule.value, row.start.value;
        assert expand(rule, anchor, row.zone, w).Some?;
        assert t in expand(rule, anchor, row.zone, w).value;
      }
    }
  }

  /** The meetings of all rows, row after row, in row order. */
  function Collect(rows: seq<EventRow>, exc: set<Key>, w: Window, expand: Expander): (occ: seq<int>)
    ensures forall t :: t in occ ==>
              exists i :: 0 <= i < |rows| && t in Resolve(rows[i], exc, w, expand)
  {
    if |rows| == 0 then []
    else
      var rest := Collect(rows[1..], exc, w, expand);
      assert forall i :: 1 <= i < |rows| ==> rows[i] == rows[1..][i - 1];
      Resolve(rows[0], exc, w, expand) + rest
  }

  /** Resolving a concatenation of rows concatenates their meetings: each row
      is resolved on its own. */
  lemma {:induction false} CollectAppend(a: seq<EventRow>, b: seq<EventRow>, exc: set<Key>, w: Window, expand: Expander)
    ensures Collect(a + b, exc, w, expand) == Collect(a, exc, w, expand) + Collect(b, exc, w, expand)
  {
    if |a| == 0 {
      assert a + b == b;
    } else {
      assert (a + b)[1..] == a[1..] + b;
      CollectAppend(a[1..], b, exc, w, expand);
    }
  }

  /** Every meeting any row yields is among the collected meetings. */
  lemma CollectContainsEachRow(rows: seq<EventRow>, exc: set<Key>, w: Window, expand: Expander, i: nat, t: int)
    requires i < |rows| && t in Resolve(rows[i], exc, w, expand)
    ensures t in Collect(rows, exc, w, expand)
  {
    assert rows == rows[..i] + [rows[i]] + rows[i + 1..];
    CollectSplit(rows[..i], rows[i], rows[i + 1..], exc, w, expand);
  }

  /** The meetings of one row sit between those of the rows before it and
      those of the rows after it. */
  lemma CollectSplit(before: seq<EventRow>, row: EventRow, after: seq<EventRow>, exc: set<Key>, w: Window, expand: Expander)
    ensures Collect(before + [row] + after, exc, w, expand)
              == Collect(before, exc, w, expand) + Resolve(row, exc, w, expand) + Collect(after, exc, w, expand)
  {
    CollectAppend(before + [row], after, exc, w, expand);
    CollectAppend(before, [row], exc, w, expand);
    CollectSingle(row, exc, w, expand);
  }

  lemma CollectSingle(row: EventRow, exc: set<Key>, w: Window, expand: Expander)
    ensures Collect([row], exc, w, expand) == Resolve(row, exc, w, expand)
  {
    assert [row][1..] == [];
    assert Collect([row], exc, w, expand) == Resolve(row, exc, w, expand) + Collect([], exc, w, expand);
  }

  /** A defective row neither aborts the batch nor changes what the other
      rows contribute: the result is as if the row were absent. */
  lemma DefectiveRowSkipped(before: seq<EventRow>, row: EventRow, after: seq<EventRow>, exc: set<Key>, w: Window, expand: Expander)
    requires row.start.None? || (row.IsRecurring() && Expansion(row, w, expand).None?)
    ensures Collect(before + [row] + after, exc, w, expand) == Collect(before + after, exc, w, expand)
  {
    DefectiveRowContributesNothing(row, exc, w, expand);
    CollectSplit(before, row, after, exc, w, expand);
    CollectAppend(before, after, exc, w, expand);
    var cb, ca := Collect(before, exc, w, expand), Collect(after, exc, w, expand);
    assert cb + [] + ca == cb + ca;
  }

  /** Every collected meeting lies in today's window. */
  lemma {:induction false} CollectInWindow(rows: seq<EventRow>, exc: set<Key>, w: Window, expand: Expander)
    requires StaysInWindow(expand)
    ensures forall t :: t in Collect(rows, exc, w, expand) ==> w.dayStart <= t <= w.dayEnd
  {
    forall t | t in Collect(rows, exc, w, expand)
      ensures w.Contains(t)
    {
      var i :| 0 <= i < |rows| && t in Resolve(rows[i], exc, w, expand);
      ResolveInWindow(rows[i], exc, w, expand);
    }
  }

  /** No collected meeting is a cancelled instance of a series: if an instant
      is cancelled for a calendar, it can only come from a single event of
      that calendar or from another calendar. */
  lemma {:induction false} CollectSuppression(rows: seq<EventRow>, exc: set<Key>, w: Window, expand: Expander, t: int)
    requires t in Collect(rows, exc, w, expand)
    ensures exists i :: 0 <= i < |rows| && t in Resolve(rows[i], exc, w, expand)
              && (rows[i].IsRecurring() ==> Key(rows[i].calId, Some(t)) !in exc)
  {
    var i :| 0 <= i < |rows| && t in Resolve(rows[i], exc, w, expand);
  }

  /** Rows read in another order yield the same meetings, with the same
      multiplicities: each row is resolved on its own. */
  lemma {:induction false} CollectPermutation(rows1: seq<EventRow>, rows2: seq<EventRow>, exc: set<Key>, w: Window, expand: Expander)
    requires multiset(rows1) == multiset(rows2)
    ensures multiset(Collect(rows1, exc, w, expand)) == multiset(Collect(rows2, exc, w, expand))
    decreases |rows1|
  {
    if |rows1| == 0 {
      assert |rows2| == |multiset(rows2)| == 0;
    } else {
      var row := rows1[0];
      var rest := rows1[1..];
      assert row in multiset(rows2);
      var k :| 0 <= k < |rows2| && rows2[k] == row;
      var before, after := rows2[..k], rows2[k + 1..];
      RemoveOne(rows1, rows2, k);
      CollectPermutation(rest, before + after, exc, w, expand);
      var mine := Resolve(row, exc, w, expand);
      CollectSplit([], row, rest, exc, w, expand);
      assert [] + [row] + rest == rows1;
      CollectSplit(before, row, after, exc, w, expand);
      CollectAppend(before, after, exc, w, expand);
      var cb, ca := Collect(before, exc, w, expand), Collect(after, exc, w, expand);
      assert multiset(Collect(rows1, exc, w, expand)) == multiset(mine) + multiset(Collect(rest, exc, w, expand));
      assert multiset(Collect(rows2, exc, w, expand)) == multiset(cb) + multiset(mine) + multiset(ca);
      assert multiset(Collect(before + after, exc, w, expand)) == multiset(cb) + multiset(ca);
    }
  }

  /** Taking the first row of `rows1` and the same row out of `rows2`
      leaves rows with equal multisets. */
  lemma RemoveOne(rows1: seq<EventRow>, rows2: seq<EventRow>, k: nat)
    requires multiset(rows1) == multiset(rows2) && |rows1| > 0 && k < |rows2| && rows2[k] == rows1[0]
    ensures rows2 == rows2[..k] + [rows1[0]] + rows2[k + 1..]
    ensures multiset(rows1[1..]) == multiset(rows2[..k] + rows2[k + 1..])
  {
    assert rows1 == [rows1[0]] + rows1[1..];
    assert rows2 == rows2[..k] + [rows2[k]] + rows2[k + 1..];
    assert multiset(rows1[1..]) == multiset(rows1) - multiset{rows1[0]};
    assert multiset(rows2[..k] + rows2[k + 1..]) == multiset(rows2) - multiset{rows2[k]};
  }
}
