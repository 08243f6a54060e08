/** The data the meeting indicator works on: rows read from the calendar
    store, the exception keys built from them, the day window and the
    summary handed to the status bar.

    Every instant is an integer number of microseconds since the Unix epoch,
    the unit the store uses for its timestamp columns. Converting an instant
    to another time zone keeps the instant, so the model has no zones, only
    the zone identifier a row carries for the recurrence expansion. */
module Calendar {
  import opened Wrappers

  /** One row of the event query: a `cal_events` row left-joined with its
      `RRULE` property.
      - `start` is the decoded start instant, None when the stored start is
        NULL or cannot be turned into a date-time;
      - `end` is the raw `event_end` column (NULL is None), used only by the
        pre-filter of the query;
      - `zone` is the raw `event_start_tz` column;
      - `rrule` is the joined property value, None when there is none. */
  datatype EventRow = EventRow(
    id: string,
    calId: string,
    start: Option<int>,
    end: Option<int>,
    zone: Option<string>,
    rrule: Option<string>)
  {
    /** A row is expanded as a series only when its rule text is present and
        non-empty; an empty rule string is falsy and the row is treated as a
        single event. */
    predicate IsRecurring() {
      rrule.Some? && |rrule.value| > 0
    }
  }

  /** One row of the `cal_exceptions` table. `isNegative` is 1 for a deleted
      instance of a series; any other value (or NULL) marks a row that does
      not cancel anything. */
  datatype ExceptionRow = ExceptionRow(
    calId: string,
    recurrenceId: Option<int>,
    isNegative: Option<int>)
  {
    predicate IsCancellation() {
      isNegative == Some(1)
    }

    function AsKey(): Key {
      Key(calId, recurrenceId)
    }
  }

  /** A cancelled instance: the calendar and the instant of the instance.
      The instant is nullable because the column is. */
  datatype Key = Key(calId: string, recurrenceId: Option<int>)

  /** Today in local time, from 00:00:00.000000 to 23:59:59.999999, as
      instants. Both bounds are inclusive. */
  datatype Window = Window(dayStart: int, dayEnd: int) {
    predicate Contains(t: int) {
      dayStart <= t <= dayEnd
    }
  }

  /** The recurrence expansion: given the rule text, the anchor start, the
      row's zone identifier and today's window, the instances of the series
      that fall in the window, or None when the rule cannot be parsed or
      evaluated. The expansion algorithm itself is not part of this model. */
  type Expander = (string, int, Option<string>, Window) -> Option<seq<int>>

  /** What the expansion promises: it asks for the instances between the two
      bounds of the window with both bounds included, so every instance it
      returns lies in the window. */
  ghost predicate StaysInWindow(expand: Expander) {
    forall rule, anchor, zone, w ::
      expand(rule, anchor, zone, w).Some? ==>
        forall t :: t in expand(rule, anchor, zone, w).value ==> w.Contains(t)
  }

  /** What the indicator shows: the start of the next meeting (None is the
      "--" placeholder), the number of meetings today and an error message
      when the store could not be read. */
  datatype Summary = Summary(next: Option<int>, total: nat, error: Option<string>)
}
