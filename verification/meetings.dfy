/** The whole of `get_meetings`: the early error returns when the store
    cannot be reached, then, on a snapshot of the store, the exception set,
    the pre-filtered events, their resolution into today's meetings, the
    sort, and the next start and the day's total. The clock reading and the
    day window are parameters. */
module Meetings {
  import opened Wrappers
  import opened Calendar
  import opened Exceptions
  import opened Prefilter
  import opened Resolver
  import opened Ordering

  /** What opening the store produced. The profile lookup and the file
      checks are not modelled; only their outcomes are. */
  datatype Store =
    | ProfileMissing
    | DatabaseMissing
    | CopyFailed
    | Snapshot(exceptionRows: seq<ExceptionRow>, eventRows: seq<EventRow>)

  const ProfileNotFound: string := "Profile not found"
  const DbNotFound: string := "DB not found"

  /** The message of a store that could not be read, None for a snapshot. */
  function StoreError(store: Store): (msg: Option<string>)
    ensures msg.None? <==> store.Snapshot?
    ensures store.ProfileMissing? ==> msg == Some("Profile not found")
    ensures store.DatabaseMissing? || store.CopyFailed? ==> msg == Some("DB not found")
  {
    match store
    case ProfileMissing => Some(ProfileNotFound)
    case DatabaseMissing => Some(DbNotFound)
    case CopyFailed => Some(DbNotFound)
    case Snapshot(_, _) => None
  }

  /** The summary of the fetched rows: no meeting gives the empty summary;
      otherwise the total is the number of meetings today, past ones
      included, and the next start is the earliest one not before `now`. */
  function Summarize(rows: seq<EventRow>, exc: set<Key>, w: Window, now: int, expand: Expander): (s: Summary)
    ensures s.error.None?
    ensures s.total == |Collect(rows, exc, w, expand)|
    ensures s.next.None? <==> forall t :: t in Collect(rows, exc, w, expand) ==> t < now
    ensures s.next.Some? ==>
              && s.next.value in Collect(rows, exc, w, expand)
              && now <= s.next.value
              && forall t :: t in Collect(rows, exc, w, expand) && now <= t ==> s.next.value <= t
  {
    var meetings := Collect(rows, exc, w, expand);
    if |meetings| == 0 then Summary(None, 0, None)
    else
      Summary(NextMeeting(meetings, now), |meetings|, None)
  }

  /** `get_meetings` as written: an unreadable store yields the placeholder,
      a zero count and a message; a snapshot yields a summary with no
      message. */
  function GetMeetings(store: Store, w: Window, now: int, expand: Expander): (s: Summary)
    ensures s.error == StoreError(store)
    ensures !store.Snapshot? ==> s.next.None? && s.total == 0
    ensures store.Snapshot? ==>
              s == Summarize(Candidates(store.eventRows, w.dayStart),
                             BuildExceptions(store.exceptionRows), w, now, expand)
  {
    match store
    case Snapshot(exceptionRows, eventRows) =>
      Summarize(Candidates(eventRows, w.dayStart), BuildExceptions(exceptionRows), w, now, expand)
    case _ => Summary(None, 0, StoreError(store))
  }

  /** `get_meetings` with the pre-filter that fetches every recurring row
      (see the findings). Everything after the query is shared. */
  function GetMeetingsCorrected(store: Store, w: Window, now: int, expand: Expander): (s: Summary)
    ensures s.error == StoreError(store)
    ensures !store.Snapshot? ==> s.next.None? && s.total == 0
    ensures store.Snapshot? ==>
              s == Summarize(CandidatesCorrected(store.eventRows, w.dayStart),
                             BuildExceptions(store.exceptionRows), w, now, expand)
  {
    match store
    case Snapshot(exceptionRows, eventRows) =>
      Summarize(CandidatesCorrected(eventRows, w.dayStart), BuildExceptions(exceptionRows), w, now, expand)
    case _ => Summary(None, 0, StoreError(store))
  }

  /** A day without meetings and an unreadable store agree on the placeholder
      and the zero count and differ only in the message. */
  lemma EmptyDayIsNotAnError(exceptionRows: seq<ExceptionRow>, eventRows: seq<EventRow>, failed: Store,
                             w: Window, now: int, expand: Expander)
    requires !failed.Snapshot?
    requires Collect(Candidates(eventRows, w.dayStart), BuildExceptions(exceptionRows), w, expand) == []
    ensures GetMeetings(Snapshot(exceptionRows, eventRows), w, now, expand) == Summary(None, 0, None)
    ensures GetMeetings(failed, w, now, expand).next == None
    ensures GetMeetings(failed, w, now, expand).total == 0
    ensures GetMeetings(failed, w, now, expand).error.Some?
  {
  }

  /** The summary depends only on which meetings were found, with their
      multiplicities, not on the order they were found in: the sort puts any
      arrangement of the same meetings in the same order. */
  lemma SummaryDependsOnMeetingsOnly(rows1: seq<EventRow>, rows2: seq<EventRow>, exc: set<Key>, w: Window,
                                     now: int, expand: Expander)
    requires multiset(Collect(rows1, exc, w, expand)) == multiset(Collect(rows2, exc, w, expand))
    ensures Summarize(rows1, exc, w, now, expand) == Summarize(rows2, exc, w, now, expand)
  {
    var m1 := Collect(rows1, exc, w, expand);
    var m2 := Collect(rows2, exc, w, expand);
    assert |m1| == |multiset(m1)| == |multiset(m2)| == |m2|;
    SortedPermutationUnique(Sort(m1), Sort(m2));
    assert NextMeeting(m1, now) == NextMeeting(m2, now);
  }

  /** The store's row order does not matter: two snapshots holding the same
      exception rows and the same event rows, each table in any order, give
      the same summary. */
  lemma SummaryIgnoresRowOrder(exceptionRows1: seq<ExceptionRow>, eventRows1: seq<EventRow>,
                               exceptionRows2: seq<ExceptionRow>, eventRows2: seq<EventRow>,
                               w: Window, now: int, expand: Expander)
    requires multiset(exceptionRows1) == multiset(exceptionRows2)
    requires multiset(eventRows1) == multiset(eventRows2)
    ensures GetMeetings(Snapshot(exceptionRows1, eventRows1), w, now, expand)
              == GetMeetings(Snapshot(exceptionRows2, eventRows2), w, now, expand)
  {
    var exc := BuildExceptions(exceptionRows1);
    assert exc == BuildExceptions(exceptionRows2) by {
      forall k ensures k in exc <==> k in BuildExceptions(exceptionRows2) {
        if k in exc {
          var j :| 0 <= j < |exceptionRows1| && exceptionRows1[j].IsCancellation() && exceptionRows1[j].AsKey() == k;
          assert exceptionRows1[j] in multiset(exceptionRows2);
          var j2 :| 0 <= j2 < |exceptionRows2| && exceptionRows2[j2] == exceptionRows1[j];
        }
        if k in BuildExceptions(exceptionRows2) {
          var j :| 0 <= j < |exceptionRows2| && exceptionRows2[j].IsCancellation() && exceptionRows2[j].AsKey() == k;
          assert exceptionRows2[j] in multiset(exceptionRows1);
          var j1 :| 0 <= j1 < |exceptionRows1| && exceptionRows1[j1] == exceptionRows2[j];
        }
      }
    }
    var c1 := Candidates(eventRows1, w.dayStart);
    var c2 := Candidates(eventRows2, w.dayStart);
    assert multiset(c1) == multiset(c2) by {
      forall row ensures multiset(c1)[row] == multiset(c2)[row] {}
    }
    CollectPermutation(c1, c2, exc, w, expand);
    SummaryDependsOnMeetingsOnly(c1, c2, exc, w, now, expand);
  }

  /** The next meeting is today, given an expansion that keeps to the window
      it is asked about. */
  lemma NextIsToday(store: Store, w: Window, now: int, expand: Expander)
    requires StaysInWindow(expand)
    ensures GetMeetings(store, w, now, expand).next.Some? ==>
              w.dayStart <= GetMeetings(store, w, now, expand).next.value <= w.dayEnd
  {
    if store.Snapshot? {
      CollectInWindow(Candidates(store.eventRows, w.dayStart), BuildExceptions(store.exceptionRows), w, expand);
    }
  }
}
