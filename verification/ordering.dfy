/** Sorting today's meeting instants and picking the next one. */
module Ordering {
  import opened Wrappers

  predicate Sorted(s: seq<int>) {
    forall i, j :: 0 <= i < j < |s| ==> s[i] <= s[j]
  }

  /** Puts `x` in its place in an ascending sequence. */
  function Insert(x: int, s: seq<int>): (r: seq<int>)
    requires Sorted(s)
    ensures Sorted(r)
    ensures multiset(r) == multiset(s) + multiset{x}
    ensures r[0] == x || (|s| > 0 && r[0] == s[0])
  {
    if |s| == 0 then [x]
    else if x <= s[0] then [x] + s
    else
      assert s == [s[0]] + s[1..];
      var rest := Insert(x, s[1..]);
      assert s[0] <= rest[0];
      [s[0]] + rest
  }

  /** The meetings in ascending order of start. */
  function Sort(s: seq<int>): (r: seq<int>)
    ensures Sorted(r)
    ensures multiset(r) == multiset(s)
  {
    if |s| == 0 then []
    else
      assert s == [s[0]] + s[1..];
      Insert(s[0], Sort(s[1..]))
  }

  /** The head of a non-empty ascending sequence is its least element. */
  lemma HeadIsLeast(a: seq<int>, x: int)
    requires Sorted(a) && x in multiset(a)
    ensures a[0] <= x
  {
    var j :| 0 <= j < |a| && a[j] == x;
  }

  /** Two ascending sequences with the same elements are equal, so the
      sorted order of a collection of meetings does not depend on the order
      the rows were read in. */
  lemma {:induction false} SortedPermutationUnique(a: seq<int>, b: seq<int>)
    requires Sorted(a) && Sorted(b) && multiset(a) == multiset(b)
    ensures a == b
  {
    if |a| == 0 {
      assert |multiset(b)| == 0;
    } else {
      assert |b| == |a| by {
        assert |multiset(b)| == |multiset(a)|;
      }
      assert a[0] in multiset(b);
      assert b[0] in multiset(a);
      HeadIsLeast(a, b[0]);
      HeadIsLeast(b, a[0]);
      assert a == [a[0]] + a[1..];
      assert b == [b[0]] + b[1..];
      assert a[0] == b[0];
      assert multiset(a[1..]) == multiset(a) - multiset{a[0]};
      assert multiset(b[1..]) == multiset(b) - multiset{b[0]};
      assert multiset(a[1..]) == multiset(b[1..]);
      SortedPermutationUnique(a[1..], b[1..]);
    }
  }

  /** The first element at or after `now`, scanning from the front, as the
      loop that breaks at the first meeting not yet started does. */
  function FirstAtOrAfter(s: seq<int>, now: int): (r: Option<int>)
    ensures r.None? <==> forall t :: t in s ==> t < now
    ensures r.Some? ==> exists i :: 0 <= i < |s| && s[i] == r.value
                          && now <= r.value && forall j :: 0 <= j < i ==> s[j] < now
  {
    if |s| == 0 then None
    else if s[0] >= now then
      assert s[0] in s;
      Some(s[0])
    else
      assert s == [s[0]] + s[1..];
      var r := FirstAtOrAfter(s[1..], now);
      assert forall i :: 1 <= i < |s| ==> s[i] == s[1..][i - 1];
      if r.Some? then
        var i :| 0 <= i < |s[1..]| && s[1..][i] == r.value
                 && now <= r.value && forall j :: 0 <= j < i ==> s[1..][j] < now;
        assert s[i + 1] == r.value;
        assert r.value in s;
        r
      else r
  }

  /** In an ascending sequence the first element at or after `now` is the
      earliest such element. */
  lemma EarliestAtOrAfter(s: seq<int>, now: int)
    requires Sorted(s)
    ensures FirstAtOrAfter(s, now).Some? ==>
              forall x :: x in s && x >= now ==> FirstAtOrAfter(s, now).value <= x
  {
    var r := FirstAtOrAfter(s, now);
    if r.Some? {
      var i :| 0 <= i < |s| && s[i] == r.value && now <= r.value
               && forall j :: 0 <= j < i ==> s[j] < now;
      forall x | x in s && x >= now
        ensures r.value <= x
      {
        var k :| 0 <= k < |s| && s[k] == x;
        assert !(k < i);
      }
    }
  }

  /** The next meeting of a day: the meetings sorted ascending, then the
      first one not before `now`. It is the earliest meeting not before
      `now`, and there is none exactly when every meeting is before `now`. */
  function NextMeeting(meetings: seq<int>, now: int): (r: Option<int>)
    ensures r.None? <==> forall t :: t in meetings ==> t < now
    ensures r.Some? ==> r.value in meetings && now <= r.value
    ensures r.Some? ==> forall t :: t in meetings && now <= t ==> r.value <= t
  {
    var sorted := Sort(meetings);
    SameElements(sorted, meetings);
    EarliestAtOrAfter(sorted, now);
    FirstAtOrAfter(sorted, now)
  }

  lemma SameElements(a: seq<int>, b: seq<int>)
    requires multiset(a) == multiset(b)
    ensures forall t :: t in a <==> t in b
  {
    assert forall t :: t in a <==> t in multiset(a);
    assert forall t :: t in b <==> t in multiset(b);
  }
}
