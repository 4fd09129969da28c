/**
 * `Jellyfin.latest_activity`: the `LastActivityDate` of every session is
 * collected, the list is sorted ascending and its last element returned.
 * Timestamps are integers (a larger value is a later instant); the HTTP query
 * that yields the session list is a parameter.
 */
module Jellyfin {
  import opened Wrappers

  /** One entry of the `/Sessions` answer; only `LastActivityDate` is read. */
  datatype Session = Session(lastActivityDate: int)

  /** The list `all_dates` built by the loop: one date per session, in session order. */
  function ActivityDates(sessions: seq<Session>): (dates: seq<int>)
    ensures |dates| == |sessions|
    ensures forall k :: 0 <= k < |sessions| ==> dates[k] == sessions[k].lastActivityDate
  {
    if sessions == [] then []
    else [sessions[0].lastActivityDate] + ActivityDates(sessions[1..])
  }

  predicate Sorted(s: seq<int>) {
    forall i, j :: 0 <= i < j < |s| ==> s[i] <= s[j]
  }

  /** `x` placed into the ascending list `s`. */
  function Insert(x: int, s: seq<int>): (r: seq<int>)
    requires Sorted(s)
    ensures Sorted(r)
    ensures multiset(r) == multiset(s) + multiset{x}
    ensures r[0] == if s == [] || x <= s[0] then x else s[0]
  {
    if s == [] || x <= s[0] then
      SortedCons(x, s);
      [x] + s
    else
      assert s == [s[0]] + s[1..];
      var rest := Insert(x, s[1..]);
      SortedCons(s[0], rest);
      [s[0]] + rest
  }

  lemma SortedCons(a: int, t: seq<int>)
    requires Sorted(t) && (t == [] || a <= t[0])
    ensures Sorted([a] + t)
  {
  }

  /** `all_dates.sort()`: the same dates, ascending. */
  function Sort(s: seq<int>): (r: seq<int>)
    ensures Sorted(r)
    ensures multiset(r) == multiset(s)
  {
    if s == [] then []
    else
      assert s == [s[0]] + s[1..];
      Insert(s[0], Sort(s[1..]))
  }

  /**
   * `latest_activity()`: `all_dates[-1]` after sorting, the latest date of any
   * session. An empty session list makes `all_dates[-1]` raise `IndexError`,
   * here `None`.
   */
  function LatestActivity(sessions: seq<Session>): (r: Option<int>)
    ensures r.None? <==> sessions == []
    ensures r.Some? ==> exists k :: 0 <= k < |sessions| && sessions[k].lastActivityDate == r.value
    ensures r.Some? ==> forall k :: 0 <= k < |sessions| ==> sessions[k].lastActivityDate <= r.value
  {
    var sorted := Sort(ActivityDates(sessions));
    if sorted == [] then None
    else
      LastOfSortedIsMax(ActivityDates(sessions), sorted);
      Some(sorted[|sorted| - 1])
  }

  /** The last element of a sorted permutation of `dates` is one of them and at least every one. */
  lemma LastOfSortedIsMax(dates: seq<int>, sorted: seq<int>)
    requires Sorted(sorted) && multiset(sorted) == multiset(dates) && sorted != []
    ensures sorted[|sorted| - 1] in dates
    ensures forall k :: 0 <= k < |dates| ==> dates[k] <= sorted[|sorted| - 1]
  {
    assert sorted[|sorted| - 1] in multiset(dates);
    forall k | 0 <= k < |dates| ensures dates[k] <= sorted[|sorted| - 1] {
      assert dates[k] in multiset(sorted);
    }
  }
}
