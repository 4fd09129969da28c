/**
 * The idle arbitration of `main`: the activity queue `JELLYFIN_ACTIVITY`, which
 * producers `put` into, and the loop that waits on it with a timeout and then
 * either wakes the NAS (an item arrived) or suspends it (the wait timed out).
 * The 300-second wait is abstract: `get` returns an item when the queue holds
 * one and times out when it is empty; the items producers put during the wait
 * are put before the `get`.
 */
module Arbiter {
  import opened Wrappers
  import opened Power

  /** What a producer puts on the queue; the log watcher puts `"logs"`. */
  type Item = string

  /** `JELLYFIN_ACTIVITY = queue.Queue()`: an unbounded FIFO queue. */
  class ActivityQueue {
    var items: seq<Item>

    constructor ()
      ensures items == []
    {
      items := [];
    }

    /** `put(item)`: the item joins the back of the queue. */
    method Put(item: Item)
      modifies this
      ensures items == old(items) + [item]
    {
      items := items + [item];
    }

    /**
     * `get(timeout=300)`: removes and returns the front item; on an empty queue
     * the wait times out (`queue.Empty`, here `None`) and the queue is unchanged.
     */
    method Get() returns (item: Option<Item>)
      modifies this
      ensures old(items) == [] ==> item == None && items == []
      ensures old(items) != [] ==> item == Some(old(items)[0]) && items == old(items)[1..]
    {
      if items == [] {
        item := None;
      } else {
        item := Some(items[0]);
        items := items[1..];
      }
    }
  }

  /** What one iteration of the main loop did: `nas.wake_up()` or `nas.suspend()`, with its sends, probes and outcome. */
  datatype Report =
    | Woke(sent: seq<Datagram>, probes: nat, outcome: Outcome)
    | Slept(sent: seq<Datagram>, probes: nat, outcome: Outcome)
  {
    /** The call raised; nothing in `main` catches it, so the loop ends. */
    predicate Raised() {
      outcome != Reached
    }
  }

  /** The report is what `wake_up` or `suspend` does against the probe answers `ping`. */
  ghost predicate Conforms(nas: Nas, ping: nat -> bool, report: Report) {
    match report
    case Woke(sent, probes, outcome) => WakeUpBehaviour(nas, ping, sent, probes, outcome)
    case Slept(sent, probes, outcome) => SuspendBehaviour(nas, ping, sent, probes, outcome)
  }

  /**
   * One iteration of `while True` in `main`: `get` with a timeout, then
   * `suspend()` on a timeout and `wake_up()` on an item; `ping` answers the
   * probes of that call.
   */
  method Step(q: ActivityQueue, nas: Nas, ping: nat -> bool) returns (report: Report)
    modifies q
    ensures report.Woke? <==> old(q.items) != []
    ensures report.Slept? <==> old(q.items) == []
    ensures q.items == if old(q.items) == [] then [] else old(q.items)[1..]
    ensures report.Woke? ==> WakeUpBehaviour(nas, ping, report.sent, report.probes, report.outcome)
    ensures report.Slept? ==> SuspendBehaviour(nas, ping, report.sent, report.probes, report.outcome)
  {
    var item := q.Get();
    var needsSleep := item.None?;
    if needsSleep {
      var sent, probes, outcome := Suspend(nas, ping);
      report := Slept(sent, probes, outcome);
    } else {
      var sent, probes, outcome := WakeUp(nas, ping);
      report := Woke(sent, probes, outcome);
    }
  }

  /** What each `get` of a run returned, and what is left in the queue afterwards. */
  datatype Trace = Trace(taken: seq<Option<Item>>, rest: seq<Item>)

  /** One wait of the loop: the producers put `arrived`, then `get` takes the front item or times out. */
  function Next(t: Trace, arrived: seq<Item>): (u: Trace)
    ensures |u.taken| == |t.taken| + 1 && u.taken[..|t.taken|] == t.taken
    ensures u.taken[|t.taken|].Some? <==> t.rest + arrived != []
  {
    var queued := t.rest + arrived;
    if queued == [] then Trace(t.taken + [None], [])
    else Trace(t.taken + [Some(queued[0])], queued[1..])
  }

  /**
   * The queue over the first `n` iterations of the main loop: it starts as
   * `start`, the producers put `arrivals[k]` before the k-th `get`, and
   * `taken[k]` is what that `get` returned (`None`: it timed out).
   */
  function Replay(start: seq<Item>, arrivals: seq<seq<Item>>, n: nat): (t: Trace)
    requires n <= |arrivals|
    ensures |t.taken| == n
  {
    if n == 0 then Trace([], start)
    else Next(Replay(start, arrivals, n - 1), arrivals[n - 1])
  }

  /** Everything the producers put during the first `n` waits, in order. */
  function Concat(arrivals: seq<seq<Item>>, n: nat): seq<Item>
    requires n <= |arrivals|
  {
    if n == 0 then []
    else Concat(arrivals, n - 1) + arrivals[n - 1]
  }

  /** The items the `get`s returned, in order. */
  function Dequeued(taken: seq<Option<Item>>): seq<Item>
    decreases |taken|
  {
    if taken == [] then []
    else
      var last := taken[|taken| - 1];
      Dequeued(taken[..|taken| - 1]) + (if last.Some? then [last.value] else [])
  }

  /** A wait moves the front item, if any, from the queue to the dequeued items. */
  lemma NextIsFifo(t: Trace, arrived: seq<Item>)
    ensures Dequeued(Next(t, arrived).taken) + Next(t, arrived).rest == Dequeued(t.taken) + t.rest + arrived
  {
    var u := Next(t, arrived);
    assert u.taken[..|u.taken| - 1] == t.taken;
    var queued := t.rest + arrived;
    if queued != [] {
      assert [queued[0]] + queued[1..] == queued;
    }
  }

  /**
   * The queue is first in, first out and loses nothing: the items returned by
   * the `get`s, followed by what is still queued, are exactly the starting
   * contents followed by every item put, in the order put.
   */
  lemma {:induction false} ReplayIsFifo(start: seq<Item>, arrivals: seq<seq<Item>>, n: nat)
    requires n <= |arrivals|
    ensures Dequeued(Replay(start, arrivals, n).taken) + Replay(start, arrivals, n).rest == start + Concat(arrivals, n)
  {
    if n > 0 {
      ReplayIsFifo(start, arrivals, n - 1);
      NextIsFifo(Replay(start, arrivals, n - 1), arrivals[n - 1]);
    }
  }

  /** What a wait takes depends only on what is queued, not on what was taken before. */
  lemma NextOnlyReadsRest(t: Trace, arrived: seq<Item>)
    ensures Next(t, arrived).rest == Next(Trace([], t.rest), arrived).rest
    ensures Next(t, arrived).taken == t.taken + Next(Trace([], t.rest), arrived).taken
  {
  }

  /** With nothing queued and nothing put, every `get` times out, so every iteration suspends. */
  lemma {:induction false} ReplayIdleTimesOut(arrivals: seq<seq<Item>>, n: nat)
    requires n <= |arrivals|
    requires forall k :: 0 <= k < |arrivals| ==> arrivals[k] == []
    ensures Replay([], arrivals, n).rest == []
    ensures forall k :: 0 <= k < n ==> Replay([], arrivals, n).taken[k] == None
  {
    if n > 0 {
      ReplayIdleTimesOut(arrivals, n - 1);
      assert Replay([], arrivals, n).taken[..n - 1] == Replay([], arrivals, n - 1).taken;
    }
  }

  /**
   * One iteration of `main`'s loop together with what the producers `put`
   * while it waits.
   */
  method Iteration(q: ActivityQueue, nas: Nas, arrived: seq<Item>, ping: nat -> bool) returns (report: Report)
    modifies q
    ensures report.Woke? <==> Next(Trace([], old(q.items)), arrived).taken[0].Some?
    ensures q.items == Next(Trace([], old(q.items)), arrived).rest
    ensures Conforms(nas, ping, report)
  {
    for j := 0 to |arrived|
      invariant q.items == old(q.items) + arrived[..j]
    {
      q.Put(arrived[j]);
    }
    assert arrived[..|arrived|] == arrived;
    report := Step(q, nas, ping);
  }

  /** Iteration k woke the NAS exactly when its `get` returned an item. */
  predicate Dispatched(reports: seq<Report>, taken: seq<Option<Item>>) {
    && |reports| <= |taken|
    && forall k :: 0 <= k < |reports| ==> (reports[k].Woke? <==> taken[k].Some?)
  }

  /** Report k is what the call of iteration k did against the probe answers `pings[k]`. */
  ghost predicate AllConform(nas: Nas, pings: seq<nat -> bool>, reports: seq<Report>) {
    && |reports| <= |pings|
    && forall k :: 0 <= k < |reports| ==> Conforms(nas, pings[k], reports[k])
  }

  lemma DispatchedExtends(reports: seq<Report>, report: Report, t: Trace, arrived: seq<Item>)
    requires |reports| == |t.taken| && Dispatched(reports, t.taken)
    requires report.Woke? <==> Next(Trace([], t.rest), arrived).taken[0].Some?
    ensures Dispatched(reports + [report], Next(t, arrived).taken)
  {
    NextOnlyReadsRest(t, arrived);
    assert forall k :: 0 <= k < |reports| ==> (reports + [report])[k] == reports[k];
  }

  lemma AllConformExtends(nas: Nas, pings: seq<nat -> bool>, reports: seq<Report>, report: Report)
    requires |reports| < |pings| && AllConform(nas, pings, reports)
    requires Conforms(nas, pings[|reports|], report)
    ensures AllConform(nas, pings, reports + [report])
  {
    assert forall k :: 0 <= k < |reports| ==> (reports + [report])[k] == reports[k];
  }

  /** Iteration `|reports|` of `main`'s loop, the queue having started as `start`. */
  method Advance(q: ActivityQueue, nas: Nas, arrivals: seq<seq<Item>>, pings: seq<nat -> bool>,
                 ghost start: seq<Item>, reports: seq<Report>)
      returns (report: Report)
    requires |reports| < |arrivals| == |pings|
    requires q.items == Replay(start, arrivals, |reports|).rest
    requires Dispatched(reports, Replay(start, arrivals, |reports|).taken)
    requires AllConform(nas, pings, reports)
    modifies q
    ensures q.items == Replay(start, arrivals, |reports| + 1).rest
    ensures Dispatched(reports + [report], Replay(start, arrivals, |reports| + 1).taken)
    ensures AllConform(nas, pings, reports + [report])
  {
    var i := |reports|;
    ghost var run := Replay(start, arrivals, i);
    report := Iteration(q, nas, arrivals[i], pings[i]);
    DispatchedExtends(reports, report, run, arrivals[i]);
    AllConformExtends(nas, pings, reports, report);
  }

  /**
   * `main`'s loop, run for the iterations described by `arrivals` (what the
   * producers put during each wait) and `pings` (the probe answers during each
   * `wake_up` or `suspend`). It ends early when a call raises, since `main`
   * does not catch the `ValueError`.
   */
  method MainLoop(q: ActivityQueue, nas: Nas, arrivals: seq<seq<Item>>, pings: seq<nat -> bool>)
      returns (reports: seq<Report>, raised: bool)
    requires |arrivals| == |pings|
    modifies q
    ensures |reports| <= |arrivals|
    ensures raised <==> reports != [] && reports[|reports| - 1].Raised()
    ensures !raised ==> |reports| == |arrivals|
    ensures forall k :: 0 <= k < |reports| - 1 ==> !reports[k].Raised()
    ensures q.items == Replay(old(q.items), arrivals, |reports|).rest
    ensures Dispatched(reports, Replay(old(q.items), arrivals, |reports|).taken)
    ensures AllConform(nas, pings, reports)
  {
    reports := [];
    ghost var start := q.items;
    while |reports| < |arrivals| && (reports == [] || !reports[|reports| - 1].Raised())
      invariant |reports| <= |arrivals|
      invariant forall k :: 0 <= k < |reports| - 1 ==> !reports[k].Raised()
      invariant q.items == Replay(start, arrivals, |reports|).rest
      invariant Dispatched(reports, Replay(start, arrivals, |reports|).taken)
      invariant AllConform(nas, pings, reports)
      decreases |arrivals| - |reports|
    {
      var report := Advance(q, nas, arrivals, pings, start, reports);
      assert forall k :: 0 <= k < |reports| ==> !reports[k].Raised();
      assert |reports + [report]| == |reports| + 1;
      reports := reports + [report];
    }
    raised := reports != [] && reports[|reports| - 1].Raised();
  }
}
