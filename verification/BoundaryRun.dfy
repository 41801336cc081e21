/** What energy saving and day/night share: a state that follows from the instant, and a job that
    re-derives it at each due instant and computes the next one from the due instant, never from
    the clock. */
module BoundaryRun {
  import opened Cells

  /** `at(t)` is the state at instant `t`; `next(t)` is the boundary to wake at after `t`. */
  datatype Plan<!S(!new)> = Plan(at: int -> S, next: int -> int)

  /** A controller between two firings: its stored state and when it is due to fire. */
  datatype Armed<S> = Armed(state: S, due: int)

  function Later(a: int, b: int): int { if a <= b then b else a }

  /** The next boundary lies ahead, and up to it neither the state nor the next boundary changes. */
  ghost predicate Sound<S(!new)>(p: Plan<S>) {
    forall t :: t < p.next(t) && forall u :: t <= u < p.next(t) ==> p.at(u) == p.at(t) && p.next(u) == p.next(t)
  }

  /** While a controller started at `t` waits for its first boundary, a restart finds the same state. */
  ghost predicate WaitingAgrees<S(!new)>(p: Plan<S>) {
    forall t, u :: t <= u < p.next(t) ==> p.at(u) == p.at(t)
  }

  function Started<S(!new)>(p: Plan<S>, now: int): Armed<S> { Armed(p.at(now), p.next(now)) }

  /** One firing with the wall clock at `clock`: the state is read at the due instant or the clock,
      whichever is later; the next due instant is computed from the one that fired. */
  function Fired<S(!new)>(p: Plan<S>, a: Armed<S>, clock: int): Armed<S> {
    Armed(p.at(Later(clock, a.due)), p.next(a.due))
  }

  /** The controller at instant `until` after every firing due by then, each at its due instant. */
  ghost function RunTo<S(!new)>(p: Plan<S>, a: Armed<S>, until: int): Armed<S>
    requires MovesOn(p.next)
    decreases until - a.due
  {
    if until < a.due then a else RunTo(p, Fired(p, a, a.due), until)
  }

  /** A controller running continuously since `began` and one restarted at any later instant agree,
      in their state and in the boundary they wait for. */
  lemma {:induction false} ContinuousEqualsRestarted<S(!new)>(p: Plan<S>, began: int, now: int)
    requires Sound(p) && began <= now
    ensures RunTo(p, Started(p, began), now) == Started(p, now)
    decreases now - p.next(began)
  {
    if p.next(began) <= now {
      ContinuousEqualsRestarted(p, p.next(began), now);
    }
  }

  /** The states agree, whatever the boundaries, exactly when they agree while waiting. */
  lemma StatesAgreeExactlyWhileWaiting<S(!new)>(p: Plan<S>)
    requires MovesOn(p.next)
    ensures WaitingAgrees(p) <==>
            forall began, now :: began <= now ==> RunTo(p, Started(p, began), now).state == p.at(now)
  {
    if WaitingAgrees(p) {
      forall began, now | began <= now
        ensures RunTo(p, Started(p, began), now).state == p.at(now)
      {
        StateAgrees(p, began, now);
      }
    } else {
      var t, u :| t <= u < p.next(t) && p.at(u) != p.at(t);
      assert RunTo(p, Started(p, t), u) == Started(p, t);
    }
  }

  lemma {:induction false} StateAgrees<S(!new)>(p: Plan<S>, began: int, now: int)
    requires MovesOn(p.next) && WaitingAgrees(p) && began <= now
    ensures RunTo(p, Started(p, began), now).state == p.at(now)
    decreases now - p.next(began)
  {
    if p.next(began) <= now {
      StateAgrees(p, p.next(began), now);
    }
  }

  // ---- Any clock ----

  /** The due instant after `k` firings; no clock reading takes part. */
  function Due<S(!new)>(p: Plan<S>, first: int, k: nat): int { Iterate(p.next, first, k) }

  /** The controller after one firing per clock reading. */
  function Run<S(!new)>(p: Plan<S>, a: Armed<S>, clocks: seq<int>): Armed<S> {
    if clocks == [] then a
    else Fired(p, Run(p, a, clocks[..|clocks| - 1]), clocks[|clocks| - 1])
  }

  /** The states reported over those firings: the new state, each time it changed. */
  function Reports<S(==,!new)>(p: Plan<S>, a: Armed<S>, clocks: seq<int>): seq<S> {
    if clocks == [] then []
    else
      var earlier := clocks[..|clocks| - 1];
      var after := Run(p, a, clocks).state;
      Reports(p, a, earlier) + if Run(p, a, earlier).state != after then [after] else []
  }

  /** Due instants strictly increase, so a controller that is behind catches up: after `k` firings
      the due instant has moved on by at least `k`. */
  lemma {:induction false} DuesIncrease<S(!new)>(p: Plan<S>, first: int, k: nat)
    requires Sound(p)
    ensures Due(p, first, k) >= first + k
    ensures Due(p, first, k) < Due(p, first, k + 1)
  {
    if k > 0 {
      DuesIncrease(p, first, k - 1);
    }
  }

  lemma {:induction false} RunDue<S(!new)>(p: Plan<S>, a: Armed<S>, clocks: seq<int>)
    ensures Run(p, a, clocks).due == Due(p, a.due, |clocks|)
  {
    if clocks != [] {
      RunDue(p, a, clocks[..|clocks| - 1]);
    }
  }

  /** Under any clock, the state is exact whenever the controller has caught up: from the last
      reading until the next due instant it is the state a restart would find. */
  lemma ExactOnceCaughtUp<S(!new)>(p: Plan<S>, a: Armed<S>, clocks: seq<int>, now: int)
    requires Sound(p) && clocks != []
    requires var k := |clocks| - 1;
             Later(clocks[k], Due(p, a.due, k)) <= now < Due(p, a.due, k + 1)
    ensures Run(p, a, clocks) == Started(p, now)
  {
    var k := |clocks| - 1;
    RunDue(p, a, clocks[..k]);
    var due := Due(p, a.due, k);
    assert due <= Later(clocks[k], due) < p.next(due);
  }

  /** Under any clock, reported states alternate: each differs from the one before, the first from
      the initial state, and the last is the current state. */
  lemma {:induction false} ReportsAlternate<S(!new)>(p: Plan<S>, a: Armed<S>, clocks: seq<int>)
    ensures var r := [a.state] + Reports(p, a, clocks);
            && r[|r| - 1] == Run(p, a, clocks).state
            && forall i :: 0 < i < |r| ==> r[i] != r[i - 1]
  {
    if clocks != [] {
      var earlier := clocks[..|clocks| - 1];
      ReportsAlternate(p, a, earlier);
      var before := [a.state] + Reports(p, a, earlier);
      var r := [a.state] + Reports(p, a, clocks);
      assert r == before || r == before + [Run(p, a, clocks).state];
    }
  }

  /** A clock that lags every due instant reports what the ideal clock reports. */
  lemma {:induction false} LaggingEqualsIdeal<S(!new)>(p: Plan<S>, a: Armed<S>, clocks: seq<int>, ideal: seq<int>)
    requires |clocks| == |ideal|
    requires forall k :: 0 <= k < |clocks| ==> clocks[k] <= Due(p, a.due, k) && ideal[k] == Due(p, a.due, k)
    ensures Run(p, a, clocks) == Run(p, a, ideal)
    ensures Reports(p, a, clocks) == Reports(p, a, ideal)
  {
    if clocks != [] {
      var n := |clocks| - 1;
      LaggingEqualsIdeal(p, a, clocks[..n], ideal[..n]);
      RunDue(p, a, clocks[..n]);
    }
  }

  /** The ideal clock's firings up to `now` are the continuous run. */
  lemma {:induction false} IdealRunIsContinuous<S(!new)>(p: Plan<S>, a: Armed<S>, clocks: seq<int>, now: int)
    requires MovesOn(p.next)
    requires forall k :: 0 <= k < |clocks| ==> clocks[k] == Due(p, a.due, k) <= now
    requires now < Due(p, a.due, |clocks|)
    ensures Run(p, a, clocks) == RunTo(p, a, now)
  {
    IdealRunContinues(p, a, clocks, now);
    RunDue(p, a, clocks);
  }

  lemma {:induction false} IdealRunContinues<S(!new)>(p: Plan<S>, a: Armed<S>, clocks: seq<int>, now: int)
    requires MovesOn(p.next)
    requires forall k :: 0 <= k < |clocks| ==> clocks[k] == Due(p, a.due, k) <= now
    ensures RunTo(p, Run(p, a, clocks), now) == RunTo(p, a, now)
  {
    if clocks != [] {
      var n := |clocks| - 1;
      IdealRunContinues(p, a, clocks[..n], now);
      RunDue(p, a, clocks[..n]);
    }
  }
}
