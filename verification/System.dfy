/** The scheduler with the jobs that run on it: what whole runs of the controllers do, however the
    jobs interleave. */
module System {
  import opened BoundaryRun
  import opened Cells
  import opened Clock
  import DayNight
  import EnergySaving
  import Jobs = Scheduler
  import Notification

  /** Every instant a job was started for, up to the last one, and no other. */
  lemma StartedAreReached(next: int -> int, from: int, started: seq<int>, t: int)
    requires MovesOn(next)
    requires forall k :: 0 <= k < |started| ==> started[k] == Iterate(next, from, k + 1)
    ensures t in started <==> |started| > 0 && t <= started[|started| - 1] && exists n: nat :: Reached(next, from, n, t)
  {
    var last := |started| - 1;
    if t in started {
      var k :| 0 <= k < |started| && started[k] == t;
      assert Reached(next, from, k, t);
      if k < last {
        IteratesInOrder(next, from, k + 1, last + 1);
      }
    }
    if n: nat :| last >= 0 && t <= started[last] && Reached(next, from, n, t) {
      if last < n {
        IteratesInOrder(next, from, last + 1, n + 1);
      }
      assert started[n] == t;
    }
  }

  lemma NextMovesOn(job: Notification.Job)
    requires job.Valid()
    ensures MovesOn(job.Next())
  {
    forall n
      ensures n < job.Next()(n)
    {
      job.NextIsLeast(n, n);
    }
  }

  /** A notification job registered at `from` in a run of the scheduler: the instants its action has
      been started for are exactly the occurrences of its calendar after `from` up to the last one
      started. None is missed, and they come in strict order. */
  lemma NotificationsFollowTheCalendar(job: Notification.Job, from: int, events: seq<Jobs.Event>, i: nat, t: int)
    requires job.Valid() && i < |Jobs.Run(Jobs.INITIAL, events).jobs|
    requires var j := Jobs.Run(Jobs.INITIAL, events).jobs[i];
             j.first == job.NextOccurrence(from) && j.reschedule == job.Next()
    ensures var started := Jobs.Run(Jobs.INITIAL, events).jobs[i].started;
            && (forall k :: 0 < k < |started| ==> started[k - 1] < started[k])
            && (t in started <==> |started| > 0 && from < t <= started[|started| - 1] && job.Occurs(t))
  {
    var j := Jobs.Run(Jobs.INITIAL, events).jobs[i];
    Jobs.ActionsAreIterates(events, i);
    StartedFollowTheCalendar(job, from, j, t);
  }

  lemma StartedFollowTheCalendar(job: Notification.Job, from: int, j: Jobs.Job, t: int)
    requires job.Valid() && Jobs.InOrder(j)
    requires j.first == job.NextOccurrence(from) && j.reschedule == job.Next()
    ensures forall k :: 0 < k < |j.started| ==> j.started[k - 1] < j.started[k]
    ensures t in j.started <==> |j.started| > 0 && from < t <= j.started[|j.started| - 1] && job.Occurs(t)
  {
    var next, started := job.Next(), j.started;
    assert next(from) == j.first;
    NextMovesOn(job);
    forall k | 0 <= k < |started|
      ensures started[k] == Iterate(next, from, k + 1)
    {
      IterateShift(next, from, k);
    }
    forall k | 0 < k < |started|
      ensures started[k - 1] < started[k]
    {
      IteratesInOrder(next, from, k, k + 1);
    }
    StartedAreReached(next, from, started, t);
    job.DueInstantsEnumerateTheCalendar(from, t, 0);
  }

  /** What job `i` of a run has to be for plan `p` to run on it since `began`, and when `now` is
      before it is next due but after its last firing and the clock read then. */
  ghost predicate CaughtUp<S(!new)>(p: Plan<S>, began: int, j: Jobs.Job, clocks: seq<int>, now: int) {
    && j.first == p.next(began) && j.reschedule == p.next
    && |clocks| == |j.started| > 0
    && Later(clocks[|clocks| - 1], j.started[|clocks| - 1]) <= now < p.next(j.started[|clocks| - 1])
  }

  /** A sound controller on a job of the scheduler, with the clock reading anything at each of its
      firings: from the later of the last reading and the instant last fired for, until the next
      instant it is due, its state and due instant are those of a restart. */
  lemma ControllerJobIsExact<S(!new)>(p: Plan<S>, began: int, events: seq<Jobs.Event>, i: nat,
                                      clocks: seq<int>, now: int)
    requires Sound(p) && i < |Jobs.Run(Jobs.INITIAL, events).jobs|
    requires CaughtUp(p, began, Jobs.Run(Jobs.INITIAL, events).jobs[i], clocks, now)
    ensures Run(p, Started(p, began), clocks) == Started(p, now)
  {
    Jobs.ActionsAreIterates(events, i);
    DuesAreStarted(Jobs.Run(Jobs.INITIAL, events).jobs[i], p, |clocks| - 1);
    ExactOnceCaughtUp(p, Started(p, began), clocks, now);
  }

  lemma EnergySavingJobIsExact(w: EnergySaving.Window, began: int, events: seq<Jobs.Event>, i: nat,
                               clocks: seq<int>, now: int)
    requires w.local.Faithful() && i < |Jobs.Run(Jobs.INITIAL, events).jobs|
    requires CaughtUp(w.Controller(), began, Jobs.Run(Jobs.INITIAL, events).jobs[i], clocks, now)
    ensures Run(w.Controller(), Started(w.Controller(), began), clocks) == Started(w.Controller(), now)
  {
    w.PlanSound();
    ControllerJobIsExact(w.Controller(), began, events, i, clocks, now);
  }

  lemma DayNightJobIsExact(site: DayNight.Site, began: int, events: seq<Jobs.Event>, i: nat, clocks: seq<int>, now: int)
    requires site.local.MidnightsFirst() && site.RisesOnItsDate() && site.SetsByMidnight()
    requires i < |Jobs.Run(Jobs.INITIAL, events).jobs|
    requires CaughtUp(site.Controller(), began, Jobs.Run(Jobs.INITIAL, events).jobs[i], clocks, now)
    ensures Run(site.Controller(), Started(site.Controller(), began), clocks) == Started(site.Controller(), now)
  {
    site.PlanSound();
    ControllerJobIsExact(site.Controller(), began, events, i, clocks, now);
  }

  lemma DuesAreStarted<S(!new)>(j: Jobs.Job, p: Plan<S>, k: nat)
    requires Jobs.InOrder(j) && j.reschedule == p.next && k < |j.started|
    ensures Due(p, j.first, k) == j.started[k] && Due(p, j.first, k + 1) == p.next(j.started[k])
  {
  }
}
