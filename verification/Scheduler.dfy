/** Recurring jobs: each sleeps until its due instant, runs its action, asks its reschedule function
    for the next due instant, and goes round again until the scheduler is cancelled. Jobs are
    stepped in any order; a step is what a job does between two points where another may run. */
module Scheduler {
  import opened Cells

  /** Where a job's loop stands: waiting for its sleep; polled, and found not cancelled, with the
      sleep still to be looked at; inside its action; or returned. */
  datatype Phase = Waiting | Polled | Acting | Stopped

  /** A job registered with its first due instant and its reschedule function. `started` lists the
      due instants its action was started with. */
  datatype Job = Job(first: int, reschedule: int -> int, phase: Phase, fireAt: int, started: seq<int>)

  datatype State = State(cancelled: bool, jobs: seq<Job>)

  datatype Event =
    | Register(first: int, reschedule: int -> int)
    | CheckCancel(job: nat)
    | CheckSleep(job: nat, elapsed: bool)
    | Finish(job: nat)
    | Cancel

  function JobStep(j: Job, e: Event, cancelled: bool): Job {
    match e
    case CheckCancel(_) =>
      if j.phase.Waiting? then j.(phase := if cancelled then Stopped else Polled) else j
    case CheckSleep(_, elapsed) =>
      if !j.phase.Polled? then j
      else if elapsed then j.(phase := Acting, started := j.started + [j.fireAt])
      else j.(phase := Waiting)
    case Finish(_) =>
      if !j.phase.Acting? then j
      else if cancelled then j.(phase := Stopped)
      else j.(phase := Waiting, fireAt := j.reschedule(j.fireAt))
    case _ => j
  }

  /** One step; an event that its job is not ready for changes nothing. */
  function Step(s: State, e: Event): State {
    match e
    case Register(first, reschedule) => s.(jobs := s.jobs + [Job(first, reschedule, Waiting, first, [])])
    case Cancel => s.(cancelled := true)
    case _ => if e.job < |s.jobs| then s.(jobs := s.jobs[e.job := JobStep(s.jobs[e.job], e, s.cancelled)]) else s
  }

  function Run(s: State, events: seq<Event>): State {
    if events == [] then s else Step(Run(s, events[..|events| - 1]), events[|events| - 1])
  }

  const INITIAL := State(false, [])

  // ---- What every run keeps ----

  /** The job has started exactly the first iterates of its reschedule function, in order, and is
      due at the next one. */
  ghost predicate InOrder(j: Job) {
    && (forall k :: 0 <= k < |j.started| ==> j.started[k] == Iterate(j.reschedule, j.first, k))
    && match j.phase
       case Acting => |j.started| > 0 && j.fireAt == Iterate(j.reschedule, j.first, |j.started| - 1)
       case Stopped => true
       case _ => j.fireAt == Iterate(j.reschedule, j.first, |j.started|)
  }

  lemma JobStepInOrder(j: Job, e: Event, cancelled: bool)
    requires InOrder(j)
    ensures InOrder(JobStep(j, e, cancelled))
  {
  }

  /** Over any run, however its jobs interleave and wherever it is cancelled, every job has started
      its action exactly once for each of the first iterates of its reschedule function. */
  lemma {:induction false} ActionsAreIterates(events: seq<Event>, i: nat)
    requires i < |Run(INITIAL, events).jobs|
    ensures InOrder(Run(INITIAL, events).jobs[i])
  {
    if events != [] {
      var earlier, e := events[..|events| - 1], events[|events| - 1];
      var s := Run(INITIAL, earlier);
      if i < |s.jobs| {
        ActionsAreIterates(earlier, i);
        JobStepInOrder(s.jobs[i], e, s.cancelled);
      }
    }
  }

  /** How many of the events found job `i`'s sleep over. */
  function Elapses(events: seq<Event>, i: nat): nat {
    if events == [] then 0
    else Elapses(events[..|events| - 1], i) + if events[|events| - 1] == CheckSleep(i, true) then 1 else 0
  }

  /** A job starts its action at most once each time its sleep is found over, so never before. */
  lemma {:induction false} StartsOnlyWhenElapsed(s: State, events: seq<Event>, i: nat)
    requires i < |Run(s, events).jobs|
    ensures |Run(s, events).jobs[i].started|
            <= (if i < |s.jobs| then |s.jobs[i].started| else 0) + Elapses(events, i)
  {
    if events != [] {
      var earlier := events[..|events| - 1];
      if i < |Run(s, earlier).jobs| {
        StartsOnlyWhenElapsed(s, earlier, i);
      } else {
        JobsRemain(s, earlier);
      }
    }
  }

  /** One round of a waiting job whose sleep is over starts the action for the instant it was due at, and
      makes it due at the instant its reschedule function gives for that one. A round that finds the sleep
      not over changes nothing. */
  lemma OneRound(s: State, i: nat)
    requires i < |s.jobs| && s.jobs[i].phase.Waiting? && !s.cancelled
    ensures var j := s.jobs[i];
            Run(s, [CheckCancel(i), CheckSleep(i, true), Finish(i)])
            == s.(jobs := s.jobs[i := j.(started := j.started + [j.fireAt], fireAt := j.reschedule(j.fireAt))])
    ensures Run(s, [CheckCancel(i), CheckSleep(i, false)]) == s
  {
    RunThree(s, CheckCancel(i), CheckSleep(i, true), Finish(i));
    RunTwo(s, CheckCancel(i), CheckSleep(i, false));
    assert s.jobs[i := s.jobs[i]] == s.jobs;
  }

  lemma RunTwo(s: State, a: Event, b: Event)
    ensures Run(s, [a, b]) == Step(Step(s, a), b)
  {
    assert [a, b][..1] == [a] && [a][..0] == [];
    assert Run(s, [a]) == Step(s, a);
  }

  lemma RunThree(s: State, a: Event, b: Event, c: Event)
    ensures Run(s, [a, b, c]) == Step(Step(Step(s, a), b), c)
  {
    assert [a, b, c][..2] == [a, b];
    RunTwo(s, a, b);
  }

  // ---- After a cancel ----

  /** Whether a job can still start one action after a cancel: its sleep is being looked at. */
  predicate MayStart(j: Job) { j.phase.Polled? }

  /** From a cancelled state on, job `j`, now `k`, has started at most the one action whose wait was
      already past the cancel check, and none if it was not. */
  predicate AtMostOneMore(j: Job, k: Job) {
    && j.started <= k.started
    && |k.started| + (if MayStart(k) then 1 else 0) <= |j.started| + (if MayStart(j) then 1 else 0)
  }

  lemma {:induction false} CancelStopsJobs(s: State, events: seq<Event>, i: nat)
    requires s.cancelled && i < |Run(s, events).jobs|
    ensures Run(s, events).cancelled
    ensures if i < |s.jobs| then AtMostOneMore(s.jobs[i], Run(s, events).jobs[i])
            else Run(s, events).jobs[i].started == [] && !MayStart(Run(s, events).jobs[i])
  {
    if events != [] {
      var earlier := events[..|events| - 1];
      if i < |Run(s, earlier).jobs| {
        CancelStopsJobs(s, earlier, i);
      } else {
        JobsRemain(s, earlier);
        CancelRemains(s, earlier);
      }
    }
  }

  lemma {:induction false} JobsRemain(s: State, events: seq<Event>)
    ensures |s.jobs| <= |Run(s, events).jobs|
  {
    if events != [] {
      JobsRemain(s, events[..|events| - 1]);
    }
  }

  lemma {:induction false} CancelRemains(s: State, events: seq<Event>)
    requires s.cancelled
    ensures Run(s, events).cancelled
  {
    if events != [] {
      CancelRemains(s, events[..|events| - 1]);
    }
  }

  /** How many more steps of its own a job takes once cancelled. */
  function StepsLeft(p: Phase): nat {
    match p
    case Waiting => 1
    case Polled => 2
    case Acting => 1
    case Stopped => 0
  }

  /** Once cancelled, every step a job takes brings it closer to returning, so stopping ends as soon
      as the actions already running do. */
  lemma CancelledJobsReturn(j: Job, e: Event)
    ensures JobStep(j, e, true) == j || StepsLeft(JobStep(j, e, true).phase) < StepsLeft(j.phase)
    ensures j.phase.Stopped? ==> JobStep(j, e, true) == j
  {
  }

  /** How many more steps all the jobs take once cancelled. */
  function AllStepsLeft(jobs: seq<Job>): nat {
    if jobs == [] then 0 else AllStepsLeft(jobs[..|jobs| - 1]) + StepsLeft(jobs[|jobs| - 1].phase)
  }

  lemma {:induction false} AllStepsLeftDrops(jobs: seq<Job>, i: nat, j: Job)
    requires i < |jobs|
    ensures AllStepsLeft(jobs[i := j]) == AllStepsLeft(jobs) - StepsLeft(jobs[i].phase) + StepsLeft(j.phase)
  {
    var n := |jobs| - 1;
    assert jobs[i := j][..n] == if i < n then jobs[..n][i := j] else jobs[..n];
    if i < n {
      AllStepsLeftDrops(jobs[..n], i, j);
    }
  }

  /** How many of the events changed anything. */
  ghost function Effective(s: State, events: seq<Event>): nat {
    if events == [] then 0
    else
      var before := Run(s, events[..|events| - 1]);
      Effective(s, events[..|events| - 1]) + if Run(s, events) == before then 0 else 1
  }

  predicate NoneRegistered(events: seq<Event>) { forall i :: 0 <= i < |events| ==> !events[i].Register? }

  /** Stopping ends: after a cancel, with nothing new registered, only so many events can change anything. */
  lemma {:induction false} StopEnds(s: State, events: seq<Event>)
    requires s.cancelled && NoneRegistered(events)
    ensures Effective(s, events) + AllStepsLeft(Run(s, events).jobs) <= AllStepsLeft(s.jobs)
  {
    if events != [] {
      var earlier, e := events[..|events| - 1], events[|events| - 1];
      StopEnds(s, earlier);
      CancelRemains(s, earlier);
      StopStep(Run(s, earlier), e);
    }
  }

  lemma StopStep(s: State, e: Event)
    requires s.cancelled && !e.Register?
    ensures Step(s, e) == s || AllStepsLeft(Step(s, e).jobs) < AllStepsLeft(s.jobs)
  {
    if !e.Cancel? && e.job < |s.jobs| {
      CancelledJobsReturn(s.jobs[e.job], e);
      AllStepsLeftDrops(s.jobs, e.job, JobStep(s.jobs[e.job], e, true));
      if JobStep(s.jobs[e.job], e, true) == s.jobs[e.job] {
        assert s.jobs[e.job := s.jobs[e.job]] == s.jobs;
      }
    }
  }

  /** And when none can, and only then, every job has returned, which is what stopping waits for. */
  lemma StopWaitsForAll(s: State)
    requires s.cancelled
    ensures (forall e: Event :: !e.Register? ==> Step(s, e) == s) <==>
            forall i :: 0 <= i < |s.jobs| ==> s.jobs[i].phase.Stopped?
  {
    if i :| 0 <= i < |s.jobs| && !s.jobs[i].phase.Stopped? {
      var phase := s.jobs[i].phase;
      var e := if phase.Waiting? then CheckCancel(i) else if phase.Polled? then CheckSleep(i, false) else Finish(i);
      assert Step(s, e).jobs[i].phase != s.jobs[i].phase;
    } else {
      forall e: Event | !e.Register?
        ensures Step(s, e) == s
      {
        if !e.Cancel? && e.job < |s.jobs| {
          assert s.jobs[e.job := s.jobs[e.job]] == s.jobs;
        }
      }
    }
  }

  /** The scheduler object: the flag and the jobs it steps. */
  class Scheduler {
    var cancelled: bool
    var jobs: seq<Job>

    ghost function Now(): State
      reads this
    {
      State(cancelled, jobs)
    }

    constructor ()
      ensures Now() == INITIAL && !cancelled && jobs == []
    {
      cancelled := false;
      jobs := [];
    }

    method Schedule(first: int, reschedule: int -> int)
      modifies this
      ensures Now() == Step(old(Now()), Register(first, reschedule))
      ensures jobs == old(jobs) + [Job(first, reschedule, Waiting, first, [])]
    {
      jobs := jobs + [Job(first, reschedule, Waiting, first, [])];
    }

    method CancelAll()
      modifies this
      ensures Now() == Step(old(Now()), Cancel)
      ensures cancelled && jobs == old(jobs)
    {
      cancelled := true;
    }

    /** One turn of job `i`'s wait: the cancel check first, then the sleep. */
    method PollWait(i: nat, elapsed: bool)
      requires i < |jobs| && jobs[i].phase.Waiting?
      modifies this
      ensures Now() == Step(Step(old(Now()), CheckCancel(i)), CheckSleep(i, elapsed))
    {
      var j := jobs[i];
      if cancelled {
        jobs := jobs[i := j.(phase := Stopped)];
      } else if elapsed {
        jobs := jobs[i := j.(phase := Acting, started := j.started + [j.fireAt])];
      }
      assert jobs[i := jobs[i]] == jobs;
    }

    /** Job `i`'s action ends: return if cancelled, else go round with the next due instant. */
    method EndAction(i: nat)
      requires i < |jobs| && jobs[i].phase.Acting?
      modifies this
      ensures Now() == Step(old(Now()), Finish(i))
    {
      var j := jobs[i];
      if cancelled {
        jobs := jobs[i := j.(phase := Stopped)];
        return;
      }
      jobs := jobs[i := j.(phase := Waiting, fireAt := j.reschedule(j.fireAt))];
    }
  }
}
