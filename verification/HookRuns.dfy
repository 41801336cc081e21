/** Hook calls of any number of clients interleaved at the granularity of their locked sections: when the
    two maps agree, what a takeover keeps, and how often a device is reported ready. */
module HookRuns {
  import opened BrokerHook
  import opened ClientState
  import opened Wrappers

  /** What a hook call is about. */
  datatype Operation = Connect | Disconnect | PublishStats(stats: Option<Stats>) | PublishApp(app: string)

  /** How far a call has come: admitted through the closing gate; its connection inserted but not yet
      registered; its connection removed but not yet unregistered; its stats stored but readiness not
      yet looked at. */
  datatype Progress = Admitted | Inserting | Removing | Storing

  datatype Call = Call(id: ClientId, session: SessionKey, operation: Operation, progress: Progress)

  /** The maps, the calls in flight by task, how often each session was inserted and was reported
      ready. */
  datatype State = State(
    devices: Devices,
    calls: map<nat, Call>,
    closing: bool,
    inserted: multiset<(ClientId, SessionKey)>,
    reported: multiset<(ClientId, SessionKey)>)

  const INITIAL := State(Devices(map[], map[]), map[], false, multiset{}, multiset{})

  /** A call begins, the next locked section of a task runs, or the hook is closed. */
  datatype Event =
    | Begin(task: nat, id: ClientId, session: SessionKey, operation: Operation)
    | Advance(task: nat)
    | Close

  /** One locked section of a call that has been admitted, and what is left of the call. */
  function Section(s: State, task: nat): State
    requires task in s.calls
  {
    var c := s.calls[task];
    var d := s.devices;
    var done := s.calls - {task};
    match (c.operation, c.progress)
    case (Connect, Admitted) =>
      s.(devices := d.Inserted(c.id, c.session), calls := s.calls[task := c.(progress := Inserting)],
         inserted := s.inserted + multiset{(c.id, c.session)})
    case (Connect, _) => s.(devices := d.Registered(c.id), calls := done)
    case (Disconnect, Admitted) =>
      s.(devices := d.Removed(c.id, c.session),
         calls := if d.Current(c.id, c.session) then s.calls[task := c.(progress := Removing)] else done)
    case (Disconnect, _) => s.(devices := d.Unregistered(c.id), calls := done)
    case (PublishStats(stats), Admitted) =>
      s.(devices := d.StatsStored(c.id, stats), calls := s.calls[task := c.(progress := Storing)])
    case (PublishStats(_), _) =>
      s.(devices := d.MarkedReady(c.id, c.session), calls := done,
         reported := if d.BecomesReady(c.id, c.session) then s.reported + multiset{(c.id, c.session)} else s.reported)
    case (PublishApp(app), _) => s.(devices := d.AppStored(c.id, app), calls := done)
  }

  function Step(s: State, e: Event): State {
    match e
    case Begin(task, id, session, operation) =>
      if s.closing || task in s.calls then s else s.(calls := s.calls[task := Call(id, session, operation, Admitted)])
    case Advance(task) => if task in s.calls then Section(s, task) else s
    case Close => s.(closing := true)
  }

  function Run(s: State, events: seq<Event>): State {
    if events == [] then s else Step(Run(s, events[..|events| - 1]), events[|events| - 1])
  }

  // ---- The two maps agree ----

  /** A connect or a disconnect. Publishes change neither map's clients. */
  predicate ChangesMaps(operation: Operation) { operation.Connect? || operation.Disconnect? }

  /** A connect or a disconnect between its two sections. */
  predicate HalfDone(c: Call) { ChangesMaps(c.operation) && !c.progress.Admitted? }

  /** No connect or disconnect of the client is in flight. */
  predicate Idle(s: State, id: ClientId) {
    forall t :: t in s.calls && s.calls[t].id == id ==> !ChangesMaps(s.calls[t].operation)
  }

  /** No connect or disconnect of the client is between its sections. */
  predicate NoneHalfDone(s: State, id: ClientId) {
    forall t :: t in s.calls && s.calls[t].id == id ==> !HalfDone(s.calls[t])
  }

  predicate Agree(d: Devices, id: ClientId) { id in d.clients <==> id in d.connections }

  /** Connect `c` and disconnect `d` of one client race when the disconnect has removed a connection, or
      still can: its session is current, or is the one about to be inserted. */
  predicate Race(c: Call, d: Call, devices: Devices) {
    && c.id == d.id && c.operation.Connect? && d.operation.Disconnect?
    && (|| !d.progress.Admitted?
        || devices.Current(d.id, d.session)
        || (c.progress.Admitted? && c.session == d.session))
  }

  predicate NoRaces(s: State) {
    forall t, u :: t in s.calls && u in s.calls ==> !Race(s.calls[t], s.calls[u], s.devices)
  }

  /** No call of the run raced when it began. */
  predicate BeginsWithoutRace(events: seq<Event>) {
    events == [] ||
    (&& BeginsWithoutRace(events[..|events| - 1])
     && (events[|events| - 1].Begin? ==> NoRaces(Run(INITIAL, events))))
  }

  predicate Consistent(c: Call, d: Devices) {
    HalfDone(c) ==> (c.operation.Connect? <==> c.id in d.connections)
  }

  /** No races, and the maps disagree on a client only while a connect or disconnect of its own is between
      its sections. */
  ghost predicate InStep(s: State) {
    && NoRaces(s)
    && (forall t :: t in s.calls ==> Consistent(s.calls[t], s.devices))
    && (forall id :: NoneHalfDone(s, id) ==> Agree(s.devices, id))
  }

  /** A section touches only its own call, */
  lemma SectionOfCall(s: State, task: nat)
    requires task in s.calls
    ensures var c, r := s.calls[task], Section(s, task);
            if task in r.calls then
              && r.calls == s.calls[task := r.calls[task]] && c.progress.Admitted?
              && r.calls[task].(progress := Admitted) == c && HalfDone(r.calls[task]) == ChangesMaps(c.operation)
            else r.calls == s.calls - {task}
  {
  }

  /** and only its own client's entries, a publish nobody's. */
  lemma SectionOfDevices(s: State, task: nat, id: ClientId)
    requires task in s.calls && (id != s.calls[task].id || !ChangesMaps(s.calls[task].operation))
    ensures SameFor(s.devices, Section(s, task).devices, id)
  {
  }

  predicate SameFor(d: Devices, e: Devices, id: ClientId) {
    && (id in d.connections <==> id in e.connections) && (id in d.clients <==> id in e.clients)
    && (id in d.connections && id in e.connections ==> d.connections[id].session == e.connections[id].session)
  }

  lemma AdvanceConsistent(s: State, task: nat, t: nat)
    requires InStep(s) && task in s.calls && t in Section(s, task).calls
    ensures Consistent(Section(s, task).calls[t], Section(s, task).devices)
  {
    SectionOfCall(s, task);
    if t != task {
      if s.calls[t].id != s.calls[task].id || !ChangesMaps(s.calls[task].operation) {
        SectionOfDevices(s, task, s.calls[t].id);
      }
      assert Consistent(s.calls[t], s.devices);
      assert !Race(s.calls[task], s.calls[t], s.devices) && !Race(s.calls[t], s.calls[task], s.devices);
    }
  }

  lemma AdvanceAgrees(s: State, task: nat, id: ClientId)
    requires InStep(s) && task in s.calls && NoneHalfDone(Section(s, task), id)
    ensures Agree(Section(s, task).devices, id)
  {
    SectionOfCall(s, task);
    var c := s.calls[task];
    assert Consistent(c, s.devices);
    if id != c.id || !ChangesMaps(c.operation) {
      SectionOfDevices(s, task, id);
    }
    if id != c.id || !HalfDone(c) {
      forall t | t in s.calls && s.calls[t].id == id
        ensures !HalfDone(s.calls[t])
      {
        assert t != task ==> t in Section(s, task).calls;
      }
      assert NoneHalfDone(s, id);
    }
  }

  lemma AdvanceRacesNot(s: State, task: nat, t: nat, u: nat)
    requires NoRaces(s) && task in s.calls
    requires t in Section(s, task).calls && u in Section(s, task).calls
    ensures !Race(Section(s, task).calls[t], Section(s, task).calls[u], Section(s, task).devices)
  {
    SectionOfCall(s, task);
    if s.calls[u].id != s.calls[task].id || !ChangesMaps(s.calls[task].operation) {
      SectionOfDevices(s, task, s.calls[u].id);
    }
    assert !Race(s.calls[t], s.calls[u], s.devices) && !Race(s.calls[task], s.calls[u], s.devices);
    assert !Race(s.calls[t], s.calls[task], s.devices);
  }

  lemma AdvanceInStep(s: State, task: nat)
    requires InStep(s) && task in s.calls
    ensures InStep(Section(s, task))
  {
    var r := Section(s, task);
    forall t | t in r.calls
      ensures Consistent(r.calls[t], r.devices)
    {
      AdvanceConsistent(s, task, t);
    }
    forall id | NoneHalfDone(r, id)
      ensures Agree(r.devices, id)
    {
      AdvanceAgrees(s, task, id);
    }
    forall t, u | t in r.calls && u in r.calls
      ensures !Race(r.calls[t], r.calls[u], r.devices)
    {
      AdvanceRacesNot(s, task, t, u);
    }
  }

  lemma BeginInStep(s: State, e: Event)
    requires InStep(s) && e.Begin? && NoRaces(Step(s, e))
    ensures InStep(Step(s, e))
  {
    var r := Step(s, e);
    forall id | NoneHalfDone(r, id)
      ensures NoneHalfDone(s, id)
    {
      assert forall t :: t in s.calls ==> t in r.calls && r.calls[t] == s.calls[t];
    }
  }

  lemma StepInStep(s: State, e: Event)
    requires InStep(s) && (e.Begin? ==> NoRaces(Step(s, e)))
    ensures InStep(Step(s, e))
  {
    match e
    case Begin(_, _, _, _) => BeginInStep(s, e);
    case Advance(task) =>
      if task in s.calls {
        AdvanceInStep(s, task);
      }
    case Close =>
      assert forall id :: NoneHalfDone(Step(s, e), id) ==> NoneHalfDone(s, id);
  }

  lemma {:induction false} RunInStep(events: seq<Event>)
    requires BeginsWithoutRace(events)
    ensures InStep(Run(INITIAL, events))
  {
    if events != [] {
      RunInStep(events[..|events| - 1]);
      StepInStep(Run(INITIAL, events[..|events| - 1]), events[|events| - 1]);
    }
  }

  /** Over any run in which no call begins in a race, however else calls of the same and of different
      clients overlap and whenever the hook is closed, a client with no connect or disconnect between its
      sections is registered exactly when it has a connection. */
  lemma RegisteredIffConnected(events: seq<Event>, id: ClientId)
    requires BeginsWithoutRace(events) && NoneHalfDone(Run(INITIAL, events), id)
    ensures id in Run(INITIAL, events).devices.clients <==> id in Run(INITIAL, events).devices.connections
  {
    RunInStep(events);
  }

  // ---- Exactly the races can end in disagreement ----

  /** Calls in flight go on, and none begins. */
  predicate Completion(events: seq<Event>) { forall i :: 0 <= i < |events| ==> events[i].Advance? }

  lemma {:induction false} CompletionInStep(s: State, more: seq<Event>)
    requires InStep(s) && Completion(more)
    ensures InStep(Run(s, more))
  {
    if more != [] {
      CompletionInStep(s, more[..|more| - 1]);
      StepInStep(Run(s, more[..|more| - 1]), more[|more| - 1]);
    }
  }

  /** Connect `t` has inserted and disconnect `u` removed, and neither has touched the registry yet. */
  predicate Crossed(s: State, t: nat, u: nat, id: ClientId) {
    && t in s.calls && u in s.calls && s.calls[t].id == s.calls[u].id == id
    && s.calls[t].operation.Connect? && s.calls[u].operation.Disconnect?
    && HalfDone(s.calls[t]) && HalfDone(s.calls[u])
  }

  /** Two calls in a race can get that far. */
  lemma Cross(s: State, t: nat, u: nat) returns (more: seq<Event>)
    requires t in s.calls && u in s.calls && Race(s.calls[t], s.calls[u], s.devices)
    ensures Completion(more) && Crossed(Run(s, more), t, u, s.calls[t].id)
  {
    var c, d := s.calls[t], s.calls[u];
    RunOne(s, Advance(t));
    RunOne(s, Advance(u));
    if !d.progress.Admitted? {
      more := if c.progress.Admitted? then [Advance(t)] else [];
    } else if s.devices.Current(d.id, d.session) {
      RunTwo(s, Advance(u), Advance(t));
      more := if c.progress.Admitted? then [Advance(u), Advance(t)] else [Advance(u)];
    } else {
      RunTwo(s, Advance(t), Advance(u));
      more := [Advance(t), Advance(u)];
    }
  }

  /** The other connects and disconnects of the client in flight. */
  function Others(s: State, t: nat, u: nat, id: ClientId): set<nat> {
    set x | x in s.calls && x != t && x != u && s.calls[x].id == id && ChangesMaps(s.calls[x].operation)
  }

  function NotBegun(s: State, t: nat, u: nat, id: ClientId): set<nat> {
    set x | x in Others(s, t, u, id) && s.calls[x].progress.Admitted?
  }

  /** The others can be completed first. */
  lemma {:induction false} CompleteOthers(s: State, t: nat, u: nat, id: ClientId) returns (more: seq<Event>)
    requires Crossed(s, t, u, id)
    ensures Completion(more) && Crossed(Run(s, more), t, u, id) && Others(Run(s, more), t, u, id) == {}
    decreases |Others(s, t, u, id)|, |NotBegun(s, t, u, id)|
  {
    if Others(s, t, u, id) == {} {
      more := [];
    } else {
      var x :| x in Others(s, t, u, id);
      OtherAdvances(s, t, u, id, x);
      var rest := CompleteOthers(Step(s, Advance(x)), t, u, id);
      more := [Advance(x)] + rest;
      RunOne(s, Advance(x));
      RunAppend(s, [Advance(x)], rest);
    }
  }

  lemma OtherAdvances(s: State, t: nat, u: nat, id: ClientId, x: nat)
    requires Crossed(s, t, u, id) && x in Others(s, t, u, id)
    ensures var r := Step(s, Advance(x));
            && Crossed(r, t, u, id)
            && (|| |Others(r, t, u, id)| < |Others(s, t, u, id)|
                || (&& |Others(r, t, u, id)| == |Others(s, t, u, id)|
                    && |NotBegun(r, t, u, id)| < |NotBegun(s, t, u, id)|))
  {
    SectionOfCall(s, x);
    var r := Section(s, x);
    if x in r.calls {
      assert Others(r, t, u, id) == Others(s, t, u, id);
      assert NotBegun(r, t, u, id) == NotBegun(s, t, u, id) - {x};
    } else {
      assert Others(r, t, u, id) == Others(s, t, u, id) - {x};
    }
  }

  /** Then one order of the last two sections, registering and unregistering, leaves the maps in
      disagreement. */
  lemma LastTwoDisagree(s: State, t: nat, u: nat, id: ClientId) returns (more: seq<Event>)
    requires Crossed(s, t, u, id) && Others(s, t, u, id) == {}
    ensures Completion(more) && Idle(Run(s, more), id) && !Agree(Run(s, more).devices, id)
  {
    assert forall x :: x in s.calls && x != t && x != u && s.calls[x].id == id && ChangesMaps(s.calls[x].operation) ==>
        x in Others(s, t, u, id);
    if id in s.devices.connections {
      RunTwo(s, Advance(t), Advance(u));
      more := [Advance(t), Advance(u)];
    } else {
      RunTwo(s, Advance(u), Advance(t));
      more := [Advance(u), Advance(t)];
    }
  }

  /** From any state at all, whatever else is in flight, a race has a completion that leaves the client idle
      with the maps in disagreement. */
  lemma RaceDisagrees(s: State, t: nat, u: nat) returns (more: seq<Event>)
    requires t in s.calls && u in s.calls && Race(s.calls[t], s.calls[u], s.devices)
    ensures Completion(more) && Idle(Run(s, more), s.calls[t].id) && !Agree(Run(s, more).devices, s.calls[t].id)
  {
    var id := s.calls[t].id;
    var crossing := Cross(s, t, u);
    var others := CompleteOthers(Run(s, crossing), t, u, id);
    var last := LastTwoDisagree(Run(Run(s, crossing), others), t, u, id);
    RunAppend(s, crossing, others);
    RunAppend(s, crossing + others, last);
    more := crossing + others + last;
  }

  /** The exact condition, at the moment a call begins: after a run without races, every completion that
      leaves the caller's client idle leaves the maps in agreement on it exactly when the call races with
      none in flight. */
  lemma AgreesExactlyWithoutRace(events: seq<Event>, e: Event)
    requires BeginsWithoutRace(events) && e.Begin?
    ensures var s := Step(Run(INITIAL, events), e);
            NoRaces(s) <==>
              forall more :: Completion(more) && Idle(Run(s, more), e.id) ==> Agree(Run(s, more).devices, e.id)
  {
    var before := Run(INITIAL, events);
    var s := Step(before, e);
    RunInStep(events);
    if NoRaces(s) {
      forall more | Completion(more) && Idle(Run(s, more), e.id)
        ensures Agree(Run(s, more).devices, e.id)
      {
        BeginInStep(before, e);
        CompletionInStep(s, more);
      }
    } else {
      var t, u :| t in s.calls && u in s.calls && Race(s.calls[t], s.calls[u], s.devices);
      RaceIsNew(before, e, t, u);
      var more := RaceDisagrees(s, t, u);
      assert Completion(more);
    }
  }

  lemma RaceIsNew(s: State, e: Event, t: nat, u: nat)
    requires NoRaces(s) && e.Begin?
    requires var r := Step(s, e); t in r.calls && u in r.calls && Race(r.calls[t], r.calls[u], r.devices)
    ensures Step(s, e).calls[t].id == e.id
  {
  }

  /** A run in which that happens: a disconnect overtaken by a reconnect between its two sections
      unregisters the device that has just connected. */
  lemma OverlapDisagrees(id: ClientId, a: SessionKey, b: SessionKey) returns (events: seq<Event>)
    ensures var s := Run(INITIAL, events);
            Idle(s, id) && id in s.devices.connections && id !in s.devices.clients
  {
    var connected := ConnectAlone(INITIAL, 0, id, a);
    var s1 := Run(INITIAL, connected);
    var leaving := [Begin(1, id, a, Disconnect), Advance(1)];
    RunTwo(s1, leaving[0], leaving[1]);
    var s2 := Run(s1, leaving);
    var reconnected := ConnectAlone(s2, 2, id, b);
    var s3 := Run(s2, reconnected);
    assert s3.calls[1] == Call(id, a, Disconnect, Removing);
    RunTwo(s3, Advance(1), Advance(1));
    events := connected + leaving + reconnected + [Advance(1), Advance(1)];
    RunAppend(INITIAL, connected, leaving);
    RunAppend(INITIAL, connected + leaving, reconnected);
    RunAppend(INITIAL, connected + leaving + reconnected, [Advance(1), Advance(1)]);
  }

  /** A connect that nothing overtakes. */
  lemma ConnectAlone(s: State, task: nat, id: ClientId, session: SessionKey) returns (events: seq<Event>)
    requires task !in s.calls && !s.closing
    ensures var r := Run(s, events);
            r.devices == s.devices.Inserted(id, session).Registered(id) && r.calls == s.calls && !r.closing
  {
    events := [Begin(task, id, session, Connect), Advance(task)] + [Advance(task)];
    RunTwo(s, Begin(task, id, session, Connect), Advance(task));
    assert events[..2] == [Begin(task, id, session, Connect), Advance(task)];
  }

  lemma RunOne(s: State, e: Event)
    ensures Run(s, [e]) == Step(s, e)
  {
    assert [e][..0] == [];
  }

  lemma RunTwo(s: State, e: Event, f: Event)
    ensures Run(s, [e, f]) == Step(Step(s, e), f)
  {
    assert [e, f][..1] == [e];
    assert [e][..0] == [];
    assert Run(s, [e]) == Step(s, e);
  }

  lemma {:induction false} RunAppend(s: State, a: seq<Event>, b: seq<Event>)
    ensures Run(s, a + b) == Run(Run(s, a), b)
  {
    if b == [] {
      assert a + b == a;
    } else {
      RunAppend(s, a, b[..|b| - 1]);
      assert (a + b)[..|a + b| - 1] == a + b[..|b| - 1];
    }
  }

  // ---- Takeover ----

  /** A call of client `id` that cannot end or replace session `session`: a publish, or the
      disconnect of another session that has not removed anything. */
  predicate Harmless(c: Call, session: SessionKey) {
    match c.operation
    case Connect => false
    case Disconnect => c.session != session && c.progress.Admitted?
    case _ => true
  }

  /** `session` is the current session of a registered client, and no call in flight can end it. */
  ghost predicate Holds(s: State, id: ClientId, session: SessionKey) {
    && s.devices.Current(id, session) && id in s.devices.clients
    && forall t :: t in s.calls && s.calls[t].id == id ==> Harmless(s.calls[t], session)
  }

  /** The events of a run neither reconnect client `id` nor disconnect its session. */
  predicate LeavesAlone(events: seq<Event>, id: ClientId, session: SessionKey) {
    forall i :: 0 <= i < |events| && events[i].Begin? && events[i].id == id ==>
      !events[i].operation.Connect? && (events[i].operation.Disconnect? ==> events[i].session != session)
  }

  /** Takeover is safe: however late the disconnects and publishes of replaced sessions arrive, the
      current session keeps its connection and its registration until it disconnects itself or is
      taken over. */
  lemma {:induction false} SessionSurvives(s: State, events: seq<Event>, id: ClientId, session: SessionKey)
    requires Holds(s, id, session) && LeavesAlone(events, id, session)
    ensures Holds(Run(s, events), id, session)
  {
    if events != [] {
      var earlier, e := events[..|events| - 1], events[|events| - 1];
      SessionSurvives(s, earlier, id, session);
      StepHolds(Run(s, earlier), e, id, session);
    }
  }

  lemma StepHolds(s: State, e: Event, id: ClientId, session: SessionKey)
    requires Holds(s, id, session) && LeavesAlone([e], id, session)
    ensures Holds(Step(s, e), id, session)
  {
    assert [e][0] == e;
    if e.Advance? && e.task in s.calls {
      var c := s.calls[e.task];
      if c.id == id {
        assert Harmless(c, session);
      }
    }
  }

  /** Connect `task` has taken the client over and not registered it yet, and no other call in flight can
      end the new session. */
  ghost predicate TakingOver(s: State, task: nat, id: ClientId, session: SessionKey) {
    && task in s.calls && s.calls[task].id == id && s.calls[task].operation.Connect? && HalfDone(s.calls[task])
    && s.devices.Current(id, session)
    && forall t :: t in s.calls && t != task && s.calls[t].id == id ==> Harmless(s.calls[t], session)
  }

  /** Its first section gets a connect there, whichever session it replaces. */
  lemma TakeoverBegins(s: State, task: nat)
    requires task in s.calls && s.calls[task].operation.Connect? && s.calls[task].progress.Admitted?
    requires forall t :: t in s.calls && t != task && s.calls[t].id == s.calls[task].id ==>
               Harmless(s.calls[t], s.calls[task].session)
    ensures TakingOver(Section(s, task), task, s.calls[task].id, s.calls[task].session)
  {
  }

  /** However many stale calls come and go meanwhile, its second section makes the new session the current
      one of a registered client, and it stays that. */
  lemma {:induction false} TakeoverCompletes(s: State, events: seq<Event>, task: nat, id: ClientId, session: SessionKey)
    requires TakingOver(s, task, id, session) && LeavesAlone(events, id, session)
    ensures if Advance(task) in events then Holds(Run(s, events), id, session)
            else TakingOver(Run(s, events), task, id, session)
  {
    if events != [] {
      var earlier, e := events[..|events| - 1], events[|events| - 1];
      assert events == earlier + [e];
      TakeoverCompletes(s, earlier, task, id, session);
      if Advance(task) in earlier {
        StepHolds(Run(s, earlier), e, id, session);
      } else {
        TakeoverStep(Run(s, earlier), e, task, id, session);
      }
    }
  }

  lemma TakeoverStep(s: State, e: Event, task: nat, id: ClientId, session: SessionKey)
    requires TakingOver(s, task, id, session) && LeavesAlone([e], id, session)
    ensures if e == Advance(task) then Holds(Step(s, e), id, session) else TakingOver(Step(s, e), task, id, session)
  {
    assert [e][0] == e;
    if e.Advance? && e.task in s.calls && s.calls[e.task].id == id && e.task != task {
      assert Harmless(s.calls[e.task], session);
    }
  }

  /** A takeover works out: after the first section of a connect that no call in flight can harm, whichever
      session it replaces and however many stale calls come and go until its second section and beyond, the
      new session is the current one of a registered client. */
  lemma TakeoverHolds(s: State, events: seq<Event>, task: nat)
    requires task in s.calls && s.calls[task].operation.Connect? && s.calls[task].progress.Admitted?
    requires forall t :: t in s.calls && t != task && s.calls[t].id == s.calls[task].id ==>
               Harmless(s.calls[t], s.calls[task].session)
    requires LeavesAlone(events, s.calls[task].id, s.calls[task].session) && Advance(task) in events
    ensures Holds(Run(Step(s, Advance(task)), events), s.calls[task].id, s.calls[task].session)
  {
    TakeoverBegins(s, task);
    TakeoverCompletes(Section(s, task), events, task, s.calls[task].id, s.calls[task].session);
  }

  // ---- Ready only by its own stats ----

  /** Call `c` is not a publish of stats by the session. */
  predicate NotItsStats(c: Call, id: ClientId, session: SessionKey) {
    c.id == id && c.session == session ==> !c.operation.PublishStats?
  }

  ghost predicate NoStatsInFlight(s: State, id: ClientId, session: SessionKey) {
    forall t :: t in s.calls ==> NotItsStats(s.calls[t], id, session)
  }

  predicate NoStatsBegin(events: seq<Event>, id: ClientId, session: SessionKey) {
    forall i :: 0 <= i < |events| && events[i].Begin? && events[i].id == id && events[i].session == session ==>
      !events[i].operation.PublishStats?
  }

  /** Over any run in which a session publishes no stats itself, it is not reported ready, and while it stays
      the current one it is not marked ready either, whatever replaced sessions of its client publish. */
  lemma {:induction false} ReadyOnlyByItsOwnStats(s: State, events: seq<Event>, id: ClientId, session: SessionKey)
    requires NoStatsInFlight(s, id, session) && NoStatsBegin(events, id, session)
    ensures NoStatsInFlight(Run(s, events), id, session)
    ensures Run(s, events).reported[(id, session)] == s.reported[(id, session)]
    ensures Holds(s, id, session) && LeavesAlone(events, id, session) ==>
              Run(s, events).devices.BecomesReady(id, session) == s.devices.BecomesReady(id, session)
  {
    if events != [] {
      var earlier, e := events[..|events| - 1], events[|events| - 1];
      ReadyOnlyByItsOwnStats(s, earlier, id, session);
      NotReadyByStep(Run(s, earlier), e, id, session);
      if Holds(s, id, session) && LeavesAlone(events, id, session) {
        SessionSurvives(s, earlier, id, session);
      }
    }
  }

  lemma NotReadyByStep(s: State, e: Event, id: ClientId, session: SessionKey)
    requires NoStatsInFlight(s, id, session) && NoStatsBegin([e], id, session)
    ensures NoStatsInFlight(Step(s, e), id, session)
    ensures Step(s, e).reported[(id, session)] == s.reported[(id, session)]
    ensures Holds(s, id, session) && LeavesAlone([e], id, session) ==>
              Step(s, e).devices.BecomesReady(id, session) == s.devices.BecomesReady(id, session)
  {
    assert [e][0] == e;
    if e.Advance? && e.task in s.calls {
      assert NotItsStats(s.calls[e.task], id, session);
      NotReadyBySection(s, e.task, id, session);
    }
  }

  lemma NotReadyBySection(s: State, task: nat, id: ClientId, session: SessionKey)
    requires task in s.calls && NotItsStats(s.calls[task], id, session)
    ensures task in Section(s, task).calls ==> NotItsStats(Section(s, task).calls[task], id, session)
    ensures forall t :: t in Section(s, task).calls && t != task ==>
              t in s.calls && Section(s, task).calls[t] == s.calls[t]
    ensures Section(s, task).reported[(id, session)] == s.reported[(id, session)]
    ensures s.devices.Current(id, session) && (s.calls[task].id == id ==> Harmless(s.calls[task], session)) ==>
              Section(s, task).devices.BecomesReady(id, session) == s.devices.BecomesReady(id, session)
  {
  }

  // ---- Ready with its first stats ----

  /** How many publishes of stats by the session have completed over the run. */
  function StatsCompleted(s: State, events: seq<Event>, id: ClientId, session: SessionKey): nat {
    if events == [] then 0
    else
      var earlier, e := events[..|events| - 1], events[|events| - 1];
      StatsCompleted(s, earlier, id, session) + if CompletesStats(Run(s, earlier), e, id, session) then 1 else 0
  }

  /** The event is the last section of a publish of stats by the session. */
  predicate CompletesStats(s: State, e: Event, id: ClientId, session: SessionKey) {
    && e.Advance? && e.task in s.calls
    && s.calls[e.task].id == id && s.calls[e.task].session == session
    && s.calls[e.task].operation.PublishStats? && !s.calls[e.task].progress.Admitted?
  }

  /** The session is the current one of its client, and no call in flight can end or replace it. */
  ghost predicate Secure(s: State, id: ClientId, session: SessionKey) {
    && s.devices.Current(id, session)
    && forall t :: t in s.calls && s.calls[t].id == id ==> CannotEnd(s.calls[t], session)
  }

  /** As harmless, or a connect that has inserted already. */
  predicate CannotEnd(c: Call, session: SessionKey) {
    Harmless(c, session) || (c.operation.Connect? && HalfDone(c))
  }

  lemma SecureStep(s: State, e: Event, id: ClientId, session: SessionKey)
    requires Secure(s, id, session) && LeavesAlone([e], id, session)
    ensures Secure(Step(s, e), id, session)
    ensures Step(s, e).devices.BecomesReady(id, session) <==>
            s.devices.BecomesReady(id, session) && !CompletesStats(s, e, id, session)
    ensures Step(s, e).reported[(id, session)] == s.reported[(id, session)] +
              if CompletesStats(s, e, id, session) && s.devices.BecomesReady(id, session) then 1 else 0
  {
    assert [e][0] == e;
    if e.Advance? && e.task in s.calls {
      assert s.calls[e.task].id == id ==> CannotEnd(s.calls[e.task], session);
      SectionOfCall(s, e.task);
      SecureSection(s, e.task, id, session);
    }
  }

  lemma SecureSection(s: State, task: nat, id: ClientId, session: SessionKey)
    requires task in s.calls && s.devices.Current(id, session)
    requires s.calls[task].id == id ==> CannotEnd(s.calls[task], session)
    ensures Section(s, task).devices.Current(id, session)
    ensures Section(s, task).devices.BecomesReady(id, session) <==>
            s.devices.BecomesReady(id, session) && !CompletesStats(s, Advance(task), id, session)
    ensures Section(s, task).reported[(id, session)] == s.reported[(id, session)] +
              if CompletesStats(s, Advance(task), id, session) && s.devices.BecomesReady(id, session) then 1 else 0
  {
  }

  /** While a session stays the current one, it is reported ready exactly once if it was not ready and has
      completed a publish of stats, and not otherwise, whatever else comes and goes. */
  lemma {:induction false} ReadyWithFirstStats(s: State, events: seq<Event>, id: ClientId, session: SessionKey)
    requires Secure(s, id, session) && LeavesAlone(events, id, session)
    ensures Secure(Run(s, events), id, session)
    ensures Run(s, events).devices.BecomesReady(id, session) <==>
            s.devices.BecomesReady(id, session) && StatsCompleted(s, events, id, session) == 0
    ensures Run(s, events).reported[(id, session)] == s.reported[(id, session)] +
              if s.devices.BecomesReady(id, session) && StatsCompleted(s, events, id, session) > 0 then 1 else 0
  {
    if events != [] {
      var earlier, e := events[..|events| - 1], events[|events| - 1];
      ReadyWithFirstStats(s, earlier, id, session);
      SecureStep(Run(s, earlier), e, id, session);
    }
  }

  /** From the insertion of its connect on, then, a session that is not ended or replaced is reported ready
      exactly once, with the first stats it completes, and never before. */
  lemma ConnectedReportsReady(s: State, events: seq<Event>, task: nat)
    requires task in s.calls && s.calls[task].operation.Connect? && s.calls[task].progress.Admitted?
    requires forall t :: t in s.calls && t != task && s.calls[t].id == s.calls[task].id ==>
               CannotEnd(s.calls[t], s.calls[task].session)
    requires LeavesAlone(events, s.calls[task].id, s.calls[task].session)
    ensures var c, inserted := s.calls[task], Step(s, Advance(task));
            Run(inserted, events).reported[(c.id, c.session)] == s.reported[(c.id, c.session)] +
              if StatsCompleted(inserted, events, c.id, c.session) > 0 then 1 else 0
  {
    var c, inserted := s.calls[task], Step(s, Advance(task));
    InsertedNotReady(s, task);
    ReadyWithFirstStats(inserted, events, c.id, c.session);
  }

  lemma InsertedNotReady(s: State, task: nat)
    requires task in s.calls && s.calls[task].operation.Connect? && s.calls[task].progress.Admitted?
    requires forall t :: t in s.calls && t != task && s.calls[t].id == s.calls[task].id ==>
               CannotEnd(s.calls[t], s.calls[task].session)
    ensures var c, inserted := s.calls[task], Section(s, task);
            && Secure(inserted, c.id, c.session) && inserted.devices.BecomesReady(c.id, c.session)
            && inserted.reported == s.reported
  {
  }

  // ---- Calls that nothing overlaps ----

  /** What the hook's method for an operation does. */
  function Done(d: Devices, id: ClientId, session: SessionKey, operation: Operation): Devices {
    match operation
    case Connect => d.Inserted(id, session).Registered(id)
    case Disconnect => if d.Current(id, session) then d.Removed(id, session).Unregistered(id) else d
    case PublishStats(stats) => d.StatsStored(id, stats).MarkedReady(id, session)
    case PublishApp(app) => d.AppStored(id, app)
  }

  /** The sections of a call, run one after the other, do what the hook's method does. */
  lemma CallAlone(s: State, task: nat, id: ClientId, session: SessionKey, operation: Operation)
    requires !s.closing && task !in s.calls
    ensures var r := Run(s, [Begin(task, id, session, operation)] + [Advance(task), Advance(task)]);
            r.calls == s.calls && r.devices == Done(s.devices, id, session, operation)
  {
    var begun := Step(s, Begin(task, id, session, operation));
    RunOne(s, Begin(task, id, session, operation));
    RunTwo(begun, Advance(task), Advance(task));
    RunAppend(s, [Begin(task, id, session, operation)], [Advance(task), Advance(task)]);
    TwoSections(begun, task);
    assert begun.calls - {task} == s.calls;
  }

  lemma TwoSections(s: State, task: nat)
    requires task in s.calls && s.calls[task].progress.Admitted?
    ensures var c, r := s.calls[task], Step(Step(s, Advance(task)), Advance(task));
            r.calls == s.calls - {task} && r.devices == Done(s.devices, c.id, c.session, c.operation)
  {
    var c := s.calls[task];
    if task in Section(s, task).calls {
      assert Section(s, task).calls - {task} == s.calls - {task};
    }
  }

  // ---- Closing ----

  /** Once the hook is closed no call begins: those in flight are those that were, with the same client,
      session and operation, and no connect is inserted but one that had been admitted. */
  lemma {:induction false} ClosedAdmitsNone(s: State, events: seq<Event>)
    requires s.closing
    ensures Run(s, events).closing
    ensures forall t :: t in Run(s, events).calls ==> t in s.calls && SameCall(s.calls[t], Run(s, events).calls[t])
    ensures forall id, session :: (forall t :: t in s.calls ==> !AboutToInsert(s.calls[t], id, session)) ==>
              Run(s, events).inserted[(id, session)] == s.inserted[(id, session)]
  {
    if events != [] {
      var earlier, e := events[..|events| - 1], events[|events| - 1];
      ClosedAdmitsNone(s, earlier);
      if e.Advance? && e.task in Run(s, earlier).calls {
        SectionOfCall(Run(s, earlier), e.task);
      }
    }
  }

  predicate SameCall(c: Call, d: Call) {
    && c.id == d.id && c.session == d.session && c.operation == d.operation
    && (d.progress.Admitted? ==> c.progress.Admitted?)
  }

  predicate AboutToInsert(c: Call, id: ClientId, session: SessionKey) {
    c.id == id && c.session == session && c.operation.Connect? && c.progress.Admitted?
  }

  // ---- Ready at most once ----

  /** Every session has been reported ready at most as often as it was inserted, and less often while
      it is current and not ready. */
  ghost predicate ReadyCounted(s: State) {
    forall id, session :: Counted(s, id, session)
  }

  predicate Counted(s: State, id: ClientId, session: SessionKey) {
    s.reported[(id, session)] + (if s.devices.BecomesReady(id, session) then 1 else 0) <= s.inserted[(id, session)]
  }

  lemma SectionCounted(s: State, task: nat, id: ClientId, session: SessionKey)
    requires Counted(s, id, session) && task in s.calls
    ensures Counted(Section(s, task), id, session)
  {
  }

  /** A session that connects once is reported ready at most once, over any run, even one whose calls
      overlap: it is never reported more often than it connected. */
  lemma {:induction false} ReadyAtMostOncePerConnect(events: seq<Event>)
    ensures ReadyCounted(Run(INITIAL, events))
  {
    if events != [] {
      var s, e := Run(INITIAL, events[..|events| - 1]), events[|events| - 1];
      ReadyAtMostOncePerConnect(events[..|events| - 1]);
      forall id, session
        ensures Counted(Step(s, e), id, session)
      {
        assert Counted(s, id, session);
        if e.Advance? && e.task in s.calls {
          SectionCounted(s, e.task, id, session);
        }
      }
    }
  }
}
