/** The weather controller: each poll updates the overlay and notifies the events whose history
    gives a cause; a device that connects later is sent the last batch while it is fresh. */
module WeatherController {
  import opened Clock
  import opened Events
  import opened EventState
  import opened Forecast
  import opened Mapping
  import opened Wrappers

  /** How a fetch ended; `fetchedAt` is when it began and `now` when its forecast was in. */
  datatype Outcome =
    | Arrived(points: seq<Point>, fetchedAt: int, now: int)
    | FetchFailed
    | FetchCancelled

  /** The last batch of notifications, when it was sent and when the fetch behind it began. */
  datatype Notified = Notified(candidates: seq<Candidate>, notifiedAt: int, fetchedAt: int)

  datatype Memory = Memory(overlay: Option<Overlay>, lastNotified: Option<Notified>, states: seq<EventState>)

  const START := Memory(None, None, [INACTIVE, INACTIVE, INACTIVE, INACTIVE, INACTIVE, INACTIVE, INACTIVE])

  function Minutes(count: int): int { Saturating(count * 60) * SECOND }

  function PolicyOf(config: Config): Policy {
    Policy(Minutes(config.notificationRepeatMinutes), config.inactiveAfterMissingPolls)
  }

  /** However large or small the configured count, so many minutes have passed between two instants exactly
      when their difference in nanoseconds says so. */
  lemma MinutesMeans(from: int, to: int, count: int)
    requires Representable(from) && Representable(to)
    ensures to - from >= Minutes(count) <==> to - from >= count * 60_000_000_000
  {
  }

  /** The policy is the configured one: its repeat interval in minutes, its misses in polls. */
  lemma PolicyMeans(config: Config, h: seq<Poll>, lastSentAt: Option<int>, now: int)
    requires Representable(now) && (lastSentAt.Some? ==> Representable(lastSentAt.value))
    ensures RepeatDue(lastSentAt, now, PolicyOf(config)) <==>
            lastSentAt.None? || now - lastSentAt.value >= config.notificationRepeatMinutes * 60_000_000_000
    ensures InForecast(h, PolicyOf(config)) <==>
            LastSighting(h).Some? && (Misses(h) == 0 || Misses(h) < config.inactiveAfterMissingPolls)
  {
    if lastSentAt.Some? {
      MinutesMeans(lastSentAt.value, now, config.notificationRepeatMinutes);
    }
  }

  function Detections(config: Config, points: seq<Point>, now: int): seq<Candidate> {
    Candidates(|ALL|, points, now, config)
  }

  /** The events a poll notifies. */
  function Batch(config: Config, m: Memory, o: Outcome): seq<Candidate>
    requires |m.states| == |ALL|
  {
    if o.Arrived? then ToNotify(|ALL|, m.states, Detections(config, o.points, o.now), o.now, PolicyOf(config)) else []
  }

  /** The overlay a poll asks for, if it asks for any. */
  function Wanted(config: Config, o: Outcome): Option<Option<Overlay>> {
    match o
    case Arrived(points, _, now) => Some(SelectOverlay(points, now, config.overlayHorizonMinutes))
    case FetchFailed => Some(None)
    case FetchCancelled => None
  }

  /** The overlays a poll publishes: at most one, and only a new one. */
  function Published(config: Config, m: Memory, o: Outcome): seq<Option<Overlay>> {
    var wanted := Wanted(config, o);
    if wanted.Some? && wanted.value != m.overlay then [wanted.value] else []
  }

  function AfterPoll(config: Config, m: Memory, o: Outcome): (r: Memory)
    requires |m.states| == |ALL|
    ensures |r.states| == |ALL|
  {
    match o
    case FetchCancelled => m
    case FetchFailed => m.(overlay := None)
    case Arrived(points, fetchedAt, now) =>
      var batch := Batch(config, m, o);
      var found := Detections(config, points, now);
      Memory(
        SelectOverlay(points, now, config.overlayHorizonMinutes),
        if batch != [] then Some(Notified(batch, now, fetchedAt)) else m.lastNotified,
        seq(|ALL|, i requires 0 <= i < |ALL| => Next(m.states[i], LastOf(ALL[i], found), now, PolicyOf(config))))
  }

  /** What a device connecting at `now` is sent. */
  function Replay(config: Config, m: Memory, now: int): seq<Candidate> {
    match m.lastNotified
    case None => []
    case Some(n) =>
      if now - n.notifiedAt >= Minutes(config.notificationRepeatMinutes)
         || now - n.fetchedAt >= Minutes(config.dataStaleTtlMinutes) then []
      else n.candidates
  }

  type ClientId = string

  /** One candidate to each of some clients. */
  function ToClients(c: Candidate, clients: seq<ClientId>): seq<(ClientId, Candidate)> {
    seq(|clients|, i requires 0 <= i < |clients| => (clients[i], c))
  }

  /** Each candidate in turn to the clients connected when its turn comes. */
  function ToConnected(batch: seq<Candidate>, connected: nat -> seq<ClientId>): seq<(ClientId, Candidate)> {
    if batch == [] then []
    else
      var n := |batch| - 1;
      ToConnected(batch[..n], connected) + ToClients(batch[n], connected(n))
  }

  /** How many sends come before candidate `k`'s turn. */
  function Offset(connected: nat -> seq<ClientId>, k: nat): nat {
    if k == 0 then 0 else Offset(connected, k - 1) + |connected(k - 1)|
  }

  lemma {:induction false} AllSent(batch: seq<Candidate>, connected: nat -> seq<ClientId>)
    ensures |ToConnected(batch, connected)| == Offset(connected, |batch|)
  {
    if batch != [] {
      AllSent(batch[..|batch| - 1], connected);
    }
  }

  /** Everything a batch sends: in candidate `k`'s turn, that candidate to each client connected then, in
      their order, and, the sends being so many in all, nothing else. */
  lemma {:induction false} SentInTurn(batch: seq<Candidate>, connected: nat -> seq<ClientId>, k: nat, i: nat)
    requires k < |batch| && i < |connected(k)|
    ensures Offset(connected, k) + i < |ToConnected(batch, connected)| == Offset(connected, |batch|)
    ensures ToConnected(batch, connected)[Offset(connected, k) + i] == (connected(k)[i], batch[k])
  {
    var n := |batch| - 1;
    AllSent(batch, connected);
    AllSent(batch[..n], connected);
    if k < n {
      SentInTurn(batch[..n], connected, k, i);
    }
  }

  /** The controller object. */
  class Controller {
    const config: Config
    const states: StateManager
    var overlay: Option<Overlay>
    var lastNotified: Option<Notified>

    ghost function Remembers(): Memory
      reads this, states.states
    {
      Memory(overlay, lastNotified, states.states[..])
    }

    ghost predicate Valid()
      reads this
    {
      states.states.Length == |ALL|
    }

    constructor (config: Config)
      ensures Valid() && fresh(states.states)
      ensures this.config == config && Remembers() == START
    {
      this.config := config;
      states := new StateManager();
      overlay := None;
      lastNotified := None;
      new;
      assert states.states[..] == START.states;
    }

    /** Applies an overlay; it is published only when it differs from the current one. */
    method ApplyOverlay(wanted: Option<Overlay>) returns (published: seq<Option<Overlay>>)
      modifies this
      ensures overlay == wanted && lastNotified == old(lastNotified)
      ensures published == if old(overlay) != wanted then [wanted] else []
    {
      published := if overlay != wanted then [wanted] else [];
      overlay := wanted;
    }

    /** One poll whose fetch ended as `o`: the overlays published, and the notifications sent to the
        clients connected when each one's turn comes. */
    method Poll(o: Outcome, connected: nat -> seq<ClientId>)
      returns (published: seq<Option<Overlay>>, sent: seq<(ClientId, Candidate)>)
      requires Valid()
      modifies this, states.states
      ensures Valid()
      ensures Remembers() == AfterPoll(config, old(Remembers()), o)
      ensures published == Published(config, old(Remembers()), o)
      ensures sent == ToConnected(Batch(config, old(Remembers()), o), connected)
    {
      published, sent := [], [];
      match o
      case FetchCancelled =>
      case FetchFailed =>
        states.OnFetchFailure();
        published := ApplyOverlay(None);
      case Arrived(points, fetchedAt, now) =>
        var selected := SelectOverlay(points, now, config.overlayHorizonMinutes);
        published := ApplyOverlay(selected);
        var candidates := DetectEvents(points, now, config);
        var toNotify := states.Process(candidates, now, PolicyOf(config));
        if toNotify != [] {
          lastNotified := Some(Notified(toNotify, now, fetchedAt));
        }
        assert states.states[..] == AfterPoll(config, old(Remembers()), o).states;
        sent := SendAll(toNotify, connected);
    }

    method SendAll(batch: seq<Candidate>, connected: nat -> seq<ClientId>) returns (sent: seq<(ClientId, Candidate)>)
      ensures sent == ToConnected(batch, connected)
    {
      sent := [];
      for i := 0 to |batch|
        invariant sent == ToConnected(batch[..i], connected)
      {
        assert batch[..i + 1][..i] == batch[..i];
        var clients := connected(i);
        var before := sent;
        for k := 0 to |clients|
          invariant sent == before + ToClients(batch[i], clients)[..k]
        {
          sent := sent + [(clients[k], batch[i])];
        }
      }
      assert batch[..|batch|] == batch;
    }

    /** The candidates replayed to a device that connects. */
    method OnDeviceConnected(now: int) returns (sent: seq<Candidate>)
      requires Valid()
      ensures sent == Replay(config, Remembers(), now)
    {
      if lastNotified.None? {
        return [];
      }
      var cached := lastNotified.value;
      if now - cached.notifiedAt >= Minutes(config.notificationRepeatMinutes)
         || now - cached.fetchedAt >= Minutes(config.dataStaleTtlMinutes) {
        return [];
      }
      sent := [];
      for i := 0 to |cached.candidates|
        invariant sent == cached.candidates[..i]
      {
        sent := sent + [cached.candidates[i]];
      }
    }
  }

  // ---- Over whole runs ----

  function MemoryAfter(config: Config, polls: seq<Outcome>): (m: Memory)
    ensures |m.states| == |ALL|
  {
    if polls == [] then START else AfterPoll(config, MemoryAfter(config, polls[..|polls| - 1]), polls[|polls| - 1])
  }

  /** Every overlay published over a run. */
  function AllPublished(config: Config, polls: seq<Outcome>): seq<Option<Overlay>> {
    if polls == [] then []
    else
      var earlier := polls[..|polls| - 1];
      AllPublished(config, earlier) + Published(config, MemoryAfter(config, earlier), polls[|polls| - 1])
  }

  /** The selection of the latest poll that was not cancelled: none before the first, none after a
      failure. */
  function Showing(config: Config, polls: seq<Outcome>): Option<Overlay> {
    if polls == [] then None
    else
      match polls[|polls| - 1]
      case Arrived(points, _, now) => SelectOverlay(points, now, config.overlayHorizonMinutes)
      case FetchFailed => None
      case FetchCancelled => Showing(config, polls[..|polls| - 1])
  }

  /** The overlays a device sees over a run, from no overlay at first. */
  function Shown(config: Config, polls: seq<Outcome>): seq<Option<Overlay>> { [None] + AllPublished(config, polls) }

  predicate NeverRepeats(shown: seq<Option<Overlay>>) {
    forall i :: 0 < i < |shown| ==> shown[i] != shown[i - 1]
  }

  /** Over any polls, published overlays never repeat consecutively, starting from no overlay, and
      the last one is the selection of the latest poll that was not cancelled. */
  lemma {:induction false} OverlaysFollowTheForecast(config: Config, polls: seq<Outcome>)
    ensures var shown := Shown(config, polls);
            NeverRepeats(shown) && shown[|shown| - 1] == Showing(config, polls) == MemoryAfter(config, polls).overlay
  {
    if polls != [] {
      var earlier, o := polls[..|polls| - 1], polls[|polls| - 1];
      OverlaysFollowTheForecast(config, earlier);
      NextShown(config, MemoryAfter(config, earlier), o, Shown(config, earlier));
      ShownGrows(config, polls);
    }
  }

  lemma NextShown(config: Config, m: Memory, o: Outcome, before: seq<Option<Overlay>>)
    requires |m.states| == |ALL| && before != [] && before[|before| - 1] == m.overlay && NeverRepeats(before)
    ensures var shown := before + Published(config, m, o);
            NeverRepeats(shown) && shown[|shown| - 1] == AfterPoll(config, m, o).overlay
    ensures AfterPoll(config, m, o).overlay == if Wanted(config, o).Some? then Wanted(config, o).value else m.overlay
  {
  }

  lemma ShownGrows(config: Config, polls: seq<Outcome>)
    requires polls != []
    ensures var earlier := polls[..|polls| - 1];
            Shown(config, polls)
            == Shown(config, earlier) + Published(config, MemoryAfter(config, earlier), polls[|polls| - 1])
  {
  }

  /** A run as one event type sees it: cancelled polls leave no trace. */
  function HistoryOf(config: Config, t: EventType, polls: seq<Outcome>): seq<Poll> {
    if polls == [] then []
    else
      var earlier := HistoryOf(config, t, polls[..|polls| - 1]);
      match polls[|polls| - 1]
      case Arrived(points, _, now) => earlier + [Succeeded(LastOf(t, Detections(config, points, now)), now)]
      case FetchFailed => earlier + [Failed]
      case FetchCancelled => earlier
  }

  lemma {:induction false} StatesAreHistories(config: Config, t: EventType, polls: seq<Outcome>)
    ensures MemoryAfter(config, polls).states[t.Index()] == StateAfter(HistoryOf(config, t, polls), PolicyOf(config))
  {
    AllIsIndexed(t);
    if polls != [] {
      var earlier := polls[..|polls| - 1];
      StatesAreHistories(config, t, earlier);
      var h, k := HistoryOf(config, t, earlier), HistoryOf(config, t, polls);
      assert k == h || k[..|k| - 1] == h;
    }
  }

  /** A candidate is notified exactly when it is the last of its type and its state says so. */
  lemma {:induction false} NotifiedByState(n: nat, c: Candidate, states: seq<EventState>, found: seq<Candidate>,
                                           now: int, policy: Policy)
    requires n <= |ALL| == |states|
    ensures c in ToNotify(n, states, found, now, policy) <==>
            c.eventType.Index() < n && LastOf(c.eventType, found) == Some(c)
            && ShouldNotify(states[c.eventType.Index()], c, now, policy)
  {
    if n > 0 {
      NotifiedByState(n - 1, c, states, found, now, policy);
      AllIsIndexed(c.eventType);
      IndexOfAll(n - 1);
      LastOfType(ALL[n - 1], found);
    }
  }

  lemma {:induction false} LastOfType(t: EventType, found: seq<Candidate>)
    ensures LastOf(t, found).Some? ==> LastOf(t, found).value.eventType == t && LastOf(t, found).value in found
    ensures LastOf(t, found).None? ==> forall c :: c in found ==> c.eventType != t
  {
    if found != [] {
      var front := found[..|found| - 1];
      LastOfType(t, front);
      assert found == front + [found[|found| - 1]];
    }
  }

  /** The detector reports each type once. */
  lemma DetectedOnce(config: Config, points: seq<Point>, now: int, c: Candidate)
    ensures c in Detections(config, points, now) <==> LastOf(c.eventType, Detections(config, points, now)) == Some(c)
  {
    var found := Detections(config, points, now);
    LastOfType(c.eventType, found);
    CandidateReported(|ALL|, c, points, now, config);
    if LastOf(c.eventType, found).Some? {
      CandidateReported(|ALL|, LastOf(c.eventType, found).value, points, now, config);
    }
  }

  /** Over any run, a poll notifies exactly the detected events whose history gives a cause. */
  lemma PollNotifiesByHistory(config: Config, polls: seq<Outcome>, o: Outcome, c: Candidate)
    requires o.Arrived?
    ensures c in Batch(config, MemoryAfter(config, polls), o) <==>
            && c in Detections(config, o.points, o.now)
            && Notifies(HistoryOf(config, c.eventType, polls), Succeeded(Some(c), o.now), PolicyOf(config))
  {
    var m := MemoryAfter(config, polls);
    var h := HistoryOf(config, c.eventType, polls);
    NotifiedByState(|ALL|, c, m.states, Detections(config, o.points, o.now), o.now, PolicyOf(config));
    AllIsIndexed(c.eventType);
    DetectedOnce(config, o.points, o.now, c);
    StatesAreHistories(config, c.eventType, polls);
    StateIsHistory(h, PolicyOf(config));
    NotifiesByState(h, c, o.now, PolicyOf(config));
  }

  /** What poll `i` of a run notified. */
  function BatchAt(config: Config, polls: seq<Outcome>, i: nat): seq<Candidate>
    requires i < |polls|
  {
    Batch(config, MemoryAfter(config, polls[..i]), polls[i])
  }

  /** Polls from `from` to before `to` of a run notified nothing. */
  ghost predicate Silent(config: Config, polls: seq<Outcome>, from: nat, to: nat)
    requires to <= |polls|
  {
    forall k :: from <= k < to ==> BatchAt(config, polls, k) == []
  }

  /** Poll `i` of a run is the last one that notified anything. */
  ghost predicate LastNotifying(config: Config, polls: seq<Outcome>, i: nat) {
    i < |polls| && BatchAt(config, polls, i) != [] && Silent(config, polls, i + 1, |polls|)
  }

  lemma BatchOfPrefix(config: Config, polls: seq<Outcome>, n: nat, i: nat)
    requires i < n <= |polls|
    ensures BatchAt(config, polls[..n], i) == BatchAt(config, polls, i)
  {
    assert polls[..n][..i] == polls[..i];
  }

  /** A poll that notifies nothing leaves the cache alone, neither dropping nor refreshing it. */
  lemma {:induction false} SilenceKeepsCache(config: Config, polls: seq<Outcome>, from: nat)
    requires from <= |polls| && Silent(config, polls, from, |polls|)
    ensures MemoryAfter(config, polls).lastNotified == MemoryAfter(config, polls[..from]).lastNotified
    decreases |polls|
  {
    if from == |polls| {
      assert polls[..from] == polls;
    } else {
      var n := |polls| - 1;
      forall k | from <= k < n
        ensures BatchAt(config, polls[..n], k) == []
      {
        BatchOfPrefix(config, polls, n, k);
      }
      SilenceKeepsCache(config, polls[..n], from);
      assert polls[..n][..from] == polls[..from];
      assert BatchAt(config, polls, n) == [];
    }
  }

  /** A device connecting after any run is sent the batch of the last poll that notified, whole, as
      long as less than the repeat interval has passed since and less than the time to live since
      that same poll's fetch began; otherwise nothing. */
  lemma ReplayIsLastBatch(config: Config, polls: seq<Outcome>, i: nat, now: int)
    requires LastNotifying(config, polls, i)
    ensures polls[i].Arrived?
    ensures Replay(config, MemoryAfter(config, polls), now) ==
            if now - polls[i].now < Minutes(config.notificationRepeatMinutes)
               && now - polls[i].fetchedAt < Minutes(config.dataStaleTtlMinutes)
            then BatchAt(config, polls, i) else []
  {
    SilenceKeepsCache(config, polls, i + 1);
    assert polls[..i + 1][..i] == polls[..i];
  }

  /** The same in minutes as they are configured. */
  lemma ReplayWhileFresh(config: Config, polls: seq<Outcome>, i: nat, now: int)
    requires LastNotifying(config, polls, i) && polls[i].Arrived?
    requires Representable(polls[i].fetchedAt) && Representable(polls[i].now) && Representable(now)
    ensures Replay(config, MemoryAfter(config, polls), now) ==
            if now - polls[i].now < config.notificationRepeatMinutes * 60_000_000_000
               && now - polls[i].fetchedAt < config.dataStaleTtlMinutes * 60_000_000_000
            then BatchAt(config, polls, i) else []
  {
    ReplayIsLastBatch(config, polls, i, now);
    MinutesMeans(polls[i].now, now, config.notificationRepeatMinutes);
    MinutesMeans(polls[i].fetchedAt, now, config.dataStaleTtlMinutes);
  }

  /** While no poll has notified, nothing is replayed. */
  lemma NothingToReplay(config: Config, polls: seq<Outcome>, now: int)
    requires Silent(config, polls, 0, |polls|)
    ensures Replay(config, MemoryAfter(config, polls), now) == []
  {
    SilenceKeepsCache(config, polls, 0);
  }
}
