/** The notification state of each event type across polls: when an event is notified again, and
    when it stops being active. */
module EventState {
  import opened Events
  import opened Forecast
  import opened Wrappers

  datatype EventState = EventState(
    active: bool,
    fingerprint: string,
    severity: Option<Severity>,
    lastSentAt: Option<int>,
    lastSeenAt: Option<int>,
    missingPolls: int)

  const INACTIVE := EventState(false, "", None, None, None, 0)

  /** The policy of a poll: how long before a repeat, and how many polls may miss an event. */
  datatype Policy = Policy(repeatInterval: int, inactiveAfter: int)

  /** No severity is below every severity. */
  predicate Above(a: Severity, b: Option<Severity>) { b.None? || a.Level() > b.value.Level() }

  predicate RepeatDue(lastSentAt: Option<int>, now: int, policy: Policy) {
    lastSentAt.None? || now - lastSentAt.value >= policy.repeatInterval
  }

  predicate ShouldNotify(s: EventState, c: Candidate, now: int, policy: Policy) {
    !s.active || Above(c.severity, s.severity) || c.fingerprint != s.fingerprint || RepeatDue(s.lastSentAt, now, policy)
  }

  /** The state of one event type after a successful poll that found `found`. */
  function Next(s: EventState, found: Option<Candidate>, now: int, policy: Policy): EventState {
    match found
    case Some(c) =>
      EventState(true, c.fingerprint, Some(c.severity),
                 if ShouldNotify(s, c, now, policy) then Some(now) else s.lastSentAt, Some(now), 0)
    case None =>
      if !s.active then s
      else if s.missingPolls + 1 >= policy.inactiveAfter then s.(active := false, missingPolls := 0)
      else s.(missingPolls := s.missingPolls + 1)
  }

  /** The last candidate of a type wins. */
  function LastOf(t: EventType, candidates: seq<Candidate>): Option<Candidate> {
    if candidates == [] then None
    else if candidates[|candidates| - 1].eventType == t then Some(candidates[|candidates| - 1])
    else LastOf(t, candidates[..|candidates| - 1])
  }

  /** The candidates to notify among the first `n` event types, in their order. */
  function ToNotify(n: nat, states: seq<EventState>, candidates: seq<Candidate>,
                    now: int, policy: Policy): seq<Candidate>
    requires n <= |ALL| == |states|
  {
    if n == 0 then []
    else
      var found := LastOf(ALL[n - 1], candidates);
      ToNotify(n - 1, states, candidates, now, policy)
      + if found.Some? && ShouldNotify(states[n - 1], found.value, now, policy) then [found.value] else []
  }

  /** What is notified is notified once, in the order of event types. */
  lemma {:induction false} NotifiedInTypeOrder(n: nat, states: seq<EventState>, candidates: seq<Candidate>,
                                               now: int, policy: Policy)
    requires n <= |ALL| == |states|
    ensures InTypeOrder(ToNotify(n, states, candidates, now, policy))
    ensures forall c :: c in ToNotify(n, states, candidates, now, policy) ==> c.eventType.Index() < n
  {
    if n > 0 {
      NotifiedInTypeOrder(n - 1, states, candidates, now, policy);
      IndexOfAll(n - 1);
      LastIsOfType(ALL[n - 1], candidates);
      var earlier, found := ToNotify(n - 1, states, candidates, now, policy), LastOf(ALL[n - 1], candidates);
      if found.Some? && ShouldNotify(states[n - 1], found.value, now, policy) {
        AppendInTypeOrder(earlier, found.value);
      } else {
        assert earlier + [] == earlier;
      }
    }
  }

  lemma {:induction false} LastIsOfType(t: EventType, candidates: seq<Candidate>)
    ensures LastOf(t, candidates).Some? ==> LastOf(t, candidates).value.eventType == t
  {
    if candidates != [] {
      LastIsOfType(t, candidates[..|candidates| - 1]);
    }
  }

  /** Of several candidates of a type the last one is taken. */
  lemma {:induction false} LastWins(before: seq<Candidate>, c: Candidate, after: seq<Candidate>)
    requires forall d :: d in after ==> d.eventType != c.eventType
    ensures LastOf(c.eventType, before + [c] + after) == Some(c)
  {
    var all := before + [c] + after;
    if after != [] {
      LastWins(before, c, after[..|after| - 1]);
      assert all[..|all| - 1] == before + [c] + after[..|after| - 1];
      assert all[|all| - 1] == after[|after| - 1] && after[|after| - 1] in after;
    }
  }

  /** The states of every event type, updated in place. */
  class StateManager {
    const states: array<EventState>

    constructor ()
      ensures fresh(states) && states.Length == |ALL|
      ensures forall i :: 0 <= i < |ALL| ==> states[i] == INACTIVE
    {
      states := new EventState[7](_ => INACTIVE);
    }

    method Find(t: EventType, candidates: seq<Candidate>) returns (found: Option<Candidate>)
      ensures found == LastOf(t, candidates)
    {
      var i := |candidates|;
      assert candidates[..i] == candidates;
      while i > 0
        invariant 0 <= i <= |candidates|
        invariant LastOf(t, candidates) == LastOf(t, candidates[..i])
      {
        i := i - 1;
        if candidates[i].eventType == t {
          return Some(candidates[i]);
        }
        assert candidates[..i + 1][..i] == candidates[..i];
      }
      return None;
    }

    /** Updates one event type in place; whether to notify it. */
    method Update(i: nat, found: Option<Candidate>, now: int, policy: Policy) returns (notify: bool)
      requires i < states.Length
      modifies states
      ensures states[..] == old(states[..])[i := Next(old(states[i]), found, now, policy)]
      ensures notify <==> found.Some? && ShouldNotify(old(states[i]), found.value, now, policy)
    {
      notify := false;
      match found
      case Some(c) =>
        states[i] := states[i].(missingPolls := 0, lastSeenAt := Some(now));
        notify := !states[i].active || Above(c.severity, states[i].severity)
          || c.fingerprint != states[i].fingerprint || RepeatDue(states[i].lastSentAt, now, policy);
        if notify {
          states[i] := states[i].(lastSentAt := Some(now));
        }
        states[i] := states[i].(active := true, fingerprint := c.fingerprint, severity := Some(c.severity));
      case None =>
        if states[i].active {
          states[i] := states[i].(missingPolls := states[i].missingPolls + 1);
          if states[i].missingPolls >= policy.inactiveAfter {
            states[i] := states[i].(active := false, missingPolls := 0);
          }
        }
    }

    /** Applies the candidates of one successful poll to every event type. */
    method Process(candidates: seq<Candidate>, now: int, policy: Policy) returns (toNotify: seq<Candidate>)
      requires states.Length == |ALL|
      modifies states
      ensures forall i :: 0 <= i < |ALL| ==> states[i] == Next(old(states[i]), LastOf(ALL[i], candidates), now, policy)
      ensures toNotify == ToNotify(|ALL|, old(states[..]), candidates, now, policy)
      ensures InTypeOrder(toNotify)
    {
      NotifiedInTypeOrder(|ALL|, states[..], candidates, now, policy);
      toNotify := [];
      ghost var before := states[..];
      var n := states.Length;
      for i := 0 to n
        invariant forall k :: 0 <= k < i ==> states[k] == Next(before[k], LastOf(ALL[k], candidates), now, policy)
        invariant forall k :: i <= k < n ==> states[k] == before[k]
        invariant toNotify == ToNotify(i, before, candidates, now, policy)
      {
        var found := Find(ALL[i], candidates);
        var notify := Update(i, found, now, policy);
        if notify {
          toNotify := toNotify + [found.value];
        }
      }
    }

    /** A failed fetch changes nothing. */
    method OnFetchFailure()
      ensures states[..] == old(states[..])
    {
    }
  }

  // ---- The state is a function of history ----

  /** A poll as one event type sees it. */
  datatype Poll = Succeeded(found: Option<Candidate>, now: int) | Failed

  function StateAfter(h: seq<Poll>, policy: Policy): EventState {
    if h == [] then INACTIVE
    else
      var before := StateAfter(h[..|h| - 1], policy);
      match h[|h| - 1]
      case Succeeded(found, now) => Next(before, found, now, policy)
      case Failed => before
  }

  datatype Sighting = Sighting(candidate: Candidate, now: int)

  /** The last successful poll that found the event. */
  function LastSighting(h: seq<Poll>): Option<Sighting> {
    if h == [] then None
    else match h[|h| - 1]
      case Succeeded(Some(c), now) => Some(Sighting(c, now))
      case _ => LastSighting(h[..|h| - 1])
  }

  /** How many successful polls have missed the event since it was last found. */
  function Misses(h: seq<Poll>): nat {
    if h == [] then 0
    else match h[|h| - 1]
      case Succeeded(Some(_), _) => 0
      case Succeeded(None, _) => Misses(h[..|h| - 1]) + 1
      case Failed => Misses(h[..|h| - 1])
  }

  /** Found at some time, and either found again since or missed by fewer polls than it takes. */
  predicate InForecast(h: seq<Poll>, policy: Policy) {
    LastSighting(h).Some? && (Misses(h) == 0 || Misses(h) < policy.inactiveAfter)
  }

  datatype Cause = New | Returned | Escalated | Changed | Repeated

  /** Whether history `h` gives a poll at `now` that found `c` a cause to notify. */
  ghost predicate Has(cause: Cause, h: seq<Poll>, c: Candidate, now: int, policy: Policy)
    decreases |h|, 1
  {
    var last := LastSighting(h);
    match cause
    case New => last.None?
    case Returned => last.Some? && !InForecast(h, policy)
    case Escalated => last.Some? && c.severity.Level() > last.value.candidate.severity.Level()
    case Changed => last.Some? && c.fingerprint != last.value.candidate.fingerprint
    case Repeated => LastSent(h, policy).Some? && now - LastSent(h, policy).value >= policy.repeatInterval
  }

  /** Whether poll `p` after history `h` notifies the event: it has a cause. */
  ghost predicate Notifies(h: seq<Poll>, p: Poll, policy: Policy)
    decreases |h|, 2
  {
    p.Succeeded? && p.found.Some? && exists cause :: Has(cause, h, p.found.value, p.now, policy)
  }

  /** When the event was last notified. */
  ghost function LastSent(h: seq<Poll>, policy: Policy): Option<int>
    decreases |h|, 0
  {
    if h == [] then None
    else
      var earlier := h[..|h| - 1];
      if Notifies(earlier, h[|h| - 1], policy) then Some(h[|h| - 1].now) else LastSent(earlier, policy)
  }

  /** The state that a history means. */
  ghost function Meaning(h: seq<Poll>, policy: Policy): EventState {
    var last := LastSighting(h);
    EventState(
      InForecast(h, policy),
      if last.Some? then last.value.candidate.fingerprint else "",
      if last.Some? then Some(last.value.candidate.severity) else None,
      LastSent(h, policy),
      if last.Some? then Some(last.value.now) else None,
      if InForecast(h, policy) then Misses(h) else 0)
  }

  /** Over any polls, successful or failed, the state is what the history means: active exactly
      while the event has been found and missed by fewer polls than it takes since, with the count
      of those misses; and the next poll notifies exactly when history gives it a cause. */
  lemma {:induction false} StateIsHistory(h: seq<Poll>, policy: Policy)
    ensures StateAfter(h, policy) == Meaning(h, policy)
  {
    if h != [] {
      var earlier, p := h[..|h| - 1], h[|h| - 1];
      StateIsHistory(earlier, policy);
      match p
      case Succeeded(Some(c), now) =>
        NotifiesByState(earlier, c, now, policy);
      case Succeeded(None, _) =>
        assert !Notifies(earlier, p, policy);
        assert LastSighting(h) == LastSighting(earlier);
        assert Misses(h) == Misses(earlier) + 1;
        assert LastSent(h, policy) == LastSent(earlier, policy);
      case Failed =>
        assert !Notifies(earlier, p, policy);
    }
  }

  /** In the state that a history means, the rule on the state is the causes of the history. */
  lemma NotifiesByState(h: seq<Poll>, c: Candidate, now: int, policy: Policy)
    ensures ShouldNotify(Meaning(h, policy), c, now, policy) <==> Notifies(h, Succeeded(Some(c), now), policy)
  {
    SentIffSeen(h, policy);
    if ShouldNotify(Meaning(h, policy), c, now, policy) {
      assert Has(New, h, c, now, policy) || Has(Returned, h, c, now, policy) || Has(Escalated, h, c, now, policy)
        || Has(Changed, h, c, now, policy) || Has(Repeated, h, c, now, policy);
    }
  }

  /** The first sighting is always notified. */
  lemma {:induction false} SentIffSeen(h: seq<Poll>, policy: Policy)
    ensures LastSent(h, policy).Some? <==> LastSighting(h).Some?
  {
    if h != [] {
      var earlier, p := h[..|h| - 1], h[|h| - 1];
      SentIffSeen(earlier, policy);
      if p.Succeeded? && p.found.Some? && LastSighting(earlier).None? {
        assert Has(New, earlier, p.found.value, p.now, policy);
      }
    }
  }

  ghost predicate NeverEarlier(h: seq<Poll>) {
    forall i, k :: 0 <= i < k < |h| && h[i].Succeeded? && h[k].Succeeded? ==> h[i].now <= h[k].now
  }

  lemma {:induction false} LastSentAfter(h: seq<Poll>, i: nat, policy: Policy)
    requires i < |h| && Notifies(h[..i], h[i], policy) && NeverEarlier(h)
    ensures LastSent(h, policy).Some? && h[i].now <= LastSent(h, policy).value
  {
    var earlier := h[..|h| - 1];
    if i < |earlier| {
      assert earlier[..i] == h[..i];
      LastSentAfter(earlier, i, policy);
    }
  }

  /** Two notifications of an event closer together than the repeat interval never happen without a
      cause other than repetition: since the event was last found it returned, escalated or changed. */
  lemma CloseNotificationsHaveCause(h: seq<Poll>, i: nat, k: nat, policy: Policy)
    requires i < k < |h| && NeverEarlier(h)
    requires Notifies(h[..i], h[i], policy) && Notifies(h[..k], h[k], policy)
    requires h[k].now - h[i].now < policy.repeatInterval
    ensures exists cause ::
              cause in {Returned, Escalated, Changed} && Has(cause, h[..k], h[k].found.value, h[k].now, policy)
  {
    assert h[..k][..i] == h[..i];
    LastSentAfter(h[..k], i, policy);
    SentIffSeen(h[..k], policy);
    var cause :| Has(cause, h[..k], h[k].found.value, h[k].now, policy);
    assert cause in {Returned, Escalated, Changed};
  }

  // ---- Histories fed by the detector ----

  /** Every candidate carries the fingerprint of its type, start and severity. */
  predicate FromDetector(h: seq<Poll>, t: EventType) {
    forall i :: 0 <= i < |h| && h[i].Succeeded? && h[i].found.Some? ==> Fingerprinted(h[i].found.value, t)
  }

  predicate Fingerprinted(c: Candidate, t: EventType) {
    c.eventType == t && c.fingerprint == Fingerprint(t, c.start, c.severity)
  }

  lemma {:induction false} SightingFingerprinted(h: seq<Poll>, t: EventType)
    requires FromDetector(h, t)
    ensures LastSighting(h).Some? ==> Fingerprinted(LastSighting(h).value.candidate, t)
  {
    if h != [] {
      SightingFingerprinted(h[..|h| - 1], t);
    }
  }

  /** Fed by the detector, an escalation always changes the fingerprint, so the escalation clause
      never decides alone. */
  lemma EscalationChangesFingerprint(h: seq<Poll>, c: Candidate, now: int, policy: Policy, t: EventType)
    requires FromDetector(h, t) && Fingerprinted(c, t)
    ensures Has(Escalated, h, c, now, policy) ==> Has(Changed, h, c, now, policy)
  {
    SightingFingerprinted(h, t);
    if LastSighting(h).Some? {
      var d := LastSighting(h).value.candidate;
      FingerprintInjective(t, c.start, c.severity, t, d.start, d.severity);
    }
  }
}
