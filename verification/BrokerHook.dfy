/** The broker hook: authentication, and the two maps of devices it keeps in step as sessions
    connect, take over, publish and disconnect. */
module BrokerHook {
  import opened ClientState
  import opened Wrappers

  /** What tells one network session of a client from another. */
  datatype SessionKey = SessionKey(createTime: int, remoteAddr: Option<string>)

  /** The current session of a client, and whether it has reported ready. */
  datatype Connection = Connection(session: SessionKey, ready: bool)

  /** The hook's map of connections and the registry's map of clients. Each function below is what
      one locked section does to them. */
  datatype Devices = Devices(connections: map<ClientId, Connection>, clients: map<ClientId, ClientState>) {

    predicate Current(id: ClientId, session: SessionKey) {
      id in connections && connections[id].session == session
    }

    function Inserted(id: ClientId, session: SessionKey): Devices {
      this.(connections := connections[id := Connection(session, false)])
    }

    function Registered(id: ClientId): Devices { this.(clients := clients[id := EMPTY]) }

    /** The connection is removed only by its own session. */
    function Removed(id: ClientId, session: SessionKey): Devices {
      if Current(id, session) then this.(connections := connections - {id}) else this
    }

    function Unregistered(id: ClientId): Devices { this.(clients := clients - {id}) }

    /** The session is current and has not reported ready before. */
    predicate BecomesReady(id: ClientId, session: SessionKey) {
      Current(id, session) && !connections[id].ready
    }

    function MarkedReady(id: ClientId, session: SessionKey): Devices {
      if BecomesReady(id, session) then this.(connections := connections[id := Connection(session, true)]) else this
    }

    function StatsStored(id: ClientId, stats: Option<Stats>): Devices {
      if stats.Some? then this.(clients := WithStats(clients, id, stats.value)) else this
    }

    function AppStored(id: ClientId, app: string): Devices { this.(clients := WithApp(clients, id, app)) }
  }

  /** The first stats of a session that has just connected make its device ready, and the next ones do
      not. */
  lemma FirstStatsMakeReady(d: Devices, id: ClientId, session: SessionKey, first: Option<Stats>, next: Option<Stats>)
    ensures var connected := d.Inserted(id, session).Registered(id).StatsStored(id, first);
            && connected.BecomesReady(id, session)
            && !connected.MarkedReady(id, session).StatsStored(id, next).BecomesReady(id, session)
  {
  }

  /** What a registered client publishes is what the registry then has of it, next to what it had; stats that
      cannot be read, and whatever an unregistered client publishes, are not stored. */
  lemma StoredAsPublished(d: Devices, id: ClientId, stats: Stats, app: string)
    ensures id in d.clients ==>
              && d.StatsStored(id, Some(stats)).clients[id] == ClientState(Some(stats), d.clients[id].currentApp)
              && d.AppStored(id, app).clients[id] == ClientState(d.clients[id].stats, app)
    ensures id !in d.clients ==> d.StatsStored(id, Some(stats)) == d && d.AppStored(id, app) == d
    ensures d.StatsStored(id, None) == d
    ensures forall c :: c in d.clients && c != id ==>
              d.StatsStored(id, Some(stats)).clients[c] == d.clients[c] == d.AppStored(id, app).clients[c]
  {
  }

  // ---- Routing ----

  datatype Route = StatsTopic | AppTopic | ButtonTopic(button: string) | OtherTopic

  predicate EndsWith(s: string, suffix: string) {
    |suffix| <= |s| && s[|s| - |suffix|..] == suffix
  }

  function RouteOf(topic: string): Route {
    if EndsWith(topic, "/stats") then StatsTopic
    else if EndsWith(topic, "/stat/currentApp") then AppTopic
    else if EndsWith(topic, "/button/left") then ButtonTopic("left")
    else if EndsWith(topic, "/button/select") then ButtonTopic("select")
    else if EndsWith(topic, "/button/right") then ButtonTopic("right")
    else OtherTopic
  }

  const ENDINGS: set<string> := {"/stats", "/stat/currentApp", "/button/left", "/button/select", "/button/right"}

  /** Topics are told apart by their endings alone, whatever comes before. */
  lemma RoutesByEnding(prefix: string, ending: string)
    requires ending in ENDINGS
    ensures RouteOf(prefix + ending) ==
              if ending == "/stats" then StatsTopic
              else if ending == "/stat/currentApp" then AppTopic
              else if ending == "/button/left" then ButtonTopic("left")
              else if ending == "/button/select" then ButtonTopic("select")
              else ButtonTopic("right")
  {
    assert EndsWith(prefix + ending, ending);
    OneEnding(prefix + ending, ending, "/stats");
    OneEnding(prefix + ending, ending, "/stat/currentApp");
    OneEnding(prefix + ending, ending, "/button/left");
    OneEnding(prefix + ending, ending, "/button/select");
  }

  lemma LastTwo(topic: string, ending: string)
    requires EndsWith(topic, ending) && |ending| >= 2
    ensures |topic| >= 2 && topic[|topic| - 1] == ending[|ending| - 1] && topic[|topic| - 2] == ending[|ending| - 2]
  {
    var tail := topic[|topic| - |ending|..];
    assert tail[|ending| - 1] == topic[|topic| - 1] && tail[|ending| - 2] == topic[|topic| - 2];
  }

  lemma OneEnding(topic: string, a: string, b: string)
    requires a in ENDINGS && b in ENDINGS && EndsWith(topic, a)
    ensures EndsWith(topic, b) <==> a == b
  {
    LastTwo(topic, a);
    if EndsWith(topic, b) {
      LastTwo(topic, b);
      EndingsDiffer(a, b);
    }
  }

  lemma EndingsDiffer(a: string, b: string)
    requires a in ENDINGS && b in ENDINGS
    requires |a| >= 2 && |b| >= 2 && a[|a| - 1] == b[|b| - 1] && a[|a| - 2] == b[|b| - 2]
    ensures a == b
  {
  }

  /** And a topic without one of these endings is left alone. */
  lemma RoutesNothingElse(topic: string)
    ensures RouteOf(topic) == OtherTopic <==>
            forall ending :: ending in ENDINGS ==> !EndsWith(topic, ending)
  {
  }

  // ---- The hook object ----

  /** What the hook reports to the program around it. */
  datatype Callback = OnConnected(id: ClientId) | OnDeviceReady(id: ClientId) | OnStateError

  datatype AuthResult = Allow | BadUsernameOrPassword | NotAuthorized

  class ControllerHook {
    const username: string
    const password: seq<bv8>
    const registry: Registry
    var closing: bool
    var connections: map<ClientId, Connection>
    var called: seq<Callback>

    ghost function Now(): Devices
      reads this, registry
    {
      Devices(connections, registry.clients)
    }

    constructor (username: string, password: seq<bv8>)
      ensures fresh(registry) && !closing
      ensures this.username == username && this.password == password
      ensures Now() == Devices(map[], map[]) && called == []
    {
      this.username := username;
      this.password := password;
      registry := new Registry();
      closing := false;
      connections := map[];
      called := [];
    }

    /** Allowed exactly when the broker is open and both credentials are given and match. */
    method Authenticate(username: Option<string>, password: Option<seq<bv8>>) returns (r: AuthResult)
      ensures r == Allow <==> !closing && username == Some(this.username) && password == Some(this.password)
      ensures r == NotAuthorized <==> closing
    {
      if closing {
        return NotAuthorized;
      }
      var usernameMatches := username == Some(this.username);
      var passwordMatches := password == Some(this.password);
      r := if usernameMatches && passwordMatches then Allow else BadUsernameOrPassword;
    }

    method Connected(id: ClientId, session: SessionKey)
      modifies this`connections, this`called, registry
      ensures Now() == old(Now()).Inserted(id, session).Registered(id)
      ensures connections == old(connections)[id := Connection(session, false)]
      ensures called == old(called) + [OnConnected(id)]
    {
      connections := connections[id := Connection(session, false)];
      registry.Register(id);
      called := called + [OnConnected(id)];
    }

    method Disconnected(id: ClientId, session: SessionKey)
      modifies this`connections, registry
      ensures Now() == if old(Now()).Current(id, session)
                       then old(Now()).Removed(id, session).Unregistered(id) else old(Now())
    {
      var current := id in connections && connections[id].session == session;
      if current {
        connections := connections - {id};
        registry.Unregister(id);
      }
    }

    /** Routes a publish; `stats` is the payload read as stats, if it can be. */
    method Published(id: ClientId, session: SessionKey, topic: string, stats: Option<Stats>, payload: string)
      modifies this`connections, this`called, registry
      ensures match RouteOf(topic)
              case StatsTopic =>
                && Now() == old(Now()).StatsStored(id, stats).MarkedReady(id, session)
                && called == old(called) +
                     if old(Now()).StatsStored(id, stats).BecomesReady(id, session) then [OnDeviceReady(id)] else []
              case AppTopic => Now() == old(Now()).AppStored(id, payload) && called == old(called)
              case _ => Now() == old(Now()) && called == old(called)
    {
      match RouteOf(topic)
      case StatsTopic =>
        if stats.Some? {
          registry.UpdateStats(id, stats.value);
        }
        var ready := MarkReady(id, session);
        if ready {
          called := called + [OnDeviceReady(id)];
        }
      case AppTopic =>
        registry.UpdateCurrentApp(id, payload);
      case _ =>
    }

    method MarkReady(id: ClientId, session: SessionKey) returns (ready: bool)
      modifies this`connections
      ensures ready == old(Now()).BecomesReady(id, session)
      ensures Now() == old(Now()).MarkedReady(id, session)
    {
      ready := id in connections && connections[id].session == session && !connections[id].ready;
      if ready {
        connections := connections[id := connections[id].(ready := true)];
      }
    }

    /** A critical failure closes the hook: from then on nobody is admitted. */
    method StateFailed()
      modifies this`closing, this`called
      ensures closing && called == old(called) + [OnStateError]
    {
      closing := true;
      called := called + [OnStateError];
    }
  }
}
