/** The registry of connected devices: which are connected, their last stats and the app they
    show. */
module ClientState {
  import opened Wrappers

  type ClientId = string

  /** What a device reports about itself; its fields are not part of this model. */
  datatype Stats = Stats(payload: string)

  datatype ClientState = ClientState(stats: Option<Stats>, currentApp: string)

  const EMPTY := ClientState(None, "")

  /** The registry after some stats, or an app, arrive for a client; an unknown client is ignored. */
  function WithStats(clients: map<ClientId, ClientState>, id: ClientId, stats: Stats): (r: map<ClientId, ClientState>)
    ensures r.Keys == clients.Keys
    ensures forall c :: c in clients ==> r[c].currentApp == clients[c].currentApp
    ensures forall c :: c in clients ==> r[c].stats == if c == id then Some(stats) else clients[c].stats
  {
    if id in clients then clients[id := clients[id].(stats := Some(stats))] else clients
  }

  function WithApp(clients: map<ClientId, ClientState>, id: ClientId, app: string): (r: map<ClientId, ClientState>)
    ensures r.Keys == clients.Keys
    ensures forall c :: c in clients ==> r[c].stats == clients[c].stats
    ensures forall c :: c in clients ==> r[c].currentApp == if c == id then app else clients[c].currentApp
  {
    if id in clients then clients[id := clients[id].(currentApp := app)] else clients
  }

  // ---- Sorted IDs ----

  /** Lexicographic order. */
  predicate Before(a: string, b: string) {
    b != [] && (a == [] || a[0] < b[0] || (a[0] == b[0] && Before(a[1..], b[1..])))
  }

  lemma {:induction false} BeforeIsTotal(a: string, b: string)
    ensures a == b || Before(a, b) || Before(b, a)
    ensures !(Before(a, b) && Before(b, a)) && !Before(a, a)
  {
    if a != [] && b != [] {
      BeforeIsTotal(a[1..], b[1..]);
      BeforeIsTotal(a[1..], a[1..]);
      assert a == [a[0]] + a[1..] && b == [b[0]] + b[1..];
    } else if a != [] {
      BeforeIsTotal(a[1..], []);
      BeforeIsTotal(a[1..], a[1..]);
    }
  }

  lemma {:induction false} BeforeIsTransitive(a: string, b: string, c: string)
    requires Before(a, b) && Before(b, c)
    ensures Before(a, c)
  {
    if a != [] && a[0] == b[0] == c[0] {
      BeforeIsTransitive(a[1..], b[1..], c[1..]);
    }
  }

  /** Strictly ascending, so without repetition. */
  ghost predicate Ascending(ids: seq<ClientId>) {
    forall i, k :: 0 <= i < k < |ids| ==> Before(ids[i], ids[k])
  }

  /** Where `id` belongs among ascending IDs that do not contain it. */
  method Place(ids: seq<ClientId>, id: ClientId) returns (i: nat)
    requires Ascending(ids) && id !in ids
    ensures i <= |ids|
    ensures forall k :: 0 <= k < i ==> Before(ids[k], id)
    ensures forall k :: i <= k < |ids| ==> Before(id, ids[k])
  {
    i := 0;
    while i < |ids| && Before(ids[i], id)
      invariant i <= |ids|
      invariant forall k :: 0 <= k < i ==> Before(ids[k], id)
    {
      i := i + 1;
    }
    if i < |ids| {
      BeforeIsTotal(ids[i], id);
      forall k | i < k < |ids|
        ensures Before(id, ids[k])
      {
        BeforeIsTransitive(id, ids[i], ids[k]);
      }
    }
  }

  lemma InsertedAscending(ids: seq<ClientId>, id: ClientId, i: nat)
    requires Ascending(ids) && i <= |ids|
    requires forall k :: 0 <= k < i ==> Before(ids[k], id)
    requires forall k :: i <= k < |ids| ==> Before(id, ids[k])
    ensures Ascending(ids[..i] + [id] + ids[i..])
    ensures forall x :: x in ids[..i] + [id] + ids[i..] <==> x in ids || x == id
  {
    assert ids == ids[..i] + ids[i..];
  }

  /** The connected devices by client ID. */
  class Registry {
    var clients: map<ClientId, ClientState>

    constructor ()
      ensures clients == map[]
    {
      clients := map[];
    }

    /** Adds a client with an empty state, replacing any state it had. */
    method Register(id: ClientId)
      modifies this
      ensures clients == old(clients)[id := EMPTY]
    {
      clients := clients[id := EMPTY];
    }

    method Unregister(id: ClientId)
      modifies this
      ensures clients == old(clients) - {id}
    {
      clients := clients - {id};
    }

    method UpdateStats(id: ClientId, stats: Stats)
      modifies this
      ensures clients == WithStats(old(clients), id, stats)
    {
      if id in clients {
        clients := clients[id := clients[id].(stats := Some(stats))];
      }
    }

    method UpdateCurrentApp(id: ClientId, app: string)
      modifies this
      ensures clients == WithApp(old(clients), id, app)
    {
      if id in clients {
        clients := clients[id := clients[id].(currentApp := app)];
      }
    }

    /** The registered IDs, each once, in order. */
    method ConnectedIds() returns (ids: seq<ClientId>)
      ensures Ascending(ids)
      ensures forall id :: id in ids <==> id in clients
    {
      ids := [];
      var left := clients.Keys;
      while left != {}
        invariant left <= clients.Keys
        invariant Ascending(ids)
        invariant forall id :: id in ids <==> id in clients && id !in left
      {
        var id :| id in left;
        var i := Place(ids, id);
        InsertedAscending(ids, id, i);
        ids := ids[..i] + [id] + ids[i..];
        left := left - {id};
      }
    }
  }
}
