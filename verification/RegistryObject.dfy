/** The registry object: live clients by id, subscribers by title, and ghosts of earlier sessions. */
module RegistryObjects {
  import opened Common
  import opened ClientRegistries
  import RT = RegistryTheory

  type Ghost = RT.Ghost

  datatype AddGhostResult = Added | DuplicateLive | DuplicateGhost

  class ClientRegistry {
    var id2client: ClientMap
    var title2clients: TitleMap
    var ghosts: map<ClientId, Ghost>

    ghost function State(): RT.Registry
      reads this, id2client.Values
    {
      RT.Registry(ListsOf(id2client), IndexIds(title2clients))
    }

    /** Keys are the clients' own ids and the index points at live clients. */
    ghost predicate Rooted()
      reads this
    {
      (forall id :: id in id2client ==> id2client[id].id == id) && Linked(title2clients, id2client)
    }

    ghost predicate Valid()
      reads this, id2client.Values
    {
      Rooted() && RT.Agrees(State())
    }

    constructor ()
      ensures Valid() && State() == RT.EMPTY && id2client == map[] && ghosts == map[]
    {
      id2client, title2clients, ghosts := map[], map[], map[];
    }

    /** What keeps the registry in order: clean titles, and no earlier object with that id under any title. */
    ghost predicate CanAdd(client: RexClient)
      reads this, client, id2client.Values
    {
      && (forall t :: t in client.titles ==> RT.Clean(t))
      && (client.id in id2client ==> id2client[client.id] == client || id2client[client.id].titles == [])
    }

    method AddClient(client: RexClient)
      requires Valid()
      modifies this
      ensures id2client == old(id2client)[client.id := client] && ghosts == old(ghosts)
      ensures State() == RT.AddClient(old(State()), client.id, client.titles)
      ensures Valid() <==> old(CanAdd(client))
    {
      ghost var before := State();
      var live := id2client[client.id := client];
      var ts := client.titles;
      var m := PushAll(title2clients, ts, client);
      AddedInOrder(title2clients, m, id2client, client, before, ts);
      ListsOfInsert(id2client, client);
      id2client, title2clients := live, m;
      assert State() == RT.AddClient(before, client.id, ts);
    }

    method RemoveClient(clientId: ClientId) returns (removed: Option<RexClient>)
      requires Valid()
      modifies this
      ensures Valid() && ghosts == old(ghosts)
      ensures removed == if clientId in old(id2client) then Some(old(id2client)[clientId]) else None
      ensures id2client == old(id2client) - {clientId}
      ensures State() == RT.RemoveClient(old(State()), clientId)
    {
      ghost var before := State();
      if clientId !in id2client {
        assert id2client - {clientId} == id2client;
        return None;
      }
      var client := id2client[clientId];
      var m := DropAll(title2clients, id2client, client.titles, clientId);
      RT.RemoveClientAgrees(before, clientId);
      GoneFromIndex(before, clientId, m);
      UnlinkedAfterDrop(m, id2client, clientId);
      id2client, title2clients := id2client - {clientId}, m;
      assert ListsOf(id2client) == before.clients - {clientId};
      return Some(client);
    }

    /** Agreement survives exactly when the title is clean, or the client is not live. */
    method RegisterTitle(clientId: ClientId, title: Title)
      requires Valid()
      modifies this, id2client.Values
      ensures Rooted() && id2client == old(id2client) && ghosts == old(ghosts)
      ensures State() == RT.RegisterTitle(old(State()), clientId, title)
      ensures Valid() <==> (clientId in id2client ==> RT.Clean(title))
    {
      ghost var before := State();
      RT.RegisterTitleAgreesExactly(before, clientId, title);
      if clientId !in id2client {
        return;
      }
      var client := id2client[clientId];
      client.InsertTitle(title);
      PushIds(title2clients, title, client);
      PushLinked(title2clients, id2client, title, client);
      title2clients := Push(title2clients, title, client);
      assert ListsOf(id2client) == before.clients[clientId := RT.InsertTitle(before.clients[clientId], title)];
    }

    method UnregisterTitle(clientId: ClientId, title: Title)
      requires Valid()
      modifies this, id2client.Values
      ensures Valid() && id2client == old(id2client) && ghosts == old(ghosts)
      ensures State() == RT.UnregisterTitle(old(State()), clientId, title)
    {
      ghost var before := State();
      RT.UnregisterTitleAgrees(before, clientId, title);
      if clientId !in id2client {
        return;
      }
      var client := id2client[clientId];
      client.RemoveTitle(title);
      DropIds(title2clients, title, clientId);
      DropLinked(title2clients, id2client, title, clientId);
      title2clients := Drop(title2clients, title, clientId);
      assert ListsOf(id2client) == before.clients[clientId := Delete(before.clients[clientId], title)];
    }

    method FindAllByTitle(title: Title, exclude: Option<ClientId>) returns (r: seq<RexClient>)
      requires Valid()
      ensures IdsOf(r) == RT.FindAllByTitle(State(), title, exclude)
      ensures NoDup(IdsOf(r))
      ensures forall id :: id in IdsOf(r) <==>
                           id in id2client && title in id2client[id].titles && exclude != Some(id)
    {
      r := FilterOut(Listed(title2clients, title), exclude);
      assert IdsOf([]) == [];
      assert IdsOf(Listed(title2clients, title)) == RT.Subscribers(State().index, title);
      RT.FindAllByTitleExact(State(), title, exclude, 0);
      forall id ensures id in IdsOf(r) <==>
                        id in id2client && title in id2client[id].titles && exclude != Some(id) {
        RT.FindAllByTitleExact(State(), title, exclude, id);
      }
    }

    /** Live clients silent for longer than the timeout, each once; nobody is removed. */
    method TakeInactive(timeout: nat, now: nat) returns (stale: seq<ClientId>)
      ensures NoDup(stale)
      ensures forall id :: id in stale <==> id in id2client && now > id2client[id].lastRecv + timeout
    {
      stale := [];
      var todo := id2client.Keys;
      while todo != {}
        invariant NoDup(stale) && todo <= id2client.Keys
        invariant forall id :: id in stale <==>
                               id in id2client && id !in todo && now > id2client[id].lastRecv + timeout
        decreases |todo|
      {
        var id :| id in todo;
        var silence := if now > id2client[id].lastRecv then now - id2client[id].lastRecv else 0;
        if silence > timeout {
          AppendNoDup(stale, id);
          stale := stale + [id];
        }
        todo := todo - {id};
      }
    }

    /** The gauge kept by the index. */
    method TitleCount() returns (n: nat)
      requires Valid()
      ensures n == |RT.TitlesInUse(State().clients)|
    {
      n := |title2clients|;
      RT.TitleCountsAgree(State());
      assert title2clients.Keys == State().index.Keys;
      assert |title2clients| == |title2clients.Keys|;
    }

    /** The gauge computed by the observability adapter: distinct titles over client snapshots. */
    method TitleCountFromSnapshots() returns (n: nat)
      ensures n == |RT.TitlesInUse(State().clients)|
    {
      var titles: set<Title> := {};
      var todo := id2client.Keys;
      while todo != {}
        invariant todo <= id2client.Keys
        invariant titles == RT.TitlesInUse(ListsOf(id2client) - todo)
        decreases |todo|
      {
        var id :| id in todo;
        titles := AddTitles(titles, id2client[id].titles);
        TitlesOfOneMore(ListsOf(id2client), todo, id);
        todo := todo - {id};
      }
      assert ListsOf(id2client) - {} == ListsOf(id2client);
      n := |titles|;
    }

    /* ---------------- ghosts ---------------- */

    method AddGhost(clientId: ClientId, titles: seq<Title>, until: nat) returns (r: AddGhostResult)
      modifies this`ghosts
      ensures r == if clientId in id2client then DuplicateLive
                   else if clientId in old(ghosts) then DuplicateGhost else Added
      ensures ghosts == if r.Added? then old(ghosts)[clientId := RT.Ghost(titles, until)] else old(ghosts)
    {
      if clientId in id2client {
        return DuplicateLive;
      }
      if clientId in ghosts {
        return DuplicateGhost;
      }
      ghosts := ghosts[clientId := RT.Ghost(titles, until)];
      return Added;
    }

    /** Used both to claim a ghost at login and to drop an expired one. */
    method RemoveGhost(clientId: ClientId) returns (dropped: bool)
      modifies this`ghosts
      ensures dropped <==> clientId in old(ghosts)
      ensures ghosts == old(ghosts) - {clientId}
    {
      dropped := clientId in ghosts;
      ghosts := ghosts - {clientId};
    }
  }

  method PushAll(m: TitleMap, ts: seq<Title>, client: RexClient) returns (m': TitleMap)
    ensures Pushed(m, m', ts, client)
  {
    m' := m;
    for i := 0 to |ts|
      invariant Pushed(m, m', ts[..i], client)
    {
      TakeOneMore(ts, i);
      PushMore(m, m', ts[..i], ts[i], client);
      m' := Push(m', ts[i], client);
    }
    assert ts[..|ts|] == ts;
  }

  /** Index and lists stay in order after an addition exactly when the titles are clean and the index holds no other
      object with that id. */
  lemma AddedInOrder(m: TitleMap, m': TitleMap, live: ClientMap, client: RexClient, r: RT.Registry, ts: seq<Title>)
    requires RT.Agrees(r) && r.index == IndexIds(m) && r.clients.Keys == live.Keys && Linked(m, live)
    requires Pushed(m, m', ts, client)
    requires client.id in live && live[client.id] == client ==> r.clients[client.id] == ts
    ensures Linked(m', live[client.id := client]) && RT.Agrees(RT.AddClient(r, client.id, ts)) <==>
            (forall t :: t in ts ==> RT.Clean(t)) &&
            (client.id in live ==> live[client.id] == client || r.clients[client.id] == [])
  {
    LinkedAfterPush(m, m', live[client.id := client], ts, client);
    LinkedAfterInsert(m, live, client);
    RT.AddClientAgreesExactly(r, client.id, ts);
    if client.id in live { NotIndexed(r, m, client.id); }
  }

  /** A live client without titles is exactly one no index entry names. */
  lemma NotIndexed(r: RT.Registry, m: TitleMap, id: ClientId)
    requires RT.Agrees(r) && r.index == IndexIds(m) && id in r.clients
    ensures r.clients[id] == [] <==> forall t :: t in m ==> id !in IdsOf(m[t])
  {
    if r.clients[id] != [] {
      var t := r.clients[id][0];
      assert RT.Subscribed(r, id, t);
      assert t in r.index && r.index[t] == IdsOf(m[t]);
    } else {
      forall t | t in m ensures id !in IdsOf(m[t]) {
        assert t in r.index && r.index[t] == IdsOf(m[t]);
        assert !RT.Subscribed(r, id, t);
      }
    }
  }

  method DropAll(m: TitleMap, live: ClientMap, ts: seq<Title>, id: ClientId) returns (m': TitleMap)
    requires Linked(m, live)
    ensures Linked(m', live) && IndexIds(m') == RT.IndexDropAll(IndexIds(m), ts, id)
  {
    m' := m;
    for i := 0 to |ts|
      invariant Dropped(m, m', live, ts[..i], id)
    {
      TakeOneMore(ts, i);
      DropMore(m, m', live, ts[..i], ts[i], id);
      m' := Drop(m', ts[i], id);
    }
    assert ts[..|ts|] == ts;
  }

  lemma GoneFromIndex(r: RT.Registry, id: ClientId, m: TitleMap)
    requires RT.Agrees(r) && id in r.clients && IndexIds(m) == RT.IndexDropAll(r.index, r.clients[id], id)
    ensures forall t :: t in m ==> id !in IdsOf(m[t])
  {
    RT.IndexDropAllEffect(r.index, r.clients[id], id);
    forall t | t in m ensures id !in IdsOf(m[t]) {
      assert IdsOf(m[t]) == RT.Subscribers(IndexIds(m), t);
      assert RT.Subscribed(r, id, t) <==> id in RT.Subscribers(r.index, t);
    }
  }

  method FilterOut(cs: seq<RexClient>, exclude: Option<ClientId>) returns (r: seq<RexClient>)
    ensures IdsOf(r) == if exclude.None? then IdsOf(cs) else Delete(IdsOf(cs), exclude.value)
  {
    r := [];
    ghost var ids := IdsOf(cs);
    for i := 0 to |cs|
      invariant IdsOf(r) == if exclude.None? then ids[..i] else Delete(ids[..i], exclude.value)
    {
      TakeOneMore(ids, i);
      assert (ids[..i] + [ids[i]])[..i] == ids[..i];
      if exclude != Some(cs[i].id) {
        assert IdsOf(r + [cs[i]]) == IdsOf(r) + [cs[i].id];
        r := r + [cs[i]];
      }
    }
    assert ids[..|cs|] == ids;
  }

  method AddTitles(titles: set<Title>, ts: seq<Title>) returns (r: set<Title>)
    ensures r == titles + Elements(ts)
  {
    r := titles;
    for i := 0 to |ts|
      invariant r == titles + Elements(ts[..i])
    {
      TakeOneMore(ts, i);
      AppendElement(ts[..i], ts[i]);
      r := r + {ts[i]};
    }
    assert ts[..|ts|] == ts;
  }

  lemma TitlesOfOneMore(lists: map<ClientId, seq<Title>>, todo: set<ClientId>, id: ClientId)
    requires todo <= lists.Keys && id in todo
    ensures RT.TitlesInUse(lists - (todo - {id})) == RT.TitlesInUse(lists - todo) + Elements(lists[id])
  {
    var a, b := lists - todo, lists - (todo - {id});
    forall t | t in RT.TitlesInUse(b) ensures t in RT.TitlesInUse(a) + Elements(lists[id]) {
      var x :| x in b && t in b[x];
      if x != id { assert x in a && t in a[x]; }
    }
    forall t | t in RT.TitlesInUse(a) + Elements(lists[id]) ensures t in RT.TitlesInUse(b) {
      if t in lists[id] {
        assert id in b && t in b[id];
      } else {
        var x :| x in a && t in a[x];
        assert x in b && t in b[x];
      }
    }
  }
}
