/** The service bundle: operations that move registry, ghosts, persisted rows, cluster registrations and
    offline queues together, the janitor's sweeps, the restore loop of a restart, and the login drain. */
module ServiceObjects {
  import opened Common
  import opened ClientRegistries
  import opened RegistryObjects
  import opened OfflineStores
  import RT = RegistryTheory
  import OT = OfflineTheory
  import HandOver
  import opened Bytes
  import ST = SessionTheory

  /** The persisted client rows, keyed by client id. */
  class ClientStateRepo {
    var tree: map<ClientId, ST.Row>

    constructor (rows: map<ClientId, ST.Row>)
      ensures tree == rows
    {
      tree := rows;
    }

    method Save(row: ST.Row)
      modifies this
      ensures tree == old(tree)[row.clientId := row]
    {
      tree := tree[row.clientId := row];
    }

    method Remove(clientId: ClientId)
      modifies this
      ensures tree == old(tree) - {clientId}
    {
      tree := tree - {clientId};
    }

    /** All rows, in some order, each once. */
    method LoadAll() returns (ghost keys: seq<ClientId>, out: seq<ST.Row>)
      ensures ST.Listing(tree, keys, out, {})
      ensures |out| == |tree| && forall id :: id in tree ==> tree[id] in out
    {
      keys, out := [], [];
      var todo := tree.Keys;
      while todo != {}
        invariant ST.Listing(tree, keys, out, todo)
        decreases |todo|
      {
        var k :| k in todo;
        ST.ListOneMore(tree, keys, out, todo, k);
        keys, out := keys + [k], out + [tree[k]];
        todo := todo - {k};
      }
      ST.ListingEnds(tree, keys, out);
    }

    method CollectExpired(now: nat) returns (expired: seq<ClientId>)
      ensures ST.Collecting(tree, expired, {}, now)
    {
      expired := [];
      var todo := tree.Keys;
      while todo != {}
        invariant ST.Collecting(tree, expired, todo, now)
        decreases |todo|
      {
        var k :| k in todo;
        ST.CollectOneMore(tree, expired, todo, now, k);
        if tree[k].ghostUntil < now {
          expired := expired + [k];
        }
        todo := todo - {k};
      }
    }

    /** Removes every row whose time is strictly past and returns their ids. */
    method TakeExpiredGhosts(now: nat) returns (expired: seq<ClientId>)
      modifies this
      ensures Elements(expired) == ST.ExpiredRows(old(tree), now)
      ensures tree == old(tree) - ST.ExpiredRows(old(tree), now)
    {
      expired := CollectExpired(now);
      for i := 0 to |expired|
        invariant tree == old(tree) - Elements(expired[..i])
      {
        TakeOneMore(expired, i);
        AppendElement(expired[..i], expired[i]);
        tree := tree - {expired[i]};
      }
      assert expired[..|expired|] == expired;
    }
  }

  class Services {
    const registry: ClientRegistry
    const stateStore: ClientStateRepo
    const offline: PersistenceStore
    const ghostTtl: nat
    var cluster: set<ClientId>

    ghost function State(): ST.Session
      reads this, registry, registry.id2client.Values, stateStore, offline
    {
      ST.Session(registry.State(), registry.ghosts, stateStore.tree, cluster, offline.State())
    }

    ghost predicate Valid()
      reads this, registry, registry.id2client.Values, stateStore, offline
    {
      registry.Rooted() && ST.Inv(State())
    }

    /** A start of the server over what is on disk: every persisted row comes back as a ghost. */
    constructor (rows: map<ClientId, ST.Row>, store: PersistenceStore, ghostTtl: nat)
      requires OT.Consistent(store.State()) && forall id :: id in rows ==> rows[id].clientId == id
      ensures Valid() && fresh(registry) && fresh(stateStore) && offline == store
      ensures State() == ST.Restart(rows, store.State())
    {
      registry := new ClientRegistry();
      stateStore := new ClientStateRepo(rows);
      offline := store;
      this.ghostTtl := ghostTtl;
      cluster := {};
      new;
      ST.RestartInv(rows, store.State());
      RestoreGhosts();
    }

    /** The restore loop: one ghost and one cluster registration per persisted row. */
    method RestoreGhosts()
      requires registry.ghosts == map[] && registry.id2client == map[] && cluster == {}
      requires forall id :: id in stateStore.tree ==> stateStore.tree[id].clientId == id
      modifies this, registry
      ensures registry.ghosts == ST.GhostsOf(stateStore.tree) && cluster == stateStore.tree.Keys
      ensures registry.id2client == old(registry.id2client) && registry.title2clients == old(registry.title2clients)
    {
      ghost var keys;
      var entries;
      keys, entries := stateStore.LoadAll();
      assert keys[..0] == [];
      for i := 0 to |entries|
        invariant ST.Restoring(stateStore.tree, keys, i, registry.ghosts, cluster)
        invariant registry.id2client == map[] && registry.title2clients == old(registry.title2clients)
      {
        var entry := entries[i];
        ST.RestoreOneMore(stateStore.tree, keys, entries, i, registry.ghosts, cluster);
        var r := registry.AddGhost(entry.clientId, entry.titles, entry.ghostUntil);
        if r.Added? {
          cluster := cluster + {entry.clientId};
        }
      }
      ST.RestoreEnds(stateStore.tree, keys, entries, registry.ghosts, cluster);
    }

    /** The registry's part of a login: claims any ghost and makes the client live. */
    method GoLive(client: RexClient)
      requires registry.Valid()
      modifies registry
      ensures registry.id2client == old(registry.id2client)[client.id := client]
      ensures State() == old(State()).(registry := RT.AddClient(old(registry.State()), client.id, client.titles),
                                       ghosts := old(registry.ghosts) - {client.id})
      ensures registry.Valid() <==> old(registry.CanAdd(client))
    {
      var claimed := registry.RemoveGhost(client.id);
      registry.AddClient(client);
    }

    /** The rest of it: the cluster registration and the persisted row. */
    method Persist(client: RexClient, now: nat)
      modifies this`cluster, stateStore
      ensures var row := ST.RowFor(client.id, client.titles, now, ghostTtl);
              State() == old(State()).(rows := old(stateStore.tree)[client.id := row],
                                       cluster := old(cluster) + {client.id})
    {
      cluster := cluster + {client.id};
      stateStore.Save(ST.RowFor(client.id, client.titles, now, ghostTtl));
    }

    /** Claims any ghost, then registers and persists the live client. */
    method AddClient(client: RexClient, now: nat)
      requires Valid()
      modifies this, registry, stateStore
      ensures Valid() <==> old(registry.CanAdd(client))
      ensures registry.id2client == old(registry.id2client)[client.id := client]
      ensures State() == ST.AddClient(old(State()), client.id, client.titles, now, ghostTtl)
    {
      ST.AddClientInv(State(), client.id, client.titles, now, ghostTtl);
      GoLive(client);
      Persist(client, now);
    }

    /** Takes back the cluster registration and the row. */
    method Forget(clientId: ClientId)
      modifies this`cluster, stateStore
      ensures State() == old(State()).(rows := old(stateStore.tree) - {clientId}, cluster := old(cluster) - {clientId})
    {
      cluster := cluster - {clientId};
      stateStore.Remove(clientId);
    }

    method RemoveClient(clientId: ClientId) returns (removed: Option<RexClient>)
      requires Valid()
      modifies this, registry, stateStore
      ensures Valid()
      ensures removed.Some? <==> clientId in old(registry.id2client)
      ensures State() == ST.RemoveClient(old(State()), clientId)
    {
      ghost var before := State();
      ST.RemoveClientInv(before, clientId);
      removed := registry.RemoveClient(clientId);
      assert State() == ST.DropInactive(before, clientId);
      if removed.Some? {
        Forget(clientId);
      }
    }

    /** Drops everything kept for clients whose row has expired. */
    method CleanupExpiredGhosts(now: nat)
      requires Valid()
      modifies this, registry`ghosts, stateStore, offline
      ensures Valid()
      ensures State() == ST.SweepGhosts(old(State()), now)
    {
      ghost var before := State();
      var expired := stateStore.TakeExpiredGhosts(now);
      ST.SweepBegins(before, now, expired);
      for i := 0 to |expired|
        invariant ST.Sweeping(before, now, expired, i, registry.ghosts, cluster, offline.State())
        invariant stateStore.tree == before.rows - ST.ExpiredRows(before.rows, now)
      {
        ST.SweepOneMore(before, now, expired, i, registry.ghosts, cluster, offline.State());
        var dropped := registry.RemoveGhost(expired[i]);
        cluster := cluster - {expired[i]};
        offline.ClearOfflineMessages(expired[i]);
      }
      ST.SweepEnds(before, now, expired, registry.ghosts, cluster, offline.State());
    }

    /** The inactivity sweep: takes the clients silent for longer than the timeout out of the registry. */
    method CleanupInactiveClients(timeout: nat, now: nat) returns (stale: seq<ClientId>)
      requires Valid()
      modifies registry
      ensures Valid()
      ensures NoDup(stale)
      ensures forall id :: id in stale <==>
                           id in old(registry.id2client) && now > old(registry.id2client[id].lastRecv) + timeout
      ensures State() == ST.Run(old(State()), InactiveOps(stale))
    {
      stale := registry.TakeInactive(timeout, now);
      ghost var before := State();
      for i := 0 to |stale|
        invariant Valid() && State() == ST.Run(before, InactiveOps(stale[..i]))
      {
        TakeOneMore(stale, i);
        OneMoreInactive(before, stale[..i], stale[i]);
        ST.RemoveClientInv(State(), stale[i]);
        var gone := registry.RemoveClient(stale[i]);
      }
      assert stale[..|stale|] == stale;
    }

    /** The drain at a new client's login: hands over the waiting messages, oldest first, and clears
        the queue if there were any. */
    method DrainOffline(clientId: ClientId, now: nat, utf8: string -> Buffer)
      returns (sent: seq<OT.Message>, packets: seq<Buffer>)
      requires Valid()
      modifies offline
      ensures Valid()
      ensures sent == OT.Unexpired(OT.Queue(old(offline.State()), clientId), now, MESSAGE_TTL)
      ensures forall m :: m in sent <==>
                m in OT.Queue(old(offline.State()), clientId) && now <= m.timestamp + MESSAGE_TTL
      ensures packets == HandOver.PacketsFor(sent, clientId, utf8)
      ensures |packets| == |sent|
      ensures forall i :: 0 <= i < |sent| ==> packets[i] == HandOver.PacketFor(sent[i], clientId, utf8)
      ensures offline.State() == if sent == [] then old(offline.State()) else OT.Clear(old(offline.State()), clientId)
    {
      ghost var before := State();
      sent := offline.GetOfflineMessages(clientId, now);
      packets := HandOver.SendEach(sent, clientId, utf8);
      if sent != [] {
        offline.ClearOfflineMessages(clientId);
        ST.DrainInv(before, clientId);
        assert registry.State() == before.registry;
        assert State() == before.(offline := OT.Clear(before.offline, clientId));
      }
    }
  }

  function InactiveOps(stale: seq<ClientId>): seq<ST.Op> {
    seq(|stale|, i requires 0 <= i < |stale| => ST.Inactive(stale[i]))
  }

  lemma OneMoreInactive(s: ST.Session, stale: seq<ClientId>, id: ClientId)
    ensures ST.Run(s, InactiveOps(stale + [id])) == ST.DropInactive(ST.Run(s, InactiveOps(stale)), id)
  {
    var ops := InactiveOps(stale + [id]);
    assert ops[..|ops| - 1] == InactiveOps(stale) && ops[|ops| - 1] == ST.Inactive(id);
  }
}
