/** The session life cycle on values: live clients, ghosts restored after a restart, persisted rows,
    cluster registrations and offline queues, moved together by whole operations. */
module SessionTheory {
  import opened Common
  import RT = RegistryTheory
  import OT = OfflineTheory
  type Title = RT.Title
  type Ghost = RT.Ghost

  const U64_MAX: nat := 0xFFFF_FFFF_FFFF_FFFF

  datatype Row = Row(clientId: ClientId, titles: seq<Title>, createdAt: nat, ghostUntil: nat)

  datatype Session = Session(
    registry: RT.Registry,
    ghosts: map<ClientId, Ghost>,
    rows: map<ClientId, Row>,
    cluster: set<ClientId>,
    offline: OT.Trees)

  function SaturatingAdd(a: nat, b: nat): nat {
    if a + b > U64_MAX then U64_MAX else a + b
  }

  /* ---------------- the operations ---------------- */

  function GhostsOf(rows: map<ClientId, Row>): map<ClientId, Ghost> {
    map id | id in rows :: RT.Ghost(rows[id].titles, rows[id].ghostUntil)
  }

  /** A restart forgets everything in memory and restores every persisted row as a ghost. */
  function Restart(rows: map<ClientId, Row>, offline: OT.Trees): Session {
    Session(RT.EMPTY, GhostsOf(rows), rows, rows.Keys, offline)
  }

  function RowFor(id: ClientId, titles: seq<Title>, now: nat, ghostTtl: nat): Row {
    Row(id, titles, now, SaturatingAdd(now, ghostTtl))
  }

  function AddClient(s: Session, id: ClientId, titles: seq<Title>, now: nat, ghostTtl: nat): Session {
    s.(registry := RT.AddClient(s.registry, id, titles),
       ghosts := s.ghosts - {id},
       rows := s.rows[id := RowFor(id, titles, now, ghostTtl)],
       cluster := s.cluster + {id})
  }

  function RemoveClient(s: Session, id: ClientId): Session {
    if id !in s.registry.clients then s
    else s.(registry := RT.RemoveClient(s.registry, id), rows := s.rows - {id}, cluster := s.cluster - {id})
  }

  /** Ids whose row has expired, whether or not the client is live. */
  function ExpiredRows(rows: map<ClientId, Row>, now: nat): set<ClientId> {
    set id | id in rows && rows[id].ghostUntil < now
  }

  /** Clearing the queues of several clients. */
  function ClearAll(t: OT.Trees, cs: set<ClientId>): OT.Trees {
    OT.Trees(t.index - cs, map id | id in t.queue && t.queue[id].clientId !in cs :: t.queue[id])
  }

  function SweepGhosts(s: Session, now: nat): Session {
    var expired := ExpiredRows(s.rows, now);
    s.(ghosts := s.ghosts - expired, rows := s.rows - expired, cluster := s.cluster - expired,
       offline := ClearAll(s.offline, expired))
  }

  /** The inactivity sweep takes a client out of the registry only. */
  function DropInactive(s: Session, id: ClientId): Session {
    s.(registry := RT.RemoveClient(s.registry, id))
  }

  /* ---------------- the invariant ---------------- */

  /** A ghost is backed by a persisted row with the same titles and expiry. */
  ghost predicate Backed(s: Session, id: ClientId)
    requires id in s.ghosts
  {
    id in s.rows && s.rows[id].titles == s.ghosts[id].titles && s.rows[id].ghostUntil == s.ghosts[id].until
  }

  /** What ties live clients, ghosts, rows and registrations together; the title lists play no part in it. */
  ghost predicate Tied(s: Session) {
    && OT.Consistent(s.offline)
    && s.registry.clients.Keys !! s.ghosts.Keys
    && s.ghosts.Keys <= s.cluster
    && (forall id :: id in s.ghosts ==> Backed(s, id))
    && (forall id :: id in s.rows ==> s.rows[id].clientId == id)
  }

  ghost predicate Inv(s: Session) {
    RT.Agrees(s.registry) && Tied(s)
  }

  ghost predicate Allowed(s: Session, op: Op) {
    match op
    case Add(id, titles, _, _) => RT.CanAdd(s.registry, id, titles)
    case Register(id, t) => id in s.registry.clients ==> RT.Clean(t)
    case _ => true
  }

  datatype Op =
    | Add(id: ClientId, titles: seq<Title>, now: nat, ghostTtl: nat)
    | Remove(id: ClientId)
    | Register(id: ClientId, t: Title)
    | Unregister(id: ClientId, t: Title)
    | Sweep(now: nat)
    | Inactive(id: ClientId)
    | Crash

  function Step(s: Session, op: Op): Session {
    match op
    case Add(id, titles, now, ghostTtl) => AddClient(s, id, titles, now, ghostTtl)
    case Remove(id) => RemoveClient(s, id)
    case Register(id, t) => s.(registry := RT.RegisterTitle(s.registry, id, t))
    case Unregister(id, t) => s.(registry := RT.UnregisterTitle(s.registry, id, t))
    case Sweep(now) => SweepGhosts(s, now)
    case Inactive(id) => DropInactive(s, id)
    case Crash => Restart(s.rows, s.offline)
  }

  lemma RestartInv(rows: map<ClientId, Row>, offline: OT.Trees)
    requires OT.Consistent(offline) && forall id :: id in rows ==> rows[id].clientId == id
    ensures Inv(Restart(rows, offline))
  {}

  /** Another registry with the same live ids is tied to the rest in the same way. */
  lemma SameClientsTied(s: Session, r: RT.Registry)
    requires Tied(s) && r.clients.Keys == s.registry.clients.Keys
    ensures Tied(s.(registry := r))
  {
    forall g | g in s.ghosts ensures Backed(s.(registry := r), g) { assert Backed(s, g); }
  }

  lemma AddClientTied(s: Session, id: ClientId, titles: seq<Title>, now: nat, ghostTtl: nat)
    requires Tied(s)
    ensures Tied(AddClient(s, id, titles, now, ghostTtl))
  {
    var s' := AddClient(s, id, titles, now, ghostTtl);
    forall g | g in s'.ghosts ensures Backed(s', g) { assert Backed(s, g); }
  }

  lemma RemoveClientTied(s: Session, id: ClientId)
    requires Tied(s)
    ensures Tied(RemoveClient(s, id)) && Tied(DropInactive(s, id))
  {
    forall g | g in s.ghosts ensures Backed(RemoveClient(s, id), g) && Backed(DropInactive(s, id), g) {
      assert Backed(s, g);
    }
  }

  /** An addition keeps the invariant exactly when it keeps the registry in agreement. */
  lemma AddClientInv(s: Session, id: ClientId, titles: seq<Title>, now: nat, ghostTtl: nat)
    requires Inv(s)
    ensures Inv(AddClient(s, id, titles, now, ghostTtl)) <==> RT.Agrees(RT.AddClient(s.registry, id, titles))
  {
    AddClientTied(s, id, titles, now, ghostTtl);
  }

  lemma RemoveClientInv(s: Session, id: ClientId)
    requires Inv(s)
    ensures Inv(RemoveClient(s, id)) && Inv(DropInactive(s, id))
  {
    RT.RemoveClientAgrees(s.registry, id);
    RemoveClientTied(s, id);
  }

  lemma ClearAllConsistent(t: OT.Trees, cs: set<ClientId>)
    requires OT.Consistent(t)
    ensures OT.Consistent(ClearAll(t, cs))
  {
    var t' := ClearAll(t, cs);
    forall c | c in t'.index ensures OT.Owned(t'.queue, c, t'.index[c]) {
      assert OT.Owned(t.queue, c, t.index[c]);
    }
    forall id | id in t'.queue ensures OT.RowIndexed(t', id) {
      assert OT.RowIndexed(t, id);
    }
  }

  lemma SweepTied(s: Session, now: nat)
    requires Tied(s)
    ensures Tied(SweepGhosts(s, now))
  {
    var s' := SweepGhosts(s, now);
    ClearAllConsistent(s.offline, ExpiredRows(s.rows, now));
    forall g | g in s'.ghosts ensures Backed(s', g) { assert Backed(s, g); }
  }

  /** Right after a sweep no row and no ghost is past its time, and no queue of a swept client is left. */
  lemma SweepLeavesNothingExpired(s: Session, now: nat, id: ClientId)
    requires Tied(s)
    ensures var s' := SweepGhosts(s, now);
            && (id in s'.rows ==> s'.rows[id].ghostUntil >= now)
            && (id in s'.ghosts ==> s'.ghosts[id].until >= now)
            && (id in ExpiredRows(s.rows, now) ==> OT.Queue(s'.offline, id) == [])
            && (id !in ExpiredRows(s.rows, now) ==> OT.Queue(s'.offline, id) == OT.Queue(s.offline, id))
  {
    var s' := SweepGhosts(s, now);
    SweepTied(s, now);
    if id in s'.ghosts { assert Backed(s', id); }
    if id !in ExpiredRows(s.rows, now) {
      OT.OwnedIds(s.offline, id);
      OT.RowsFrame(s.offline.queue, s'.offline.queue, OT.Ids(s.offline, id));
    }
  }

  lemma StepTied(s: Session, op: Op)
    requires Tied(s)
    ensures Tied(Step(s, op))
  {
    match op {
      case Add(id, titles, now, ghostTtl) => AddClientTied(s, id, titles, now, ghostTtl);
      case Remove(id) => RemoveClientTied(s, id);
      case Register(id, t) => SameClientsTied(s, RT.RegisterTitle(s.registry, id, t));
      case Unregister(id, t) => SameClientsTied(s, RT.UnregisterTitle(s.registry, id, t));
      case Sweep(now) => SweepTied(s, now);
      case Inactive(id) => RemoveClientTied(s, id);
      case Crash => RestartInv(s.rows, s.offline);
    }
  }

  lemma StepAgrees(s: Session, op: Op)
    requires RT.Agrees(s.registry) && Allowed(s, op)
    ensures RT.Agrees(Step(s, op).registry)
  {
    match op {
      case Add(id, titles, _, _) => RT.AddClientAgrees(s.registry, id, titles);
      case Remove(id) => RT.RemoveClientAgrees(s.registry, id);
      case Register(id, t) => RT.RegisterTitleAgreesExactly(s.registry, id, t);
      case Unregister(id, t) => RT.UnregisterTitleAgrees(s.registry, id, t);
      case Inactive(id) => RT.RemoveClientAgrees(s.registry, id);
      case _ =>
    }
  }

  function Run(s: Session, ops: seq<Op>): Session {
    if ops == [] then s else Step(Run(s, ops[..|ops| - 1]), ops[|ops| - 1])
  }

  ghost predicate AllowedRun(s: Session, ops: seq<Op>) {
    ops == [] || (AllowedRun(s, ops[..|ops| - 1]) && Allowed(Run(s, ops[..|ops| - 1]), ops[|ops| - 1]))
  }

  /** From a restart onward, through any operations with any titles, sweeps and further restarts: live and ghost ids
      are disjoint, and every ghost is backed by its row and registered in the cluster. */
  lemma {:induction false} EveryRunStaysTied(rows: map<ClientId, Row>, offline: OT.Trees, ops: seq<Op>)
    requires OT.Consistent(offline) && forall id :: id in rows ==> rows[id].clientId == id
    ensures Tied(Run(Restart(rows, offline), ops))
  {
    if ops == [] {
      RestartInv(rows, offline);
    } else {
      EveryRunStaysTied(rows, offline, ops[..|ops| - 1]);
      StepTied(Run(Restart(rows, offline), ops[..|ops| - 1]), ops[|ops| - 1]);
    }
  }

  lemma {:induction false} EveryRunAgrees(rows: map<ClientId, Row>, offline: OT.Trees, ops: seq<Op>)
    requires AllowedRun(Restart(rows, offline), ops)
    ensures RT.Agrees(Run(Restart(rows, offline), ops).registry)
  {
    if ops != [] {
      EveryRunAgrees(rows, offline, ops[..|ops| - 1]);
      StepAgrees(Run(Restart(rows, offline), ops[..|ops| - 1]), ops[|ops| - 1]);
    }
  }

  /** If the titles are clean too, the title index agrees with the clients' lists throughout. */
  lemma EveryRunKeepsInv(rows: map<ClientId, Row>, offline: OT.Trees, ops: seq<Op>)
    requires OT.Consistent(offline) && forall id :: id in rows ==> rows[id].clientId == id
    requires AllowedRun(Restart(rows, offline), ops)
    ensures Inv(Run(Restart(rows, offline), ops))
  {
    EveryRunStaysTied(rows, offline, ops);
    EveryRunAgrees(rows, offline, ops);
  }

  /** A login drain clears one queue and leaves the rest of the session alone. */
  lemma DrainInv(s: Session, c: ClientId)
    requires Inv(s)
    ensures Inv(s.(offline := OT.Clear(s.offline, c)))
  {
    OT.ClearRefines(s.offline, c, c);
    forall g | g in s.ghosts ensures Backed(s.(offline := OT.Clear(s.offline, c)), g) { assert Backed(s, g); }
  }

  /* ---------------- the sweep and restore loops ---------------- */

  /** The index entry of `c` lists exactly the rows of `c`. */
  ghost predicate ListsOwn(t: OT.Trees, c: ClientId) {
    forall id :: id in t.queue ==> (id in OT.Ids(t, c) <==> t.queue[id].clientId == c)
  }

  lemma IndexListsOwn(t: OT.Trees, c: ClientId)
    requires OT.Consistent(t)
    ensures ListsOwn(t, c)
  {
    OT.OwnedIds(t, c);
    forall id | id in t.queue ensures id in OT.Ids(t, c) <==> t.queue[id].clientId == c {
      assert OT.RowIndexed(t, id);
    }
  }

  lemma ClearOwn(t: OT.Trees, cs: set<ClientId>, c: ClientId)
    requires ListsOwn(ClearAll(t, cs), c)
    ensures OT.Clear(ClearAll(t, cs), c) == ClearAll(t, cs + {c})
  {
    var before, after := ClearAll(t, cs), ClearAll(t, cs + {c});
    assert before.queue - Elements(OT.Ids(before, c)) == after.queue;
    assert before.index - {c} == after.index;
  }

  lemma ClearOneMore(t: OT.Trees, cs: set<ClientId>, c: ClientId)
    requires OT.Consistent(t)
    ensures OT.Clear(ClearAll(t, cs), c) == ClearAll(t, cs + {c})
  {
    ClearAllConsistent(t, cs);
    IndexListsOwn(ClearAll(t, cs), c);
    ClearOwn(t, cs, c);
  }

  lemma ClearNone(t: OT.Trees)
    ensures ClearAll(t, {}) == t
  {
    assert ClearAll(t, {}).queue == t.queue && ClearAll(t, {}).index == t.index;
  }

  /** `keys` and `out` list the rows of `tree` except those of `todo`. */
  ghost predicate Listing(tree: map<ClientId, Row>, keys: seq<ClientId>, out: seq<Row>, todo: set<ClientId>) {
    && todo <= tree.Keys && |out| == |keys|
    && NoDup(keys) && Elements(keys) == tree.Keys - todo
    && forall i :: 0 <= i < |keys| ==> keys[i] in tree && out[i] == tree[keys[i]]
  }

  lemma ListOneMore(tree: map<ClientId, Row>, keys: seq<ClientId>, out: seq<Row>, todo: set<ClientId>, k: ClientId)
    requires Listing(tree, keys, out, todo) && k in todo
    ensures Listing(tree, keys + [k], out + [tree[k]], todo - {k})
  {
    assert k !in Elements(keys);
    AppendElement(keys, k);
  }

  lemma ListingEnds(tree: map<ClientId, Row>, keys: seq<ClientId>, out: seq<Row>)
    requires Listing(tree, keys, out, {})
    ensures |out| == |tree| && forall id :: id in tree ==> tree[id] in out
  {
    NoDupCard(keys);
    forall id | id in tree ensures tree[id] in out {
      assert id in Elements(keys);
      var i :| 0 <= i < |keys| && keys[i] == id;
      assert out[i] == tree[id];
    }
  }

  /** `expired` lists the expired rows of `tree` except those of `todo`. */
  ghost predicate Collecting(tree: map<ClientId, Row>, expired: seq<ClientId>, todo: set<ClientId>, now: nat) {
    todo <= tree.Keys && NoDup(expired) && Elements(expired) == ExpiredRows(tree, now) - todo
  }

  lemma CollectOneMore(tree: map<ClientId, Row>, expired: seq<ClientId>, todo: set<ClientId>, now: nat, k: ClientId)
    requires Collecting(tree, expired, todo, now) && k in todo
    ensures Collecting(tree, if tree[k].ghostUntil < now then expired + [k] else expired, todo - {k}, now)
  {
    assert k !in Elements(expired);
    AppendElement(expired, k);
  }

  /** The rows of the given keys. */
  ghost function Restrict(rows: map<ClientId, Row>, keys: set<ClientId>): map<ClientId, Row> {
    map id | id in rows && id in keys :: rows[id]
  }

  /** The first `i` rows of a listing have been restored as ghosts and registered. */
  ghost predicate Restoring(tree: map<ClientId, Row>, keys: seq<ClientId>, i: nat,
                            ghosts: map<ClientId, Ghost>, cluster: set<ClientId>) {
    && i <= |keys| && cluster == Elements(keys[..i])
    && ghosts == GhostsOf(Restrict(tree, cluster))
  }

  lemma RestoreOneMore(tree: map<ClientId, Row>, keys: seq<ClientId>, out: seq<Row>, i: nat,
                       ghosts: map<ClientId, Ghost>, cluster: set<ClientId>)
    requires Listing(tree, keys, out, {}) && i < |keys| && Restoring(tree, keys, i, ghosts, cluster)
    ensures keys[i] !in ghosts
    ensures Restoring(tree, keys, i + 1, ghosts[keys[i] := RT.Ghost(out[i].titles, out[i].ghostUntil)],
                      cluster + {keys[i]})
  {
    forall j | 0 <= j < i ensures keys[j] != keys[i] { NoDupAt(keys, j, i); }
    TakeOneMore(keys, i);
    AppendElement(keys[..i], keys[i]);
    assert keys[i] !in cluster;
  }

  lemma RestoreEnds(tree: map<ClientId, Row>, keys: seq<ClientId>, out: seq<Row>,
                    ghosts: map<ClientId, Ghost>, cluster: set<ClientId>)
    requires Listing(tree, keys, out, {}) && Restoring(tree, keys, |keys|, ghosts, cluster)
    ensures ghosts == GhostsOf(tree) && cluster == tree.Keys
  {
    assert keys[..|keys|] == keys;
    assert Restrict(tree, tree.Keys) == tree;
  }

  /** The first `i` expired clients have been swept, the rows of all of them. */
  ghost predicate Sweeping(s: Session, now: nat, expired: seq<ClientId>, i: nat,
                           ghosts: map<ClientId, Ghost>, cluster: set<ClientId>, offline: OT.Trees) {
    && Inv(s) && Elements(expired) == ExpiredRows(s.rows, now) && i <= |expired|
    && ghosts == s.ghosts - Elements(expired[..i])
    && cluster == s.cluster - Elements(expired[..i])
    && offline == ClearAll(s.offline, Elements(expired[..i]))
  }

  lemma SweepBegins(s: Session, now: nat, expired: seq<ClientId>)
    requires Inv(s) && Elements(expired) == ExpiredRows(s.rows, now)
    ensures Sweeping(s, now, expired, 0, s.ghosts, s.cluster, s.offline)
  {
    ClearNone(s.offline);
    assert Elements(expired[..0]) == {};
    assert s.ghosts - {} == s.ghosts;
  }

  lemma SweepOneMore(s: Session, now: nat, expired: seq<ClientId>, i: nat,
                     ghosts: map<ClientId, Ghost>, cluster: set<ClientId>, offline: OT.Trees)
    requires Sweeping(s, now, expired, i, ghosts, cluster, offline) && i < |expired|
    ensures Sweeping(s, now, expired, i + 1, ghosts - {expired[i]}, cluster - {expired[i]},
                     OT.Clear(offline, expired[i]))
  {
    TakeOneMore(expired, i);
    AppendElement(expired[..i], expired[i]);
    ClearOneMore(s.offline, Elements(expired[..i]), expired[i]);
  }

  lemma SweepEnds(s: Session, now: nat, expired: seq<ClientId>,
                  ghosts: map<ClientId, Ghost>, cluster: set<ClientId>, offline: OT.Trees)
    requires Sweeping(s, now, expired, |expired|, ghosts, cluster, offline)
    ensures SweepGhosts(s, now)
            == Session(s.registry, ghosts, s.rows - ExpiredRows(s.rows, now), cluster, offline)
    ensures Inv(SweepGhosts(s, now))
  {
    assert expired[..|expired|] == expired;
    SweepTied(s, now);
  }
}
