/** Runs of the server with its connections explicit: logins set the id of a connection's object, and may do so again
    while it is registered. */
module ConnectionRuns {
  import opened Common
  import RT = RegistryTheory
  import OT = OfflineTheory
  import ST = SessionTheory
  import CT = ConnectionTheory

  /** The registry with its objects, and the rest of the session beside it. */
  datatype Node = Node(server: CT.Server, ghosts: map<ClientId, ST.Ghost>, rows: map<ClientId, ST.Row>,
                       cluster: set<ClientId>, offline: OT.Trees)

  datatype Op =
    | Open(conn: CT.Conn, uuid: ClientId)
    | Login(conn: CT.Conn, id: ClientId, t: RT.Title, now: nat, ghostTtl: nat)
    | Register(id: ClientId, t: RT.Title)
    | Unregister(id: ClientId, t: RT.Title)
    | Remove(id: ClientId)
    | Close(conn: CT.Conn)
    | Inactive(id: ClientId)
    | Sweep(now: nat)
    | Crash

  /** The session as its users see it: the registry read by id. */
  function Seen(n: Node): ST.Session {
    ST.Session(CT.ById(n.server), n.ghosts, n.rows, n.cluster, n.offline)
  }

  /** The node whose rest is that of a session. */
  function With(server: CT.Server, s: ST.Session): Node {
    Node(server, s.ghosts, s.rows, s.cluster, s.offline)
  }

  /** A connection is opened once, and logs in and closes after that. */
  ghost predicate Possible(s: CT.Server, op: Op) {
    match op
    case Open(o, _) => o !in s.store
    case Login(o, _, _, _, _) => o in s.store
    case Close(o) => o in s.store
    case _ => true
  }

  /** What the operation does to the registry. */
  function ServerStep(s: CT.Server, op: Op): CT.Server {
    match op
    case Open(o, id) => CT.Open(s, o, id)
    case Login(o, id, t, _, _) => CT.Login(s, o, id, t)
    case Register(id, t) => CT.Register(s, id, t)
    case Unregister(id, t) => CT.Unregister(s, id, t)
    case Remove(id) => CT.Remove(s, id)
    case Close(o) => CT.Close(s, o)
    case Inactive(id) => CT.Remove(s, id)
    case Sweep(_) => s
    case Crash => CT.EMPTY
  }

  /** What it does to the rest. A login under a live id does nothing there. */
  function SessionOp(s: CT.Server, op: Op): Option<ST.Op> {
    match op
    case Login(o, id, t, now, ghostTtl) =>
      if id in s.live then None else Some(ST.Add(id, CT.Longer(s, o, t), now, ghostTtl))
    case Remove(id) => Some(ST.Remove(id))
    case Close(o) => Some(ST.Remove(CT.At(s.store, o).id))
    case Inactive(id) => Some(ST.Inactive(id))
    case Sweep(now) => Some(ST.Sweep(now))
    case Crash => Some(ST.Crash)
    case _ => None
  }

  function Step(n: Node, op: Op): Node {
    var rest := SessionOp(n.server, op);
    With(ServerStep(n.server, op), if rest.None? then Seen(n) else ST.Step(Seen(n), rest.value))
  }

  function Start(rows: map<ClientId, ST.Row>, offline: OT.Trees): Node {
    With(CT.EMPTY, ST.Restart(rows, offline))
  }

  function Run(n: Node, ops: seq<Op>): Node {
    if ops == [] then n else Step(Run(n, ops[..|ops| - 1]), ops[|ops| - 1])
  }

  ghost predicate PossibleRun(n: Node, ops: seq<Op>) {
    ops == [] ||
    (PossibleRun(n, ops[..|ops| - 1]) && Possible(Run(n, ops[..|ops| - 1]).server, ops[|ops| - 1]))
  }

  /* ---------------- the session's side ---------------- */

  function LiveAfter(live: set<ClientId>, rest: Option<ST.Op>): set<ClientId> {
    match rest
    case Some(Add(id, _, _, _)) => live + {id}
    case Some(Remove(id)) => live - {id}
    case Some(Inactive(id)) => live - {id}
    case Some(Crash) => {}
    case _ => live
  }

  lemma ServerLiveIds(s: CT.Server, op: Op)
    ensures ServerStep(s, op).live.Keys == LiveAfter(s.live.Keys, SessionOp(s, op))
  {}

  lemma SessionLiveIds(s: ST.Session, op: ST.Op)
    ensures ST.Step(s, op).registry.clients.Keys == LiveAfter(s.registry.clients.Keys, Some(op))
  {}

  /** The live ids move as the session's own step moves them. */
  lemma SameLiveIds(n: Node, op: Op)
    ensures var rest := SessionOp(n.server, op);
            Seen(Step(n, op)).registry.clients.Keys ==
            (if rest.None? then Seen(n) else ST.Step(Seen(n), rest.value)).registry.clients.Keys
  {
    var rest := SessionOp(n.server, op);
    ServerLiveIds(n.server, op);
    if rest.Some? { SessionLiveIds(Seen(n), rest.value); }
    assert Seen(n).registry.clients.Keys == n.server.live.Keys;
    assert Seen(Step(n, op)).registry.clients.Keys == ServerStep(n.server, op).live.Keys;
  }

  lemma StepTied(n: Node, op: Op)
    requires ST.Tied(Seen(n))
    ensures ST.Tied(Seen(Step(n, op)))
  {
    var rest := SessionOp(n.server, op);
    var s := if rest.None? then Seen(n) else ST.Step(Seen(n), rest.value);
    if rest.Some? { ST.StepTied(Seen(n), rest.value); }
    SameLiveIds(n, op);
    ST.SameClientsTied(s, Seen(Step(n, op)).registry);
    assert Seen(Step(n, op)) == s.(registry := Seen(Step(n, op)).registry);
  }

  /** In every run, whatever ids and titles its logins and registrations bring, and however often one connection logs
      in: live and ghost ids are disjoint, every ghost is backed by its row and registered in the cluster. */
  lemma {:induction false} EveryRunStaysTied(rows: map<ClientId, ST.Row>, offline: OT.Trees, ops: seq<Op>)
    requires OT.Consistent(offline) && forall id :: id in rows ==> rows[id].clientId == id
    ensures ST.Tied(Seen(Run(Start(rows, offline), ops)))
  {
    if ops == [] {
      ST.RestartInv(rows, offline);
      ST.SameClientsTied(ST.Restart(rows, offline), CT.ById(CT.EMPTY));
    } else {
      EveryRunStaysTied(rows, offline, ops[..|ops| - 1]);
      StepTied(Run(Start(rows, offline), ops[..|ops| - 1]), ops[|ops| - 1]);
    }
  }

  /* ---------------- the index ---------------- */

  /** Exactly the operations that keep index and lists in agreement, object by object. */
  ghost predicate Keeps(s: CT.Server, op: Op) {
    match op
    case Login(_, id, t, _, _) =>
      id in s.live && CT.Own(s, s.live[id]) ==>
        forall p :: p in RT.Pieces(t) ==> p in s.store[s.live[id]].titles
    case Register(id, t) =>
      id in s.live ==>
        RT.Clean(t) && (CT.Stale(s, id) ==> CT.Own(s, s.live[id]) && t !in s.store[s.live[id]].titles)
    case Unregister(id, t) =>
      CT.Stale(s, id) ==> !(CT.Own(s, s.live[id]) && t in s.store[s.live[id]].titles)
    case _ => true
  }

  lemma StepSoundExactly(s: CT.Server, op: Op)
    requires CT.Sound(s) && Possible(s, op)
    ensures CT.Sound(ServerStep(s, op)) <==> Keeps(s, op)
  {
    match op {
      case Open(o, id) => CT.OpenSound(s, o, id);
      case Login(o, id, t, _, _) =>
        if id in s.live { CT.RepeatedLoginSoundExactly(s, o, id, t); } else { CT.FirstLoginSound(s, o, id, t); }
      case Register(id, t) => if id in s.live { CT.RegisterSoundExactly(s, id, t); }
      case Unregister(id, t) => if id in s.live { CT.UnregisterSoundExactly(s, id, t); }
      case Remove(id) => CT.RemoveSound(s, id);
      case Close(o) => CT.RemoveSound(s, CT.At(s.store, o).id);
      case Inactive(id) => CT.RemoveSound(s, id);
      case Sweep(_) =>
      case Crash =>
    }
  }

  ghost predicate KeepingRun(n: Node, ops: seq<Op>) {
    ops == [] || (KeepingRun(n, ops[..|ops| - 1]) && Keeps(Run(n, ops[..|ops| - 1]).server, ops[|ops| - 1]))
  }

  lemma {:induction false} EveryRunIsSound(rows: map<ClientId, ST.Row>, offline: OT.Trees, ops: seq<Op>)
    requires PossibleRun(Start(rows, offline), ops) && KeepingRun(Start(rows, offline), ops)
    ensures CT.Sound(Run(Start(rows, offline), ops).server)
  {
    if ops != [] {
      EveryRunIsSound(rows, offline, ops[..|ops| - 1]);
      StepSoundExactly(Run(Start(rows, offline), ops[..|ops| - 1]).server, ops[|ops| - 1]);
    }
  }

  /** In every such run, second logins included, the session's invariant holds exactly when no id that a connection has
      given up still lists a title. */
  lemma EveryRunKeepsInvExactly(rows: map<ClientId, ST.Row>, offline: OT.Trees, ops: seq<Op>)
    requires OT.Consistent(offline) && forall id :: id in rows ==> rows[id].clientId == id
    requires PossibleRun(Start(rows, offline), ops) && KeepingRun(Start(rows, offline), ops)
    ensures var n := Run(Start(rows, offline), ops);
            ST.Inv(Seen(n)) <==> CT.StaleIdsAreSilent(n.server)
  {
    EveryRunStaysTied(rows, offline, ops);
    EveryRunIsSound(rows, offline, ops);
    CT.AgreesByIdExactly(Run(Start(rows, offline), ops).server);
  }

  /* ---------------- one id per connection ---------------- */

  ghost predicate Registered(s: CT.Server, o: CT.Conn) {
    exists id :: id in s.live && s.live[id] == o
  }

  /** The login of a new client comes over a connection that is not registered yet. */
  ghost predicate OneId(s: CT.Server, op: Op) {
    op.Login? && op.id !in s.live ==> !Registered(s, op.conn)
  }

  ghost predicate OneIdRun(n: Node, ops: seq<Op>) {
    ops == [] || (OneIdRun(n, ops[..|ops| - 1]) && OneId(Run(n, ops[..|ops| - 1]).server, ops[|ops| - 1]))
  }

  ghost predicate NothingStale(s: CT.Server) {
    forall id :: id in s.live ==> !CT.Stale(s, id)
  }

  /** An operation leaves no id given up exactly when it is not a second login. */
  lemma StepGivesUpExactly(s: CT.Server, op: Op)
    requires CT.Sound(s) && NothingStale(s) && Possible(s, op)
    ensures NothingStale(ServerStep(s, op)) <==> OneId(s, op)
  {
    var s' := ServerStep(s, op);
    if !OneId(s, op) {
      var was :| was in s.live && s.live[was] == op.conn;
      assert CT.Stale(s', was);
    } else {
      forall id | id in s'.live ensures !CT.Stale(s', id) {
        if id in s.live { assert !CT.Stale(s, id); }
      }
    }
  }

  lemma {:induction false} NothingGivenUp(rows: map<ClientId, ST.Row>, offline: OT.Trees, ops: seq<Op>)
    requires var n := Start(rows, offline); PossibleRun(n, ops) && KeepingRun(n, ops) && OneIdRun(n, ops)
    ensures NothingStale(Run(Start(rows, offline), ops).server)
  {
    if ops != [] {
      NothingGivenUp(rows, offline, ops[..|ops| - 1]);
      EveryRunIsSound(rows, offline, ops[..|ops| - 1]);
      StepGivesUpExactly(Run(Start(rows, offline), ops[..|ops| - 1]).server, ops[|ops| - 1]);
    }
  }

  /** If no connection logs in as a new client twice, the session keeps its invariant in every run. */
  lemma OneIdRunsKeepInv(rows: map<ClientId, ST.Row>, offline: OT.Trees, ops: seq<Op>)
    requires OT.Consistent(offline) && forall id :: id in rows ==> rows[id].clientId == id
    requires var n := Start(rows, offline); PossibleRun(n, ops) && KeepingRun(n, ops) && OneIdRun(n, ops)
    ensures ST.Inv(Seen(Run(Start(rows, offline), ops)))
  {
    EveryRunKeepsInvExactly(rows, offline, ops);
    NothingGivenUp(rows, offline, ops);
  }

  /** Login as `a`, login as `b`, close, after any run: `a` stays live with its title, its row and its registration, and
      no index entry names it. */
  lemma StrandedClient(n: Node, o: CT.Conn, a: ClientId, t: RT.Title, b: ClientId, u: RT.Title, now: nat, ttl: nat)
    requires CT.Sound(n.server) && o in n.server.store && RT.Clean(t)
    requires a !in n.server.live && b !in n.server.live && a != b
    ensures var s := Seen(Step(Step(Step(n, Login(o, a, t, now, ttl)), Login(o, b, u, now, ttl)), Close(o)));
            && a in s.registry.clients && t in s.registry.clients[a] && a in s.rows && a in s.cluster
            && b !in s.registry.clients && b !in s.rows && b !in s.cluster
            && forall v :: a !in RT.Subscribers(s.registry.index, v)
  {
    var n1 := Step(n, Login(o, a, t, now, ttl));
    var n2 := Step(n1, Login(o, b, u, now, ttl));
    var n3 := Step(n2, Close(o));
    assert a in n1.rows && a in n1.cluster && a in n2.rows && a in n2.cluster;
    assert a in n3.rows && a in n3.cluster;
    CT.TwoLogins(n.server, o, a, t, b, u);
    assert n2.server == CT.Login(CT.Login(n.server, o, a, t), o, b, u);
    CT.CloseForgets(n2.server, o, t);
    forall v ensures a !in RT.Subscribers(Seen(n3).registry.index, v) {
      CT.SecondLoginStrandsAClient(n.server, o, a, t, b, u, v);
    }
    CT.SecondLoginStrandsAClient(n.server, o, a, t, b, u, t);
  }
}
