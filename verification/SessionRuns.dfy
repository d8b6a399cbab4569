/** How long a connected client stays persisted and registered in the cluster. */
module SessionRuns {
  import opened Common
  import OT = OfflineTheory
  import RT = RegistryTheory
  import opened SessionTheory

  /** Operations after which an earlier `Add` of the client no longer counts. */
  predicate Ends(op: Op, id: ClientId) {
    match op
    case Add(k, _, _, _) => k == id
    case Remove(k) => k == id
    case Inactive(k) => k == id
    case Crash => true
    case _ => false
  }

  /** Operation `p` added the client and it has been connected since. */
  ghost predicate ConnectedSince(ops: seq<Op>, p: nat, id: ClientId) {
    p < |ops| && ops[p].Add? && ops[p].id == id && forall j :: p < j < |ops| ==> !Ends(ops[j], id)
  }

  /** The time of the addition and the ghost's time to live, capped at 2^64 - 1. */
  function Deadline(op: Op): nat
    requires op.Add?
  {
    if op.now + op.ghostTtl < 0x1_0000_0000_0000_0000 then op.now + op.ghostTtl else 0xFFFF_FFFF_FFFF_FFFF
  }

  /** A sweep after operation `p` ran later than that client's deadline. */
  ghost predicate SweptLate(ops: seq<Op>, p: nat)
    requires p < |ops| && ops[p].Add?
  {
    exists j :: p < j < |ops| && ops[j].Sweep? && ops[j].now > Deadline(ops[p])
  }

  /** The client is persisted and registered as the addition left it. */
  ghost predicate Kept(s: Session, id: ClientId, add: Op)
    requires add.Add?
  {
    && id in s.cluster && id in s.rows
    && s.rows[id] == Row(id, add.titles, add.now, Deadline(add))
  }

  ghost predicate Forgotten(s: Session, id: ClientId) {
    id !in s.rows && id !in s.cluster
  }

  /** The operation removes the client, which is live. */
  ghost predicate Removes(s: Session, op: Op, id: ClientId) {
    op == Remove(id) && id in s.registry.clients
  }

  ghost predicate RemovedAt(s: Session, ops: seq<Op>, j: nat, id: ClientId) {
    j < |ops| && Removes(Run(s, ops[..j]), ops[j], id)
  }

  predicate Adds(op: Op, id: ClientId) {
    op.Add? && op.id == id
  }

  /** Operation `p` added the client; since then it was neither added again nor removed while live. */
  ghost predicate StandsSince(s: Session, ops: seq<Op>, p: nat, id: ClientId) {
    && p < |ops| && Adds(ops[p], id)
    && forall j :: p < j < |ops| ==> !Adds(ops[j], id) && !RemovedAt(s, ops, j, id)
  }

  lemma RemovedBefore(s: Session, ops: seq<Op>, j: nat, id: ClientId)
    requires j < |ops| - 1
    ensures RemovedAt(s, ops, j, id) == RemovedAt(s, ops[..|ops| - 1], j, id)
  {
    assert ops[..|ops| - 1][..j] == ops[..j];
  }

  lemma StoodBefore(s: Session, ops: seq<Op>, p: nat, id: ClientId)
    requires StandsSince(s, ops, p, id) && p < |ops| - 1
    ensures StandsSince(s, ops[..|ops| - 1], p, id)
    ensures !Adds(ops[|ops| - 1], id) && !Removes(Run(s, ops[..|ops| - 1]), ops[|ops| - 1], id)
  {
    var init, last := ops[..|ops| - 1], |ops| - 1;
    assert !RemovedAt(s, ops, last, id);
    forall j | p < j < |init| ensures !Adds(init[j], id) && !RemovedAt(s, init, j, id) {
      assert init[j] == ops[j] && !RemovedAt(s, ops, j, id);
      RemovedBefore(s, ops, j, id);
    }
  }

  /** What one operation does to a row. */
  lemma OtherOpsKeep(s: Session, op: Op, id: ClientId, add: Op)
    requires add.Add? && !Adds(op, id) && !Removes(s, op, id)
    ensures Kept(s, id, add) && !(op.Sweep? && op.now > Deadline(add)) ==> Kept(Step(s, op), id, add)
    ensures Kept(s, id, add) && op.Sweep? && op.now > Deadline(add) ==> Forgotten(Step(s, op), id)
    ensures Forgotten(s, id) ==> Forgotten(Step(s, op), id)
  {}

  lemma SweptLateStep(ops: seq<Op>, p: nat)
    requires p < |ops| - 1 && ops[p].Add?
    ensures var last := ops[|ops| - 1];
            SweptLate(ops, p) <==> SweptLate(ops[..|ops| - 1], p) || (last.Sweep? && last.now > Deadline(ops[p]))
  {
    var init, last := ops[..|ops| - 1], ops[|ops| - 1];
    if SweptLate(init, p) {
      var j :| p < j < |init| && init[j].Sweep? && init[j].now > Deadline(init[p]);
      assert ops[j] == init[j];
    }
    if SweptLate(ops, p) {
      var j :| p < j < |ops| && ops[j].Sweep? && ops[j].now > Deadline(ops[p]);
      if j < |init| { assert init[j] == ops[j]; }
    }
  }

  /** In every run, from any state, through disconnections by inactivity and restarts: what the last addition of a
      client persisted is there, with its titles and deadline, if and only if the client was not removed while live and
      no sweep since then came after the deadline. */
  lemma {:induction false} RowStandsExactly(s: Session, ops: seq<Op>, p: nat, id: ClientId)
    requires StandsSince(s, ops, p, id)
    ensures SweptLate(ops, p) ==> Forgotten(Run(s, ops), id)
    ensures !SweptLate(ops, p) ==> Kept(Run(s, ops), id, ops[p])
    decreases |ops|
  {
    if p < |ops| - 1 {
      StoodBefore(s, ops, p, id);
      SweptLateStep(ops, p);
      RowStandsExactly(s, ops[..|ops| - 1], p, id);
      OtherOpsKeep(Run(s, ops[..|ops| - 1]), ops[|ops| - 1], id, ops[p]);
    }
  }

  lemma StaysLiveStep(s: Session, op: Op, id: ClientId)
    requires id in s.registry.clients && !Ends(op, id)
    ensures id in Step(s, op).registry.clients
  {}

  lemma {:induction false} StaysLive(s: Session, ops: seq<Op>, p: nat, id: ClientId)
    requires ConnectedSince(ops, p, id)
    ensures id in Run(s, ops).registry.clients
    decreases |ops|
  {
    if p < |ops| - 1 {
      var init := ops[..|ops| - 1];
      assert forall j :: p < j < |init| ==> init[j] == ops[j];
      StaysLive(s, init, p, id);
      StaysLiveStep(Run(s, init), ops[|ops| - 1], id);
    }
  }

  /** In every run, from any state: a client connected since operation `p` has its row and its cluster registration if
      and only if no sweep since then came after its deadline. */
  lemma RowKeptExactly(s: Session, ops: seq<Op>, p: nat, id: ClientId)
    requires ConnectedSince(ops, p, id)
    ensures var after := Run(s, ops);
            && id in after.registry.clients
            && (SweptLate(ops, p) ==> Forgotten(after, id))
            && (!SweptLate(ops, p) ==> Kept(after, id, ops[p]))
  {
    StaysLive(s, ops, p, id);
    forall j | p < j < |ops| ensures !Adds(ops[j], id) && !RemovedAt(s, ops, j, id) { assert !Ends(ops[j], id); }
    RowStandsExactly(s, ops, p, id);
  }

  /* ---------------- subscriptions ---------------- */

  /** Who is subscribed to what after an operation, as lookups by title see it. */
  lemma SubscribedAfter(s: Session, op: Op, k: ClientId, u: Title)
    requires RT.Agrees(s.registry) && Allowed(s, op)
    ensures var was := k in RT.Subscribers(s.registry.index, u);
            k in RT.Subscribers(Step(s, op).registry.index, u) <==>
            match op
            case Add(id, titles, _, _) => if k == id then u in titles else was
            case Remove(id) => was && k != id
            case Inactive(id) => was && k != id
            case Register(id, t) => was || (k == id && u == t && id in s.registry.clients)
            case Unregister(id, t) => was && !(k == id && u == t)
            case Sweep(_) => was
            case Crash => false
  {
    var r := s.registry;
    assert RT.Subscribed(r, k, u) <==> k in RT.Subscribers(r.index, u);
    match op {
      case Add(id, titles, _, _) => RT.AddClientEffect(r, id, titles, k, u);
      case Remove(id) => RT.RemoveClientEffect(r, id, k, u);
      case Inactive(id) => RT.RemoveClientEffect(r, id, k, u);
      case Register(id, t) => if id in r.clients { RT.RegisterTitleEffect(r, id, t, k, u); }
      case Unregister(id, t) => RT.UnregisterTitleEffect(r, id, t, k, u);
      case _ =>
    }
  }

  /* ---------------- removal ---------------- */

  /** Removing a live client takes back its place in the registry, its row and its cluster registration, and touches
      nothing of any other client. */
  lemma RemoveTakesBack(s: Session, id: ClientId, k: ClientId, t: Title)
    requires id in s.registry.clients && RT.Agrees(s.registry) && k != id
    ensures var s' := RemoveClient(s, id);
            && id !in s'.registry.clients && id !in s'.rows && id !in s'.cluster
            && id !in RT.Subscribers(s'.registry.index, t)
            && (k in s'.cluster <==> k in s.cluster)
            && (k in s'.rows <==> k in s.rows) && (k in s.rows ==> s'.rows[k] == s.rows[k])
            && (k in s'.registry.clients <==> k in s.registry.clients)
            && (k in s.registry.clients ==> s'.registry.clients[k] == s.registry.clients[k])
            && (k in RT.Subscribers(s'.registry.index, t) <==> k in RT.Subscribers(s.registry.index, t))
            && s'.ghosts == s.ghosts && s'.offline == s.offline
  {
    var r, r' := s.registry, RT.RemoveClient(s.registry, id);
    RT.RemoveClientAgrees(r, id);
    assert RT.Subscribed(r', id, t) <==> id in RT.Subscribers(r'.index, t);
    assert RT.Subscribed(r', k, t) <==> k in RT.Subscribers(r'.index, t);
    assert RT.Subscribed(r, k, t) <==> k in RT.Subscribers(r.index, t);
  }

  ghost predicate Gone(s: Session, id: ClientId) {
    id !in s.registry.clients && id !in s.ghosts && Forgotten(s, id)
  }

  lemma StaysGone(s: Session, op: Op, id: ClientId)
    requires Gone(s, id) && !Adds(op, id)
    ensures Gone(Step(s, op), id)
  {}

  /** From a restart on: a client removed while live is nowhere, not even after further restarts, until it is added
      again. */
  lemma {:induction false} RemovedIsGone(rows: map<ClientId, Row>, offline: OT.Trees, ops: seq<Op>, p: nat,
                                         id: ClientId)
    requires OT.Consistent(offline) && forall k :: k in rows ==> rows[k].clientId == k
    requires RemovedAt(Restart(rows, offline), ops, p, id) && forall j :: p < j < |ops| ==> !Adds(ops[j], id)
    ensures Gone(Run(Restart(rows, offline), ops), id)
    decreases |ops|
  {
    var s, init := Restart(rows, offline), ops[..|ops| - 1];
    if p < |ops| - 1 {
      RemovedBefore(s, ops, p, id);
      assert forall j :: p < j < |init| ==> init[j] == ops[j];
      RemovedIsGone(rows, offline, init, p, id);
      StaysGone(Run(s, init), ops[|ops| - 1], id);
    } else {
      EveryRunStaysTied(rows, offline, init);
    }
  }

  /* ---------------- rows from before ---------------- */

  /** A sweep later than the row's deadline. */
  ghost predicate SweptAfter(ops: seq<Op>, deadline: nat) {
    exists j :: 0 <= j < |ops| && ops[j].Sweep? && ops[j].now > deadline
  }

  lemma SweptAfterStep(ops: seq<Op>, deadline: nat)
    requires ops != []
    ensures var last := ops[|ops| - 1];
            SweptAfter(ops, deadline) <==>
            SweptAfter(ops[..|ops| - 1], deadline) || (last.Sweep? && last.now > deadline)
  {
    var init := ops[..|ops| - 1];
    if SweptAfter(init, deadline) {
      var j :| 0 <= j < |init| && init[j].Sweep? && init[j].now > deadline;
      assert ops[j] == init[j];
    }
    if SweptAfter(ops, deadline) {
      var j :| 0 <= j < |ops| && ops[j].Sweep? && ops[j].now > deadline;
      if j < |init| { assert init[j] == ops[j]; }
    }
  }

  lemma AbsentStep(s: Session, op: Op, id: ClientId)
    requires id !in s.registry.clients && !Adds(op, id)
    ensures id !in Step(s, op).registry.clients
    ensures id in Step(s, op).rows <==> id in s.rows && !(op.Sweep? && op.now > s.rows[id].ghostUntil)
    ensures id in Step(s, op).rows ==> Step(s, op).rows[id] == s.rows[id]
  {}

  /** A client that never came back keeps its restored row, unchanged, if and only if no sweep came after its
      deadline. */
  lemma {:induction false} RestoredRowExactly(rows: map<ClientId, Row>, offline: OT.Trees, ops: seq<Op>, id: ClientId)
    requires forall j :: 0 <= j < |ops| ==> !Adds(ops[j], id)
    ensures var s := Run(Restart(rows, offline), ops);
            && id !in s.registry.clients
            && (id in s.rows <==> id in rows && !SweptAfter(ops, rows[id].ghostUntil))
            && (id in s.rows ==> s.rows[id] == rows[id])
    decreases |ops|
  {
    if ops != [] {
      var init := ops[..|ops| - 1];
      assert forall j :: 0 <= j < |init| ==> init[j] == ops[j];
      RestoredRowExactly(rows, offline, init, id);
      AbsentStep(Run(Restart(rows, offline), init), ops[|ops| - 1], id);
      if id in rows { SweptAfterStep(ops, rows[id].ghostUntil); }
    }
  }

  lemma RegisteredStep(s: Session, op: Op)
    requires s.cluster == s.rows.Keys
    ensures Step(s, op).cluster == Step(s, op).rows.Keys
  {}

  /** From a restart on, the clients registered in the cluster are exactly those with a row. */
  lemma {:induction false} RegisteredExactlyWithRow(rows: map<ClientId, Row>, offline: OT.Trees, ops: seq<Op>)
    ensures Run(Restart(rows, offline), ops).cluster == Run(Restart(rows, offline), ops).rows.Keys
    decreases |ops|
  {
    if ops != [] {
      RegisteredExactlyWithRow(rows, offline, ops[..|ops| - 1]);
      RegisteredStep(Run(Restart(rows, offline), ops[..|ops| - 1]), ops[|ops| - 1]);
    }
  }

  /** Some operation since the last restart added the client. */
  ghost predicate CameBack(ops: seq<Op>, id: ClientId) {
    ops != [] && !ops[|ops| - 1].Crash? && (Adds(ops[|ops| - 1], id) || CameBack(ops[..|ops| - 1], id))
  }

  lemma GhostStep(s: Session, op: Op, id: ClientId)
    requires id in s.ghosts ==> id in s.rows && id !in s.registry.clients
    ensures id in Step(s, op).ghosts <==>
            id in Step(s, op).rows && (op.Crash? || (id in s.ghosts && !Adds(op, id)))
  {}

  /** From a restart on, the ghosts are exactly the clients with a row that have not come back since the last
      restart. */
  lemma {:induction false} GhostsExactly(rows: map<ClientId, Row>, offline: OT.Trees, ops: seq<Op>, id: ClientId)
    requires OT.Consistent(offline) && forall k :: k in rows ==> rows[k].clientId == k
    ensures var s := Run(Restart(rows, offline), ops);
            id in s.ghosts <==> id in s.rows && !CameBack(ops, id)
    decreases |ops|
  {
    if ops != [] {
      var init, op := ops[..|ops| - 1], ops[|ops| - 1];
      GhostsExactly(rows, offline, init, id);
      EveryRunStaysTied(rows, offline, init);
      var s := Run(Restart(rows, offline), init);
      if id in s.ghosts { assert Backed(s, id); }
      GhostStep(s, op, id);
    }
  }

  /* ---------------- connected clients ---------------- */

  lemma NotLiveByItself(s: Session, op: Op, id: ClientId)
    requires id in Step(s, op).registry.clients && !(op.Add? && op.id == id)
    ensures id in s.registry.clients && !Ends(op, id)
  {}

  /** From a restart on, every connected client was added by some operation and has been connected since; so its row
      and registration are there if and only if no sweep came after its deadline. */
  lemma {:induction false} EveryConnectedClient(rows: map<ClientId, Row>, offline: OT.Trees, ops: seq<Op>, id: ClientId)
      returns (p: nat)
    requires id in Run(Restart(rows, offline), ops).registry.clients
    ensures ConnectedSince(ops, p, id)
    ensures var s := Run(Restart(rows, offline), ops);
            (id in s.rows <==> !SweptLate(ops, p)) && (id in s.cluster <==> !SweptLate(ops, p))
    decreases |ops|
  {
    var init, last := ops[..|ops| - 1], ops[|ops| - 1];
    if last.Add? && last.id == id {
      p := |ops| - 1;
    } else {
      NotLiveByItself(Run(Restart(rows, offline), init), last, id);
      p := EveryConnectedClient(rows, offline, init, id);
      forall j | p < j < |ops| ensures !Ends(ops[j], id) {
        if j < |init| { assert ops[j] == init[j]; }
      }
    }
    RowKeptExactly(Restart(rows, offline), ops, p, id);
  }

  /** A client that connects and stays, and a sweep one second after its deadline: it is connected and forgotten. */
  lemma LongConnectionIsForgotten(rows: map<ClientId, Row>, offline: OT.Trees, id: ClientId, now: nat, ghostTtl: nat)
    requires now + ghostTtl < U64_MAX
    ensures var ops := [Add(id, [], now, ghostTtl), Sweep(now + ghostTtl + 1)];
            var s := Run(Restart(rows, offline), ops);
            && AllowedRun(Restart(rows, offline), ops)
            && id in s.registry.clients && id !in s.rows && id !in s.cluster
  {
    var start := Restart(rows, offline);
    var none: seq<Op> := [];
    var ops := [Add(id, [], now, ghostTtl), Sweep(now + ghostTtl + 1)];
    assert ops[..1] == [ops[0]] && [ops[0]][..0] == none;
    assert AllowedRun(start, none) && AllowedRun(start, [ops[0]]);
    assert ConnectedSince(ops, 0, id) && ops[1].Sweep?;
    RowKeptExactly(start, ops, 0, id);
  }
}
