/** Clients, rows and offline messages in one run: what logins and sweeps do to waiting messages. */
module JointRuns {
  import opened Common
  import RT = RegistryTheory
  import OT = OfflineTheory
  import OL = OfflineLedger
  import OfflineRuns
  import FateCauses
  import ST = SessionTheory
  import opened LedgerSweeps

  datatype Op =
    | Queue(m: OT.Message)
    /** A new client's login: it is added, then its queue is drained. A second login on one connection is one more
        addition here; what becomes of the index then is in `ConnectionRuns`. */
    | Login(id: ClientId, titles: seq<RT.Title>, now: nat, ghostTtl: nat)
    /** The ghost sweep; `order` is the order in which it gets the expired ids. */
    | Sweep(now: nat, order: seq<ClientId>)
    | Remove(id: ClientId)
    | Register(id: ClientId, t: RT.Title)
    | Unregister(id: ClientId, t: RT.Title)
    | Inactive(id: ClientId)
    | Crash

  function ClearEach(order: seq<ClientId>): seq<OL.Op> {
    seq(|order|, i requires 0 <= i < |order| => OL.ClearClient(order[i]))
  }

  /** What the operation does to the offline store. */
  function StoreOps(op: Op): seq<OL.Op> {
    match op
    case Queue(m) => [OL.QueueMessage(m)]
    case Login(id, _, now, _) => [OL.Login(id, now)]
    case Sweep(_, order) => ClearEach(order)
    case _ => []
  }

  /** What it is to clients, ghosts, rows and cluster registrations. */
  function SessionOp(op: Op): Option<ST.Op> {
    match op
    case Queue(_) => None
    case Login(id, titles, now, ghostTtl) => Some(ST.Add(id, titles, now, ghostTtl))
    case Sweep(now, _) => Some(ST.Sweep(now))
    case Remove(id) => Some(ST.Remove(id))
    case Register(id, t) => Some(ST.Register(id, t))
    case Unregister(id, t) => Some(ST.Unregister(id, t))
    case Inactive(id) => Some(ST.Inactive(id))
    case Crash => Some(ST.Crash)
  }

  function SessionStep(s: ST.Session, op: Op): ST.Session {
    if SessionOp(op).None? then s else ST.Step(s, SessionOp(op).value)
  }

  function History(ops: seq<Op>): seq<OL.Op> {
    if ops == [] then [] else History(ops[..|ops| - 1]) + StoreOps(ops[|ops| - 1])
  }

  function LedgerAfter(ops: seq<Op>, lim: OL.Limits): OL.Ledger { OL.Run(History(ops), lim) }

  /** The session beside the store: both see the same trees. */
  function SessionAfter(rows: map<ClientId, ST.Row>, ops: seq<Op>, lim: OL.Limits): ST.Session {
    if ops == [] then ST.Restart(rows, OT.EMPTY)
    else
      var before := SessionAfter(rows, ops[..|ops| - 1], lim);
      SessionStep(before, ops[|ops| - 1]).(offline := LedgerAfter(ops, lim).trees)
  }

  ghost predicate Enabled(s: ST.Session, l: OL.Ledger, op: Op) {
    match op
    case Queue(m) => OL.Admissible(l, OL.QueueMessage(m))
    case Login(id, _, _, _) => id !in s.registry.clients
    case Sweep(now, order) => NoDup(order) && Elements(order) == ST.ExpiredRows(s.rows, now)
    case _ => true
  }

  ghost predicate Admissible(rows: map<ClientId, ST.Row>, ops: seq<Op>, lim: OL.Limits) {
    ops == [] ||
    var init := ops[..|ops| - 1];
    Admissible(rows, init, lim) && Enabled(SessionAfter(rows, init, lim), LedgerAfter(init, lim), ops[|ops| - 1])
  }

  /** Every title the run brings is one that index and lists can agree on. */
  ghost predicate CleanRun(rows: map<ClientId, ST.Row>, ops: seq<Op>, lim: OL.Limits) {
    ops == [] ||
    var init, op := ops[..|ops| - 1], SessionOp(ops[|ops| - 1]);
    CleanRun(rows, init, lim) && (op.Some? ==> ST.Allowed(SessionAfter(rows, init, lim), op.value))
  }

  /* ---------------- the store's side ---------------- */

  lemma OneMoreStoreOp(h: seq<OL.Op>, op: OL.Op, lim: OL.Limits)
    requires OL.AdmissibleRun(h, lim) && OL.Admissible(OL.Run(h, lim), op)
    ensures OL.AdmissibleRun(h + [op], lim) && OL.Run(h + [op], lim) == OL.Step(OL.Run(h, lim), op, lim)
  {
    assert (h + [op])[..|h|] == h;
  }

  lemma ClearNext(h: seq<OL.Op>, l: OL.Ledger, cs: set<ClientId>, c: ClientId, lim: OL.Limits)
    requires OL.AdmissibleRun(h, lim) && OT.Consistent(l.trees) && ClearedFor(l, OL.Run(h, lim), cs)
    ensures OL.AdmissibleRun(h + [OL.ClearClient(c)], lim)
    ensures ClearedFor(l, OL.Run(h + [OL.ClearClient(c)], lim), cs + {c})
  {
    OneMoreStoreOp(h, OL.ClearClient(c), lim);
    ClearOneMore(l, OL.Run(h, lim), cs, c, lim);
  }

  lemma ClearEachSnoc(h: seq<OL.Op>, order: seq<ClientId>)
    requires order != []
    ensures var init, c := order[..|order| - 1], order[|order| - 1];
            && h + ClearEach(order) == (h + ClearEach(init)) + [OL.ClearClient(c)]
            && Elements(order) == Elements(init) + {c}
  {
    var init, c := order[..|order| - 1], order[|order| - 1];
    assert order == init + [c];
    assert ClearEach(order) == ClearEach(init) + [OL.ClearClient(c)];
  }

  lemma {:induction false} ClearEachClears(h: seq<OL.Op>, l: OL.Ledger, order: seq<ClientId>, lim: OL.Limits)
    requires OL.AdmissibleRun(h, lim) && l == OL.Run(h, lim) && OT.Consistent(l.trees)
    ensures OL.AdmissibleRun(h + ClearEach(order), lim)
    ensures ClearedFor(l, OL.Run(h + ClearEach(order), lim), Elements(order))
    decreases |order|
  {
    if order == [] {
      assert h + ClearEach(order) == h && Elements(order) == {};
      ClearNobody(l);
    } else {
      var init := order[..|order| - 1];
      ClearEachClears(h, l, init, lim);
      ClearEachSnoc(h, order);
      ClearNext(h + ClearEach(init), l, Elements(init), order[|order| - 1], lim);
    }
  }

  /** A sweep's part in the store, within a run of the store. */
  lemma SweepClears(h: seq<OL.Op>, order: seq<ClientId>, lim: OL.Limits)
    requires OL.AdmissibleRun(h, lim)
    ensures OL.AdmissibleRun(h + ClearEach(order), lim)
    ensures ClearedFor(OL.Run(h, lim), OL.Run(h + ClearEach(order), lim), Elements(order))
  {
    OfflineRuns.EveryRunIsSound(h, lim);
    ClearEachClears(h, OL.Run(h, lim), order, lim);
  }

  lemma StoreStep(rows: map<ClientId, ST.Row>, ops: seq<Op>, lim: OL.Limits)
    requires ops != [] && Admissible(rows, ops, lim) && OL.AdmissibleRun(History(ops[..|ops| - 1]), lim)
    ensures OL.AdmissibleRun(History(ops), lim)
  {
    var h, op := History(ops[..|ops| - 1]), ops[|ops| - 1];
    match op {
      case Queue(m) => OneMoreStoreOp(h, OL.QueueMessage(m), lim);
      case Login(id, _, now, _) => OneMoreStoreOp(h, OL.Login(id, now), lim);
      case Sweep(_, order) => SweepClears(h, order, lim);
      case _ => assert h + StoreOps(op) == h;
    }
  }

  /** The store's part of every joint run is a run of the store, so all that holds of those holds here. */
  lemma {:induction false} StoreRuns(rows: map<ClientId, ST.Row>, ops: seq<Op>, lim: OL.Limits)
    requires Admissible(rows, ops, lim)
    ensures OL.AdmissibleRun(History(ops), lim)
    decreases |ops|
  {
    if ops != [] {
      StoreRuns(rows, ops[..|ops| - 1], lim);
      StoreStep(rows, ops, lim);
    }
  }

  lemma SameTrees(rows: map<ClientId, ST.Row>, ops: seq<Op>, lim: OL.Limits)
    ensures SessionAfter(rows, ops, lim).offline == LedgerAfter(ops, lim).trees
  {}

  /* ---------------- the session's side ---------------- */

  lemma {:induction false} SessionStaysTied(rows: map<ClientId, ST.Row>, ops: seq<Op>, lim: OL.Limits)
    requires Admissible(rows, ops, lim) && forall id :: id in rows ==> rows[id].clientId == id
    ensures ST.Tied(SessionAfter(rows, ops, lim)) && OfflineRuns.Sound(LedgerAfter(ops, lim))
    decreases |ops|
  {
    StoreRuns(rows, ops, lim);
    OfflineRuns.EveryRunIsSound(History(ops), lim);
    if ops == [] {
      ST.RestartInv(rows, OT.EMPTY);
    } else {
      var init, op := ops[..|ops| - 1], ops[|ops| - 1];
      var before := SessionAfter(rows, init, lim);
      SessionStaysTied(rows, init, lim);
      if SessionOp(op).Some? { ST.StepTied(before, SessionOp(op).value); }
      SameTreesTied(SessionStep(before, op), LedgerAfter(ops, lim).trees);
    }
  }

  lemma {:induction false} IndexAgrees(rows: map<ClientId, ST.Row>, ops: seq<Op>, lim: OL.Limits)
    requires CleanRun(rows, ops, lim)
    ensures RT.Agrees(SessionAfter(rows, ops, lim).registry)
    decreases |ops|
  {
    if ops != [] {
      var init, op := ops[..|ops| - 1], ops[|ops| - 1];
      IndexAgrees(rows, init, lim);
      if SessionOp(op).Some? { ST.StepAgrees(SessionAfter(rows, init, lim), SessionOp(op).value); }
    }
  }

  /** In every joint run the session's parts stay tied together, the session sees the store's trees and every message
      is accounted for; if the titles are clean as well, the session keeps its whole invariant. */
  lemma JointRunsAreSound(rows: map<ClientId, ST.Row>, ops: seq<Op>, lim: OL.Limits)
    requires Admissible(rows, ops, lim) && forall id :: id in rows ==> rows[id].clientId == id
    ensures ST.Tied(SessionAfter(rows, ops, lim))
    ensures CleanRun(rows, ops, lim) ==> ST.Inv(SessionAfter(rows, ops, lim))
    ensures SessionAfter(rows, ops, lim).offline == LedgerAfter(ops, lim).trees
    ensures OfflineRuns.Sound(LedgerAfter(ops, lim))
  {
    SessionStaysTied(rows, ops, lim);
    SameTrees(rows, ops, lim);
    if CleanRun(rows, ops, lim) { IndexAgrees(rows, ops, lim); }
  }

  /** A sweep clears the queues it says it clears: the session's own account of the store agrees with the store. */
  lemma SweepTogether(rows: map<ClientId, ST.Row>, ops: seq<Op>, lim: OL.Limits)
    requires ops != [] && Admissible(rows, ops, lim) && ops[|ops| - 1].Sweep?
    ensures var s := SessionAfter(rows, ops[..|ops| - 1], lim);
            SessionAfter(rows, ops, lim) == ST.SweepGhosts(s, ops[|ops| - 1].now)
  {
    var init, op := ops[..|ops| - 1], ops[|ops| - 1];
    StoreRuns(rows, init, lim);
    SameTrees(rows, init, lim);
    SweepClears(History(init), op.order, lim);
    SweepSession(SessionAfter(rows, init, lim), op.now, LedgerAfter(ops, lim).trees);
  }

  /** A login hands over what waits unexpired for that client, and leaves its queue empty if there was any. */
  lemma LoginHandsOver(rows: map<ClientId, ST.Row>, ops: seq<Op>, lim: OL.Limits, id: OT.MessageId)
    requires ops != [] && Admissible(rows, ops, lim) && ops[|ops| - 1].Login?
    ensures var l, login := LedgerAfter(ops[..|ops| - 1], lim), ops[|ops| - 1];
            id in l.trees.queue && l.trees.queue[id].clientId == login.id
            && login.now <= l.trees.queue[id].timestamp + lim.ttl ==>
              && FateCauses.Has(LedgerAfter(ops, lim), id, OL.HandedOver(l.logins))
              && OT.Queue(SessionAfter(rows, ops, lim).offline, login.id) == []
  {
    var init, login := ops[..|ops| - 1], ops[|ops| - 1];
    var l := LedgerAfter(init, lim);
    StoreRuns(rows, init, lim);
    OfflineRuns.EveryRunIsSound(History(init), lim);
    OneMoreStoreOp(History(init), OL.Login(login.id, login.now), lim);
    FateCauses.StepBrings(l, OL.Login(login.id, login.now), lim, id, OL.HandedOver(l.logins));
    if id in l.trees.queue && l.trees.queue[id].clientId == login.id
       && login.now <= l.trees.queue[id].timestamp + lim.ttl {
      FateCauses.RowInQueue(l.trees, id);
      FateCauses.SomeGoAlong(OT.Queue(l.trees, login.id), login.now, lim.ttl);
      OT.ClearRefines(l.trees, login.id, login.id);
    }
  }

  /* ---------------- who loses messages to a sweep ---------------- */

  /** After the operations `before`, operation `op` is a sweep that finds the message waiting for an expired row. */
  ghost predicate Loses(rows: map<ClientId, ST.Row>, before: seq<Op>, op: Op, lim: OL.Limits, id: OT.MessageId) {
    && op.Sweep?
    && var t := LedgerAfter(before, lim).trees;
       id in t.queue && t.queue[id].clientId in ST.ExpiredRows(SessionAfter(rows, before, lim).rows, op.now)
  }

  /** One operation makes a message Cleared exactly when it is a sweep that finds it waiting for an expired row. */
  lemma ClearedByStep(rows: map<ClientId, ST.Row>, ops: seq<Op>, lim: OL.Limits, id: OT.MessageId)
    requires ops != [] && Admissible(rows, ops, lim)
    ensures IsCleared(LedgerAfter(ops, lim), id) <==>
            IsCleared(LedgerAfter(ops[..|ops| - 1], lim), id) || Loses(rows, ops[..|ops| - 1], ops[|ops| - 1], lim, id)
  {
    var init, op := ops[..|ops| - 1], ops[|ops| - 1];
    var h, l := History(init), LedgerAfter(init, lim);
    StoreRuns(rows, init, lim);
    OfflineRuns.EveryRunIsSound(h, lim);
    match op {
      case Queue(m) =>
        OneMoreStoreOp(h, OL.QueueMessage(m), lim);
        QueueClearsNothing(l, m, lim, id);
      case Login(c, _, now, _) =>
        OneMoreStoreOp(h, OL.Login(c, now), lim);
        LoginClearsNothing(l, c, now, lim, id);
      case Sweep(_, order) =>
        SweepClears(h, order, lim);
        ClearedForFate(l, LedgerAfter(ops, lim), Elements(order), id);
      case _ => assert h + StoreOps(op) == h;
    }
  }

  /** For each operation of a run whether it loses the message. */
  ghost function Losses(rows: map<ClientId, ST.Row>, ops: seq<Op>, lim: OL.Limits, id: OT.MessageId): (r: seq<bool>)
    ensures |r| == |ops|
  {
    if ops == [] then []
    else
      var init := ops[..|ops| - 1];
      Losses(rows, init, lim, id) + [Loses(rows, init, ops[|ops| - 1], lim, id)]
  }

  lemma {:induction false} LossesAt(rows: map<ClientId, ST.Row>, ops: seq<Op>, lim: OL.Limits, id: OT.MessageId, k: nat)
    requires k < |ops|
    ensures Losses(rows, ops, lim, id)[k] == Loses(rows, ops[..k], ops[k], lim, id)
    decreases |ops|
  {
    var init := ops[..|ops| - 1];
    if k < |init| {
      LossesAt(rows, init, lim, id, k);
      assert init[..k] == ops[..k];
    }
  }

  lemma {:induction false} ClearedMeansLoss(rows: map<ClientId, ST.Row>, ops: seq<Op>, lim: OL.Limits, id: OT.MessageId)
    requires Admissible(rows, ops, lim)
    ensures IsCleared(LedgerAfter(ops, lim), id) <==> true in Losses(rows, ops, lim, id)
    decreases |ops|
  {
    if ops != [] {
      ClearedMeansLoss(rows, ops[..|ops| - 1], lim, id);
      ClearedByStep(rows, ops, lim, id);
    }
  }

  /** Over every joint run: a message ends up Cleared if and only if some sweep found it waiting for a client whose row
      had expired. */
  lemma ClearedExactly(rows: map<ClientId, ST.Row>, ops: seq<Op>, lim: OL.Limits, id: OT.MessageId)
    requires Admissible(rows, ops, lim)
    ensures IsCleared(LedgerAfter(ops, lim), id) <==>
            exists k :: 0 <= k < |ops| && Loses(rows, ops[..k], ops[k], lim, id)
  {
    ClearedMeansLoss(rows, ops, lim, id);
    var losses := Losses(rows, ops, lim, id);
    forall k | 0 <= k < |ops| ensures losses[k] == Loses(rows, ops[..k], ops[k], lim, id) {
      LossesAt(rows, ops, lim, id, k);
    }
  }
}
