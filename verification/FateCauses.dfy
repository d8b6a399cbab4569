/** Why each message left its queue. */
module FateCauses {
  import opened Common
  import opened OfflineTheory
  import opened OfflineLedger
  import opened QueueOrder
  import OfflineRuns

  ghost predicate SomeFresh(q: seq<Message>, now: nat, ttl: nat) {
    exists n :: n in q && now <= n.timestamp + ttl
  }

  /** The operation finds the message waiting and gives it that fate: the oldest of a full queue makes room for a
      message to the same client; a login of its client takes it along if it is not expired, and drops it if it is and
      others go along; a sweep drops it if it is expired; a clearing of its client or its own removal clears it. */
  ghost predicate Brings(l: Ledger, op: Op, lim: Limits, id: MessageId, f: Fate) {
    id in l.trees.queue &&
    var m := l.trees.queue[id];
    var queue := Queue(l.trees, m.clientId);
    match op
    case QueueMessage(n) =>
      f == Evicted && n.clientId == m.clientId && |queue| >= lim.queueSize && queue != [] && queue[0] == m
    case Login(c, now) =>
      && c == m.clientId
      && (if now > m.timestamp + lim.ttl then f == DroppedExpired && SomeFresh(queue, now, lim.ttl)
          else f == HandedOver(l.logins))
    case SweepExpired(now) => f == DroppedExpired && now > m.timestamp + lim.ttl
    case ClearClient(c) => f == Cleared && c == m.clientId
    case RemoveMessage(_, k) => f == Cleared && k == id
  }

  ghost predicate Has(l: Ledger, id: MessageId, f: Fate) {
    id in l.fates && l.fates[id] == f
  }

  lemma OldestRow(t: Trees, id: MessageId, c: ClientId)
    requires Consistent(t) && id in t.queue
    ensures Ids(t, c) != [] && Ids(t, c)[0] == id <==>
            t.queue[id].clientId == c && Queue(t, c) != [] && Queue(t, c)[0] == t.queue[id]
    ensures |Queue(t, c)| == |Ids(t, c)|
  {
    OwnedIds(t, c);
    OfflineRuns.IdListRows(t.queue, Ids(t, c));
    if Queue(t, c) != [] {
      var first := Queue(t, c)[0];
      assert OfflineRuns.IdList(Queue(t, c))[0] == first.id;
      RowsMembers(t.queue, Ids(t, c), first);
    }
  }

  lemma QueueingBrings(l: Ledger, n: Message, lim: Limits, id: MessageId, f: Fate)
    requires Accounted(l)
    ensures Has(Step(l, QueueMessage(n), lim), id, f) <==> Has(l, id, f) || Brings(l, QueueMessage(n), lim, id, f)
  {
    OwnedIds(l.trees, n.clientId);
    if id in l.trees.queue { OldestRow(l.trees, id, n.clientId); }
  }

  lemma SomeGoAlong(q: seq<Message>, now: nat, ttl: nat)
    ensures Unexpired(q, now, ttl) != [] <==> SomeFresh(q, now, ttl)
  {
    UnexpiredMembers(q, now, ttl);
    EmptyOrInhabited(Unexpired(q, now, ttl));
  }

  lemma RowInQueue(t: Trees, id: MessageId)
    requires Consistent(t) && id in t.queue
    ensures t.queue[id] in Queue(t, t.queue[id].clientId)
  {
    assert RowIndexed(t, id);
    RowsMembers(t.queue, Ids(t, t.queue[id].clientId), t.queue[id]);
  }

  lemma FatesOfLogin(l: Ledger, c: ClientId, now: nat, ttl: nat, id: MessageId, f: Fate)
    requires l.trees.queue.Keys !! l.fates.Keys
    ensures Has(l.(fates := LoginFates(l, c, now, ttl)), id, f) <==>
            || Has(l, id, f)
            || (id in l.trees.queue && l.trees.queue[id].clientId == c
                && f == if now > l.trees.queue[id].timestamp + ttl then DroppedExpired else HandedOver(l.logins))
  {}

  lemma LoginBrings(l: Ledger, c: ClientId, now: nat, lim: Limits, id: MessageId, f: Fate)
    requires Accounted(l)
    ensures Has(Step(l, Login(c, now), lim), id, f) <==> Has(l, id, f) || Brings(l, Login(c, now), lim, id, f)
  {
    var q := Queue(l.trees, c);
    SomeGoAlong(q, now, lim.ttl);
    if id in l.trees.queue && l.trees.queue[id].clientId == c {
      RowInQueue(l.trees, id);
      assert now <= l.trees.queue[id].timestamp + lim.ttl ==> SomeFresh(q, now, lim.ttl);
    }
    FatesOfLogin(l, c, now, lim.ttl, id, f);
  }

  lemma SweepBrings(l: Ledger, now: nat, lim: Limits, id: MessageId, f: Fate)
    requires l.trees.queue.Keys !! l.fates.Keys
    ensures Has(Step(l, SweepExpired(now), lim), id, f) <==> Has(l, id, f) || Brings(l, SweepExpired(now), lim, id, f)
  {}

  lemma ClearingBrings(l: Ledger, op: Op, lim: Limits, id: MessageId, f: Fate)
    requires l.trees.queue.Keys !! l.fates.Keys && (op.ClearClient? || op.RemoveMessage?)
    ensures Has(Step(l, op, lim), id, f) <==> Has(l, id, f) || Brings(l, op, lim, id, f)
  {}

  /** A step gives a message a fate exactly when it is a cause of that fate. */
  lemma StepBrings(l: Ledger, op: Op, lim: Limits, id: MessageId, f: Fate)
    requires Accounted(l) && Admissible(l, op)
    ensures Has(Step(l, op, lim), id, f) <==> Has(l, id, f) || Brings(l, op, lim, id, f)
  {
    match op {
      case QueueMessage(n) => QueueingBrings(l, n, lim, id, f);
      case Login(c, now) => LoginBrings(l, c, now, lim, id, f);
      case SweepExpired(now) => SweepBrings(l, now, lim, id, f);
      case _ => ClearingBrings(l, op, lim, id, f);
    }
  }

  /** Operation `k` of the run gave the message that fate. */
  ghost predicate Brought(ops: seq<Op>, lim: Limits, k: nat, id: MessageId, f: Fate) {
    k < |ops| && Brings(Run(ops[..k], lim), ops[k], lim, id, f)
  }

  lemma BroughtBefore(ops: seq<Op>, lim: Limits, k: nat, id: MessageId, f: Fate)
    requires k < |ops| - 1
    ensures Brought(ops, lim, k, id, f) == Brought(ops[..|ops| - 1], lim, k, id, f)
  {
    assert ops[..|ops| - 1][..k] == ops[..k];
  }

  lemma {:induction false} FateHasCause(ops: seq<Op>, lim: Limits, id: MessageId, f: Fate) returns (k: nat)
    requires AdmissibleRun(ops, lim) && Has(Run(ops, lim), id, f)
    ensures Brought(ops, lim, k, id, f)
  {
    var init := ops[..|ops| - 1];
    OfflineRuns.EveryRunIsSound(init, lim);
    StepBrings(Run(init, lim), ops[|ops| - 1], lim, id, f);
    if Has(Run(init, lim), id, f) {
      k := FateHasCause(init, lim, id, f);
      BroughtBefore(ops, lim, k, id, f);
    } else {
      k := |init|;
    }
  }

  lemma {:induction false} CauseGivesFate(ops: seq<Op>, lim: Limits, k: nat, id: MessageId, f: Fate)
    requires AdmissibleRun(ops, lim) && Brought(ops, lim, k, id, f)
    ensures Has(Run(ops, lim), id, f)
    decreases |ops|
  {
    var init := ops[..|ops| - 1];
    if k < |init| {
      BroughtBefore(ops, lim, k, id, f);
      CauseGivesFate(init, lim, k, id, f);
    }
    OfflineRuns.EveryRunIsSound(init, lim);
    StepBrings(Run(init, lim), ops[|ops| - 1], lim, id, f);
  }

  /** Over every run: a message has a fate if and only if some operation was the cause of it. */
  lemma FateExactly(ops: seq<Op>, lim: Limits, id: MessageId, f: Fate)
    requires AdmissibleRun(ops, lim)
    ensures Has(Run(ops, lim), id, f) <==> exists k: nat :: Brought(ops, lim, k, id, f)
  {
    if Has(Run(ops, lim), id, f) { var k := FateHasCause(ops, lim, id, f); }
    forall k: nat | Brought(ops, lim, k, id, f) ensures Has(Run(ops, lim), id, f) {
      CauseGivesFate(ops, lim, k, id, f);
    }
  }

  function LoginsIn(ops: seq<Op>): nat {
    if ops == [] then 0 else LoginsIn(ops[..|ops| - 1]) + if ops[|ops| - 1].Login? then 1 else 0
  }

  /** The number in a hand-over is that of the login. */
  lemma {:induction false} LoginNumber(ops: seq<Op>, lim: Limits)
    ensures Run(ops, lim).logins == LoginsIn(ops)
  {
    if ops != [] { LoginNumber(ops[..|ops| - 1], lim); }
  }

  /** A message handed over went along with the login of that number, a login of its own client at which it was waiting
      and not expired. */
  lemma HandedOverAtLogin(ops: seq<Op>, lim: Limits, id: MessageId, n: nat) returns (k: nat)
    requires AdmissibleRun(ops, lim) && Has(Run(ops, lim), id, HandedOver(n))
    ensures k < |ops| && ops[k].Login? && LoginsIn(ops[..k]) == n
    ensures var queue := Run(ops[..k], lim).trees.queue;
            id in queue && queue[id].clientId == ops[k].c && ops[k].now <= queue[id].timestamp + lim.ttl
  {
    k := FateHasCause(ops, lim, id, HandedOver(n));
    LoginNumber(ops[..k], lim);
  }
}
