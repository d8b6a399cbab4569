/** Whole runs of the offline store: what becomes of every message ever queued.

    A ledger keeps, beside the trees, the messages queued so far, the messages handed over at logins,
    and for each message that has left its queue how it left.  Logins and sweeps are single steps. */
module OfflineLedger {
  import opened Common
  import opened OfflineTheory
  import opened QueueOrder

  datatype Fate = HandedOver(login: nat) | Evicted | DroppedExpired | Cleared

  datatype Ledger = Ledger(
    trees: Trees, added: seq<Message>, handed: seq<Message>, fates: map<MessageId, Fate>, logins: nat)

  const NEW: Ledger := Ledger(EMPTY, [], [], map[], 0)

  datatype Op =
    | QueueMessage(m: Message)
    | Login(c: ClientId, now: nat)
    | SweepExpired(now: nat)
    | ClearClient(c: ClientId)
    | RemoveMessage(c: ClientId, id: MessageId)

  datatype Limits = Limits(queueSize: nat, ttl: nat)

  /** The rows of one client. */
  function RowsOf(t: Trees, c: ClientId): set<MessageId> {
    set id | id in t.queue && t.queue[id].clientId == c
  }

  function ExpiredRows(t: Trees, now: nat, ttl: nat): set<MessageId> {
    set id | id in t.queue && Expired(t.queue[id], now, ttl)
  }

  function EvictedBy(t: Trees, m: Message, limit: nat): set<MessageId> {
    var ids := Ids(t, m.clientId);
    if |ids| >= limit && ids != [] then {ids[0]} else {}
  }

  function Leave(l: Ledger, ids: set<MessageId>, fate: Fate): map<MessageId, Fate> {
    l.fates + map id | id in ids :: fate
  }

  /** How the rows of a client leave at its login. */
  function LoginFates(l: Ledger, c: ClientId, now: nat, ttl: nat): map<MessageId, Fate> {
    l.fates + map id | id in l.trees.queue && l.trees.queue[id].clientId == c
      :: if Expired(l.trees.queue[id], now, ttl) then DroppedExpired else HandedOver(l.logins)
  }

  function Step(l: Ledger, op: Op, lim: Limits): Ledger {
    match op
    case QueueMessage(m) =>
      l.(trees := Add(l.trees, m, lim.queueSize), added := l.added + [m],
         fates := Leave(l, EvictedBy(l.trees, m, lim.queueSize), Evicted))
    case Login(c, now) =>
      // The drain clears the queue only if it had something to hand over.
      var drained := Unexpired(Queue(l.trees, c), now, lim.ttl);
      if drained == [] then l.(logins := l.logins + 1)
      else l.(trees := Clear(l.trees, c), handed := l.handed + drained,
              fates := LoginFates(l, c, now, lim.ttl), logins := l.logins + 1)
    case SweepExpired(now) =>
      l.(trees := Cleanup(l.trees, now, lim.ttl),
         fates := Leave(l, ExpiredRows(l.trees, now, lim.ttl), DroppedExpired))
    case ClearClient(c) =>
      l.(trees := Clear(l.trees, c), fates := Leave(l, RowsOf(l.trees, c), Cleared))
    case RemoveMessage(c, id) =>
      l.(trees := Remove(l.trees, c, id), fates := Leave(l, {id} * l.trees.queue.Keys, Cleared))
  }

  function Run(ops: seq<Op>, lim: Limits): Ledger {
    if ops == [] then NEW else Step(Run(ops[..|ops| - 1], lim), ops[|ops| - 1], lim)
  }

  /** What a step relies on: a queued message has a fresh id, a removal names the message's client. */
  ghost predicate Admissible(l: Ledger, op: Op) {
    match op
    case QueueMessage(m) => m.id !in l.trees.queue && m.id !in l.fates
    case RemoveMessage(c, id) => id in l.trees.queue ==> l.trees.queue[id].clientId == c
    case _ => true
  }

  ghost predicate AdmissibleRun(ops: seq<Op>, lim: Limits) {
    ops == [] || (AdmissibleRun(ops[..|ops| - 1], lim) && Admissible(Run(ops[..|ops| - 1], lim), ops[|ops| - 1]))
  }

  /* ---------------- every message is in exactly one place ---------------- */

  function IdSet(q: seq<Message>): set<MessageId> {
    set m | m in q :: m.id
  }

  /** The ids in the queues and the ids that have left partition the ids ever queued. */
  ghost predicate Accounted(l: Ledger) {
    && Consistent(l.trees)
    && l.trees.queue.Keys !! l.fates.Keys
    && l.trees.queue.Keys + l.fates.Keys == IdSet(l.added)
  }

  /** The messages that leave their queues in a step. */
  ghost function Left(l: Ledger, op: Op, lim: Limits): set<MessageId> {
    match op
    case QueueMessage(m) => EvictedBy(l.trees, m, lim.queueSize)
    case Login(c, now) => if Unexpired(Queue(l.trees, c), now, lim.ttl) == [] then {} else RowsOf(l.trees, c)
    case SweepExpired(now) => ExpiredRows(l.trees, now, lim.ttl)
    case ClearClient(c) => RowsOf(l.trees, c)
    case RemoveMessage(_, id) => {id} * l.trees.queue.Keys
  }

  function Queued(op: Op): seq<Message> {
    if op.QueueMessage? then [op.m] else []
  }

  lemma RowsOfIsIds(t: Trees, c: ClientId)
    requires Consistent(t)
    ensures RowsOf(t, c) == Elements(Ids(t, c))
  {
    OwnedIds(t, c);
    forall id | id in RowsOf(t, c) ensures id in Ids(t, c) { assert RowIndexed(t, id); }
  }

  lemma MakeRoomRows(t: Trees, m: Message, limit: nat)
    ensures MakeRoom(t, m.clientId, limit).queue == t.queue - EvictedBy(t, m, limit)
  {
    assert t.queue - {} == t.queue;
  }

  lemma RowsAfterQueueing(t: Trees, m: Message, limit: nat)
    requires Consistent(t) && m.id !in t.queue
    ensures Consistent(Add(t, m, limit))
    ensures Add(t, m, limit).queue == (t.queue - EvictedBy(t, m, limit))[m.id := m]
    ensures EvictedBy(t, m, limit) <= t.queue.Keys
  {
    MakeRoomRows(t, m, limit);
    AddConsistent(t, m, limit);
    OwnedIds(t, m.clientId);
  }

  lemma RowsAfterClear(t: Trees, c: ClientId)
    requires Consistent(t)
    ensures Consistent(Clear(t, c)) && Clear(t, c).queue == t.queue - RowsOf(t, c)
  {
    ClearRefines(t, c, c);
    RowsOfIsIds(t, c);
  }

  lemma RowsAfterSweep(t: Trees, now: nat, ttl: nat)
    requires Consistent(t)
    ensures Consistent(Cleanup(t, now, ttl)) && Cleanup(t, now, ttl).queue == t.queue - ExpiredRows(t, now, ttl)
  {
    CleanupConsistent(t, now, ttl);
    CleanupRows(t, now, ttl);
  }

  lemma RowsAfterRemove(t: Trees, c: ClientId, id: MessageId)
    requires Consistent(t) && (id in t.queue ==> t.queue[id].clientId == c)
    ensures Consistent(Remove(t, c, id)) && Remove(t, c, id).queue == t.queue - ({id} * t.queue.Keys)
  {
    RemoveConsistent(t, c, id);
  }

  /** A step takes exactly the leaving messages out of the rows and keeps the rest as they were. */
  lemma RowsAfterStep(l: Ledger, op: Op, lim: Limits)
    requires Consistent(l.trees) && Admissible(l, op)
    ensures Consistent(Step(l, op, lim).trees)
    ensures Left(l, op, lim) <= l.trees.queue.Keys
    ensures var rest := l.trees.queue - Left(l, op, lim);
            Step(l, op, lim).trees.queue == if op.QueueMessage? then rest[op.m.id := op.m] else rest
  {
    match op {
      case QueueMessage(m) => RowsAfterQueueing(l.trees, m, lim.queueSize);
      case Login(c, now) => RowsAfterClear(l.trees, c); assert l.trees.queue - {} == l.trees.queue;
      case SweepExpired(now) => RowsAfterSweep(l.trees, now, lim.ttl);
      case ClearClient(c) => RowsAfterClear(l.trees, c);
      case RemoveMessage(c, id) => RowsAfterRemove(l.trees, c, id);
    }
  }

  lemma KeysAfterStep(l: Ledger, op: Op, lim: Limits)
    requires Consistent(l.trees) && Admissible(l, op)
    ensures Step(l, op, lim).trees.queue.Keys == l.trees.queue.Keys - Left(l, op, lim) + IdSet(Queued(op))
  {
    RowsAfterStep(l, op, lim);
    if op.QueueMessage? {
      IdSetSnoc([], op.m);
      assert [] + [op.m] == [op.m];
    }
  }

  /** A step records a fate for exactly the leaving messages. */
  lemma FatesAfterStep(l: Ledger, op: Op, lim: Limits)
    requires Left(l, op, lim) !! l.fates.Keys
    ensures Step(l, op, lim).fates.Keys == l.fates.Keys + Left(l, op, lim)
    ensures forall id :: id in l.fates ==> id in Step(l, op, lim).fates && Step(l, op, lim).fates[id] == l.fates[id]
  {}

  /** No step loses a message, leaves one in two places, or changes how one has left. */
  lemma StepAccounts(l: Ledger, op: Op, lim: Limits)
    requires Accounted(l) && Admissible(l, op)
    ensures Accounted(Step(l, op, lim))
    ensures forall id :: id in l.fates ==> id in Step(l, op, lim).fates && Step(l, op, lim).fates[id] == l.fates[id]
  {
    RowsAfterStep(l, op, lim);
    KeysAfterStep(l, op, lim);
    FatesAfterStep(l, op, lim);
    IdSetOfStep(l, op, lim);
    Repartition(l.trees.queue.Keys, l.fates.Keys, Left(l, op, lim), IdSet(Queued(op)));
  }

  lemma Repartition(queued: set<MessageId>, gone: set<MessageId>, left: set<MessageId>, joined: set<MessageId>)
    requires queued !! gone && left <= queued && joined !! queued && joined !! gone
    ensures queued - left + joined !! gone + left
    ensures (queued - left + joined) + (gone + left) == queued + gone + joined
  {}

  lemma IdSetOfStep(l: Ledger, op: Op, lim: Limits)
    ensures IdSet(Step(l, op, lim).added) == IdSet(l.added) + IdSet(Queued(op))
    ensures Admissible(l, op) ==> IdSet(Queued(op)) !! l.trees.queue.Keys && IdSet(Queued(op)) !! l.fates.Keys
  {
    if op.QueueMessage? {
      IdSetSnoc(l.added, op.m);
      IdSetSnoc([], op.m);
      assert [] + [op.m] == [op.m];
    }
  }

  lemma IdSetSnoc(q: seq<Message>, m: Message)
    ensures IdSet(q + [m]) == IdSet(q) + {m.id}
  {}

  /* ---------------- first in, first out ---------------- */

  /** What a client has been handed, followed by what still waits for it, is what was queued for it
      in the order it was queued, with some messages left out. */
  ghost predicate InOrder(l: Ledger, c: ClientId) {
    Subsequence(For(l.handed, c) + Queue(l.trees, c), For(l.added, c))
  }

  lemma QueueingKeepsOrder(l: Ledger, m: Message, lim: Limits, c: ClientId)
    requires Accounted(l) && Admissible(l, QueueMessage(m)) && InOrder(l, c)
    ensures InOrder(Step(l, QueueMessage(m), lim), c)
  {
    var q, h := Queue(l.trees, c), For(l.handed, c);
    AddRefines(l.trees, m, lim.queueSize, c);
    ForSnoc(l.added, m, c);
    if m.clientId == c {
      var kept := if |q| >= lim.queueSize && q != [] then q[1..] else q;
      if q != [] { TailSubsequence(q); }
      SubsequenceSame(q);
      ShrinkKeepsOrder(h, q, kept, For(l.added, c));
      SubsequenceSnoc(h + kept, For(l.added, c), m);
      ConcatAssoc(h, kept, [m]);
    }
  }

  lemma DrainKeepsOrder(l: Ledger, d: ClientId, now: nat, ttl: nat, c: ClientId)
    requires Consistent(l.trees) && InOrder(l, c)
    ensures var drained := Unexpired(Queue(l.trees, d), now, ttl);
            Subsequence(For(l.handed + drained, c) + Queue(Clear(l.trees, d), c), For(l.added, c))
  {
    var q := Queue(l.trees, d);
    var drained := Unexpired(q, now, ttl);
    ClearRefines(l.trees, d, c);
    ForConcat(l.handed, drained, c);
    assert forall m :: m in drained ==> m.clientId == d by {
      QueueIsForOwner(l.trees, d);
      UnexpiredMembers(q, now, ttl);
    }
    ForOneClient(drained, d, c);
    UnexpiredSubsequence(q, now, ttl);
    if c == d {
      ShrinkKeepsOrder(For(l.handed, c), q, drained, For(l.added, c));
      AppendNothing(For(l.handed, c) + drained);
    } else {
      AppendNothing(For(l.handed, c));
    }
  }

  lemma OtherStepsKeepOrder(l: Ledger, op: Op, lim: Limits, c: ClientId)
    requires Accounted(l) && Admissible(l, op) && InOrder(l, c) && !op.QueueMessage? && !op.Login?
    ensures InOrder(Step(l, op, lim), c)
  {
    var q := Queue(l.trees, c);
    SubsequenceSame(q);
    match op {
      case SweepExpired(now) =>
        CleanupRefines(l.trees, now, lim.ttl, c);
        UnexpiredSubsequence(q, now, lim.ttl);
      case ClearClient(d) =>
        ClearRefines(l.trees, d, c);
      case RemoveMessage(d, id) =>
        RemoveRefines(l.trees, d, id, c);
        DeleteByIdSubsequence(q, id);
    }
    ShrinkKeepsOrder(For(l.handed, c), q, Queue(Step(l, op, lim).trees, c), For(l.added, c));
  }

  lemma StepKeepsOrder(l: Ledger, op: Op, lim: Limits, c: ClientId)
    requires Accounted(l) && Admissible(l, op) && InOrder(l, c)
    ensures InOrder(Step(l, op, lim), c)
  {
    match op {
      case QueueMessage(m) => QueueingKeepsOrder(l, m, lim, c);
      case Login(d, now) => DrainKeepsOrder(l, d, now, lim.ttl, c);
      case _ => OtherStepsKeepOrder(l, op, lim, c);
    }
  }
}
