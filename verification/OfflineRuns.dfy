/** Theorems over every run of the offline store. */
module OfflineRuns {
  import opened Common
  import opened OfflineTheory
  import opened OfflineLedger
  import MessageIds

  function IdList(q: seq<Message>): (r: seq<MessageId>)
    ensures |r| == |q|
  {
    seq(|q|, i requires 0 <= i < |q| => q[i].id)
  }

  lemma IdListSnoc(q: seq<Message>, m: Message)
    ensures IdList(q + [m]) == IdList(q) + [m.id]
  {}

  lemma IdListConcat(a: seq<Message>, b: seq<Message>)
    ensures IdList(a + b) == IdList(a) + IdList(b)
  {}

  lemma IdSetConcat(a: seq<Message>, b: seq<Message>)
    ensures IdSet(a + b) == IdSet(a) + IdSet(b)
  {}

  lemma IdListElements(q: seq<Message>)
    ensures Elements(IdList(q)) == IdSet(q)
  {
    forall m | m in q ensures m.id in IdList(q) {
      var i :| 0 <= i < |q| && q[i] == m;
      assert IdList(q)[i] == m.id;
    }
    forall id | id in IdList(q) ensures id in IdSet(q) {
      var i :| 0 <= i < |q| && IdList(q)[i] == id;
      assert q[i] in q;
    }
  }

  lemma {:induction false} IdListRows(queue: map<MessageId, Message>, ids: seq<MessageId>)
    requires forall id :: id in ids ==> id in queue && queue[id].id == id
    ensures IdList(Rows(queue, ids)) == ids
  {
    if ids != [] {
      var init, last := ids[..|ids| - 1], ids[|ids| - 1];
      assert ids == init + [last];
      IdListRows(queue, init);
      IdListSnoc(Rows(queue, init), queue[last]);
    }
  }

  lemma {:induction false} NoDupConcat(a: seq<MessageId>, b: seq<MessageId>)
    requires NoDup(a) && NoDup(b) && forall x :: x in b ==> x !in a
    ensures NoDup(a + b)
  {
    if b == [] {
      assert a + b == a;
    } else {
      assert b == b[..|b| - 1] + [b[|b| - 1]];
      NoDupConcat(a, b[..|b| - 1]);
      assert (a + b)[..|a + b| - 1] == a + b[..|b| - 1];
    }
  }

  /* ---------------- hand-over ---------------- */

  ghost function HandedIds(fates: map<MessageId, Fate>): set<MessageId> {
    set id | id in fates && fates[id].HandedOver?
  }

  /** The hand-over log holds exactly the messages recorded as handed over, each once. */
  ghost predicate HandedOnce(l: Ledger) {
    NoDup(IdList(l.handed)) && IdSet(l.handed) == HandedIds(l.fates)
  }

  /** What a drain hands over: the unexpired rows of the client, each once. */
  lemma DrainedIds(t: Trees, c: ClientId, now: nat, ttl: nat)
    requires Consistent(t)
    ensures var drained := Unexpired(Queue(t, c), now, ttl);
            && NoDup(IdList(drained))
            && IdSet(drained) == RowsOf(t, c) - ExpiredRows(t, now, ttl)
  {
    var ids := Ids(t, c);
    OwnedIds(t, c);
    RowsOfIsIds(t, c);
    UnexpiredIsLive(t.queue, ids, now, ttl);
    SweptIds(t.queue, ids, now, ttl);
    LiveNoDup(t.queue, ids, now, ttl);
    IdListRows(t.queue, LiveIds(t.queue, ids, now, ttl));
    IdListElements(Unexpired(Queue(t, c), now, ttl));
  }

  lemma LoginHandsOnce(l: Ledger, c: ClientId, now: nat, lim: Limits)
    requires Accounted(l) && HandedOnce(l)
    ensures HandedOnce(Step(l, Login(c, now), lim))
  {
    var drained := Unexpired(Queue(l.trees, c), now, lim.ttl);
    if drained != [] {
      DrainedIds(l.trees, c, now, lim.ttl);
      IdListConcat(l.handed, drained);
      IdListElements(l.handed);
      IdListElements(drained);
      assert IdSet(drained) !! HandedIds(l.fates);
      forall x | x in IdList(drained) ensures x !in IdList(l.handed) {
        assert x in IdSet(drained);
        assert x !in Elements(IdList(l.handed));
      }
      NoDupConcat(IdList(l.handed), IdList(drained));
      LoginHandedIds(l, c, now, lim.ttl);
      IdSetConcat(l.handed, drained);
    }
  }

  lemma LoginHandedIds(l: Ledger, c: ClientId, now: nat, ttl: nat)
    requires l.trees.queue.Keys !! l.fates.Keys
    ensures HandedIds(LoginFates(l, c, now, ttl))
            == HandedIds(l.fates) + (RowsOf(l.trees, c) - ExpiredRows(l.trees, now, ttl))
  {}

  lemma OtherFates(l: Ledger, ids: set<MessageId>, fate: Fate)
    requires ids !! l.fates.Keys && !fate.HandedOver?
    ensures HandedIds(Leave(l, ids, fate)) == HandedIds(l.fates)
  {}

  lemma StepHandsOnce(l: Ledger, op: Op, lim: Limits)
    requires Accounted(l) && Admissible(l, op) && HandedOnce(l)
    ensures HandedOnce(Step(l, op, lim))
  {
    RowsAfterStep(l, op, lim);
    match op {
      case Login(c, now) => LoginHandsOnce(l, c, now, lim);
      case QueueMessage(m) => OtherFates(l, Left(l, op, lim), Evicted);
      case SweepExpired(now) => OtherFates(l, Left(l, op, lim), DroppedExpired);
      case _ => OtherFates(l, Left(l, op, lim), Cleared);
    }
  }

  /* ---------------- contents ---------------- */

  /** Ids were never reused, and rows are as they were queued. */
  ghost predicate Faithful(l: Ledger) {
    NoDup(IdList(l.added)) && forall id :: id in l.trees.queue ==> l.trees.queue[id] in l.added
  }

  lemma StepIsFaithful(l: Ledger, op: Op, lim: Limits)
    requires Accounted(l) && Admissible(l, op) && Faithful(l)
    ensures Faithful(Step(l, op, lim))
  {
    RowsAfterStep(l, op, lim);
    if op.QueueMessage? {
      IdListSnoc(l.added, op.m);
      IdListElements(l.added);
      assert op.m.id !in Elements(IdList(l.added));
      AppendNoDup(IdList(l.added), op.m.id);
    }
  }

  lemma {:induction false} SameIdSameMessage(q: seq<Message>, m: Message, n: Message)
    requires NoDup(IdList(q)) && m in q && n in q && m.id == n.id
    ensures m == n
  {
    var i :| 0 <= i < |q| && q[i] == m;
    var j :| 0 <= j < |q| && q[j] == n;
    assert IdList(q)[i] == IdList(q)[j];
    if i < j { NoDupAt(IdList(q), i, j); assert false; }
    if j < i { NoDupAt(IdList(q), j, i); assert false; }
  }

  /* ---------------- every run ---------------- */

  ghost predicate Sound(l: Ledger) {
    Accounted(l) && HandedOnce(l) && Faithful(l) && forall c :: InOrder(l, c)
  }

  lemma NewIsSound()
    ensures Sound(NEW)
  {
    assert IdList([]) == [];
    forall c ensures InOrder(NEW, c) {}
  }

  /** Every reachable ledger is sound: nothing lost, nothing duplicated, nothing altered, and each
      client's hand-overs in the order of queueing. */
  lemma {:induction false} EveryRunIsSound(ops: seq<Op>, lim: Limits)
    requires AdmissibleRun(ops, lim)
    ensures Sound(Run(ops, lim))
  {
    if ops == [] {
      NewIsSound();
    } else {
      var l, op := Run(ops[..|ops| - 1], lim), ops[|ops| - 1];
      EveryRunIsSound(ops[..|ops| - 1], lim);
      StepAccounts(l, op, lim);
      StepHandsOnce(l, op, lim);
      StepIsFaithful(l, op, lim);
      forall c ensures InOrder(Step(l, op, lim), c) { StepKeepsOrder(l, op, lim, c); }
    }
  }

  /** Every message ever queued is either still in its client's queue, unaltered, or has left it in
      exactly one way; and it is in the hand-over log exactly when that way was a login. */
  lemma ExactlyOnePlace(ops: seq<Op>, lim: Limits, m: Message)
    requires AdmissibleRun(ops, lim) && m in Run(ops, lim).added
    ensures var l := Run(ops, lim);
            var waiting := m.id in l.trees.queue;
            && (waiting <==> m in Queue(l.trees, m.clientId))
            && (waiting <==> m.id !in l.fates)
            && (m.id in IdSet(l.handed) <==> m.id in l.fates && l.fates[m.id].HandedOver?)
  {
    var l := Run(ops, lim);
    EveryRunIsSound(ops, lim);
    assert m.id in IdSet(l.added);
    RowsMembers(l.trees.queue, Ids(l.trees, m.clientId), m);
    OwnedIds(l.trees, m.clientId);
    if m.id in l.trees.queue {
      SameIdSameMessage(l.added, m, l.trees.queue[m.id]);
      assert RowIndexed(l.trees, m.id);
    }
  }

  /** Once a message has left its queue, how it left never changes. */
  lemma {:induction false} FatesAreFinal(ops: seq<Op>, more: seq<Op>, lim: Limits, id: MessageId)
    requires AdmissibleRun(ops + more, lim) && id in Run(ops, lim).fates
    ensures id in Run(ops + more, lim).fates && Run(ops + more, lim).fates[id] == Run(ops, lim).fates[id]
  {
    if more == [] {
      assert ops + more == ops;
    } else {
      var shorter := ops + more[..|more| - 1];
      assert (ops + more)[..|ops + more| - 1] == shorter;
      FatesAreFinal(ops, more[..|more| - 1], lim, id);
      EveryRunIsSound(shorter, lim);
      StepAccounts(Run(shorter, lim), more[|more| - 1], lim);
    }
  }

  /* ---------------- freshness from minted ids ---------------- */

  /** The messages queued by a run, in order. */
  function QueuedBy(ops: seq<Op>): seq<Message> {
    if ops == [] then []
    else
      var before := QueuedBy(ops[..|ops| - 1]);
      if ops[|ops| - 1].QueueMessage? then before + [ops[|ops| - 1].m] else before
  }

  lemma {:induction false} AddedIsQueued(ops: seq<Op>, lim: Limits)
    ensures Run(ops, lim).added == QueuedBy(ops)
  {
    if ops != [] { AddedIsQueued(ops[..|ops| - 1], lim); }
  }

  ghost predicate RemovalsNameOwner(ops: seq<Op>, lim: Limits) {
    ops == [] ||
    (RemovalsNameOwner(ops[..|ops| - 1], lim)
     && (ops[|ops| - 1].RemoveMessage? ==> Admissible(Run(ops[..|ops| - 1], lim), ops[|ops| - 1])))
  }

  /** Distinct ids make every queueing step admissible. */
  lemma {:induction false} DistinctIdsAreAdmissible(ops: seq<Op>, lim: Limits)
    requires NoDup(IdList(QueuedBy(ops))) && RemovalsNameOwner(ops, lim)
    ensures AdmissibleRun(ops, lim)
  {
    if ops != [] {
      var init, op := ops[..|ops| - 1], ops[|ops| - 1];
      if op.QueueMessage? {
        IdListSnoc(QueuedBy(init), op.m);
        assert (IdList(QueuedBy(init)) + [op.m.id])[..|IdList(QueuedBy(init))|] == IdList(QueuedBy(init));
      }
      DistinctIdsAreAdmissible(init, lim);
      EveryRunIsSound(init, lim);
      AddedIsQueued(init, lim);
      IdListElements(QueuedBy(init));
      if op.QueueMessage? {
        assert op.m.id !in Elements(IdList(QueuedBy(init)));
      }
    }
  }

  lemma {:induction false} DistinctIsNoDup(s: seq<MessageId>)
    requires forall i, j :: 0 <= i < j < |s| ==> s[i] != s[j]
    ensures NoDup(s)
  {
    if s != [] {
      var init := s[..|s| - 1];
      assert forall i, j :: 0 <= i < j < |init| ==> init[i] == s[i] && init[j] == s[j];
      DistinctIsNoDup(init);
    }
  }

  /** Ids minted by one process whose clock does not go back, at most 65536 in any second, discharge
      the freshness every run relies on. */
  lemma MintedRunsAreSound(ops: seq<Op>, lim: Limits, times: seq<nat>, start: nat)
    requires |times| == |QueuedBy(ops)| && MessageIds.Clock(times)
    requires forall i :: 0 <= i < |times| ==> IdList(QueuedBy(ops))[i] == MessageIds.IdAt(times, start, i)
    requires forall t :: |MessageIds.MintedIn(times, t)| <= MessageIds.WINDOW
    requires RemovalsNameOwner(ops, lim)
    ensures AdmissibleRun(ops, lim) && Sound(Run(ops, lim))
  {
    MessageIds.IdsDistinctExactly(times, start);
    DistinctIsNoDup(IdList(QueuedBy(ops)));
    DistinctIdsAreAdmissible(ops, lim);
    EveryRunIsSound(ops, lim);
  }
}
