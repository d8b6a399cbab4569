/** A run of the offline store that hands over every message as soon as it is queued. */
module HandOverRuns {
  import opened Common
  import opened OfflineTheory
  import opened OfflineLedger
  import opened OfflineRuns

  lemma OneMoreOp(ops: seq<Op>, op: Op, lim: Limits)
    requires AdmissibleRun(ops, lim) && Admissible(Run(ops, lim), op)
    ensures AdmissibleRun(ops + [op], lim) && Run(ops + [op], lim) == Step(Run(ops, lim), op, lim)
    ensures QueuedBy(ops + [op]) == if op.QueueMessage? then QueuedBy(ops) + [op.m] else QueuedBy(ops)
  {
    assert (ops + [op])[..|ops|] == ops;
  }

  /** Without rows nothing waits for anybody. */
  lemma NothingWaits(t: Trees, c: ClientId)
    requires Consistent(t) && t.queue == map[]
    ensures Ids(t, c) == [] && Queue(t, c) == []
  {
    OwnedIds(t, c);
    assert Elements(Ids(t, c)) == {};
    NoDupCard(Ids(t, c));
  }

  lemma QueueIntoIdle(t: Trees, m: Message, limit: nat)
    requires Consistent(t) && t.queue == map[]
    ensures Add(t, m, limit).queue == map[m.id := m] && Queue(Add(t, m, limit), m.clientId) == [m]
  {
    NothingWaits(t, m.clientId);
    assert MakeRoom(t, m.clientId, limit) == t;
    AddRefines(t, m, limit, m.clientId);
  }

  lemma LoginTakesOne(l: Ledger, m: Message, lim: Limits)
    requires Consistent(l.trees) && l.trees.queue == map[m.id := m] && Queue(l.trees, m.clientId) == [m]
    ensures var l' := Step(l, Login(m.clientId, 0), lim);
            l'.handed == l.handed + [m] && l'.trees.queue == map[]
  {
    var none: seq<Message> := [];
    assert [m][..0] == none;
    assert Unexpired(none, 0, lim.ttl) == none;
    assert Unexpired([m], 0, lim.ttl) == none + [m] == [m];
    assert RowIndexed(l.trees, m.id);
  }

  /** A run that queued and handed over exactly `q` and left nothing waiting. */
  ghost predicate HandedAll(ops: seq<Op>, q: seq<Message>, lim: Limits) {
    AdmissibleRun(ops, lim) && QueuedBy(ops) == q && Run(ops, lim).handed == q && Run(ops, lim).trees.queue == map[]
  }

  lemma HandOverOneMore(ops: seq<Op>, q: seq<Message>, m: Message, lim: Limits)
    requires HandedAll(ops, q, lim) && m.id !in IdSet(q)
    ensures HandedAll(ops + [QueueMessage(m)] + [Login(m.clientId, 0)], q + [m], lim)
  {
    var l := Run(ops, lim);
    EveryRunIsSound(ops, lim);
    AddedIsQueued(ops, lim);
    OneMoreOp(ops, QueueMessage(m), lim);
    var queued := ops + [QueueMessage(m)];
    QueueIntoIdle(l.trees, m, lim.queueSize);
    EveryRunIsSound(queued, lim);
    LoginTakesOne(Run(queued, lim), m, lim);
    OneMoreOp(queued, Login(m.clientId, 0), lim);
  }

  lemma LastIdFresh(q: seq<Message>)
    requires q != [] && NoDup(IdList(q))
    ensures NoDup(IdList(q[..|q| - 1])) && q[|q| - 1].id !in IdSet(q[..|q| - 1])
  {
    var init := q[..|q| - 1];
    assert IdList(q)[..|init|] == IdList(init);
    IdListElements(init);
    assert q[|q| - 1].id !in Elements(IdList(init));
  }

  /** Any messages with distinct ids can be queued and handed over one by one, before anything has expired. */
  lemma {:induction false} HandOverEach(q: seq<Message>, lim: Limits) returns (ops: seq<Op>)
    requires NoDup(IdList(q))
    ensures HandedAll(ops, q, lim)
    decreases |q|
  {
    ops := [];
    if q != [] {
      var init, m := q[..|q| - 1], q[|q| - 1];
      LastIdFresh(q);
      SplitLast(q);
      var before := HandOverEach(init, lim);
      HandOverOneMore(before, init, m, lim);
      ops := before + [QueueMessage(m)] + [Login(m.clientId, 0)];
    }
  }
}
