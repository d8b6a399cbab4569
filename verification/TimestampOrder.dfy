/** When the order of hand-over, which is the order of queueing, is also the order of the timestamps. */
module TimestampOrder {
  import opened Common
  import opened OfflineTheory
  import opened QueueOrder
  import opened OfflineLedger
  import opened OfflineRuns
  import opened HandOverRuns

  /** Timestamps never go back along the list. */
  ghost predicate ByTimestamp(q: seq<Message>) {
    q == [] || (ByTimestamp(q[..|q| - 1]) && NoneLater(q[..|q| - 1], q[|q| - 1].timestamp))
  }

  ghost predicate NoneLater(q: seq<Message>, timestamp: nat) {
    forall m :: m in q ==> m.timestamp <= timestamp
  }

  lemma {:induction false} ByTimestampAt(q: seq<Message>, i: nat, j: nat)
    requires ByTimestamp(q) && i < j < |q|
    ensures q[i].timestamp <= q[j].timestamp
    decreases |q|
  {
    var init := q[..|q| - 1];
    if j == |q| - 1 { assert init[i] in init; } else { ByTimestampAt(init, i, j); }
  }

  lemma {:induction false} SubsequenceMembers(a: seq<Message>, b: seq<Message>, m: Message)
    requires Subsequence(a, b) && m in a
    ensures m in b
    decreases |a| + |b|
  {
    var shorter := b[..|b| - 1];
    if Subsequence(a, shorter) {
      SubsequenceMembers(a, shorter, m);
    } else if m != a[|a| - 1] {
      assert a == a[..|a| - 1] + [a[|a| - 1]];
      SubsequenceMembers(a[..|a| - 1], shorter, m);
    }
  }

  /** Leaving messages out keeps the order of timestamps. */
  lemma {:induction false} SubsequenceByTimestamp(a: seq<Message>, b: seq<Message>)
    requires Subsequence(a, b) && ByTimestamp(b)
    ensures ByTimestamp(a)
    decreases |a| + |b|
  {
    if a != [] {
      var shorter := b[..|b| - 1];
      if Subsequence(a, shorter) {
        SubsequenceByTimestamp(a, shorter);
      } else {
        var init := a[..|a| - 1];
        SubsequenceByTimestamp(init, shorter);
        forall m | m in init ensures m.timestamp <= a[|a| - 1].timestamp { SubsequenceMembers(init, shorter, m); }
      }
    }
  }

  /* ---------------- in every run ---------------- */

  /** What a client was handed and what still waits for it. */
  ghost function Served(l: Ledger, c: ClientId): seq<Message> {
    For(l.handed, c) + Queue(l.trees, c)
  }

  /** A client whose messages were queued by timestamp gets them by timestamp, in every run. */
  lemma QueuedByTimestampIsServedSo(ops: seq<Op>, lim: Limits, c: ClientId)
    requires AdmissibleRun(ops, lim) && ByTimestamp(For(QueuedBy(ops), c))
    ensures ByTimestamp(Served(Run(ops, lim), c))
  {
    EveryRunIsSound(ops, lim);
    AddedIsQueued(ops, lim);
    assert InOrder(Run(ops, lim), c);
    SubsequenceByTimestamp(Served(Run(ops, lim), c), For(QueuedBy(ops), c));
  }

  lemma {:induction false} BackByTimestamp(a: seq<Message>, b: seq<Message>)
    requires ByTimestamp(a + b)
    ensures ByTimestamp(b)
    decreases |b|
  {
    if b != [] {
      var init := b[..|b| - 1];
      assert (a + b)[..|a + b| - 1] == a + init;
      BackByTimestamp(a, init);
      forall m | m in init ensures m.timestamp <= b[|b| - 1].timestamp { assert m in a + init; }
    }
  }

  /** What `get_offline_messages` then returns, at any time, is in timestamp order. */
  lemma ReturnedByTimestamp(ops: seq<Op>, lim: Limits, c: ClientId, now: nat)
    requires AdmissibleRun(ops, lim) && ByTimestamp(For(QueuedBy(ops), c))
    ensures ByTimestamp(Unexpired(Queue(Run(ops, lim).trees, c), now, lim.ttl))
  {
    var q := Queue(Run(ops, lim).trees, c);
    QueuedByTimestampIsServedSo(ops, lim, c);
    BackByTimestamp(For(Run(ops, lim).handed, c), q);
    UnexpiredSubsequence(q, now, lim.ttl);
    SubsequenceByTimestamp(Unexpired(q, now, lim.ttl), q);
  }

  /* ---------------- all of them, exactly ---------------- */

  lemma ServedAsQueued(q: seq<Message>, lim: Limits, c: ClientId) returns (ops: seq<Op>)
    requires NoDup(IdList(q))
    ensures AdmissibleRun(ops, lim) && QueuedBy(ops) == q && Served(Run(ops, lim), c) == For(q, c)
  {
    ops := HandOverEach(q, lim);
    EveryRunIsSound(ops, lim);
    NothingWaits(Run(ops, lim).trees, c);
  }

  /** Every run that queues exactly these messages serves the client by timestamp. */
  ghost predicate AlwaysByTimestamp(q: seq<Message>, lim: Limits, c: ClientId) {
    forall ops :: AdmissibleRun(ops, lim) && QueuedBy(ops) == q ==> ByTimestamp(Served(Run(ops, lim), c))
  }

  lemma NotAlways(q: seq<Message>, lim: Limits, c: ClientId, ops: seq<Op>)
    requires AdmissibleRun(ops, lim) && QueuedBy(ops) == q && !ByTimestamp(Served(Run(ops, lim), c))
    ensures !AlwaysByTimestamp(q, lim, c)
  {}

  /** Whatever else runs do, a client is served by timestamp in all runs that queue these messages if and only if
      they are queued by timestamp for it. */
  lemma ServedByTimestampExactly(q: seq<Message>, lim: Limits, c: ClientId)
    requires NoDup(IdList(q))
    ensures AlwaysByTimestamp(q, lim, c) <==> ByTimestamp(For(q, c))
  {
    if ByTimestamp(For(q, c)) {
      forall ops | AdmissibleRun(ops, lim) && QueuedBy(ops) == q ensures ByTimestamp(Served(Run(ops, lim), c)) {
        QueuedByTimestampIsServedSo(ops, lim, c);
      }
    } else {
      var ops := ServedAsQueued(q, lim, c);
      NotAlways(q, lim, c, ops);
    }
  }

  /* ---------------- one login after many messages ---------------- */

  function QueueEach(q: seq<Message>): seq<Op> {
    seq(|q|, i requires 0 <= i < |q| => QueueMessage(q[i]))
  }

  ghost predicate AllFor(q: seq<Message>, c: ClientId) {
    forall m :: m in q ==> m.clientId == c
  }

  lemma {:induction false} QueueEachWaits(q: seq<Message>, c: ClientId, lim: Limits)
    requires NoDup(IdList(q)) && AllFor(q, c) && |q| <= lim.queueSize
    ensures var ops := QueueEach(q);
            && AdmissibleRun(ops, lim) && Run(ops, lim).handed == [] && QueuedBy(ops) == q
            && Queue(Run(ops, lim).trees, c) == q
    decreases |q|
  {
    if q != [] {
      var init, m := q[..|q| - 1], q[|q| - 1];
      LastIdFresh(q);
      assert q == init + [m] && QueueEach(q) == QueueEach(init) + [QueueMessage(m)];
      QueueEachWaits(init, c, lim);
      EveryRunIsSound(QueueEach(init), lim);
      AddedIsQueued(QueueEach(init), lim);
      OneMoreOp(QueueEach(init), QueueMessage(m), lim);
      AddRefines(Run(QueueEach(init), lim).trees, m, lim.queueSize, c);
    }
  }

  lemma {:induction false} NoneExpired(q: seq<Message>, now: nat, ttl: nat)
    requires forall m :: m in q ==> now <= m.timestamp + ttl
    ensures Unexpired(q, now, ttl) == q
  {
    if q != [] {
      assert q == q[..|q| - 1] + [q[|q| - 1]];
      NoneExpired(q[..|q| - 1], now, ttl);
    }
  }

  lemma LoginDrains(l: Ledger, c: ClientId, now: nat, lim: Limits)
    requires forall m :: m in Queue(l.trees, c) ==> now <= m.timestamp + lim.ttl
    ensures Step(l, Login(c, now), lim).handed == l.handed + Queue(l.trees, c)
  {
    NoneExpired(Queue(l.trees, c), now, lim.ttl);
    assert l.handed + [] == l.handed;
  }

  /** One client's messages, queued within the limit and collected before any expires, are handed over as queued:
      by timestamp if and only if they were queued by timestamp. */
  lemma LoginHandsAsQueued(q: seq<Message>, c: ClientId, now: nat, lim: Limits)
    requires NoDup(IdList(q)) && AllFor(q, c) && |q| <= lim.queueSize
    requires forall m :: m in q ==> now <= m.timestamp + lim.ttl
    ensures var ops := QueueEach(q) + [Login(c, now)];
            && AdmissibleRun(ops, lim) && Run(ops, lim).handed == q
            && (ByTimestamp(Run(ops, lim).handed) <==> ByTimestamp(q))
  {
    QueueEachWaits(q, c, lim);
    OneMoreOp(QueueEach(q), Login(c, now), lim);
    LoginDrains(Run(QueueEach(q), lim), c, now, lim);
  }

  /** Two messages, the later stamped queued first: they are handed over in that order, against their timestamps. */
  lemma LaterStampFirst(c: ClientId, t: nat, lim: Limits)
    requires t > 0 && lim.queueSize >= 2
    ensures var first, second := Message(1, c, "", [], t, 0), Message(2, c, "", [], 0, 0);
            var ops := QueueEach([first, second]) + [Login(c, 0)];
            && AdmissibleRun(ops, lim) && Run(ops, lim).handed == [first, second]
            && !ByTimestamp(Run(ops, lim).handed)
  {
    var first, second := Message(1, c, "", [], t, 0), Message(2, c, "", [], 0, 0);
    var q := [first, second];
    assert IdList(q) == [1, 2] && [1, 2][..1] == [1] && [1][..0] == [];
    assert NoDup([1]) && NoDup(IdList(q));
    LoginHandsAsQueued(q, c, 0, lim);
    if ByTimestamp(q) { ByTimestampAt(q, 0, 1); }
  }
}
