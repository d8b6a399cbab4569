/** Clearing the queues of several clients, seen in the ledger. */
module LedgerSweeps {
  import opened Common
  import OT = OfflineTheory
  import OL = OfflineLedger
  import ST = SessionTheory

  /** Ids of waiting messages for one of these clients. */
  ghost function WaitingFor(t: OT.Trees, cs: set<ClientId>): set<OT.MessageId> {
    set id | id in t.queue && t.queue[id].clientId in cs
  }

  /** The ledger after the queues of `cs` were cleared. */
  ghost predicate ClearedFor(l: OL.Ledger, l': OL.Ledger, cs: set<ClientId>) {
    l'.trees == ST.ClearAll(l.trees, cs) && l'.fates == OL.Leave(l, WaitingFor(l.trees, cs), OL.Cleared)
  }

  lemma LeaveTwice(l: OL.Ledger, l': OL.Ledger, a: set<OT.MessageId>, b: set<OT.MessageId>, fate: OL.Fate)
    requires l'.fates == OL.Leave(l, a, fate)
    ensures OL.Leave(l', b, fate) == OL.Leave(l, a + b, fate)
  {}

  lemma WaitingForOneMore(t: OT.Trees, cs: set<ClientId>, c: ClientId)
    ensures WaitingFor(t, cs) + OL.RowsOf(ST.ClearAll(t, cs), c) == WaitingFor(t, cs + {c})
  {}

  lemma ClearOneMore(l: OL.Ledger, l': OL.Ledger, cs: set<ClientId>, c: ClientId, lim: OL.Limits)
    requires OT.Consistent(l.trees) && ClearedFor(l, l', cs)
    ensures ClearedFor(l, OL.Step(l', OL.ClearClient(c), lim), cs + {c})
  {
    ST.ClearOneMore(l.trees, cs, c);
    WaitingForOneMore(l.trees, cs, c);
    LeaveTwice(l, l', WaitingFor(l.trees, cs), OL.RowsOf(l'.trees, c), OL.Cleared);
  }

  lemma ClearNobody(l: OL.Ledger)
    ensures ClearedFor(l, l, {})
  {
    ST.ClearNone(l.trees);
    assert WaitingFor(l.trees, {}) == {};
    assert OL.Leave(l, {}, OL.Cleared) == l.fates;
  }

  /** Which messages such a clearing settles. */
  lemma ClearedForFate(l: OL.Ledger, l': OL.Ledger, cs: set<ClientId>, id: OT.MessageId)
    requires ClearedFor(l, l', cs) && l.trees.queue.Keys !! l.fates.Keys
    ensures IsCleared(l', id) <==> IsCleared(l, id) || (id in l.trees.queue && l.trees.queue[id].clientId in cs)
  {}

  ghost predicate IsCleared(l: OL.Ledger, id: OT.MessageId) {
    id in l.fates && l.fates[id] == OL.Cleared
  }

  lemma QueueClearsNothing(l: OL.Ledger, m: OT.Message, lim: OL.Limits, id: OT.MessageId)
    requires OL.Accounted(l)
    ensures IsCleared(OL.Step(l, OL.QueueMessage(m), lim), id) <==> IsCleared(l, id)
  {
    OT.OwnedIds(l.trees, m.clientId);
  }

  lemma LoginClearsNothing(l: OL.Ledger, c: ClientId, now: nat, lim: OL.Limits, id: OT.MessageId)
    requires OL.Accounted(l)
    ensures IsCleared(OL.Step(l, OL.Login(c, now), lim), id) <==> IsCleared(l, id)
  {}

  /** Both sides of a sweep agree on the trees. */
  lemma SweepSession(s: ST.Session, now: nat, t: OT.Trees)
    requires t == ST.ClearAll(s.offline, ST.ExpiredRows(s.rows, now))
    ensures ST.Step(s, ST.Sweep(now)).(offline := t) == ST.SweepGhosts(s, now)
  {}

  lemma SameTreesTied(s: ST.Session, t: OT.Trees)
    requires ST.Tied(s) && OT.Consistent(t)
    ensures ST.Tied(s.(offline := t))
  {
    forall g | g in s.ghosts ensures ST.Backed(s.(offline := t), g) { assert ST.Backed(s, g); }
  }
}
