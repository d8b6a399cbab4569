/** Which registration each reply answers, and what became of every registration. */
module AckHistory {
  import opened Common
  import opened AckTheory

  /** `later`: the event that registered the id again. `at`: the event that found the publisher gone. */
  datatype Fate = Waits | Answered(reply: nat) | Replaced(later: nat) | SourceGone(at: nat)

  /** `slot`: the event that registered a pending id. `fate`: one fate for each registering event.
      `answers`: the event each reply answers. */
  datatype Book = Book(slot: map<nat, nat>, fate: map<nat, Fate>, answers: seq<nat>)

  function NoteRegister(b: Book, at: nat, id: nat): Book {
    var fate := if id in b.slot then b.fate[b.slot[id] := Replaced(at)] else b.fate;
    Book(b.slot[id := at], fate[at := Waits], b.answers)
  }

  function NoteSettle(b: Book, a: Acks, at: nat, id: nat, live: set<ClientId>): Book {
    if id !in a.pending || id !in b.slot then b
    else if a.pending[id].source !in live then Book(b.slot - {id}, b.fate[b.slot[id] := SourceGone(at)], b.answers)
    else Book(b.slot - {id}, b.fate[b.slot[id] := Answered(|b.answers|)], b.answers + [b.slot[id]])
  }

  function NoteSettleAll(b: Book, a: Acks, at: nat, ids: seq<nat>, now: nat, live: set<ClientId>): Book {
    if ids == [] then b
    else
      var init := ids[..|ids| - 1];
      NoteSettle(NoteSettleAll(b, a, at, init, now, live), SettleAll(a, init, now, live), at, ids[|ids| - 1], live)
  }

  function Note(c: Config, b: Book, a: Acks, at: nat, e: Event): Book {
    if !c.enabled then b
    else match e
      case Register(id, _) => NoteRegister(b, at, id)
      case Receive(id, _, live) => NoteSettle(b, a, at, id, live)
      case Sweep(now, order, live) => NoteSettleAll(b, a, at, order, now, live)
  }

  function History(c: Config, es: seq<Event>): Book {
    if es == [] then Book(map[], map[], [])
    else
      var before := es[..|es| - 1];
      Note(c, History(c, before), Run(c, before), |before|, es[|es| - 1])
  }

  /* ---------------- the invariant ---------------- */

  predicate Registers(c: Config, es: seq<Event>, p: nat) {
    c.enabled && p < |es| && es[p].Register?
  }

  /** The reply goes to the publisher that registered the id; a timeout comes strictly after the time allowed. */
  predicate Explains(c: Config, es: seq<Event>, p: nat, r: Reply) {
    && p < |es| && es[p].Register? && es[p].id == r.id && es[p].info.source == r.dest
    && (r.outcome.TimedOut? ==> r.at > es[p].info.timestamp + c.timeout)
  }

  predicate Holds(es: seq<Event>, a: Acks, b: Book, id: nat) {
    && id in b.slot && id in a.pending
    && b.slot[id] in b.fate && b.fate[b.slot[id]] == Waits
    && b.slot[id] < |es| && es[b.slot[id]] == Register(id, a.pending[id])
  }

  /** The event takes the id out of the pending ones, by an acknowledgement or as overdue. */
  predicate Settles(e: Event, id: nat) {
    (e.Receive? && e.id == id) || (e.Sweep? && id in e.order)
  }

  /** A registration waits, is answered by a reply of its own, was replaced by a later registration of its id, or met a
      later acknowledgement or sweep at which its publisher was not connected. */
  predicate FateRight(es: seq<Event>, b: Book, p: nat) {
    && p in b.fate && p < |es| && es[p].Register?
    && match b.fate[p]
       case Waits => es[p].id in b.slot && b.slot[es[p].id] == p
       case Answered(i) => i < |b.answers| && b.answers[i] == p
       case Replaced(q) => p < q < |es| && es[q].Register? && es[q].id == es[p].id
       case SourceGone(q) => p < q < |es| && Settles(es[q], es[p].id) && es[p].info.source !in es[q].live
  }

  predicate AnswerRight(c: Config, es: seq<Event>, a: Acks, b: Book, i: nat) {
    && i < |b.answers| == |a.sent|
    && b.answers[i] in b.fate && b.fate[b.answers[i]] == Answered(i)
    && Explains(c, es, b.answers[i], a.sent[i])
  }

  ghost predicate Waiters(es: seq<Event>, a: Acks, b: Book) {
    b.slot.Keys == a.pending.Keys && forall id :: id in b.slot ==> Holds(es, a, b, id)
  }

  ghost predicate Fates(c: Config, es: seq<Event>, b: Book) {
    && (forall p :: p in b.fate ==> FateRight(es, b, p))
    && (forall p :: Registers(c, es, p) <==> c.enabled && p in b.fate)
  }

  ghost predicate Answers(c: Config, es: seq<Event>, a: Acks, b: Book) {
    |b.answers| == |a.sent| && forall i :: 0 <= i < |b.answers| ==> AnswerRight(c, es, a, b, i)
  }

  ghost predicate Accounted(c: Config, es: seq<Event>, a: Acks, b: Book) {
    Waiters(es, a, b) && Fates(c, es, b) && Answers(c, es, a, b)
  }

  /* ---------------- steps ---------------- */

  /** An event that registers nothing leaves the account as it is. */
  lemma LaterEvent(c: Config, es: seq<Event>, e: Event, a: Acks, b: Book)
    requires Accounted(c, es, a, b) && (e.Register? ==> !c.enabled)
    ensures Accounted(c, es + [e], a, b)
  {
    var after := es + [e];
    forall id | id in b.slot ensures Holds(after, a, b, id) { assert Holds(es, a, b, id); }
    forall p | p in b.fate ensures FateRight(after, b, p) { assert FateRight(es, b, p); }
    forall p: nat ensures Registers(c, after, p) <==> c.enabled && p in b.fate {
      assert Registers(c, es, p) <==> c.enabled && p in b.fate;
    }
    forall i | 0 <= i < |b.answers| ensures AnswerRight(c, after, a, b, i) { assert AnswerRight(c, es, a, b, i); }
  }

  /** The publisher of a pending id is gone: no reply, and the registration is closed. */
  lemma GoneAccounts(c: Config, es: seq<Event>, a: Acks, b: Book, id: nat)
    requires Accounted(c, es, a, b) && es != [] && Settles(es[|es| - 1], id)
    requires id in a.pending && a.pending[id].source !in es[|es| - 1].live
    ensures Accounted(c, es, a.(pending := a.pending - {id}), NoteSettle(b, a, |es| - 1, id, es[|es| - 1].live))
  {
    var a', b' := a.(pending := a.pending - {id}), NoteSettle(b, a, |es| - 1, id, es[|es| - 1].live);
    assert Holds(es, a, b, id);
    var p0 := b.slot[id];
    assert es[p0].Register? && p0 < |es| - 1;
    forall k | k in b'.slot ensures Holds(es, a', b', k) { assert Holds(es, a, b, k); }
    forall p | p in b'.fate ensures FateRight(es, b', p) {
      if p != p0 { assert FateRight(es, b, p); }
    }
    assert b'.fate.Keys == b.fate.Keys;
    forall i | 0 <= i < |b'.answers| ensures AnswerRight(c, es, a', b', i) { assert AnswerRight(c, es, a, b, i); }
  }

  /** Otherwise the reply answers that registration. */
  lemma ReplyAccounts(c: Config, es: seq<Event>, a: Acks, b: Book, at: nat, id: nat, r: Reply, live: set<ClientId>)
    requires Accounted(c, es, a, b) && id in a.pending && a.pending[id].source in live
    requires r.id == id && r.dest == a.pending[id].source
    requires r.outcome.TimedOut? ==> Overdue(a.pending[id], c.timeout, r.at)
    ensures Accounted(c, es, Acks(a.pending - {id}, a.sent + [r]), NoteSettle(b, a, at, id, live))
  {
    var a', b' := Acks(a.pending - {id}, a.sent + [r]), NoteSettle(b, a, at, id, live);
    assert Holds(es, a, b, id);
    forall k | k in b'.slot ensures Holds(es, a', b', k) { assert Holds(es, a, b, k); }
    forall p | p in b'.fate ensures FateRight(es, b', p) { assert FateRight(es, b, p); }
    assert b'.fate.Keys == b.fate.Keys;
    forall i | 0 <= i < |b'.answers| ensures AnswerRight(c, es, a', b', i) {
      if i < |b.answers| { assert AnswerRight(c, es, a, b, i); }
    }
  }

  lemma SettleAccounts(c: Config, es: seq<Event>, a: Acks, b: Book, id: nat, o: Outcome, now: nat)
    requires Accounted(c, es, a, b) && es != [] && Settles(es[|es| - 1], id)
    requires o.TimedOut? && id in a.pending ==> Overdue(a.pending[id], c.timeout, now)
    ensures var live := es[|es| - 1].live;
            Accounted(c, es, Settle(a, id, o, now, live), NoteSettle(b, a, |es| - 1, id, live))
  {
    if id in a.pending {
      var live, source := es[|es| - 1].live, a.pending[id].source;
      if source !in live {
        GoneAccounts(c, es, a, b, id);
      } else {
        ReplyAccounts(c, es, a, b, |es| - 1, id, Reply(source, id, o, now), live);
      }
    }
  }

  lemma {:induction false} SettleAllAccounts(c: Config, es: seq<Event>, a: Acks, b: Book, ids: seq<nat>)
    requires Accounted(c, es, a, b) && es != [] && es[|es| - 1].Sweep?
    requires var e := es[|es| - 1];
             Elements(ids) <= Elements(e.order) && Elements(e.order) <= Expired(a.pending, c.timeout, e.now)
    ensures var e := es[|es| - 1];
            Accounted(c, es, SettleAll(a, ids, e.now, e.live), NoteSettleAll(b, a, |es| - 1, ids, e.now, e.live))
    decreases |ids|
  {
    if ids != [] {
      var init, last := ids[..|ids| - 1], ids[|ids| - 1];
      assert Elements(init) <= Elements(ids) && last in Elements(ids);
      var e := es[|es| - 1];
      SettleAllAccounts(c, es, a, b, init);
      SettleAllPending(a, init, e.now, e.live);
      assert last in Elements(e.order) && last in Expired(a.pending, c.timeout, e.now);
      var settled, noted := SettleAll(a, init, e.now, e.live), NoteSettleAll(b, a, |es| - 1, init, e.now, e.live);
      SettleAccounts(c, es, settled, noted, last, TimedOut, e.now);
    }
  }

  lemma RegisterAccounts(c: Config, es: seq<Event>, a: Acks, b: Book, id: nat, info: Info)
    requires c.enabled && Accounted(c, es, a, b)
    ensures Accounted(c, es + [Register(id, info)], a.(pending := a.pending[id := info]), NoteRegister(b, |es|, id))
  {
    var after, a', b' := es + [Register(id, info)], a.(pending := a.pending[id := info]), NoteRegister(b, |es|, id);
    assert !Registers(c, es, |es|);
    if id in b.slot { assert Holds(es, a, b, id); }
    forall k | k in b'.slot ensures Holds(after, a', b', k) {
      if k != id {
        assert Holds(es, a, b, k);
        if id in b.slot { assert Holds(es, a, b, id); }
      }
    }
    forall p | p in b'.fate ensures FateRight(after, b', p) {
      if p != |es| { assert FateRight(es, b, p) && after[p] == es[p]; }
    }
    forall p: nat ensures Registers(c, after, p) <==> c.enabled && p in b'.fate {
      assert Registers(c, es, p) <==> p in b.fate;
    }
    forall i | 0 <= i < |b'.answers| ensures AnswerRight(c, after, a', b', i) { assert AnswerRight(c, es, a, b, i); }
  }

  /** Over every run each registration has exactly one fate, with the event that brought it about, and each reply
      answers a registration of its own. */
  lemma {:induction false} EveryRegistrationHasOneFate(c: Config, es: seq<Event>)
    requires Admissible(c, es)
    ensures Accounted(c, es, Run(c, es), History(c, es))
    decreases |es|
  {
    if es != [] {
      var before, e := es[..|es| - 1], es[|es| - 1];
      EveryRegistrationHasOneFate(c, before);
      var a, b := Run(c, before), History(c, before);
      assert es == before + [e];
      if c.enabled && e.Register? {
        RegisterAccounts(c, before, a, b, e.id, e.info);
      } else {
        LaterEvent(c, before, e, a, b);
        if c.enabled && e.Receive? { SettleAccounts(c, es, a, b, e.id, Acked, e.now); }
        if c.enabled && e.Sweep? { SettleAllAccounts(c, es, a, b, e.order); }
      }
    }
  }

  /** Each reply answers its own registration of that id, by the publisher it is sent to; a timeout comes only
      after strictly more than the timeout. */
  lemma RepliesAnswerDistinctRegistrations(c: Config, es: seq<Event>, i: nat, j: nat)
    requires Admissible(c, es) && i < |Run(c, es).sent| && j < |Run(c, es).sent|
    ensures var answers := History(c, es).answers;
            && |answers| == |Run(c, es).sent|
            && Explains(c, es, answers[i], Run(c, es).sent[i])
            && (answers[i] == answers[j] ==> i == j)
  {
    EveryRegistrationHasOneFate(c, es);
    var a, b := Run(c, es), History(c, es);
    assert AnswerRight(c, es, a, b, i) && AnswerRight(c, es, a, b, j);
  }

  /** With acknowledgements switched off no run registers, answers or times out anything. */
  lemma {:induction false} DisabledIsSilent(c: Config, es: seq<Event>)
    requires !c.enabled
    ensures Run(c, es) == Start()
    decreases |es|
  {
    if es != [] { DisabledIsSilent(c, es[..|es| - 1]); }
  }
}
