/** The acknowledgement protocol as steps over a pending map and the replies sent to publishers. */
module AckTheory {
  import opened Common

  datatype Info = Info(source: ClientId, title: string, timestamp: nat, isGroup: bool)

  datatype Outcome = Acked | TimedOut

  /** An `AckReturn` sent to a publisher; `at` is the clock of the step that sent it. */
  datatype Reply = Reply(dest: ClientId, id: nat, outcome: Outcome, at: nat)

  datatype Acks = Acks(pending: map<nat, Info>, sent: seq<Reply>)

  datatype Config = Config(enabled: bool, timeout: nat)

  datatype Event =
    | Register(id: nat, info: Info)
    /** A receiver's acknowledgement. */
    | Receive(id: nat, now: nat, live: set<ClientId>)
    /** A sweep; `order` is the order in which the expired entries come out of the map. */
    | Sweep(now: nat, order: seq<nat>, live: set<ClientId>)

  predicate Overdue(info: Info, timeout: nat, now: nat) {
    (if now > info.timestamp then now - info.timestamp else 0) > timeout
  }

  ghost function Expired(pending: map<nat, Info>, timeout: nat, now: nat): set<nat> {
    set id | id in pending && Overdue(pending[id], timeout, now)
  }

  /** Takes one entry and answers its publisher if that one is connected. */
  function Settle(a: Acks, id: nat, outcome: Outcome, at: nat, live: set<ClientId>): Acks {
    if id !in a.pending then a
    else if a.pending[id].source !in live then a.(pending := a.pending - {id})
    else Acks(a.pending - {id}, a.sent + [Reply(a.pending[id].source, id, outcome, at)])
  }

  function SettleAll(a: Acks, ids: seq<nat>, at: nat, live: set<ClientId>): Acks {
    if ids == [] then a
    else Settle(SettleAll(a, ids[..|ids| - 1], at, live), ids[|ids| - 1], TimedOut, at, live)
  }

  function Step(c: Config, a: Acks, e: Event): Acks {
    if !c.enabled then a
    else match e
      case Register(id, info) => a.(pending := a.pending[id := info])
      case Receive(id, now, live) => Settle(a, id, Acked, now, live)
      case Sweep(now, order, live) => SettleAll(a, order, now, live)
  }

  /** A sweep takes out exactly the entries older than the timeout, each once. */
  ghost predicate Enabled(c: Config, a: Acks, e: Event) {
    c.enabled && e.Sweep? ==> NoDup(e.order) && Elements(e.order) == Expired(a.pending, c.timeout, e.now)
  }

  function Start(): Acks { Acks(map[], []) }

  function Run(c: Config, es: seq<Event>): Acks {
    if es == [] then Start() else Step(c, Run(c, es[..|es| - 1]), es[|es| - 1])
  }

  ghost predicate Admissible(c: Config, es: seq<Event>) {
    es != [] ==> Admissible(c, es[..|es| - 1]) && Enabled(c, Run(c, es[..|es| - 1]), es[|es| - 1])
  }

  /* ---------------- a sweep ---------------- */

  lemma {:induction false} SettleAllPending(a: Acks, ids: seq<nat>, at: nat, live: set<ClientId>)
    ensures SettleAll(a, ids, at, live).pending == a.pending - Elements(ids)
    decreases |ids|
  {
    if ids != [] {
      var init, last := ids[..|ids| - 1], ids[|ids| - 1];
      SettleAllPending(a, init, at, live);
      assert ids == init + [last];
      assert Elements(ids) == Elements(init) + {last};
    } else {
      assert Elements(ids) == {};
    }
  }

  /** After a sweep nothing overdue waits, and what was not overdue still does, unchanged. */
  lemma SweepTakesExactlyOverdue(c: Config, a: Acks, now: nat, order: seq<nat>, live: set<ClientId>)
    requires c.enabled && Enabled(c, a, Sweep(now, order, live))
    ensures var b := Step(c, a, Sweep(now, order, live));
            && Expired(b.pending, c.timeout, now) == {}
            && b.pending == map id | id in a.pending && now <= a.pending[id].timestamp + c.timeout :: a.pending[id]
  {
    SettleAllPending(a, order, now, live);
  }

  /** One more entry of a sweep. */
  lemma SettleOneMore(a: Acks, order: seq<nat>, i: nat, at: nat, live: set<ClientId>)
    requires NoDup(order) && i < |order| && order[i] in a.pending
    ensures var before := SettleAll(a, order[..i], at, live).sent;
            SettleAll(a, order[..i + 1], at, live).sent ==
            if a.pending[order[i]].source in live
            then before + [Reply(a.pending[order[i]].source, order[i], TimedOut, at)] else before
  {
    SettleAllPending(a, order[..i], at, live);
    assert order[..i + 1][..i] == order[..i] && order[..i + 1][i] == order[i];
    if order[i] in order[..i] {
      var k :| 0 <= k < i && order[..i][k] == order[i];
      NoDupAt(order, k, i);
    }
  }

  /* ---------------- the sweep's collecting loop ---------------- */

  /** `found` lists the overdue entries among the keys already visited. */
  ghost predicate Collecting(pending: map<nat, Info>, timeout: nat, now: nat, left: set<nat>, found: seq<nat>) {
    && NoDup(found)
    && Elements(found) == set id | id in pending && id !in left && Overdue(pending[id], timeout, now)
  }

  lemma CollectingStep(pending: map<nat, Info>, timeout: nat, now: nat, left: set<nat>, found: seq<nat>, id: nat)
    requires Collecting(pending, timeout, now, left, found) && id in left && id in pending
    ensures Collecting(pending, timeout, now, left - {id},
                       if Overdue(pending[id], timeout, now) then found + [id] else found)
  {
    if Overdue(pending[id], timeout, now) {
      assert id !in Elements(found);
      AppendNoDup(found, id);
      assert Elements(found + [id]) == Elements(found) + {id};
    }
  }

  function Pairs(pending: map<nat, Info>, ids: seq<nat>): seq<(nat, ClientId)>
    requires Elements(ids) <= pending.Keys
  {
    seq(|ids|, i requires 0 <= i < |ids| => assert ids[i] in Elements(ids); (ids[i], pending[ids[i]].source))
  }

  /* ---------------- at most one reply per registration ---------------- */

  function RepliesFor(sent: seq<Reply>, id: nat): nat {
    if sent == [] then 0
    else RepliesFor(sent[..|sent| - 1], id) + if sent[|sent| - 1].id == id then 1 else 0
  }

  function RegistrationsOf(es: seq<Event>, id: nat): nat {
    if es == [] then 0
    else RegistrationsOf(es[..|es| - 1], id) +
         if es[|es| - 1].Register? && es[|es| - 1].id == id then 1 else 0
  }

  function Waiting(a: Acks, id: nat): nat {
    if id in a.pending then 1 else 0
  }

  /** What is owed for an id: replies sent and the one that may still come. */
  function Owed(a: Acks, id: nat): nat { RepliesFor(a.sent, id) + Waiting(a, id) }

  lemma SettleOwes(a: Acks, k: nat, outcome: Outcome, at: nat, live: set<ClientId>, id: nat)
    ensures Owed(Settle(a, k, outcome, at, live), id) <= Owed(a, id)
  {
    if k in a.pending && a.pending[k].source in live {
      var r := Reply(a.pending[k].source, k, outcome, at);
      assert (a.sent + [r])[..|a.sent|] == a.sent;
    }
  }

  lemma {:induction false} SettleAllOwes(a: Acks, ids: seq<nat>, at: nat, live: set<ClientId>, id: nat)
    ensures Owed(SettleAll(a, ids, at, live), id) <= Owed(a, id)
    decreases |ids|
  {
    if ids != [] {
      SettleAllOwes(a, ids[..|ids| - 1], at, live, id);
      SettleOwes(SettleAll(a, ids[..|ids| - 1], at, live), ids[|ids| - 1], TimedOut, at, live, id);
    }
  }

  /** Over every run: replies for an id, and the one still waiting, never outnumber its registrations. */
  lemma {:induction false} RepliesNeverOutnumberRegistrations(c: Config, es: seq<Event>, id: nat)
    ensures RepliesFor(Run(c, es).sent, id) + Waiting(Run(c, es), id) <= RegistrationsOf(es, id)
    decreases |es|
  {
    if es != [] {
      var before, e := es[..|es| - 1], es[|es| - 1];
      RepliesNeverOutnumberRegistrations(c, before, id);
      match e {
        case Register(_, _) =>
        case Receive(k, now, live) => SettleOwes(Run(c, before), k, Acked, now, live, id);
        case Sweep(now, order, live) => SettleAllOwes(Run(c, before), order, now, live, id);
      }
    }
  }

  lemma {:induction false} TwoReplies(sent: seq<Reply>, i: nat, j: nat)
    requires i < j < |sent| && sent[i].id == sent[j].id
    ensures RepliesFor(sent, sent[i].id) >= 2
    decreases |sent|
  {
    if j == |sent| - 1 {
      OneReply(sent[..j], i);
    } else {
      TwoReplies(sent[..|sent| - 1], i, j);
    }
  }

  lemma {:induction false} OneReply(sent: seq<Reply>, i: nat)
    requires i < |sent|
    ensures RepliesFor(sent, sent[i].id) >= 1
    decreases |sent|
  {
    if i < |sent| - 1 { OneReply(sent[..|sent| - 1], i); }
  }

  /** An id registered once is answered at most once, however many receivers acknowledge it: two replies for it
      are the same reply, so it never gets both a success and a timeout. */
  lemma SingleUseIdAnsweredOnce(c: Config, es: seq<Event>, i: nat, j: nat)
    requires i < |Run(c, es).sent| && j < |Run(c, es).sent|
    requires Run(c, es).sent[i].id == Run(c, es).sent[j].id
    requires RegistrationsOf(es, Run(c, es).sent[i].id) <= 1
    ensures i == j
  {
    var sent := Run(c, es).sent;
    RepliesNeverOutnumberRegistrations(c, es, sent[i].id);
    if i < j { TwoReplies(sent, i, j); }
    if j < i { TwoReplies(sent, j, i); }
  }

  /** An id registered twice can get both: the bound is the number of registrations, not one. */
  lemma ReusedIdCanGetBoth(c: Config, id: nat, info: Info)
    requires c.enabled
    ensures var live := {info.source};
            var late := info.timestamp + c.timeout + 1;
            var es := [Register(id, info), Receive(id, info.timestamp, live),
                       Register(id, info), Sweep(late, [id], live)];
            && Admissible(c, es)
            && Run(c, es).sent ==
               [Reply(info.source, id, Acked, info.timestamp), Reply(info.source, id, TimedOut, late)]
  {
    var live, late := {info.source}, info.timestamp + c.timeout + 1;
    var e0, e1, e2 := Register(id, info), Receive(id, info.timestamp, live), Sweep(late, [id], live);
    var first, second := Reply(info.source, id, Acked, info.timestamp), Reply(info.source, id, TimedOut, late);
    var none: seq<Event> := [];
    OneMore(c, none, e0);
    assert none + [e0] == [e0] && Run(c, [e0]) == Acks(map[id := info], []);
    OneMore(c, [e0], e1);
    assert [e0] + [e1] == [e0, e1] && Run(c, [e0, e1]) == Acks(map[], [first]);
    OneMore(c, [e0, e1], e0);
    assert [e0, e1] + [e0] == [e0, e1, e0] && Run(c, [e0, e1, e0]) == Acks(map[id := info], [first]);
    SweepOne(Acks(map[id := info], [first]), id, c.timeout, late, live);
    OneMore(c, [e0, e1, e0], e2);
    assert [e0, e1, e0] + [e2] == [e0, e1, e0, e2] && [first] + [second] == [first, second];
  }

  /** `n` rounds of registering an id and acknowledging it, the publisher being connected. */
  function Rounds(id: nat, info: Info, n: nat): seq<Event> {
    if n == 0 then []
    else Rounds(id, info, n - 1) + [Register(id, info)] + [Receive(id, info.timestamp, {info.source})]
  }

  lemma CountsOneMore(es: seq<Event>, e: Event, id: nat)
    ensures RegistrationsOf(es + [e], id) == RegistrationsOf(es, id) + if e.Register? && e.id == id then 1 else 0
  {
    assert (es + [e])[..|es|] == es;
  }

  lemma RepliesOneMore(sent: seq<Reply>, r: Reply, id: nat)
    ensures RepliesFor(sent + [r], id) == RepliesFor(sent, id) + if r.id == id then 1 else 0
  {
    assert (sent + [r])[..|sent|] == sent;
  }

  lemma OneRound(c: Config, es: seq<Event>, id: nat, info: Info)
    requires c.enabled && Admissible(c, es) && Run(c, es).pending == map[]
    ensures var after := es + [Register(id, info)] + [Receive(id, info.timestamp, {info.source})];
            && Admissible(c, after)
            && Run(c, after) == Acks(map[], Run(c, es).sent + [Reply(info.source, id, Acked, info.timestamp)])
  {
    var registered := es + [Register(id, info)];
    OneMore(c, es, Register(id, info));
    assert Run(c, registered) == Acks(map[id := info], Run(c, es).sent);
    OneMore(c, registered, Receive(id, info.timestamp, {info.source}));
    assert map[id := info] - {id} == map[];
  }

  lemma RoundRegistersOnce(es: seq<Event>, id: nat, info: Info)
    ensures RegistrationsOf(es + [Register(id, info)] + [Receive(id, info.timestamp, {info.source})], id)
            == RegistrationsOf(es, id) + 1
  {
    CountsOneMore(es, Register(id, info), id);
    CountsOneMore(es + [Register(id, info)], Receive(id, info.timestamp, {info.source}), id);
  }

  /** Such a run is allowed, registers the id `n` times and answers it `n` times. */
  lemma {:induction false} RoundsAnswerEach(c: Config, id: nat, info: Info, n: nat)
    requires c.enabled
    ensures var es := Rounds(id, info, n);
            && Admissible(c, es) && Run(c, es).pending == map[]
            && RegistrationsOf(es, id) == n && RepliesFor(Run(c, es).sent, id) == n
    decreases n
  {
    if n > 0 {
      var es := Rounds(id, info, n - 1);
      RoundsAnswerEach(c, id, info, n - 1);
      OneRound(c, es, id, info);
      RoundRegistersOnce(es, id, info);
      RepliesOneMore(Run(c, es).sent, Reply(info.source, id, Acked, info.timestamp), id);
    }
  }

  /** An id's registrations are exactly what bounds its replies: at most `k` replies in every run that registers it
      `n` times, if and only if `n <= k`. */
  lemma RepliesBoundedExactly(c: Config, id: nat, n: nat, k: nat)
    requires c.enabled
    ensures (forall es :: Admissible(c, es) && RegistrationsOf(es, id) == n ==> RepliesFor(Run(c, es).sent, id) <= k)
            <==> n <= k
  {
    if n <= k {
      forall es | Admissible(c, es) && RegistrationsOf(es, id) == n ensures RepliesFor(Run(c, es).sent, id) <= k {
        RepliesNeverOutnumberRegistrations(c, es, id);
      }
    } else {
      RoundsAnswerEach(c, id, Info(0, "", 0, false), n);
      assert Admissible(c, Rounds(id, Info(0, "", 0, false), n));
    }
  }

  /** An id is answered at most once, in every run that registers it `n` times, if and only if it is registered at
      most once. */
  lemma AtMostOneReplyExactly(c: Config, id: nat, n: nat)
    requires c.enabled
    ensures (forall es :: Admissible(c, es) && RegistrationsOf(es, id) == n ==> RepliesFor(Run(c, es).sent, id) <= 1)
            <==> n <= 1
  {
    RepliesBoundedExactly(c, id, n, 1);
  }

  lemma OneMore(c: Config, es: seq<Event>, e: Event)
    requires Admissible(c, es) && Enabled(c, Run(c, es), e)
    ensures Admissible(c, es + [e]) && Run(c, es + [e]) == Step(c, Run(c, es), e)
  {
    assert (es + [e])[..|es|] == es;
  }

  lemma SweepOne(a: Acks, id: nat, timeout: nat, now: nat, live: set<ClientId>)
    requires a.pending.Keys == {id} && Overdue(a.pending[id], timeout, now)
    ensures NoDup([id]) && Elements([id]) == Expired(a.pending, timeout, now)
    ensures SettleAll(a, [id], now, live) == Settle(a, id, TimedOut, now, live)
  {
    assert [id][..0] == [];
    assert SettleAll(a, [], now, live) == a;
  }
}
