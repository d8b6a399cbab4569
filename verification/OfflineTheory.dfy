/** The offline store on values: an id index per client and a tree of message rows, and the queues
    they stand for.

    `Queue` is the abstract value; the refinement lemmas say what each operation on the two trees
    does to every client's queue, and exactly when the trees stay consistent. */
module OfflineTheory {
  import opened Common

  type MessageId = nat

  datatype Message = Message(
    id: MessageId, clientId: ClientId, title: string, payload: seq<byte>, timestamp: nat, retries: nat)

  datatype Trees = Trees(index: map<ClientId, seq<MessageId>>, queue: map<MessageId, Message>)

  const EMPTY: Trees := Trees(map[], map[])

  /** `now.saturating_sub(timestamp) > ttl`. */
  predicate Expired(m: Message, now: nat, ttl: nat) {
    now > m.timestamp && now - m.timestamp > ttl
  }

  /* ---------------- the operations ---------------- */

  function Ids(t: Trees, c: ClientId): seq<MessageId> {
    if c in t.index then t.index[c] else []
  }

  function Remove(t: Trees, c: ClientId, id: MessageId): Trees {
    Trees(t.index[c := Delete(Ids(t, c), id)], t.queue - {id})
  }

  function RemoveOldest(t: Trees, c: ClientId): Trees {
    if Ids(t, c) == [] then t else Remove(t, c, Ids(t, c)[0])
  }

  function MakeRoom(t: Trees, c: ClientId, limit: nat): Trees {
    if |Ids(t, c)| >= limit then RemoveOldest(t, c) else t
  }

  function Append(t: Trees, m: Message): Trees {
    Trees(t.index[m.clientId := Ids(t, m.clientId) + [m.id]], t.queue[m.id := m])
  }

  function Add(t: Trees, m: Message, limit: nat): Trees {
    Append(MakeRoom(t, m.clientId, limit), m)
  }

  function Clear(t: Trees, c: ClientId): Trees {
    Trees(t.index - {c}, t.queue - Elements(Ids(t, c)))
  }

  /** The ids a sweep takes out of an index entry: those whose row exists and is expired. */
  function DeadIds(queue: map<MessageId, Message>, ids: seq<MessageId>, now: nat, ttl: nat): seq<MessageId> {
    if ids == [] then []
    else
      var id := ids[|ids| - 1];
      var before := DeadIds(queue, ids[..|ids| - 1], now, ttl);
      if id in queue && Expired(queue[id], now, ttl) then before + [id] else before
  }

  /** The ids a sweep leaves in an index entry. */
  function LiveIds(queue: map<MessageId, Message>, ids: seq<MessageId>, now: nat, ttl: nat): seq<MessageId> {
    if ids == [] then []
    else
      var id := ids[|ids| - 1];
      var before := LiveIds(queue, ids[..|ids| - 1], now, ttl);
      if id in queue && Expired(queue[id], now, ttl) then before else before + [id]
  }

  /** One turn of the sweep's outer loop. */
  function CleanClient(t: Trees, c: ClientId, now: nat, ttl: nat): Trees
    requires c in t.index
  {
    Trees(t.index[c := LiveIds(t.queue, t.index[c], now, ttl)],
          t.queue - Elements(DeadIds(t.queue, t.index[c], now, ttl)))
  }

  /** The whole sweep, when the clients in `done` have had their turn. */
  function CleanClients(t: Trees, done: set<ClientId>, now: nat, ttl: nat): Trees {
    Trees(map c | c in t.index :: if c in done then LiveIds(t.queue, t.index[c], now, ttl) else t.index[c],
          map id | id in t.queue && !(t.queue[id].clientId in done && Expired(t.queue[id], now, ttl)) :: t.queue[id])
  }

  function Cleanup(t: Trees, now: nat, ttl: nat): Trees {
    CleanClients(t, t.index.Keys, now, ttl)
  }

  /* ---------------- consistency ---------------- */

  /** The ids of one index entry: no repetition, each with a row addressed to the client. */
  ghost predicate Owned(queue: map<MessageId, Message>, c: ClientId, ids: seq<MessageId>) {
    NoDup(ids) && forall id :: id in ids ==> id in queue && queue[id].clientId == c
  }

  ghost predicate RowIndexed(t: Trees, id: MessageId)
    requires id in t.queue
  {
    t.queue[id].id == id && id in Ids(t, t.queue[id].clientId)
  }

  /** Index and rows describe each other. */
  ghost predicate Consistent(t: Trees) {
    && (forall c :: c in t.index ==> Owned(t.queue, c, t.index[c]))
    && (forall id :: id in t.queue ==> RowIndexed(t, id))
  }

  /* ---------------- the queues the trees stand for ---------------- */

  /** The rows of a list of ids, in order; an id without a row is skipped. */
  function Rows(queue: map<MessageId, Message>, ids: seq<MessageId>): seq<Message> {
    if ids == [] then []
    else
      var id := ids[|ids| - 1];
      var before := Rows(queue, ids[..|ids| - 1]);
      if id in queue then before + [queue[id]] else before
  }

  function Queue(t: Trees, c: ClientId): seq<Message> {
    Rows(t.queue, Ids(t, c))
  }

  function Unexpired(q: seq<Message>, now: nat, ttl: nat): seq<Message> {
    if q == [] then []
    else
      var m := q[|q| - 1];
      var before := Unexpired(q[..|q| - 1], now, ttl);
      if Expired(m, now, ttl) then before else before + [m]
  }

  /** A bounded FIFO: at the limit the oldest message makes room. */
  function Enqueue(q: seq<Message>, m: Message, limit: nat): seq<Message> {
    (if |q| >= limit && q != [] then q[1..] else q) + [m]
  }

  function DeleteById(q: seq<Message>, id: MessageId): seq<Message> {
    if q == [] then []
    else
      var m := q[|q| - 1];
      var before := DeleteById(q[..|q| - 1], id);
      if m.id == id then before else before + [m]
  }

  lemma RowsSnoc(queue: map<MessageId, Message>, ids: seq<MessageId>, id: MessageId)
    ensures Rows(queue, ids + [id]) == if id in queue then Rows(queue, ids) + [queue[id]] else Rows(queue, ids)
  {
    assert (ids + [id])[..|ids|] == ids;
  }

  lemma {:induction false} RowsFrame(a: map<MessageId, Message>, b: map<MessageId, Message>, ids: seq<MessageId>)
    requires forall id :: id in ids ==> (id in a <==> id in b) && (id in a ==> a[id] == b[id])
    ensures Rows(a, ids) == Rows(b, ids)
  {
    if ids != [] {
      assert ids == ids[..|ids| - 1] + [ids[|ids| - 1]];
      RowsFrame(a, b, ids[..|ids| - 1]);
    }
  }

  lemma {:induction false} RowsMembers(queue: map<MessageId, Message>, ids: seq<MessageId>, m: Message)
    ensures m in Rows(queue, ids) <==> exists id :: id in ids && id in queue && queue[id] == m
  {
    if ids != [] {
      var init, last := ids[..|ids| - 1], ids[|ids| - 1];
      assert ids == init + [last];
      RowsMembers(queue, init, m);
    }
  }

  lemma {:induction false} RowsConcat(queue: map<MessageId, Message>, a: seq<MessageId>, b: seq<MessageId>)
    ensures Rows(queue, a + b) == Rows(queue, a) + Rows(queue, b)
  {
    if b == [] {
      assert a + b == a;
    } else {
      assert (a + b)[..|a + b| - 1] == a + b[..|b| - 1];
      RowsConcat(queue, a, b[..|b| - 1]);
    }
  }

  lemma {:induction false} RowsCount(queue: map<MessageId, Message>, ids: seq<MessageId>)
    requires forall id :: id in ids ==> id in queue
    ensures |Rows(queue, ids)| == |ids|
  {
    if ids != [] {
      assert ids == ids[..|ids| - 1] + [ids[|ids| - 1]];
      RowsCount(queue, ids[..|ids| - 1]);
    }
  }

  lemma RowsOfOwned(queue: map<MessageId, Message>, c: ClientId, ids: seq<MessageId>)
    requires Owned(queue, c, ids)
    ensures |Rows(queue, ids)| == |ids|
    ensures ids != [] ==> Rows(queue, ids) == [queue[ids[0]]] + Rows(queue, ids[1..])
  {
    RowsCount(queue, ids);
    if ids != [] {
      assert ids == [ids[0]] + ids[1..];
      RowsConcat(queue, [ids[0]], ids[1..]);
      assert [ids[0]][..0] == [];
      assert Rows(queue, [ids[0]]) == [queue[ids[0]]];
    }
  }

  lemma {:induction false} RowsAfterDelete(queue: map<MessageId, Message>, ids: seq<MessageId>, id: MessageId)
    requires forall i :: i in ids ==> i in queue && queue[i].id == i
    ensures Rows(queue - {id}, Delete(ids, id)) == DeleteById(Rows(queue, ids), id)
  {
    if ids != [] {
      var init, last := ids[..|ids| - 1], ids[|ids| - 1];
      assert ids == init + [last];
      RowsAfterDelete(queue, init, id);
      var before := Rows(queue, init);
      assert (before + [queue[last]])[..|before|] == before;
      if last != id { RowsSnoc(queue - {id}, Delete(init, id), last); }
    }
  }

  lemma UnexpiredSnoc(q: seq<Message>, m: Message, now: nat, ttl: nat)
    ensures Unexpired(q + [m], now, ttl)
            == if Expired(m, now, ttl) then Unexpired(q, now, ttl) else Unexpired(q, now, ttl) + [m]
  {
    assert (q + [m])[..|q|] == q;
  }

  lemma {:induction false} UnexpiredIsLive(queue: map<MessageId, Message>, ids: seq<MessageId>, now: nat, ttl: nat)
    requires forall i :: i in ids ==> i in queue
    ensures Unexpired(Rows(queue, ids), now, ttl) == Rows(queue, LiveIds(queue, ids, now, ttl))
  {
    if ids != [] {
      var init, last := ids[..|ids| - 1], ids[|ids| - 1];
      assert ids == init + [last];
      UnexpiredIsLive(queue, init, now, ttl);
      RowsSnoc(queue, init, last);
      UnexpiredSnoc(Rows(queue, init), queue[last], now, ttl);
      RowsSnoc(queue, LiveIds(queue, init, now, ttl), last);
    }
  }

  lemma {:induction false} SweptIds(queue: map<MessageId, Message>, ids: seq<MessageId>, now: nat, ttl: nat)
    ensures forall id :: id in LiveIds(queue, ids, now, ttl) <==>
                         id in ids && !(id in queue && Expired(queue[id], now, ttl))
    ensures forall id :: id in DeadIds(queue, ids, now, ttl) <==>
                         id in ids && id in queue && Expired(queue[id], now, ttl)
    ensures |LiveIds(queue, ids, now, ttl)| + |DeadIds(queue, ids, now, ttl)| == |ids|
  {
    if ids != [] {
      var init, last := ids[..|ids| - 1], ids[|ids| - 1];
      assert ids == init + [last];
      SweptIds(queue, init, now, ttl);
    }
  }

  lemma {:induction false} LiveNoDup(queue: map<MessageId, Message>, ids: seq<MessageId>, now: nat, ttl: nat)
    requires NoDup(ids)
    ensures NoDup(LiveIds(queue, ids, now, ttl))
  {
    if ids != [] {
      var init, last := ids[..|ids| - 1], ids[|ids| - 1];
      LiveNoDup(queue, init, now, ttl);
      SweptIds(queue, init, now, ttl);
      if !(last in queue && Expired(queue[last], now, ttl)) { AppendNoDup(LiveIds(queue, init, now, ttl), last); }
    }
  }

  lemma {:induction false} DeadNoDup(queue: map<MessageId, Message>, ids: seq<MessageId>, now: nat, ttl: nat)
    requires NoDup(ids)
    ensures NoDup(DeadIds(queue, ids, now, ttl))
  {
    if ids != [] {
      var init, last := ids[..|ids| - 1], ids[|ids| - 1];
      DeadNoDup(queue, init, now, ttl);
      SweptIds(queue, init, now, ttl);
      if last in queue && Expired(queue[last], now, ttl) { AppendNoDup(DeadIds(queue, init, now, ttl), last); }
    }
  }

  /* ---------------- removal ---------------- */

  lemma OwnedIds(t: Trees, c: ClientId)
    requires Consistent(t)
    ensures Owned(t.queue, c, Ids(t, c))
    ensures forall id :: id in Ids(t, c) ==> t.queue[id].id == id
  {
    forall id | id in Ids(t, c) ensures t.queue[id].id == id {
      assert RowIndexed(t, id);
    }
  }

  lemma RemoveOwnKeeps(t: Trees, c: ClientId, id: MessageId)
    requires Consistent(t) && (id in t.queue ==> t.queue[id].clientId == c)
    ensures Consistent(Remove(t, c, id))
  {
    var t' := Remove(t, c, id);
    OwnedIds(t, c);
    DeleteMembers(Ids(t, c), id);
    DeleteKeepsNoDup(Ids(t, c), id);
    forall k | k in t'.index ensures Owned(t'.queue, k, t'.index[k]) {
      OwnedIds(t, k);
    }
    forall i | i in t'.queue ensures RowIndexed(t', i) {
      assert RowIndexed(t, i);
    }
  }

  lemma RemoveForeignBreaks(t: Trees, c: ClientId, id: MessageId)
    requires Consistent(t) && id in t.queue && t.queue[id].clientId != c
    ensures !Consistent(Remove(t, c, id))
  {
    var t', other := Remove(t, c, id), t.queue[id].clientId;
    assert RowIndexed(t, id);
    assert id in t'.index[other] && id !in t'.queue;
    assert !Owned(t'.queue, other, t'.index[other]);
  }

  /** Removing an id is safe for its own client or for nobody: the trees stay consistent exactly when
      the row, if there is one, is addressed to the client named. */
  lemma RemoveConsistent(t: Trees, c: ClientId, id: MessageId)
    requires Consistent(t)
    ensures Consistent(Remove(t, c, id)) <==> (id in t.queue ==> t.queue[id].clientId == c)
  {
    if id in t.queue && t.queue[id].clientId != c {
      RemoveForeignBreaks(t, c, id);
    } else {
      RemoveOwnKeeps(t, c, id);
    }
  }

  /** Removing a client's message deletes it from that client's queue and touches no other queue. */
  lemma RemoveRefines(t: Trees, c: ClientId, id: MessageId, k: ClientId)
    requires Consistent(t) && (id in t.queue ==> t.queue[id].clientId == c)
    ensures Queue(Remove(t, c, id), k) == if k == c then DeleteById(Queue(t, c), id) else Queue(t, k)
  {
    OwnedIds(t, k);
    if k == c {
      RowsAfterDelete(t.queue, Ids(t, c), id);
    } else {
      RowsFrame(t.queue, t.queue - {id}, Ids(t, k));
    }
  }

  /* ---------------- adding ---------------- */

  /** Evicting keeps the trees consistent and drops the head of one queue. */
  lemma RemoveOldestRefines(t: Trees, c: ClientId, k: ClientId)
    requires Consistent(t)
    ensures Consistent(RemoveOldest(t, c))
    ensures Queue(RemoveOldest(t, c), k)
            == if k == c && Queue(t, c) != [] then Queue(t, c)[1..] else Queue(t, k)
  {
    var ids := Ids(t, c);
    OwnedIds(t, c);
    RowsOfOwned(t.queue, c, ids);
    if ids != [] {
      RemoveConsistent(t, c, ids[0]);
      RemoveRefines(t, c, ids[0], k);
      if k == c {
        DeleteAt(ids, 0);
        assert ids[..0] + ids[1..] == ids[1..];
        SplitAt(ids, 0);
        RowsFrame(t.queue, t.queue - {ids[0]}, ids[1..]);
      }
    }
  }

  lemma AppendFreshKeeps(t: Trees, m: Message)
    requires Consistent(t) && m.id !in t.queue
    ensures Consistent(Append(t, m))
  {
    var t', c := Append(t, m), m.clientId;
    OwnedIds(t, c);
    AppendNoDup(Ids(t, c), m.id);
    forall k | k in t'.index ensures Owned(t'.queue, k, t'.index[k]) {
      OwnedIds(t, k);
    }
    forall i | i in t'.queue ensures RowIndexed(t', i) {
      if i != m.id { assert RowIndexed(t, i); }
    }
  }

  lemma AppendUsedBreaks(t: Trees, m: Message)
    requires Consistent(t) && m.id in t.queue
    ensures !Consistent(Append(t, m))
  {
    var t', other := Append(t, m), t.queue[m.id].clientId;
    assert RowIndexed(t, m.id);
    if other == m.clientId {
      var ids := t'.index[other];
      assert ids[..|ids| - 1] == t.index[other] && ids[|ids| - 1] == m.id;
      assert !NoDup(ids);
    }
    assert !Owned(t'.queue, other, t'.index[other]);
  }

  /** Appending is safe exactly when the id is new. */
  lemma AppendConsistent(t: Trees, m: Message)
    requires Consistent(t)
    ensures Consistent(Append(t, m)) <==> m.id !in t.queue
  {
    if m.id in t.queue {
      AppendUsedBreaks(t, m);
    } else {
      AppendFreshKeeps(t, m);
    }
  }

  lemma AppendRefines(t: Trees, m: Message, k: ClientId)
    requires Consistent(t) && m.id !in t.queue
    ensures Queue(Append(t, m), k) == if k == m.clientId then Queue(t, k) + [m] else Queue(t, k)
  {
    OwnedIds(t, k);
    RowsFrame(t.queue, t.queue[m.id := m], Ids(t, k));
    if k == m.clientId { RowsSnoc(t.queue[m.id := m], Ids(t, k), m.id); }
  }

  /** Adding a message keeps the trees consistent exactly when its id is not in use once room has been
      made. */
  lemma AddConsistent(t: Trees, m: Message, limit: nat)
    requires Consistent(t)
    ensures Consistent(Add(t, m, limit)) <==> m.id !in MakeRoom(t, m.clientId, limit).queue
  {
    RemoveOldestRefines(t, m.clientId, m.clientId);
    AppendConsistent(MakeRoom(t, m.clientId, limit), m);
  }

  /** Adding a message with a fresh id is a bounded FIFO enqueue on its client's queue and leaves every
      other queue alone. */
  lemma AddRefines(t: Trees, m: Message, limit: nat, k: ClientId)
    requires Consistent(t) && m.id !in t.queue
    ensures Queue(Add(t, m, limit), k) == if k == m.clientId then Enqueue(Queue(t, k), m, limit) else Queue(t, k)
  {
    var c := m.clientId;
    OwnedIds(t, c);
    RowsOfOwned(t.queue, c, Ids(t, c));
    RemoveOldestRefines(t, c, k);
    AppendRefines(MakeRoom(t, c, limit), m, k);
  }

  /** A queue within the limit stays within it (a limit of 0 still holds the newest message). */
  lemma EnqueueBounded(q: seq<Message>, m: Message, limit: nat)
    requires |q| <= if limit == 0 then 1 else limit
    ensures |Enqueue(q, m, limit)| <= if limit == 0 then 1 else limit
    ensures Enqueue(q, m, limit)[|Enqueue(q, m, limit)| - 1] == m
  {}

  /* ---------------- clearing and sweeping ---------------- */

  /** Clearing empties one queue and leaves the others alone. */
  lemma ClearRefines(t: Trees, c: ClientId, k: ClientId)
    requires Consistent(t)
    ensures Consistent(Clear(t, c))
    ensures Queue(Clear(t, c), k) == if k == c then [] else Queue(t, k)
  {
    var t' := Clear(t, c);
    OwnedIds(t, c);
    OwnedIds(t, k);
    forall j | j in t'.index ensures Owned(t'.queue, j, t'.index[j]) {
      OwnedIds(t, j);
    }
    forall i | i in t'.queue ensures RowIndexed(t', i) {
      assert RowIndexed(t, i);
    }
    if k != c { RowsFrame(t.queue, t'.queue, Ids(t, k)); }
  }

  /** A client's rows are still there before its turn. */
  lemma RowsAwaitTheirTurn(t: Trees, done: set<ClientId>, c: ClientId, now: nat, ttl: nat)
    requires Consistent(t) && c in t.index && c !in done
    ensures var before := CleanClients(t, done, now, ttl);
            && before.index[c] == t.index[c]
            && LiveIds(before.queue, t.index[c], now, ttl) == LiveIds(t.queue, t.index[c], now, ttl)
            && DeadIds(before.queue, t.index[c], now, ttl) == DeadIds(t.queue, t.index[c], now, ttl)
  {
    OwnedIds(t, c);
    SweepFrame(t.queue, CleanClients(t, done, now, ttl).queue, t.index[c], now, ttl);
  }

  lemma DeadOfClient(t: Trees, c: ClientId, now: nat, ttl: nat)
    requires Consistent(t) && c in t.index
    ensures forall id :: id in DeadIds(t.queue, t.index[c], now, ttl) <==>
                         id in t.queue && t.queue[id].clientId == c && Expired(t.queue[id], now, ttl)
  {
    OwnedIds(t, c);
    SweptIds(t.queue, t.index[c], now, ttl);
    forall id | id in t.queue && t.queue[id].clientId == c ensures id in t.index[c] { assert RowIndexed(t, id); }
  }

  /** `dead` holds exactly the expired rows of `c`. */
  ghost predicate DeadAre(t: Trees, c: ClientId, now: nat, ttl: nat, dead: set<MessageId>) {
    forall id :: id in t.queue ==> (id in dead <==> t.queue[id].clientId == c && Expired(t.queue[id], now, ttl))
  }

  lemma CleanedWithoutDead(t: Trees, done: set<ClientId>, c: ClientId, now: nat, ttl: nat, dead: set<MessageId>)
    requires DeadAre(t, c, now, ttl, dead)
    ensures CleanClients(t, done, now, ttl).queue - dead == CleanClients(t, done + {c}, now, ttl).queue
  {}

  lemma CleanClientRows(t: Trees, done: set<ClientId>, c: ClientId, now: nat, ttl: nat)
    requires Consistent(t) && c in t.index && c !in done
    ensures CleanClients(t, done, now, ttl).queue - Elements(DeadIds(t.queue, t.index[c], now, ttl))
            == CleanClients(t, done + {c}, now, ttl).queue
  {
    DeadOfClient(t, c, now, ttl);
    CleanedWithoutDead(t, done, c, now, ttl, Elements(DeadIds(t.queue, t.index[c], now, ttl)));
  }

  lemma CleanClientIndex(t: Trees, done: set<ClientId>, c: ClientId, now: nat, ttl: nat)
    requires c in t.index && c !in done
    ensures CleanClients(t, done, now, ttl).index[c := LiveIds(t.queue, t.index[c], now, ttl)]
            == CleanClients(t, done + {c}, now, ttl).index
  {}

  /** The sweep's turns add up, in whatever order the clients come. */
  lemma CleanClientStep(t: Trees, done: set<ClientId>, c: ClientId, now: nat, ttl: nat)
    requires Consistent(t) && c in t.index && c !in done
    ensures CleanClient(CleanClients(t, done, now, ttl), c, now, ttl) == CleanClients(t, done + {c}, now, ttl)
  {
    RowsAwaitTheirTurn(t, done, c, now, ttl);
    CleanClientRows(t, done, c, now, ttl);
    CleanClientIndex(t, done, c, now, ttl);
  }

  /** What a turn takes out of the index it takes out of the rows. */
  lemma CleanClientCounts(t: Trees, done: set<ClientId>, c: ClientId, now: nat, ttl: nat)
    requires Consistent(t) && c in t.index && c !in done
    ensures var before := CleanClients(t, done, now, ttl);
            |t.index[c]| - |LiveIds(t.queue, t.index[c], now, ttl)|
            == |before.queue| - |CleanClients(t, done + {c}, now, ttl).queue|
  {
    var before := CleanClients(t, done, now, ttl);
    var dead := DeadIds(t.queue, t.index[c], now, ttl);
    RowsAwaitTheirTurn(t, done, c, now, ttl);
    CleanClientStep(t, done, c, now, ttl);
    DeadOfClient(t, c, now, ttl);
    OwnedIds(t, c);
    SweptIds(t.queue, t.index[c], now, ttl);
    DeadNoDup(t.queue, t.index[c], now, ttl);
    NoDupCard(dead);
    RowsLeft(before.queue, Elements(dead));
  }

  lemma RowsLeft(queue: map<MessageId, Message>, gone: set<MessageId>)
    requires gone <= queue.Keys
    ensures |queue - gone| == |queue| - |gone|
  {
    assert (queue - gone).Keys == queue.Keys - gone;
    assert |queue.Keys - gone| == |queue.Keys| - |gone|;
  }

  lemma {:induction false} SweepFrame(a: map<MessageId, Message>, b: map<MessageId, Message>, ids: seq<MessageId>,
                                      now: nat, ttl: nat)
    requires forall id :: id in ids ==> (id in a <==> id in b) && (id in a ==> a[id] == b[id])
    ensures LiveIds(a, ids, now, ttl) == LiveIds(b, ids, now, ttl)
    ensures DeadIds(a, ids, now, ttl) == DeadIds(b, ids, now, ttl)
  {
    if ids != [] {
      assert ids == ids[..|ids| - 1] + [ids[|ids| - 1]];
      SweepFrame(a, b, ids[..|ids| - 1], now, ttl);
    }
  }

  lemma CleanupRows(t: Trees, now: nat, ttl: nat)
    requires Consistent(t)
    ensures Cleanup(t, now, ttl).queue == map id | id in t.queue && now <= t.queue[id].timestamp + ttl :: t.queue[id]
  {
    forall id | id in t.queue ensures t.queue[id].clientId in t.index { assert RowIndexed(t, id); }
  }

  lemma CleanupConsistent(t: Trees, now: nat, ttl: nat)
    requires Consistent(t)
    ensures Consistent(Cleanup(t, now, ttl))
  {
    var t' := Cleanup(t, now, ttl);
    CleanupRows(t, now, ttl);
    forall c | c in t'.index ensures Owned(t'.queue, c, t'.index[c]) {
      OwnedIds(t, c);
      SweptIds(t.queue, t.index[c], now, ttl);
      LiveNoDup(t.queue, t.index[c], now, ttl);
    }
    forall i | i in t'.queue ensures RowIndexed(t', i) {
      assert RowIndexed(t, i);
      SweptIds(t.queue, t.index[t.queue[i].clientId], now, ttl);
    }
  }

  /** A sweep drops exactly the expired messages of every queue and keeps the rest in order. */
  lemma CleanupRefines(t: Trees, now: nat, ttl: nat, k: ClientId)
    requires Consistent(t)
    ensures Queue(Cleanup(t, now, ttl), k) == Unexpired(Queue(t, k), now, ttl)
  {
    CleanupRows(t, now, ttl);
    OwnedIds(t, k);
    UnexpiredIsLive(t.queue, Ids(t, k), now, ttl);
    if k in t.index {
      SweptIds(t.queue, t.index[k], now, ttl);
      RowsFrame(t.queue, Cleanup(t, now, ttl).queue, LiveIds(t.queue, t.index[k], now, ttl));
    }
  }

  /* ---------------- the sweep's loop ---------------- */

  lemma CleanNobody(t: Trees, now: nat, ttl: nat)
    ensures CleanClients(t, {}, now, ttl) == t
  {
    assert CleanClients(t, {}, now, ttl).index == t.index;
    assert CleanClients(t, {}, now, ttl).queue == t.queue;
  }

  /** One client's turn changes no other entry and keeps the keys. */
  function TakeTurn(t: Trees, c: ClientId, now: nat, ttl: nat): Trees {
    if c in t.index then CleanClient(t, c, now, ttl) else t
  }

  /** The sweep as it goes, client by client; with shared ids it can depend on the order. */
  function CleanEach(t: Trees, order: seq<ClientId>, now: nat, ttl: nat): Trees {
    if order == [] then t
    else TakeTurn(CleanEach(t, order[..|order| - 1], now, ttl), order[|order| - 1], now, ttl)
  }

  function EntryLoss(t: Trees, c: ClientId, now: nat, ttl: nat): int {
    |Ids(t, c)| - |LiveIds(t.queue, Ids(t, c), now, ttl)|
  }

  /** How many ids the sweep takes out of the index. */
  function DroppedEach(t: Trees, order: seq<ClientId>, now: nat, ttl: nat): int {
    if order == [] then 0
    else
      var init := order[..|order| - 1];
      DroppedEach(t, init, now, ttl) + EntryLoss(CleanEach(t, init, now, ttl), order[|order| - 1], now, ttl)
  }

  lemma CleanEachOneMore(t: Trees, order: seq<ClientId>, c: ClientId, now: nat, ttl: nat)
    ensures var before := CleanEach(t, order, now, ttl);
            && CleanEach(t, order + [c], now, ttl) == TakeTurn(before, c, now, ttl)
            && DroppedEach(t, order + [c], now, ttl) == DroppedEach(t, order, now, ttl) + EntryLoss(before, c, now, ttl)
  {
    assert (order + [c])[..|order|] == order;
  }

  lemma {:induction false} CleanEachKeys(t: Trees, order: seq<ClientId>, now: nat, ttl: nat)
    ensures CleanEach(t, order, now, ttl).index.Keys == t.index.Keys
    decreases |order|
  {
    if order != [] { CleanEachKeys(t, order[..|order| - 1], now, ttl); }
  }

  /** In consistent trees the order does not matter, and each id taken out is a row dropped. */
  lemma {:induction false} CleanEachInAnyOrder(t: Trees, order: seq<ClientId>, now: nat, ttl: nat)
    requires Consistent(t) && NoDup(order) && Elements(order) <= t.index.Keys
    ensures CleanEach(t, order, now, ttl) == CleanClients(t, Elements(order), now, ttl)
    ensures DroppedEach(t, order, now, ttl) == |t.queue| - |CleanEach(t, order, now, ttl).queue|
    decreases |order|
  {
    if order == [] {
      assert Elements(order) == {};
      CleanNobody(t, now, ttl);
    } else {
      var init, c := order[..|order| - 1], order[|order| - 1];
      assert order == init + [c];
      AppendElement(init, c);
      assert c in Elements(order) && c !in Elements(init);
      CleanEachInAnyOrder(t, init, now, ttl);
      RowsAwaitTheirTurn(t, Elements(init), c, now, ttl);
      CleanClientStep(t, Elements(init), c, now, ttl);
      CleanClientCounts(t, Elements(init), c, now, ttl);
    }
  }

  /** The clients of `order` have had their turns, those of `todo` not yet. */
  ghost predicate Sweeping(t: Trees, s: Trees, order: seq<ClientId>, todo: set<ClientId>, cleaned: int,
                           now: nat, ttl: nat) {
    && NoDup(order) && todo <= t.index.Keys && Elements(order) == t.index.Keys - todo
    && s == CleanEach(t, order, now, ttl) && cleaned == DroppedEach(t, order, now, ttl)
  }

  /** All clients of the index had their turn, in some order. */
  ghost predicate Swept(t: Trees, s: Trees, order: seq<ClientId>, cleaned: int, now: nat, ttl: nat) {
    && NoDup(order) && Elements(order) == t.index.Keys
    && s == CleanEach(t, order, now, ttl) && cleaned == DroppedEach(t, order, now, ttl)
  }

  lemma SweepingStep(t: Trees, s: Trees, order: seq<ClientId>, todo: set<ClientId>, cleaned: int, c: ClientId,
                     now: nat, ttl: nat)
    requires Sweeping(t, s, order, todo, cleaned, now, ttl) && c in todo
    ensures c in s.index
    ensures var loss := |s.index[c]| - |LiveIds(s.queue, s.index[c], now, ttl)|;
            Sweeping(t, CleanClient(s, c, now, ttl), order + [c], todo - {c}, cleaned + loss, now, ttl)
  {
    CleanEachKeys(t, order, now, ttl);
    CleanEachOneMore(t, order, c, now, ttl);
    assert c !in Elements(order);
    AppendElement(order, c);
  }

  /** What the sweep of consistent trees comes to. */
  lemma SweptConsistent(t: Trees, s: Trees, order: seq<ClientId>, cleaned: int, now: nat, ttl: nat)
    requires Swept(t, s, order, cleaned, now, ttl) && Consistent(t)
    ensures s == Cleanup(t, now, ttl) && cleaned == |t.queue| - |s.queue|
  {
    CleanEachInAnyOrder(t, order, now, ttl);
  }

  lemma NothingDead(queue: map<MessageId, Message>, ids: seq<MessageId>, now: nat, ttl: nat)
    requires |LiveIds(queue, ids, now, ttl)| == |ids|
    ensures LiveIds(queue, ids, now, ttl) == ids && DeadIds(queue, ids, now, ttl) == []
  {
    SweptIds(queue, ids, now, ttl);
    AllLive(queue, ids, now, ttl);
  }

  lemma {:induction false} AllLive(queue: map<MessageId, Message>, ids: seq<MessageId>, now: nat, ttl: nat)
    requires |LiveIds(queue, ids, now, ttl)| == |ids|
    ensures LiveIds(queue, ids, now, ttl) == ids
  {
    if ids != [] {
      SweptIds(queue, ids[..|ids| - 1], now, ttl);
      AllLive(queue, ids[..|ids| - 1], now, ttl);
      assert ids == ids[..|ids| - 1] + [ids[|ids| - 1]];
    }
  }
}
