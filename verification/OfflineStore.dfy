/** The persistent offline store: two trees updated in place, refining the value-level operations. */
module OfflineStores {
  import opened Common
  import opened OfflineTheory
  import opened QueueOrder

  const MAX_QUEUE_SIZE: nat := 1000
  const MESSAGE_TTL: nat := 604800

  class PersistenceStore {
    var index: map<ClientId, seq<MessageId>>
    var queue: map<MessageId, Message>

    ghost function State(): Trees
      reads this
    {
      Trees(index, queue)
    }

    constructor ()
      ensures State() == EMPTY
    {
      index, queue := map[], map[];
    }

    method GetOfflineMessageIds(clientId: ClientId) returns (ids: seq<MessageId>)
      ensures ids == Ids(State(), clientId)
    {
      ids := if clientId in index then index[clientId] else [];
    }

    /** Appends to the client's queue, dropping its oldest message at the limit. */
    method AddOfflineMessage(msg: Message)
      modifies this
      ensures State() == Add(old(State()), msg, MAX_QUEUE_SIZE)
    {
      var ids := GetOfflineMessageIds(msg.clientId);
      if |ids| >= MAX_QUEUE_SIZE {
        RemoveOldestOffline(msg.clientId);
      }
      queue := queue[msg.id := msg];
      ids := GetOfflineMessageIds(msg.clientId);
      index := index[msg.clientId := ids + [msg.id]];
    }

    method RemoveOldestOffline(clientId: ClientId)
      modifies this
      ensures State() == RemoveOldest(old(State()), clientId)
    {
      var ids := GetOfflineMessageIds(clientId);
      if ids != [] {
        RemoveOfflineMessage(clientId, ids[0]);
      }
    }

    method RemoveOfflineMessage(clientId: ClientId, messageId: MessageId)
      modifies this
      ensures State() == Remove(old(State()), clientId, messageId)
    {
      var ids := GetOfflineMessageIds(clientId);
      index := index[clientId := Delete(ids, messageId)];
      queue := queue - {messageId};
    }

    /** The client's unexpired messages, oldest first. */
    method GetOfflineMessages(clientId: ClientId, now: nat) returns (messages: seq<Message>)
      ensures messages == Unexpired(Queue(State(), clientId), now, MESSAGE_TTL)
      ensures forall m :: m in messages <==> m in Queue(State(), clientId) && now <= m.timestamp + MESSAGE_TTL
    {
      var ids := GetOfflineMessageIds(clientId);
      messages := [];
      for i := 0 to |ids|
        invariant messages == Unexpired(Rows(queue, ids[..i]), now, MESSAGE_TTL)
      {
        TakeOneMore(ids, i);
        RowsSnoc(queue, ids[..i], ids[i]);
        if ids[i] in queue {
          UnexpiredSnoc(Rows(queue, ids[..i]), queue[ids[i]], now, MESSAGE_TTL);
          if !Expired(queue[ids[i]], now, MESSAGE_TTL) {
            messages := messages + [queue[ids[i]]];
          }
        }
      }
      assert ids[..|ids|] == ids;
      UnexpiredMembers(Queue(State(), clientId), now, MESSAGE_TTL);
    }

    method GetOfflineCount(clientId: ClientId) returns (n: nat)
      ensures n == |Ids(State(), clientId)|
      ensures Consistent(State()) ==> n == |Queue(State(), clientId)|
    {
      var ids := GetOfflineMessageIds(clientId);
      if Consistent(State()) {
        OwnedIds(State(), clientId);
        RowsOfOwned(queue, clientId, ids);
      }
      n := |ids|;
    }

    method ClearOfflineMessages(clientId: ClientId)
      modifies this
      ensures State() == Clear(old(State()), clientId)
    {
      var ids := GetOfflineMessageIds(clientId);
      for i := 0 to |ids|
        invariant index == old(index) && queue == old(queue) - Elements(ids[..i])
      {
        TakeOneMore(ids, i);
        AppendElement(ids[..i], ids[i]);
        queue := queue - {ids[i]};
      }
      assert ids[..|ids|] == ids;
      index := index - {clientId};
    }

    /** Sweeps every client's queue, in the index's own order; `cleaned` is the number of ids taken out of it. */
    method CleanupExpired(now: nat) returns (cleaned: int, ghost order: seq<ClientId>)
      modifies this
      ensures Swept(old(State()), State(), order, cleaned, now, MESSAGE_TTL)
      ensures Consistent(old(State())) ==>
                State() == Cleanup(old(State()), now, MESSAGE_TTL) && cleaned == |old(queue)| - |queue|
      ensures Consistent(old(State())) ==>
                queue == map id | id in old(queue) && now <= old(queue)[id].timestamp + MESSAGE_TTL :: old(queue)[id]
    {
      ghost var before := State();
      cleaned, order := CleanEachQueue(now);
      if Consistent(before) {
        SweptConsistent(before, State(), order, cleaned, now, MESSAGE_TTL);
        CleanupRows(before, now, MESSAGE_TTL);
      }
    }

    method CleanEachQueue(now: nat) returns (cleaned: int, ghost order: seq<ClientId>)
      modifies this
      ensures Swept(old(State()), State(), order, cleaned, now, MESSAGE_TTL)
    {
      cleaned, order := 0, [];
      ghost var before := State();
      var todo := index.Keys;
      while todo != {}
        invariant Sweeping(before, State(), order, todo, cleaned, now, MESSAGE_TTL)
        decreases |todo|
      {
        var c :| c in todo;
        SweepingStep(before, State(), order, todo, cleaned, c, now, MESSAGE_TTL);
        var dropped := CleanClientQueue(c, now);
        cleaned := cleaned + dropped;
        order, todo := order + [c], todo - {c};
      }
    }

    /** The sweep's work on one index entry. */
    method CleanClientQueue(clientId: ClientId, now: nat) returns (dropped: nat)
      requires clientId in index
      modifies this
      ensures State() == CleanClient(old(State()), clientId, now, MESSAGE_TTL)
      ensures dropped == |old(index)[clientId]| - |LiveIds(old(queue), old(index)[clientId], now, MESSAGE_TTL)|
      ensures forall id :: id in queue <==>
                id in old(queue) && (id in old(index)[clientId] ==> now <= old(queue)[id].timestamp + MESSAGE_TTL)
    {
      var ids := index[clientId];
      var live, dead := SplitIds(queue, ids, now);
      SweptIds(queue, ids, now, MESSAGE_TTL);
      dropped := |ids| - |live|;
      if dropped > 0 {
        index := index[clientId := live];
        for i := 0 to |dead|
          invariant index == old(index)[clientId := live] && queue == old(queue) - Elements(dead[..i])
        {
          TakeOneMore(dead, i);
          AppendElement(dead[..i], dead[i]);
          queue := queue - {dead[i]};
        }
        assert dead[..|dead|] == dead;
      } else {
        NothingDead(queue, ids, now, MESSAGE_TTL);
      }
    }
  }

  method SplitIds(queue: map<MessageId, Message>, ids: seq<MessageId>, now: nat)
    returns (live: seq<MessageId>, dead: seq<MessageId>)
    ensures live == LiveIds(queue, ids, now, MESSAGE_TTL)
    ensures dead == DeadIds(queue, ids, now, MESSAGE_TTL)
  {
    live, dead := [], [];
    for i := 0 to |ids|
      invariant live == LiveIds(queue, ids[..i], now, MESSAGE_TTL)
      invariant dead == DeadIds(queue, ids[..i], now, MESSAGE_TTL)
    {
      TakeOneMore(ids, i);
      assert ids[..i + 1][..i] == ids[..i];
      if ids[i] in queue && Expired(queue[ids[i]], now, MESSAGE_TTL) {
        dead := dead + [ids[i]];
      } else {
        live := live + [ids[i]];
      }
    }
    assert ids[..|ids|] == ids;
  }
}
