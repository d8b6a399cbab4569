/** The pending-acknowledgement tracker. */
module AckTrackers {
  import opened Common
  import opened AckTheory

  /** Keys of the overdue entries, in the map's iteration order, which is not specified. */
  method CollectExpired(pending: map<nat, Info>, timeout: nat, now: nat) returns (expired: seq<nat>)
    ensures NoDup(expired) && Elements(expired) == Expired(pending, timeout, now)
  {
    var left := pending.Keys;
    expired := [];
    while left != {}
      invariant left <= pending.Keys
      invariant Collecting(pending, timeout, now, left, expired)
      decreases left
    {
      var id :| id in left;
      CollectingStep(pending, timeout, now, left, expired, id);
      left := left - {id};
      if Overdue(pending[id], timeout, now) {
        expired := expired + [id];
      }
    }
  }

  class AckTracker {
    var pending: map<nat, Info>
    const timeout: nat

    constructor (timeout: nat)
      ensures pending == map[] && this.timeout == timeout
    {
      this.timeout := timeout;
      pending := map[];
    }

    method Register(id: nat, source: ClientId, title: string, isGroup: bool, now: nat)
      modifies this
      ensures pending == old(pending)[id := Info(source, title, now, isGroup)]
    {
      pending := pending[id := Info(source, title, now, isGroup)];
    }

    method Take(id: nat) returns (info: Option<Info>)
      modifies this
      ensures pending == old(pending) - {id}
      ensures info == if id in old(pending) then Some(old(pending)[id]) else None
    {
      if id in pending {
        info := Some(pending[id]);
        pending := pending - {id};
      } else {
        info := None;
      }
    }

    /** Removes the overdue entries and returns each with its publisher. */
    method TakeExpired(now: nat) returns (result: seq<(nat, ClientId)>, ghost order: seq<nat>)
      modifies this
      ensures NoDup(order) && Elements(order) == Expired(old(pending), timeout, now)
      ensures result == Pairs(old(pending), order)
      ensures pending == old(pending) - Elements(order)
    {
      var expired := CollectExpired(pending, timeout, now);
      order := expired;
      result := [];
      assert Elements(expired[..0]) == {};
      for i := 0 to |expired|
        invariant Elements(expired[..i]) <= Elements(expired) <= old(pending).Keys
        invariant pending == old(pending) - Elements(expired[..i])
        invariant result == Pairs(old(pending), expired)[..i]
      {
        TakeOneMore(expired, i);
        assert expired[i] in Elements(expired);
        TakeOneMore(Pairs(old(pending), expired), i);
        assert Elements(expired[..i + 1]) == Elements(expired[..i]) + {expired[i]};
        if expired[i] in expired[..i] {
          var k :| 0 <= k < i && expired[..i][k] == expired[i];
          NoDupAt(expired, k, i);
          assert false;
        }
        var info := Take(expired[i]);
        if info.Some? {
          result := result + [(expired[i], info.value.source)];
        }
      }
      assert expired[..|expired|] == expired;
    }
  }
}

/** Registering, receiving and timing out acknowledgements. */
module AckServices {
  import opened Common
  import opened Bytes
  import opened PacketTheory
  import opened Packets
  import opened AckTheory
  import opened AckWire
  import opened AckTrackers

  class AckService {
    const enabled: bool
    const acks: AckTracker
    /** Replies handed to publishers' connections. */
    var sent: seq<Sent>

    ghost predicate Valid()
      reads this, acks
    {
      AllInRange(acks.pending) && AllWired(sent)
    }

    ghost function Settings(): Config { Config(enabled, acks.timeout) }

    ghost function State(): Acks
      reads this, acks
    {
      Acks(acks.pending, RepliesOf(sent))
    }

    constructor (enabled: bool, timeout: nat)
      ensures Valid() && fresh(acks) && State() == Start() && Settings() == Config(enabled, timeout)
    {
      this.enabled := enabled;
      acks := new AckTracker(timeout);
      sent := [];
    }

    method RegisterPendingAck(id: nat, source: ClientId, title: string, isGroup: bool, now: nat)
      requires Valid() && InRange(id, source)
      modifies acks
      ensures Valid()
      ensures State() == Step(Settings(), old(State()), Register(id, Info(source, title, now, isGroup)))
    {
      if !enabled { return; }
      acks.Register(id, source, title, isGroup, now);
    }

    /** Stamps the packet with its own id, or with a random one when it has none, and registers that id. */
    method SetupMessageAck(packet: RexData, client: ClientId, title: string, isGroup: bool, random: nat, now: nat)
      returns (ghost id: nat)
      requires Valid() && packet.Valid() && random < U64_SPAN && client < U128_SPAN
      modifies acks, packet
      ensures Valid() && packet.Valid()
      ensures id == if old(packet.Fields()).messageId != 0 then old(packet.Fields()).messageId else random
      ensures packet.Fields() == if enabled then old(packet.Fields()).(messageId := id) else old(packet.Fields())
      ensures State() == Step(Settings(), old(State()), Register(id, Info(client, title, now, isGroup)))
    {
      var own := packet.MessageId();
      var msgId := if own != 0 then own else random;
      id := msgId;
      if !enabled { return; }
      MessageIdBound(packet.content);
      packet.SetMessageId(msgId);
      RegisterPendingAck(msgId, client, title, isGroup, now);
    }

    /** The handler of an `Ack` packet. With acknowledgements on, a packet too short for an id makes it panic before
        it has changed anything. */
    method HandleAck(packet: RexData, live: set<ClientId>, now: nat) returns (panics: bool)
      requires Valid()
      modifies this, acks
      ensures Valid()
      ensures panics <==> enabled && |packet.content| < TITLE_OFFSET + 8
      ensures panics || !enabled ==> State() == old(State())
      ensures enabled && !panics ==>
                State() == Step(Settings(), old(State()), Receive(AckedId(packet.content), now, live))
      ensures sent == old(sent) || (|sent| == |old(sent)| + 1 && sent[..|old(sent)|] == old(sent))
      ensures sent != old(sent) <==>
                && enabled && !panics && AckedId(packet.content) in old(acks.pending)
                && old(acks.pending)[AckedId(packet.content)].source in live
      ensures sent != old(sent) ==>
                var id, reply := AckedId(packet.content), sent[|sent| - 1];
                && reply.dest == old(acks.pending)[id].source && reply.at == now && WellFormed(reply.packet)
                && ViewOf(reply.packet) == View(9916, 0, 0, reply.dest, [], LE(id, 8))
    {
      if !enabled { return false; }
      if |packet.content| < TITLE_OFFSET + 8 { return true; }
      panics := false;
      var id := AckedId(packet.content);
      var info := acks.Take(id);
      if info.Some? && info.value.source in live {
        var reply := AckPacket(id, info.value.source, CAckReturn);
        AckReads(id, info.value.source, now);
        WireOneMore(sent, Sent(info.value.source, reply, now));
        sent := sent + [Sent(info.value.source, reply, now)];
      }
    }

    /** The Janitor's sweep. */
    method CleanupExpiredAcks(now: nat, live: set<ClientId>) returns (ghost order: seq<nat>)
      requires Valid()
      modifies this, acks
      ensures Valid()
      ensures Enabled(Settings(), old(State()), Sweep(now, order, live))
      ensures State() == Step(Settings(), old(State()), Sweep(now, order, live))
      ensures TimeoutsAfter(old(sent), sent)
    {
      order := [];
      if !enabled { return; }
      ghost var a := State();
      var expired, taken := acks.TakeExpired(now);
      order := taken;
      assert RepliesOf(sent) == SettleAll(a, order[..0], now, live).sent;
      for i := 0 to |expired|
        invariant acks.pending == a.pending - Elements(order)
        invariant RepliesOf(sent) == SettleAll(a, order[..i], now, live).sent
        invariant AllWired(sent) && TimeoutsAfter(old(sent), sent)
      {
        var (id, source) := expired[i];
        assert order[i] in Elements(order);
        SettleOneMore(a, order, i, now, live);
        if source in live {
          assert InRange(id, source);
          TimeoutReads(id, source, now);
          TimeoutOneMore(old(sent), sent, Sent(source, TimeoutPacket(id, source), now));
          sent := sent + [Sent(source, TimeoutPacket(id, source), now)];
        }
      }
      assert order[..|order|] == order;
      SettleAllPending(a, order, now, live);
    }
  }
}
