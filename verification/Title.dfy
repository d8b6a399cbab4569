/** The handler of `Title` packets. */
module TitleHandlers {
  import opened Common
  import opened Bytes
  import opened PacketTheory
  import opened Packets
  import opened RingTheory
  import opened RegistryTheory
  import AckTheory
  import opened AckServices
  import opened ForwardTheory
  import opened Forwarders
  import opened TitleTheory

  class TitleHandler {
    const acks: AckService
    const forwarder: NetworkForwarder
    /** Packets handed to local subscribers. */
    var sends: seq<ClientSend>
    /** Packets sent back to their publishers. */
    var answers: seq<Buffer>

    constructor (acks: AckService, forwarder: NetworkForwarder)
      ensures this.acks == acks && this.forwarder == forwarder
      ensures sends == [] && answers == []
    {
      this.acks, this.forwarder := acks, forwarder;
      sends, answers := [], [];
    }

    /** Registers the pending acknowledgement, then hands the packet to the client. */
    method DeliverMessage(publisher: ClientId, packet: RexData, target: ClientId, title: string, random: nat, now: nat)
      returns (ok: bool, ghost id: nat)
      requires acks.Valid() && packet.Valid() && random < U64_SPAN && publisher < U128_SPAN
      modifies this, acks.acks, packet
      ensures acks.Valid() && packet.Valid() && Stamped(old(packet.content), packet.content)
      ensures sends == old(sends) + [ClientSend(target, packet.content, ok)] && answers == old(answers)
      ensures acks.State() == AckTheory.Step(acks.Settings(), old(acks.State()),
                                             AckTheory.Register(id, AckTheory.Info(publisher, title, now, false)))
      ensures acks.enabled ==> id == packet.Fields().messageId
      ensures var own := old(packet.Fields()).messageId;
              packet.Fields().messageId == if !acks.enabled || own != 0 then own else random
    {
      id := acks.SetupMessageAck(packet, publisher, title, false, random, now);
      ok := *;
      sends := sends + [ClientSend(target, packet.content, ok)];
    }

    /** Hands the packet to the forwarder as a unicast by title. */
    method SendAway(node: NodeId, packet: RexData, title: string, source: ClientId)
      returns (outcome: FwdResult, ghost c: Choices, ghost frames: seq<Frame>)
      modifies forwarder.transport
      ensures Forwarded(old(forwarder.Known()), old(forwarder.Connected()), node, c.order, c.tries, outcome)
      ensures c.result == outcome
      ensures frames == QueuedAfter([], c.tries, Request(source, 0, Title(title), packet.content, Unicast), c.forwardId)
      ensures forwarder.transport != null ==> forwarder.transport.queued == old(forwarder.transport.queued) + frames
    {
      var req := Request(source, 0, Title(title), packet.content, Unicast);
      ghost var before := if forwarder.transport == null then [] else forwarder.transport.queued;
      ghost var order, tries, forwardId;
      outcome, order, tries, forwardId := forwarder.Forward(node, req);
      c := Choices(0, false, order, tries, outcome, forwardId, []);
      frames := QueuedAfter([], tries, req, forwardId);
      QueuedBehind(before, tries, req, forwardId);
    }

    /** Routes the packet: a local subscriber other than the publisher, else the cluster, else nobody. */
    method Dispatch(publisher: ClientId, packet: RexData, ghost s: Situation, reg: Registry, owner: Option<NodeId>,
                    pick: nat, random: nat, now: nat)
      returns (success: bool, ghost c: Choices, ghost made: seq<ClientSend>, ghost frames: seq<Frame>, ghost id: nat)
      requires acks.Valid() && packet.Valid() && random < U64_SPAN && publisher < U128_SPAN
      requires s == Situation(reg, owner, forwarder.Known(), forwarder.Connected())
      modifies this, acks.acks, packet, forwarder.transport
      ensures acks.Valid() && c.pick == pick
      ensures Dispatched(s, old(packet.content), c, made, frames, packet.content, success)
      ensures sends == old(sends) + made && answers == old(answers)
      ensures forwarder.transport != null ==> forwarder.transport.queued == old(forwarder.transport.queued) + frames
      ensures acks.State() == Registered(acks.Settings(), old(acks.State()), made, id, publisher,
                                         TextOf(old(packet.Fields()).title), now)
      ensures made != [] ==> StampedWith(old(packet.content), c.stamped, acks.enabled, random, id)
    {
      id := 0;
      var bytes := packet.Title();
      var title := TextOf(bytes);
      var source := packet.Source();
      success, c, made, frames := false, Choices(pick, false, [], [], NoPeerForTitle, 0, packet.content), [], [];
      ghost var original := packet.content;
      var plan := Route(reg, owner, Title(title), Some(source), pick);
      match plan {
        case Local(target) =>
          success, id := DeliverMessage(publisher, packet, target, title, random, now);
          c := c.(ok := success, stamped := packet.content);
          LocalDispatched(s, original, c, target);
          made := [ClientSend(target, packet.content, success)];
        case Remote(node) =>
          ghost var way;
          var outcome;
          outcome, way, frames := SendAway(node, packet, title, source);
          if outcome.Delivered? { success := true; }
          c := way.(pick := pick);
          RemoteDispatched(s, original, c, node);
        case Nowhere =>
      }
    }

    /** Sends the packet back as `TitleReturn` with `NoTarget`. */
    method Answer(packet: RexData)
      requires packet.Valid()
      modifies this, packet
      ensures sends == old(sends) && answers == old(answers) + [packet.content]
      ensures Answered([packet.content], old(packet.content), false)
    {
      packet.SetCommand(CTitleReturn);
      packet.SetRetCode(NoTarget);
      answers := answers + [packet.content];
    }

    /** `owner` is the router's answer for the title's node. */
    method Handle(publisher: ClientId, packet: RexData, reg: Registry, owner: Option<NodeId>, pick: nat, random: nat,
                  now: nat)
      returns (ghost s: Situation, ghost c: Choices, ghost e: Effects, ghost id: nat)
      requires acks.Valid() && packet.Valid() && random < U64_SPAN && publisher < U128_SPAN
      modifies this, acks.acks, packet, forwarder.transport
      ensures s == Situation(reg, owner, old(forwarder.Known()), old(forwarder.Connected()))
      ensures Handles(s, old(packet.content), c, e) && c.pick == pick
      ensures sends == old(sends) + e.sends && answers == old(answers) + e.answers
      ensures forwarder.transport != null ==> forwarder.transport.queued == old(forwarder.transport.queued) + e.frames
      ensures acks.State() == Registered(acks.Settings(), old(acks.State()), e.sends, id, publisher,
                                         TextOf(old(packet.Fields()).title), now)
      ensures acks.Valid()
      ensures e.sends != [] ==> StampedWith(old(packet.content), c.stamped, acks.enabled, random, id)
    {
      s := Situation(reg, owner, forwarder.Known(), forwarder.Connected());
      var success;
      ghost var made, frames;
      success, c, made, frames, id := Dispatch(publisher, packet, s, reg, owner, pick, random, now);
      e := Effects(made, frames, []);
      ghost var after := packet.content;
      if !success {
        Answer(packet);
        e := Effects(made, frames, [packet.content]);
      }
      assert Answered(e.answers, after, success);
    }
  }
}
