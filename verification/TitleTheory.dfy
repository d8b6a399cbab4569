/** What handling one `Title` packet does. */
module TitleTheory {
  import opened Common
  import opened Bytes
  import opened PacketTheory
  import opened RingTheory
  import opened RegistryTheory
  import opened ForwardTheory
  import AckTheory

  /** A packet's title as the registry and the ring see it: its bytes, unchecked. */
  function TextOf(bytes: Buffer): string {
    seq(|bytes|, i requires 0 <= i < |bytes| => bytes[i] as char)
  }

  /** No byte of a title is lost or changed. */
  lemma TextReadsBack(bytes: Buffer, other: Buffer)
    ensures |TextOf(bytes)| == |bytes| && forall i :: 0 <= i < |bytes| ==> TextOf(bytes)[i] as int == bytes[i]
    ensures TextOf(bytes) == TextOf(other) <==> bytes == other
  {
    assert TextOf(bytes) == TextOf(other) ==> forall i :: 0 <= i < |bytes| ==> TextOf(other)[i] as int == bytes[i];
  }

  ghost function TitleOf(packet: Buffer): Title
    requires WellFormed(packet)
  {
    Title(TextOf(ViewOf(packet).title))
  }

  /** Where the publishing node stands. */
  datatype Situation = Situation(reg: Registry, owner: Option<NodeId>, peers: Peers, connected: set<NodeId>)

  /** What the surroundings decided: the random pick, whether the client's connection took the packet, how the
      forward went, and the packet after its id was stamped. */
  datatype Choices = Choices(pick: nat, ok: bool, order: seq<NodeId>, tries: seq<Try>, result: FwdResult,
                             forwardId: nat, stamped: Buffer)

  /** Packets for local clients, messages for peers, answers to the publisher. */
  datatype Effects = Effects(sends: seq<ClientSend>, frames: seq<Frame>, answers: seq<Buffer>)

  /** The same packet but for its message id. */
  ghost predicate Stamped(packet: Buffer, stamped: Buffer) {
    && WellFormed(packet) && WellFormed(stamped)
    && ViewOf(stamped) == ViewOf(packet).(messageId := ViewOf(stamped).messageId)
  }

  /** With acknowledgements on a packet without an id gets `random`, and the id it has then is the pending one. */
  ghost predicate StampedWith(packet: Buffer, stamped: Buffer, enabled: bool, random: nat, id: nat) {
    && Stamped(packet, stamped)
    && var own, now := ViewOf(packet).messageId, ViewOf(stamped).messageId;
       && now == (if !enabled || own != 0 then own else random)
       && (enabled ==> now == id)
  }

  /** The publisher hears of a failure, and only of a failure, by its packet coming back. */
  ghost predicate Answered(answers: seq<Buffer>, packet: Buffer, success: bool)
    requires WellFormed(packet)
  {
    if success then answers == []
    else
      && |answers| == 1 && WellFormed(answers[0])
      && ViewOf(answers[0]) ==
         ViewOf(packet).(command := CommandCode(CTitleReturn), retcode := RetCodeValue(NoTarget))
  }

  ghost function Asked(packet: Buffer): Request
    requires WellFormed(packet)
  {
    Request(ViewOf(packet).source, 0, TitleOf(packet), packet, Unicast)
  }

  ghost function PlanFor(s: Situation, packet: Buffer, pick: nat): RoutePlan
    requires WellFormed(packet)
  {
    Route(s.reg, s.owner, TitleOf(packet), Some(ViewOf(packet).source), pick)
  }

  /** The routing half: what is sent on, what the packet is afterwards, and whether somebody took it. */
  ghost predicate Dispatched(s: Situation, packet: Buffer, c: Choices, sends: seq<ClientSend>, frames: seq<Frame>,
                             after: Buffer, success: bool) {
    WellFormed(packet) && WellFormed(after) &&
    match PlanFor(s, packet, c.pick)
    case Local(client) =>
      Stamped(packet, c.stamped) && after == c.stamped && success == c.ok
      && sends == [ClientSend(client, c.stamped, c.ok)] && frames == []
    case Remote(node) =>
      Forwarded(s.peers, s.connected, node, c.order, c.tries, c.result) && after == packet
      && success == c.result.Delivered?
      && sends == [] && frames == QueuedAfter([], c.tries, Asked(packet), c.forwardId)
    case Nowhere =>
      after == packet && !success && sends == [] && frames == []
  }

  ghost predicate Handles(s: Situation, packet: Buffer, c: Choices, e: Effects) {
    exists after, success ::
      Dispatched(s, packet, c, e.sends, e.frames, after, success) && Answered(e.answers, after, success)
  }

  /** A local hand-over registers one pending acknowledgement, by the publisher; nothing else does. */
  ghost function Registered(settings: AckTheory.Config, before: AckTheory.Acks, made: seq<ClientSend>, id: nat,
                            publisher: ClientId, title: string, now: nat): AckTheory.Acks {
    if made == [] then before
    else AckTheory.Step(settings, before, AckTheory.Register(id, AckTheory.Info(publisher, title, now, false)))
  }

  /** In terms of the pending entries: one more, due from now on, exactly for a hand-over with acknowledgements on. */
  lemma RegisteredExactly(settings: AckTheory.Config, before: AckTheory.Acks, made: seq<ClientSend>, id: nat,
                          publisher: ClientId, title: string, now: nat)
    ensures var after := Registered(settings, before, made, id, publisher, title, now);
            && after.sent == before.sent
            && after.pending == if made != [] && settings.enabled
                                then before.pending[id := AckTheory.Info(publisher, title, now, false)]
                                else before.pending
  {}

  lemma LocalDispatched(s: Situation, packet: Buffer, c: Choices, client: ClientId)
    requires Stamped(packet, c.stamped) && PlanFor(s, packet, c.pick) == Local(client)
    ensures Dispatched(s, packet, c, [ClientSend(client, c.stamped, c.ok)], [], c.stamped, c.ok)
  {}

  lemma RemoteDispatched(s: Situation, packet: Buffer, c: Choices, node: NodeId)
    requires WellFormed(packet) && PlanFor(s, packet, c.pick) == Remote(node)
    requires Forwarded(s.peers, s.connected, node, c.order, c.tries, c.result)
    ensures Dispatched(s, packet, c, [], QueuedAfter([], c.tries, Asked(packet), c.forwardId), packet,
                       c.result.Delivered?)
  {}

  lemma QueuedBehind(before: seq<Frame>, tries: seq<Try>, req: Request, forwardId: nat)
    ensures QueuedAfter(before, tries, req, forwardId) == before + QueuedAfter([], tries, req, forwardId)
  {}

  lemma FramesOfForward(s: Situation, node: NodeId, c: Choices, req: Request)
    requires Forwarded(s.peers, s.connected, node, c.order, c.tries, c.result)
    ensures |QueuedAfter([], c.tries, req, c.forwardId)| == if c.result.Delivered? then 1 else 0
  {
    DeliveredMeansOneAcceptance(s.peers, s.connected, node, c.order, c.tries, c.result);
  }

  /** A publish ends in exactly one way: one local client's connection took it, one peer's connection took it, or
      the publisher is told there was no target. At most one client or peer is given it. */
  lemma ExactlyOneOutcome(s: Situation, packet: Buffer, c: Choices, e: Effects)
    requires Handles(s, packet, c, e)
    ensures Accepted(e.sends) + |e.frames| + |e.answers| == 1
    ensures |e.sends| + |e.frames| <= 1
  {
    match PlanFor(s, packet, c.pick) {
      case Local(client) =>
        var none: seq<ClientSend> := [];
        assert e.sends[..0] == none;
      case Remote(node) =>
        FramesOfForward(s, node, c, Asked(packet));
      case Nowhere =>
    }
  }

  /** A live client that lists the packet's title and did not publish it. */
  ghost predicate OtherSubscriber(reg: Registry, packet: Buffer, id: ClientId)
    requires WellFormed(packet)
  {
    Subscribed(reg, id, Title(TextOf(ViewOf(packet).title))) && id != ViewOf(packet).source
  }

  /** Who is given a publish on its own node: nobody but other subscribers of its title, and one of them whenever there
      is one; the publisher never, not even with a registry in disorder. */
  lemma GivenToOtherSubscriber(s: Situation, packet: Buffer, c: Choices, e: Effects)
    requires Handles(s, packet, c, e)
    ensures forall i :: 0 <= i < |e.sends| ==> e.sends[i].client != ViewOf(packet).source
    ensures Agrees(s.reg) ==> forall i :: 0 <= i < |e.sends| ==> OtherSubscriber(s.reg, packet, e.sends[i].client)
    ensures Agrees(s.reg) ==> (e.sends != [] <==> exists id :: OtherSubscriber(s.reg, packet, id))
  {
    var t, source := TitleOf(packet), ViewOf(packet).source;
    var found := FindAllByTitle(s.reg, t, Some(source));
    DeleteMembers(Subscribers(s.reg.index, t), source);
    if Agrees(s.reg) {
      forall id ensures id in found <==> OtherSubscriber(s.reg, packet, id) {
        FindAllByTitleExact(s.reg, t, Some(source), id);
      }
      EmptyOrInhabited(found);
    }
  }

  /** Without another subscriber the packet goes to the title's node, whole, as a unicast by its title in the
      publisher's name; without such a node it goes back. */
  lemma SentAwayOtherwise(s: Situation, packet: Buffer, c: Choices, e: Effects)
    requires Handles(s, packet, c, e) && Agrees(s.reg) && !exists id :: OtherSubscriber(s.reg, packet, id)
    ensures s.owner.Some? ==> Forwarded(s.peers, s.connected, s.owner.value, c.order, c.tries, c.result)
    ensures s.owner.Some? ==> |e.frames| == (if c.result.Delivered? then 1 else 0)
    ensures e.frames != [] ==> c.tries != [] && e.frames[0].node == c.tries[|c.tries| - 1].node
    ensures s.owner.None? ==> e.frames == [] && |e.answers| == 1
  {
    GivenToOtherSubscriber(s, packet, c, e);
    if s.owner.Some? { FramesOfForward(s, s.owner.value, c, Asked(packet)); }
  }

  /** What comes back to a publisher is its packet as a title return with the code for no target. */
  lemma AnswerSaysNoTarget(s: Situation, packet: Buffer, c: Choices, e: Effects, i: nat)
    requires Handles(s, packet, c, e) && i < |e.answers|
    ensures WellFormed(e.answers[i])
    ensures var back := ViewOf(e.answers[i]);
            back == ViewOf(packet).(command := 9902, retcode := 8802, messageId := back.messageId)
    ensures e.sends == [] ==> ViewOf(e.answers[i]).messageId == ViewOf(packet).messageId
  {}

  /** Whatever leaves the node carries the published packet; a message for a peer is a unicast by title. */
  lemma EffectsCarryPacket(s: Situation, packet: Buffer, c: Choices, e: Effects)
    requires Handles(s, packet, c, e)
    ensures forall i :: 0 <= i < |e.sends| ==> Stamped(packet, e.sends[i].packet)
    ensures forall i :: 0 <= i < |e.frames| ==> e.frames[i].message == MessageOf(Asked(packet), c.forwardId)
  {}
}
