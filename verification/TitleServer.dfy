/** The `Title` handler on a node with its route table. */
module TitleServers {
  import opened Common
  import opened Bytes
  import opened PacketTheory
  import opened Packets
  import opened RingTheory
  import opened RouteTables
  import opened RegistryTheory
  import FT = ForwardTheory
  import opened TitleTheory
  import opened TitleHandlers

  /** If the forwarder knows the addresses of all the ring's nodes, no forwarding ends for want of a peer. */
  lemma RingNodesArePeers(s: Situation, packet: Buffer, c: Choices, e: Effects)
    requires Handles(s, packet, c, e)
    requires s.owner.Some? ==> s.peers.started ==> s.owner.value in s.peers.addrs
    ensures PlanFor(s, packet, c.pick).Remote? ==> c.result != FT.NoPeerForTitle
  {}

  /** One publish on a node: routed by its registry and its ring, with the effects the relation allows. A publish that
      leaves the node is for the ring's node, which has an address; so if the forwarder reads this route table, it
      never finds that there is no peer for the title. */
  method HandleTitle(handler: TitleHandler, cluster: GlobalRouteTable, publisher: ClientId, packet: RexData,
                     reg: Registry, pick: nat, random: nat, now: nat)
    returns (ghost s: Situation, ghost c: Choices, ghost e: Effects, ghost id: nat)
    requires handler.acks.Valid() && packet.Valid() && cluster.Valid()
    requires random < U64_SPAN && publisher < U128_SPAN
    modifies handler, handler.acks.acks, packet, handler.forwarder.transport
    ensures s.reg == reg
    ensures s.peers == old(handler.forwarder.Known()) && s.connected == old(handler.forwarder.Connected())
    ensures s.owner == Owner(cluster.titleToNodes.ring, cluster.hashOf(TextOf(old(packet.Fields()).title)))
    ensures s.owner.Some? ==> s.owner.value in cluster.nodeIdToAddr
    ensures Handles(s, old(packet.content), c, e) && c.pick == pick
    ensures PlanFor(s, old(packet.content), pick).Remote? && handler.forwarder.addrs == Some(cluster.nodeIdToAddr) ==>
              c.result != FT.NoPeerForTitle
    ensures handler.sends == old(handler.sends) + e.sends && handler.answers == old(handler.answers) + e.answers
    ensures handler.forwarder.transport != null ==>
              handler.forwarder.transport.queued == old(handler.forwarder.transport.queued) + e.frames
    ensures handler.acks.State() == Registered(handler.acks.Settings(), old(handler.acks.State()), e.sends, id,
                                               publisher, TextOf(old(packet.Fields()).title), now)
    ensures handler.acks.Valid()
    ensures e.sends != [] ==> StampedWith(old(packet.content), c.stamped, handler.acks.enabled, random, id)
  {
    var bytes := packet.Title();
    ghost var content := packet.content;
    var owner := cluster.GetNodeByTitle(TextOf(bytes));
    s, c, e, id := handler.Handle(publisher, packet, reg, owner, pick, random, now);
    if handler.forwarder.addrs == Some(cluster.nodeIdToAddr) { RingNodesArePeers(s, content, c, e); }
  }
}
