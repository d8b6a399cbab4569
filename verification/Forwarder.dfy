/** Connections to peers and the forwarder that uses them. */
module Forwarders {
  import opened Common
  import opened Bytes
  import opened RingTheory
  import opened RouteTheory
  import opened RegistryTheory
  import opened ForwardTheory

  class ClusterTransport {
    var connections: set<NodeId>
    /** Messages the connections have taken. */
    var queued: seq<Frame>
    /** One entry for each `send_to`. */
    ghost var calls: seq<NodeId>
    /** One entry for each connection attempt. */
    ghost var dials: seq<NodeId>

    constructor ()
      ensures connections == {} && queued == [] && calls == [] && dials == []
    {
      connections, queued, calls, dials := {}, [], [], [];
    }

    /** Whether an open connection takes the message is up to the network; a refused message is not queued. */
    method SendTo(node: NodeId, message: ForwardMessage) returns (ok: bool)
      modifies this
      ensures connections == old(connections) && calls == old(calls) + [node] && dials == old(dials)
      ensures ok ==> node in connections
      ensures queued == if ok then old(queued) + [Frame(node, message)] else old(queued)
    {
      calls := calls + [node];
      if node !in connections { return false; }
      ok := *;
      if ok { queued := queued + [Frame(node, message)]; }
    }

    method Connect(node: NodeId) returns (ok: bool)
      modifies this
      ensures connections == if ok then old(connections) + {node} else old(connections)
      ensures queued == old(queued) && calls == old(calls)
      ensures dials == if node in old(connections) then old(dials) else old(dials) + [node]
    {
      if node in connections { return true; }
      dials := dials + [node];
      ok := *;
      if ok { connections := connections + {node}; }
    }

    method RemoveConnection(node: NodeId)
      modifies this
      ensures connections == old(connections) - {node}
      ensures queued == old(queued) && calls == old(calls) && dials == old(dials)
    {
      connections := connections - {node};
    }

    /** A snapshot in the map's own order. */
    method ConnectedNodes() returns (nodes: seq<NodeId>)
      ensures NoDup(nodes) && Elements(nodes) == connections
    {
      var left := connections;
      nodes := [];
      while left != {}
        invariant left <= connections && NoDup(nodes) && Elements(nodes) == connections - left
        decreases left
      {
        var n :| n in left;
        assert n !in Elements(nodes);
        AppendNoDup(nodes, n);
        assert Elements(nodes + [n]) == Elements(nodes) + {n};
        nodes := nodes + [n];
        left := left - {n};
      }
    }

    /** One connection's worth of sending: a refused message is tried once more on a new connection. */
    method TrySend(target: NodeId, req: Request) returns (ok: bool, ghost attempts: nat, ghost forwardId: nat)
      modifies this
      ensures connections - {target} == old(connections) - {target}
      ensures attempts <= 2 && (attempts == 0 <==> target !in old(connections))
      ensures attempts == 0 ==> !ok && connections == old(connections)
      ensures attempts == 1 && !ok ==> target !in connections
      ensures dials == if attempts == 2 || (attempts == 1 && !ok) then old(dials) + [target] else old(dials)
      ensures calls == old(calls) + seq(attempts, i => target)
      ensures queued == if ok then old(queued) + [Frame(target, MessageOf(req, forwardId))] else old(queued)
    {
      attempts, forwardId := 0, 0;
      if target !in connections {
        assert seq(0, i => target) == [];
        return false, 0, 0;
      }
      var random: nat := *;
      forwardId := random;
      var message := MessageOf(req, random);
      ok := SendTo(target, message);
      attempts := 1;
      assert seq(1, i => target) == [target];
      if !ok {
        RemoveConnection(target);
        var again := Connect(target);
        if again {
          ok := SendTo(target, message);
          attempts := 2;
          assert seq(2, i => target) == [target] + [target];
        }
      }
    }
  }

  class NetworkForwarder {
    const local: NodeId
    const parses: Addr -> bool
    /** Empty until the cluster starts. */
    var transport: ClusterTransport?
    /** The route table's addresses; empty until the cluster starts. */
    var addrs: Option<map<NodeId, Addr>>
    /** Packets handed to local clients. */
    var sends: seq<ClientSend>

    constructor (local: NodeId, parses: Addr -> bool)
      ensures this.local == local && this.parses == parses && transport == null && addrs == None && sends == []
    {
      this.local, this.parses := local, parses;
      transport, addrs, sends := null, None, [];
    }

    ghost function Known(): Peers
      reads this
    {
      if transport == null || addrs.None? then Peers(false, local, map[], parses)
      else Peers(true, local, addrs.value, parses)
    }

    ghost function Connected(): set<NodeId>
      reads this, transport
    {
      if transport == null then {} else transport.connections
    }

    /** Peers in turn until one takes the message. */
    method Walk(req: Request, exclude: Option<NodeId>, transport: ClusterTransport, addrs: map<NodeId, Addr>)
      returns (ok: bool, ghost order: seq<NodeId>, ghost tries: seq<Try>, ghost forwardId: nat)
      modifies transport
      ensures NoDup(order) && Elements(order) == old(transport.connections)
      ensures Walked(Candidates(Peers(true, local, addrs, parses), exclude, order), tries, ok)
      ensures transport.calls == old(transport.calls) + CallsOf(tries)
      ensures transport.queued == QueuedAfter(old(transport.queued), tries, req, forwardId)
    {
      ghost var p := Peers(true, local, addrs, parses);
      var nodes := transport.ConnectedNodes();
      order, tries, forwardId := nodes, [], 0;
      for i := 0 to |nodes|
        invariant Walking(p, exclude, order, i, tries)
        invariant Elements(nodes[i..]) <= transport.connections
        invariant transport.queued == old(transport.queued)
        invariant transport.calls == old(transport.calls) + CallsOf(tries)
      {
        var other := nodes[i];
        LaterNodes(nodes, i);
        if other == local || Some(other) == exclude || other !in addrs || !parses(addrs[other]) {
          WalkingSkips(p, exclude, order, i, tries);
          continue;
        }
        ghost var left := transport.connections;
        ghost var attempts;
        ok, attempts, forwardId := transport.TrySend(other, req);
        ghost var t := Try(other, attempts, ok);
        WalkingStep(p, exclude, order, i, tries, t);
        CallsGrow(old(transport.calls), tries, t);
        tries := tries + [t];
        if ok { return; }
        assert Elements(nodes[i + 1..]) <= left - {other};
      }
      ok := false;
      WalkingEnds(p, exclude, order, tries, transport.queued, req, forwardId);
    }

    /** Sends to the target, else to the first other peer that takes the message. */
    method Forward(target: NodeId, req: Request)
      returns (r: FwdResult, ghost order: seq<NodeId>, ghost tries: seq<Try>, ghost forwardId: nat)
      modifies transport
      ensures Forwarded(old(Known()), old(Connected()), target, order, tries, r)
      ensures transport == null ==> tries == []
      ensures transport != null ==> transport.calls == old(transport.calls) + CallsOf(tries)
      ensures transport != null ==> transport.queued == QueuedAfter(old(transport.queued), tries, req, forwardId)
    {
      ghost var p, connected := Known(), Connected();
      order := Enumerate(connected);
      tries, forwardId := [], 0;
      if transport == null || addrs.None? {
        r := PeerUnreachable("cluster-not-started");
        return;
      }
      var ok;
      if target !in addrs.value {
        ok, order, tries, forwardId := Walk(req, None, transport, addrs.value);
        r := if ok then Delivered else NoPeerForTitle;
        return;
      }
      ghost var attempts := 0;
      if parses(addrs.value[target]) {
        ok, attempts, forwardId := transport.TrySend(target, req);
        if ok {
          TargetTookIt(p, connected, target, order, attempts);
          tries := [Try(target, attempts, true)];
          CallsOfOneMore([], Try(target, attempts, true));
          assert [] + tries == tries;
          r := Delivered;
          return;
        }
      }
      ghost var rest;
      ok, order, rest, forwardId := Walk(req, Some(target), transport, addrs.value);
      TargetRefused(p, connected, target, order, attempts, rest, ok);
      AfterTargetRecord(old(transport.calls), old(transport.queued), target, attempts, rest, req, forwardId);
      tries := AfterTarget(target, attempts, rest);
      r := if ok then Delivered else PeerUnreachable(target.name);
    }

    /** Hands the packet to each client in turn and counts. */
    method SendEach(clients: seq<ClientId>, packet: Buffer)
      returns (delivered: nat, failed: nat, ghost made: seq<ClientSend>)
      modifies this
      ensures transport == old(transport) && addrs == old(addrs)
      ensures sends == old(sends) + made && SentTo(made, clients, packet)
      ensures delivered == Accepted(made) && delivered + failed == |made|
    {
      delivered, failed, made := 0, 0, [];
      for i := 0 to |clients|
        invariant transport == old(transport) && addrs == old(addrs)
        invariant sends == old(sends) + made && SentTo(made, clients[..i], packet)
        invariant delivered == Accepted(made) && delivered + failed == |made|
      {
        var ok: bool := *;
        var s := ClientSend(clients[i], packet, ok);
        ConcatAssoc(old(sends), made, [s]);
        SentOneMore(made, clients, i, packet, s);
        made := made + [s];
        sends := sends + [s];
        if ok { delivered := delivered + 1; } else { failed := failed + 1; }
      }
      assert clients[..|clients|] == clients;
    }

    /** Hands a forwarded message to local clients; it never forwards. */
    method Deliver(reg: Registry, m: ForwardMessage, pick: nat)
      returns (outcome: DeliveryOutcome, ghost made: seq<ClientSend>)
      modifies this
      ensures transport == old(transport) && addrs == old(addrs)
      ensures sends == old(sends) + made && SentTo(made, Targets(reg, m, pick), m.payload)
      ensures outcome.deliveredTo == Accepted(made) && outcome.deliveredTo + outcome.failed == |made|
      ensures outcome.ackedBack == m.requireAck
    {
      var delivered, failed;
      if m.isBroadcast || m.isGroup {
        var clients := FindAllByTitle(reg, m.title, None);
        delivered, failed, made := SendEach(clients, m.payload);
        return DeliveryOutcome(delivered, failed, m.requireAck), made;
      }
      var client: Option<ClientId>;
      if m.target != 0 {
        client := if m.target in reg.clients then Some(m.target) else None;
      } else {
        client := Chosen(FindAllByTitle(reg, m.title, None), pick);
      }
      if client.Some? {
        delivered, failed, made := SendEach([client.value], m.payload);
      } else {
        delivered, failed, made := SendEach([], m.payload);
      }
      outcome := DeliveryOutcome(delivered, failed, m.requireAck);
    }

    /** A forwarded message from a peer: delivered, and acknowledged exactly when asked for; the acknowledgement
        reports success when there was a subscriber and every one took it. */
    method OnForward(reg: Registry, m: ForwardMessage, pick: nat)
      returns (ack: Option<ForwardAck>, ghost made: seq<ClientSend>)
      modifies this
      ensures transport == old(transport) && addrs == old(addrs)
      ensures sends == old(sends) + made && SentTo(made, Targets(reg, m, pick), m.payload)
      ensures ack.Some? <==> m.requireAck
      ensures ack.Some? ==> ack.value == ForwardAck(m.forwardId, local, m.source, ack.value.success)
      ensures ack.Some? ==> (ack.value.success <==> made != [] && forall i :: 0 <= i < |made| ==> made[i].ok)
    {
      var outcome;
      outcome, made := Deliver(reg, m, pick);
      AcceptedBound(made);
      ack := None;
      if m.requireAck && outcome.ackedBack {
        var success := outcome.deliveredTo > 0 && outcome.failed == 0;
        ack := Some(ForwardAck(m.forwardId, local, m.source, success));
      }
    }
  }
}
