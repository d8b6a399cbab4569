/** The cluster-wide route table: a ring for titles, owners of clients, addresses of nodes. */
module RouteTables {
  import opened Common
  import opened RingTheory
  import opened RingWalk
  import opened HashRings
  import opened RouteTheory

  const VIRTUAL_NODES: nat := 150

  /** Writes a map out as a list; the order in which a hash map is walked is not specified. */
  method ListMap<K(==), V>(m: map<K, V>) returns (pairs: seq<(K, V)>)
    ensures Lists(pairs, m)
  {
    pairs := [];
    var todo := m.Keys;
    ListNothing(m);
    while todo != {}
      invariant ListsAllBut(pairs, m, todo)
      decreases |todo|
    {
      var k :| k in todo;
      ListOneMore(pairs, m, todo, k);
      pairs := pairs + [(k, m[k])];
      todo := todo - {k};
    }
    assert m - {} == m;
  }

  method ReadPairs<K(==), V>(pairs: seq<(K, V)>) returns (m: map<K, V>)
    ensures m == FromPairs(pairs)
  {
    m := map[];
    for i := 0 to |pairs|
      invariant m == FromPairs(pairs[..i])
    {
      TakeOneMore(pairs, i);
      FromPairsSnoc(pairs[..i], pairs[i]);
      m := m[pairs[i].0 := pairs[i].1];
    }
    assert pairs[..|pairs|] == pairs;
  }

  class GlobalRouteTable {
    const hashOf: Hasher
    var titleToNodes: HashRing
    var clientIdToNode: map<ClientId, NodeId>
    var nodeIdToAddr: map<NodeId, Addr>
    var localNodeId: Option<NodeId>
    var version: nat

    /** The ring holds exactly the nodes that have an address. */
    ghost predicate Valid()
      reads this, titleToNodes
    {
      && titleToNodes.Valid()
      && titleToNodes.hashOf == hashOf && titleToNodes.virtualNodes == VIRTUAL_NODES
      && NodesMatch(titleToNodes.order, nodeIdToAddr)
    }

    constructor (h: Hasher)
      ensures Valid() && fresh(titleToNodes) && hashOf == h
      ensures nodeIdToAddr == map[] && clientIdToNode == map[] && version == 0 && localNodeId == None
    {
      hashOf := h;
      titleToNodes := new HashRing(h, VIRTUAL_NODES);
      clientIdToNode, nodeIdToAddr, localNodeId, version := map[], map[], None, 0;
    }

    method AddNode(nodeId: NodeId, addr: Addr)
      requires Valid()
      modifies this, titleToNodes
      ensures Valid() && titleToNodes == old(titleToNodes)
      ensures nodeIdToAddr == old(nodeIdToAddr)[nodeId := addr]
      ensures titleToNodes.order == RingTheory.Apply(old(titleToNodes.order), Join(nodeId))
      ensures version == old(version) + 1 && unchanged(this`clientIdToNode, this`localNodeId)
    {
      ghost var order := RingTheory.Apply(titleToNodes.order, Join(nodeId));
      NodesMatchAfterJoin(titleToNodes.order, nodeIdToAddr, nodeId, addr);
      nodeIdToAddr := nodeIdToAddr[nodeId := addr];
      titleToNodes.AddNode(nodeId);
      assert titleToNodes.order == order && NodesMatch(order, nodeIdToAddr);
      version := version + 1;
    }

    method RemoveNode(nodeId: NodeId)
      requires Valid()
      modifies this, titleToNodes
      ensures Valid() && titleToNodes == old(titleToNodes)
      ensures nodeIdToAddr == old(nodeIdToAddr) - {nodeId}
      ensures titleToNodes.order == RingTheory.Apply(old(titleToNodes.order), Leave(nodeId))
      ensures version == old(version) + 1 && unchanged(this`clientIdToNode, this`localNodeId)
    {
      NodesMatchAfterLeave(titleToNodes.order, nodeIdToAddr, nodeId);
      nodeIdToAddr := nodeIdToAddr - {nodeId};
      titleToNodes.RemoveNode(nodeId);
      version := version + 1;
    }

    method RegisterClient(clientId: ClientId, nodeId: NodeId)
      requires Valid()
      modifies this`clientIdToNode, this`version
      ensures Valid() && clientIdToNode == old(clientIdToNode)[clientId := nodeId] && version == old(version) + 1
    {
      clientIdToNode := clientIdToNode[clientId := nodeId];
      version := version + 1;
    }

    method UnregisterClient(clientId: ClientId)
      requires Valid()
      modifies this`clientIdToNode, this`version
      ensures Valid() && clientIdToNode == old(clientIdToNode) - {clientId} && version == old(version) + 1
    {
      clientIdToNode := clientIdToNode - {clientId};
      version := version + 1;
    }

    /** A title always maps to a node with an address; there is none only in an empty table. */
    method GetNodeByTitle(title: string) returns (r: Option<NodeId>)
      requires Valid()
      ensures r == Owner(titleToNodes.ring, hashOf(title))
      ensures r.Some? ==> r.value in nodeIdToAddr
      ensures r.None? <==> nodeIdToAddr == map[]
    {
      r := titleToNodes.Get(title);
      OwnerIsPresent(hashOf, VIRTUAL_NODES, titleToNodes.order, hashOf(title));
      assert nodeIdToAddr == map[] <==> nodeIdToAddr.Keys == {};
    }

    /** Replica nodes of a title: distinct, all with an address, as many as asked for or as there are. */
    method GetNodesByTitle(title: string, n: nat) returns (r: seq<NodeId>)
      requires Valid()
      ensures NoDup(r) && Elements(r) <= nodeIdToAddr.Keys
      ensures |r| == if n < |nodeIdToAddr| then n else |nodeIdToAddr|
    {
      ghost var steps;
      r, steps := titleToNodes.GetN(title, n);
      NoDupCard(titleToNodes.order);
    }

    method ExportState() returns (state: RouteTableState)
      requires Valid()
      ensures Lists(state.nodeIdToAddr, nodeIdToAddr) && Lists(state.clientIdToNode, clientIdToNode)
      ensures state.version == version
    {
      var clients := ListMap(clientIdToNode);
      var nodes := ListMap(nodeIdToAddr);
      state := RouteTableState(version, clients, nodes);
    }

    method ImportState(state: RouteTableState)
      requires Valid()
      modifies this
      ensures Valid() && fresh(titleToNodes) && unchanged(this`localNodeId)
      ensures nodeIdToAddr == FromPairs(state.nodeIdToAddr)
      ensures clientIdToNode == FromPairs(state.clientIdToNode)
      ensures titleToNodes.order == OrderAfter(Joins(Keys(state.nodeIdToAddr)))
      ensures version == state.version
    {
      var nodes := Keys(state.nodeIdToAddr);
      var ring := RebuildRing(hashOf, nodes);
      clientIdToNode := ReadPairs(state.clientIdToNode);
      nodeIdToAddr := ReadPairs(state.nodeIdToAddr);
      FromPairsKeys(state.nodeIdToAddr);
      OrderOfManyJoins(nodes);
      titleToNodes := ring;
      version := state.version;
    }
  }

  method RebuildRing(h: Hasher, nodes: seq<NodeId>) returns (ring: HashRing)
    ensures fresh(ring) && ring.Valid() && ring.hashOf == h && ring.virtualNodes == VIRTUAL_NODES
    ensures ring.order == OrderAfter(Joins(nodes))
  {
    ring := new HashRing(h, VIRTUAL_NODES);
    for i := 0 to |nodes|
      invariant fresh(ring) && ring.Valid() && ring.hashOf == h && ring.virtualNodes == VIRTUAL_NODES
      invariant ring.order == OrderAfter(Joins(nodes[..i]))
    {
      JoinsSnoc(nodes, i);
      ring.AddNode(nodes[i]);
    }
    assert nodes[..|nodes|] == nodes;
  }

  lemma OwnerIsPresent(h: Hasher, v: nat, order: seq<NodeId>, key: u64)
    requires v >= 1
    ensures var o := Owner(Entries(h, v, order), key);
            (o.None? <==> Elements(order) == {}) && (o.Some? ==> o.value in Elements(order))
  {
    var ring := Entries(h, v, order);
    if ring == [] {
      EmptyRing(h, v, order);
    } else {
      BestIsNearest(ring, key);
      EntriesMembers(h, v, order, Best(ring, key));
      assert Best(ring, key).node in Elements(order);
    }
  }
}
