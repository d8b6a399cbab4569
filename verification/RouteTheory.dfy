/** Exported route-table state on values: listing a map in any order and reading the list back. */
module RouteTheory {
  import opened Common
  import opened RingTheory

  /** A node's address as stored: text, parsed only when it is dialled. */
  datatype Addr = Addr(text: string)

  /** Inserting the pairs one after the other into an empty map. */
  function FromPairs<K, V>(pairs: seq<(K, V)>): map<K, V> {
    if pairs == [] then map[]
    else FromPairs(pairs[..|pairs| - 1])[pairs[|pairs| - 1].0 := pairs[|pairs| - 1].1]
  }

  function Keys<K, V>(pairs: seq<(K, V)>): (ks: seq<K>)
    ensures |ks| == |pairs|
  {
    seq(|pairs|, i requires 0 <= i < |pairs| => pairs[i].0)
  }

  /** `pairs` is `m` written out in some order, each key once. */
  ghost predicate Lists<K, V>(pairs: seq<(K, V)>, m: map<K, V>) {
    FromPairs(pairs) == m && NoDup(Keys(pairs))
  }

  lemma FromPairsSnoc<K, V>(pairs: seq<(K, V)>, p: (K, V))
    ensures FromPairs(pairs + [p]) == FromPairs(pairs)[p.0 := p.1]
    ensures Keys(pairs + [p]) == Keys(pairs) + [p.0]
  {
    assert (pairs + [p])[..|pairs|] == pairs;
  }

  lemma {:induction false} FromPairsKeys<K, V>(pairs: seq<(K, V)>)
    ensures FromPairs(pairs).Keys == Elements(Keys(pairs))
  {
    if pairs != [] {
      var init, last := pairs[..|pairs| - 1], pairs[|pairs| - 1];
      FromPairsKeys(init);
      assert pairs == init + [last];
      FromPairsSnoc(init, last);
      AppendElement(Keys(init), last.0);
    }
  }

  /** The ring's nodes are exactly those with an address. */
  ghost predicate NodesMatch(order: seq<NodeId>, addrs: map<NodeId, Addr>) {
    Elements(order) == addrs.Keys
  }

  lemma NodesMatchAfterJoin(order: seq<NodeId>, addrs: map<NodeId, Addr>, x: NodeId, addr: Addr)
    requires NodesMatch(order, addrs)
    ensures NodesMatch(Apply(order, Join(x)), addrs[x := addr])
  {
    AppendElement(order, x);
    assert x in order <==> x in Elements(order);
  }

  lemma NodesMatchAfterLeave(order: seq<NodeId>, addrs: map<NodeId, Addr>, x: NodeId)
    requires NodesMatch(order, addrs)
    ensures NodesMatch(Apply(order, Leave(x)), addrs - {x})
  {
    DeleteMembers(order, x);
  }

  /** `pairs` lists `m` but for the keys in `todo`. */
  ghost predicate ListsAllBut<K, V>(pairs: seq<(K, V)>, m: map<K, V>, todo: set<K>) {
    todo <= m.Keys && Lists(pairs, m - todo)
  }

  lemma ListNothing<K, V>(m: map<K, V>)
    ensures ListsAllBut([], m, m.Keys)
  {
    assert m - m.Keys == map[];
    assert Keys<K, V>([]) == [];
  }

  lemma ListOneMore<K, V>(pairs: seq<(K, V)>, m: map<K, V>, todo: set<K>, k: K)
    requires ListsAllBut(pairs, m, todo) && k in todo
    ensures ListsAllBut(pairs + [(k, m[k])], m, todo - {k})
  {
    FromPairsKeys(pairs);
    FromPairsSnoc(pairs, (k, m[k]));
    assert k !in Elements(Keys(pairs));
    AppendElement(Keys(pairs), k);
    assert m - (todo - {k}) == (m - todo)[k := m[k]];
  }

  datatype RouteTableState = RouteTableState(
    version: nat,
    clientIdToNode: seq<(ClientId, NodeId)>,
    nodeIdToAddr: seq<(NodeId, Addr)>)

  lemma {:induction false} OrderOfManyJoins(nodes: seq<NodeId>)
    ensures Elements(OrderAfter(Joins(nodes))) == Elements(nodes)
  {
    if nodes != [] {
      var init, last := nodes[..|nodes| - 1], nodes[|nodes| - 1];
      OrderOfManyJoins(init);
      assert Joins(nodes)[..|nodes| - 1] == Joins(init);
      assert nodes == init + [last];
      AppendElement(init, last);
      AppendElement(OrderAfter(Joins(init)), last);
      assert last in Elements(OrderAfter(Joins(init))) <==> last in OrderAfter(Joins(init));
    }
  }

  lemma JoinsSnoc(nodes: seq<NodeId>, k: nat)
    requires k < |nodes|
    ensures OrderAfter(Joins(nodes[..k + 1])) == Apply(OrderAfter(Joins(nodes[..k])), Join(nodes[k]))
  {
    var longer := Joins(nodes[..k + 1]);
    assert longer[..|longer| - 1] == Joins(nodes[..k]);
    assert longer[|longer| - 1] == Join(nodes[k]);
  }

  /** An exported state read back gives the same addresses, owners and version; and, where no two
      nodes collide, every title the node it had, whatever order the export listed the nodes in. */
  lemma ImportOfExport(h: Hasher, v: nat, order: seq<NodeId>, addrs: map<NodeId, Addr>,
                       clients: map<ClientId, NodeId>, state: RouteTableState, key: u64)
    requires NodesMatch(order, addrs) && NoDup(order)
    requires Lists(state.nodeIdToAddr, addrs) && Lists(state.clientIdToNode, clients)
    ensures FromPairs(state.nodeIdToAddr) == addrs && FromPairs(state.clientIdToNode) == clients
    ensures var order' := OrderAfter(Joins(Keys(state.nodeIdToAddr)));
            && Elements(order') == Elements(order)
            && (NodesDisjoint(h, v, addrs.Keys) ==>
                  && Owner(Entries(h, v, order'), key) == Owner(Entries(h, v, order), key)
                  && Preference(Entries(h, v, order'), key) == Preference(Entries(h, v, order), key))
  {
    var listed := Keys(state.nodeIdToAddr);
    FromPairsKeys(state.nodeIdToAddr);
    OrderOfManyJoins(listed);
    OrderOfJoins(order);
    if NodesDisjoint(h, v, addrs.Keys) {
      HistoriesAgree(h, v, Joins(listed), Joins(order), key);
    }
  }
}
