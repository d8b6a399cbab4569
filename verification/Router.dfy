/** Where a title goes: local registry first, then the route table. */
module Routers {
  import opened Common
  import opened RingTheory
  import opened RouteTables
  import opened RegistryTheory
  import opened ForwardTheory

  /** The plan never names a node without an address; it gives up only in an empty cluster. */
  method RouteTitle(reg: Registry, cluster: GlobalRouteTable, title: string, exclude: Option<ClientId>, pick: nat)
    returns (plan: RoutePlan)
    requires cluster.Valid()
    ensures plan == Route(reg, Owner(cluster.titleToNodes.ring, cluster.hashOf(title)), Title(title), exclude, pick)
    ensures plan.Remote? ==> plan.node in cluster.nodeIdToAddr
    ensures plan.Nowhere? ==> cluster.nodeIdToAddr == map[]
  {
    var client := Chosen(FindAllByTitle(reg, Title(title), exclude), pick);
    if client.Some? { return Local(client.value); }
    var node := cluster.GetNodeByTitle(title);
    if node.Some? { return Remote(node.value); }
    return Nowhere;
  }
}
