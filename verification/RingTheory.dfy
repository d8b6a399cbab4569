/** Consistent hashing on values: a ring is a sequence of virtual nodes in insertion order.

    `Best` is the reference meaning of a lookup (the clockwise-nearest virtual node, the earliest
    inserted one on a tie) and `Preference` of a replica list (the successive owners as each owner
    is taken away).  The hash function is arbitrary throughout; theorems that need two nodes never
    to collide say so. */
module RingTheory {
  import opened Common

  /** A node's name, kept opaque: nodes are only compared and hashed. */
  datatype NodeId = NodeId(name: string)

  datatype VNode = VNode(hash: u64, node: NodeId)

  type Hasher = string -> u64

  /** Clockwise distance from `key` to `h` on the 64-bit circle. */
  function Dist(key: u64, h: u64): (d: nat)
    ensures d < U64_SPAN
  {
    if h >= key then h - key else h + U64_SPAN - key
  }

  lemma DistInjective(key: u64, a: u64, b: u64)
    requires Dist(key, a) == Dist(key, b)
    ensures a == b
  {}

  /** The nearest virtual node; the first in the ring among equally near ones. */
  ghost function Best(ring: seq<VNode>, key: u64): (b: VNode)
    requires ring != []
  {
    var init, last := ring[..|ring| - 1], ring[|ring| - 1];
    if init == [] then last
    else
      var b := Best(init, key);
      if Dist(key, last.hash) < Dist(key, b.hash) then last else b
  }

  lemma {:induction false} BestIsNearest(ring: seq<VNode>, key: u64)
    requires ring != []
    ensures Best(ring, key) in ring
    ensures forall e :: e in ring ==> Dist(key, Best(ring, key).hash) <= Dist(key, e.hash)
  {
    var init, last := ring[..|ring| - 1], ring[|ring| - 1];
    assert ring == init + [last];
    if init != [] { BestIsNearest(init, key); }
  }

  /** The owner's point in hashes alone: the least hash from the key on, or, past the last one, the least of all; and
      the earliest entry with that hash. */
  lemma BestIsSuccessor(ring: seq<VNode>, key: u64, e: VNode)
    requires e in ring
    ensures var b := Best(ring, key);
            && b in ring
            && (b.hash >= key ==> e.hash < key || b.hash <= e.hash)
            && (b.hash < key ==> e.hash < key && b.hash <= e.hash)
  {
    BestIsNearest(ring, key);
  }

  lemma {:induction false} BestIsEarliest(ring: seq<VNode>, key: u64) returns (i: nat)
    requires ring != []
    ensures i < |ring| && ring[i] == Best(ring, key) && forall j :: 0 <= j < i ==> ring[j].hash != ring[i].hash
  {
    var init := ring[..|ring| - 1];
    i := |init|;
    if init != [] {
      BestIsNearest(init, key);
      var k := BestIsEarliest(init, key);
      if Best(ring, key) == Best(init, key) { i := k; }
    }
  }

  ghost function Owner(ring: seq<VNode>, key: u64): Option<NodeId> {
    if ring == [] then None else Some(Best(ring, key).node)
  }

  /** The ring without the virtual nodes of the nodes in `gone`. */
  function Drop(ring: seq<VNode>, gone: set<NodeId>): (r: seq<VNode>)
    ensures |r| <= |ring|
  {
    if ring == [] then []
    else
      var init, last := ring[..|ring| - 1], ring[|ring| - 1];
      if last.node in gone then Drop(init, gone) else Drop(init, gone) + [last]
  }

  lemma {:induction false} DropMembers(ring: seq<VNode>, gone: set<NodeId>)
    ensures forall e :: e in Drop(ring, gone) <==> e in ring && e.node !in gone
    ensures Nodes(Drop(ring, gone)) == Nodes(ring) - gone
  {
    if ring != [] {
      DropMembers(ring[..|ring| - 1], gone);
      assert ring == ring[..|ring| - 1] + [ring[|ring| - 1]];
    }
  }

  lemma {:induction false} DropShrinks(ring: seq<VNode>, gone: set<NodeId>, e: VNode)
    requires e in ring && e.node in gone
    ensures |Drop(ring, gone)| < |ring|
  {
    if ring[|ring| - 1].node !in gone {
      assert ring == ring[..|ring| - 1] + [ring[|ring| - 1]];
      DropShrinks(ring[..|ring| - 1], gone, e);
    }
  }

  function Nodes(ring: seq<VNode>): set<NodeId> {
    set e | e in ring :: e.node
  }

  lemma {:induction false} DropConcat(a: seq<VNode>, b: seq<VNode>, gone: set<NodeId>)
    ensures Drop(a + b, gone) == Drop(a, gone) + Drop(b, gone)
  {
    if b == [] {
      assert a + b == a;
    } else {
      assert (a + b)[..|a + b| - 1] == a + b[..|b| - 1];
      DropConcat(a, b[..|b| - 1], gone);
    }
  }

  lemma {:induction false} DropNothing(ring: seq<VNode>, gone: set<NodeId>)
    requires forall e :: e in ring ==> e.node !in gone
    ensures Drop(ring, gone) == ring
  {
    if ring != [] {
      assert ring == ring[..|ring| - 1] + [ring[|ring| - 1]];
      DropNothing(ring[..|ring| - 1], gone);
    }
  }

  lemma {:induction false} DropTwice(ring: seq<VNode>, a: set<NodeId>, b: set<NodeId>)
    ensures Drop(Drop(ring, a), b) == Drop(ring, a + b)
  {
    if ring != [] {
      var init, last := ring[..|ring| - 1], ring[|ring| - 1];
      DropTwice(init, a, b);
      if last.node !in a {
        assert (Drop(init, a) + [last])[..|Drop(init, a)|] == Drop(init, a);
      }
    }
  }

  /* ---------------- one node comes or goes ---------------- */

  /** No point of the block is strictly nearer to the key than the ring's owner. */
  ghost predicate NoneNearer(ring: seq<VNode>, block: seq<VNode>, key: u64)
    requires ring != []
  {
    forall e :: e in block ==> Dist(key, Best(ring, key).hash) <= Dist(key, e.hash)
  }

  /** Every hash function: appending virtual nodes moves a key only onto one of them, and moves it
      exactly when one of them is strictly nearer than everything already there. */
  lemma {:induction false} BestAppend(ring: seq<VNode>, block: seq<VNode>, key: u64)
    requires ring != []
    ensures Best(ring + block, key) == Best(ring, key) || Best(ring + block, key) in block
    ensures Best(ring + block, key) == Best(ring, key) <==> NoneNearer(ring, block, key)
  {
    if block == [] {
      assert ring + block == ring;
    } else {
      var init, last := block[..|block| - 1], block[|block| - 1];
      assert ring + block == (ring + init) + [last];
      assert block == init + [last];
      BestAppend(ring, init, key);
      BestOfSnoc(ring + init, last, key);
      BestIsNearest(ring + init, key);
      BestIsNearest(ring, key);
      assert Best(ring, key) in ring + init;
    }
  }

  /** Every hash function: deleting nodes moves only the keys they owned. */
  lemma {:induction false} BestSurvivesDrop(ring: seq<VNode>, gone: set<NodeId>, key: u64)
    requires ring != [] && Best(ring, key).node !in gone
    ensures Drop(ring, gone) != [] && Best(Drop(ring, gone), key) == Best(ring, key)
  {
    var init, last := ring[..|ring| - 1], ring[|ring| - 1];
    assert ring == init + [last];
    if init != [] {
      if Best(ring, key) == Best(init, key) {
        BestSurvivesDrop(init, gone, key);
        if last.node !in gone {
          assert Drop(ring, gone)[..|Drop(init, gone)|] == Drop(init, gone);
        }
      } else if Drop(init, gone) != [] {
        assert Drop(ring, gone)[..|Drop(init, gone)|] == Drop(init, gone);
        BestIsNearest(init, key);
        BestIsNearest(Drop(init, gone), key);
        DropMembers(init, gone);
      }
    }
  }

  lemma BestOfSnoc(kept: seq<VNode>, last: VNode, key: u64)
    ensures Best(kept + [last], key)
            == if kept == [] || Dist(key, last.hash) < Dist(key, Best(kept, key).hash) then last else Best(kept, key)
  {
    assert (kept + [last])[..|kept|] == kept;
  }

  /** A virtual node that beats every earlier kept one strictly, and every later kept one weakly,
      is the best of the kept ones. */
  lemma BestOfKept(front: seq<VNode>, e: VNode, back: seq<VNode>, gone: set<NodeId>, key: u64)
    requires e.node !in gone
    requires forall f :: f in front && f.node !in gone ==> Dist(key, e.hash) < Dist(key, f.hash)
    requires forall f :: f in back && f.node !in gone ==> Dist(key, e.hash) <= Dist(key, f.hash)
    ensures var kept := Drop(front + [e] + back, gone); kept != [] && Best(kept, key) == e
  {
    DropConcat(front + [e], back, gone);
    DropConcat(front, [e], gone);
    DropNothing([e], gone);
    DropMembers(front, gone);
    DropMembers(back, gone);
    BestOfSnoc(Drop(front, gone), e, key);
    if Drop(front, gone) != [] { BestIsNearest(Drop(front, gone), key); }
    BestAppend(Drop(front, gone) + [e], Drop(back, gone), key);
  }

  /* ---------------- preference lists ---------------- */

  /** Successive owners of `key` as each owner is removed from the ring. */
  ghost function Preference(ring: seq<VNode>, key: u64): seq<NodeId>
    decreases |ring|
  {
    if ring == [] then []
    else
      var o := Best(ring, key).node;
      BestIsNearest(ring, key);
      DropShrinks(ring, {o}, Best(ring, key));
      [o] + Preference(Drop(ring, {o}), key)
  }

  lemma PreferenceStep(ring: seq<VNode>, key: u64) returns (o: NodeId, rest: seq<VNode>)
    requires ring != []
    ensures o == Best(ring, key).node && rest == Drop(ring, {o}) && |rest| < |ring|
    ensures Preference(ring, key) == [o] + Preference(rest, key)
    ensures Nodes(rest) == Nodes(ring) - {o} && o in Nodes(ring)
  {
    o, rest := Best(ring, key).node, Drop(ring, {Best(ring, key).node});
    BestIsNearest(ring, key);
    DropShrinks(ring, {o}, Best(ring, key));
    DropMembers(ring, {o});
  }

  lemma {:induction false} PreferenceListsNodes(ring: seq<VNode>, key: u64)
    ensures Elements(Preference(ring, key)) == Nodes(ring)
    ensures NoDup(Preference(ring, key))
    ensures |Preference(ring, key)| == |Nodes(ring)|
    decreases |ring|
  {
    if ring != [] {
      var o, rest := PreferenceStep(ring, key);
      PreferenceListsNodes(rest, key);
      assert o !in Elements(Preference(rest, key));
      PrependElement(o, Preference(rest, key));
    }
    NoDupCard(Preference(ring, key));
  }

  lemma DropsCommute(ring: seq<VNode>, x: NodeId, y: NodeId)
    ensures Drop(Drop(ring, {x}), {y}) == Drop(Drop(ring, {y}), {x})
  {
    DropTwice(ring, {x}, {y});
    DropTwice(ring, {y}, {x});
    assert {x} + {y} == {y} + {x};
  }

  /** Every hash function: removing `x` deletes `x` from every key's preference list and changes
      nothing else. */
  lemma {:induction false} PreferenceAfterDrop(ring: seq<VNode>, key: u64, x: NodeId)
    ensures Preference(Drop(ring, {x}), key) == Delete(Preference(ring, key), x)
    decreases |ring|
  {
    if ring != [] {
      var o, rest := PreferenceStep(ring, key);
      var tail := Preference(rest, key);
      DeleteConcat([o], tail, x);
      if o == x {
        PreferenceListsNodes(rest, key);
        assert x !in Elements(tail);
        DeleteAbsent(tail, x);
      } else {
        DeleteAbsent([o], x);
        PreferenceAfterDrop(rest, key, x);
        DropsCommute(ring, x, o);
        BestSurvivesDrop(ring, {x}, key);
      }
    }
  }

  function Prefix<T>(s: seq<T>, n: nat): seq<T> {
    if n < |s| then s[..n] else s
  }

  lemma ShiftedPrefix(p: seq<NodeId>, q: seq<NodeId>, k: nat, n: nat)
    requires k < |p| && q == p[..k] + p[k + 1..]
    ensures Elements(Prefix(p, n)) - Elements(Prefix(q, n)) <= {p[k]}
    ensures Elements(Prefix(q, n)) - Elements(Prefix(p, n)) <= if n < |p| then {p[n]} else {}
  {
    forall y | y in Prefix(p, n) && y != p[k] ensures y in Prefix(q, n) {
      var i :| 0 <= i < |Prefix(p, n)| && Prefix(p, n)[i] == y;
      assert y == Prefix(q, n)[if i < k then i else i - 1];
    }
    forall y | y in Prefix(q, n) && y !in Prefix(p, n) ensures n < |p| && y == p[n] {
      var i :| 0 <= i < |Prefix(q, n)| && Prefix(q, n)[i] == y;
      var at := if i < k then i else i + 1;
      assert y == p[at];
      assert Prefix(p, n) == p[..|Prefix(p, n)|] && p[at] !in p[..|Prefix(p, n)|];
    }
  }

  lemma DeletedPrefix(p: seq<NodeId>, x: NodeId, n: nat)
    requires NoDup(p)
    ensures Elements(Prefix(p, n)) - Elements(Prefix(Delete(p, x), n)) <= {x}
    ensures |Elements(Prefix(Delete(p, x), n)) - Elements(Prefix(p, n))| <= 1
  {
    if k :| 0 <= k < |p| && p[k] == x {
      DeleteAt(p, k);
      var q := p[..k] + p[k + 1..];
      ShiftedPrefix(p, q, k, n);
      SubsetCard(Elements(Prefix(q, n)) - Elements(Prefix(p, n)), if n < |p| then {p[n]} else {});
    } else {
      DeleteAbsent(p, x);
    }
  }

  /** Every hash function: when `x` leaves, each key's set of its `n` preferred nodes loses at most
      `x` and gains at most one node. */
  lemma ReplicasAfterDrop(ring: seq<VNode>, key: u64, x: NodeId, n: nat)
    ensures var before := Elements(Prefix(Preference(ring, key), n));
            var after := Elements(Prefix(Preference(Drop(ring, {x}), key), n));
            before - after <= {x} && |after - before| <= 1
  {
    PreferenceListsNodes(ring, key);
    PreferenceAfterDrop(ring, key, x);
    DeletedPrefix(Preference(ring, key), x, n);
  }

  /* ---------------- histories ---------------- */

  /** Two virtual nodes at one place belong to one node. */
  ghost predicate CollisionFree(ring: seq<VNode>) {
    forall e, f :: e in ring && f in ring && e.hash == f.hash ==> e.node == f.node
  }

  /** Without collisions the preference list depends only on which virtual nodes there are. */
  lemma {:induction false} PreferenceIgnoresOrder(a: seq<VNode>, b: seq<VNode>, key: u64)
    requires forall e :: e in a <==> e in b
    requires CollisionFree(a)
    ensures Owner(a, key) == Owner(b, key)
    ensures Preference(a, key) == Preference(b, key)
    decreases |a|
  {
    if a == [] {
      EmptyOrInhabited(b);
    } else {
      assert a[0] in b;
      BestIsNearest(a, key);
      BestIsNearest(b, key);
      DistInjective(key, Best(a, key).hash, Best(b, key).hash);
      var o := Best(a, key).node;
      DropShrinks(a, {o}, Best(a, key));
      DropMembers(a, {o});
      DropMembers(b, {o});
      PreferenceIgnoresOrder(Drop(a, {o}), Drop(b, {o}), key);
    }
  }

  function Digits(n: nat): string {
    if n < 10 then ["0123456789"[n]] else Digits(n / 10) + ["0123456789"[n % 10]]
  }

  /** The number a string of decimal digits stands for. */
  function Reading(s: string): nat {
    if s == [] then 0
    else 10 * Reading(s[..|s| - 1]) + if '0' <= s[|s| - 1] <= '9' then (s[|s| - 1] - '0') as nat else 0
  }

  lemma {:induction false} DigitsRead(n: nat)
    ensures Reading(Digits(n)) == n && '-' !in Digits(n)
  {
    var last := "0123456789"[n % 10];
    assert last == ('0' as int + n % 10) as char;
    if n < 10 {
      assert Digits(n)[..0] == [];
    } else {
      DigitsRead(n / 10);
      assert Digits(n)[..|Digits(n)| - 1] == Digits(n / 10);
    }
  }

  /** The string hashed for the `i`-th virtual node. */
  function VirtualKey(node: NodeId, i: nat): string {
    node.name + "-" + Digits(i)
  }

  /** The last dash tells where the name ends. */
  lemma LastDash(a: string, x: string, b: string, y: string)
    requires a + "-" + x == b + "-" + y && '-' !in x && '-' !in y
    ensures |a| <= |b|
  {
    assert (a + "-" + x)[|a|] == '-';
  }

  /** Different virtual nodes hash different strings, of one node or of two. */
  lemma VirtualKeysDiffer(n: NodeId, i: nat, m: NodeId, j: nat)
    ensures VirtualKey(n, i) == VirtualKey(m, j) <==> n == m && i == j
  {
    DigitsRead(i);
    DigitsRead(j);
    if VirtualKey(n, i) == VirtualKey(m, j) {
      LastDash(n.name, Digits(i), m.name, Digits(j));
      LastDash(m.name, Digits(j), n.name, Digits(i));
      var k := |n.name|;
      assert n.name == VirtualKey(n, i)[..k] && m.name == VirtualKey(m, j)[..k];
      assert Digits(i) == VirtualKey(n, i)[k + 1..] && Digits(j) == VirtualKey(m, j)[k + 1..];
    }
  }

  function Block(h: Hasher, v: nat, node: NodeId): seq<VNode> {
    seq(v, i requires 0 <= i < v => VNode(h(VirtualKey(node, i)), node))
  }

  /** The ring of a list of nodes: their blocks, in that order. */
  function Entries(h: Hasher, v: nat, order: seq<NodeId>): seq<VNode> {
    if order == [] then []
    else Entries(h, v, order[..|order| - 1]) + Block(h, v, order[|order| - 1])
  }

  datatype Change = Join(node: NodeId) | Leave(node: NodeId)

  /** Insertion order of the nodes present after a history of changes. */
  function OrderAfter(history: seq<Change>): seq<NodeId> {
    if history == [] then []
    else Apply(OrderAfter(history[..|history| - 1]), history[|history| - 1])
  }

  function Apply(order: seq<NodeId>, c: Change): seq<NodeId> {
    match c
    case Join(n) => if n in order then order else order + [n]
    case Leave(n) => Delete(order, n)
  }

  /** No history lists a node twice. */
  lemma {:induction false} OrderNoDup(history: seq<Change>)
    ensures NoDup(OrderAfter(history))
  {
    if history != [] {
      var order := OrderAfter(history[..|history| - 1]);
      OrderNoDup(history[..|history| - 1]);
      DeleteKeepsNoDup(order, history[|history| - 1].node);
    }
  }

  lemma {:induction false} EntriesMembers(h: Hasher, v: nat, order: seq<NodeId>, e: VNode)
    ensures e in Entries(h, v, order) <==> e.node in order && e in Block(h, v, e.node)
  {
    if order != [] {
      var init, last := order[..|order| - 1], order[|order| - 1];
      EntriesMembers(h, v, init, e);
      assert order == init + [last];
      if e in Block(h, v, last) { assert e.node == last; }
    }
  }

  predicate IsPoint(h: Hasher, e: VNode, i: nat) {
    e.hash == h(e.node.name + "-" + Digits(i))
  }

  /** The ring's points are the hashes of `<name>-0` to `<name>-<v - 1>` for each node present, and no others. */
  lemma EntriesExactly(h: Hasher, v: nat, order: seq<NodeId>, e: VNode)
    ensures e in Entries(h, v, order) <==>
            e.node in order && exists i: nat :: i < v && IsPoint(h, e, i)
  {
    var block := Block(h, v, e.node);
    EntriesMembers(h, v, order, e);
    forall i: nat | i < v ensures block[i] == VNode(h(e.node.name + "-" + Digits(i)), e.node) {
      assert VirtualKey(e.node, i) == e.node.name + "-" + Digits(i);
    }
    if e in block {
      var i: nat :| i < |block| && block[i] == e;
      assert IsPoint(h, e, i);
    }
    forall i: nat | i < v && IsPoint(h, e, i) ensures e in block { assert block[i] == e; }
  }

  lemma DropBlock(h: Hasher, v: nat, node: NodeId, x: NodeId)
    ensures Drop(Block(h, v, node), {x}) == if node == x then [] else Block(h, v, node)
  {
    DropMembers(Block(h, v, node), {x});
    if node == x {
      EmptyOrInhabited(Drop(Block(h, v, node), {x}));
    } else {
      DropNothing(Block(h, v, node), {x});
    }
  }

  lemma {:induction false} EntriesAfterDelete(h: Hasher, v: nat, order: seq<NodeId>, x: NodeId)
    ensures Entries(h, v, Delete(order, x)) == Drop(Entries(h, v, order), {x})
  {
    if order != [] {
      var init, last := order[..|order| - 1], order[|order| - 1];
      EntriesAfterDelete(h, v, init, x);
      DropConcat(Entries(h, v, init), Block(h, v, last), {x});
      DropBlock(h, v, last, x);
    }
  }

  lemma {:induction false} EntriesNodes(h: Hasher, v: nat, order: seq<NodeId>)
    requires v >= 1
    ensures Nodes(Entries(h, v, order)) == Elements(order)
  {
    forall n | n in order ensures n in Nodes(Entries(h, v, order)) {
      var e := Block(h, v, n)[0];
      EntriesMembers(h, v, order, e);
    }
    forall e | e in Entries(h, v, order) ensures e.node in order {
      EntriesMembers(h, v, order, e);
    }
  }

  /** No two different nodes of the set share a virtual-node hash. */
  ghost predicate NodesDisjoint(h: Hasher, v: nat, nodes: set<NodeId>) {
    forall a, b, i: nat, j: nat ::
      a in nodes && b in nodes && i < v && j < v && h(VirtualKey(a, i)) == h(VirtualKey(b, j)) ==> a == b
  }

  lemma EntriesCollisionFree(h: Hasher, v: nat, order: seq<NodeId>)
    requires NodesDisjoint(h, v, Elements(order))
    ensures CollisionFree(Entries(h, v, order))
  {
    forall e, f | e in Entries(h, v, order) && f in Entries(h, v, order) && e.hash == f.hash
      ensures e.node == f.node
    {
      EntriesMembers(h, v, order, e);
      EntriesMembers(h, v, order, f);
      var i :| 0 <= i < v && Block(h, v, e.node)[i] == e;
      var j :| 0 <= j < v && Block(h, v, f.node)[j] == f;
      assert h(VirtualKey(e.node, i)) == h(VirtualKey(f.node, j));
    }
  }

  /** Two histories that leave the same nodes behind route every key and rank every key's replicas
      the same way, provided no two of those nodes collide. */
  lemma HistoriesAgree(h: Hasher, v: nat, one: seq<Change>, two: seq<Change>, key: u64)
    requires Elements(OrderAfter(one)) == Elements(OrderAfter(two))
    requires NodesDisjoint(h, v, Elements(OrderAfter(one)))
    ensures Owner(Entries(h, v, OrderAfter(one)), key) == Owner(Entries(h, v, OrderAfter(two)), key)
    ensures Preference(Entries(h, v, OrderAfter(one)), key) == Preference(Entries(h, v, OrderAfter(two)), key)
  {
    var a, b := Entries(h, v, OrderAfter(one)), Entries(h, v, OrderAfter(two));
    EntriesCollisionFree(h, v, OrderAfter(one));
    forall e ensures e in a <==> e in b {
      EntriesMembers(h, v, OrderAfter(one), e);
      EntriesMembers(h, v, OrderAfter(two), e);
      assert e.node in OrderAfter(one) <==> e.node in Elements(OrderAfter(one));
      assert e.node in OrderAfter(two) <==> e.node in Elements(OrderAfter(two));
    }
    PreferenceIgnoresOrder(a, b, key);
  }

  /** The node set alone decides the owner of every hash. */
  ghost predicate HistoryIndependent(h: Hasher, v: nat, nodes: set<NodeId>) {
    forall one, two, key: u64 ::
      Elements(OrderAfter(one)) == nodes && Elements(OrderAfter(two)) == nodes
      ==> Owner(Entries(h, v, OrderAfter(one)), key) == Owner(Entries(h, v, OrderAfter(two)), key)
  }

  lemma SomeOrder(first: NodeId, nodes: set<NodeId>) returns (order: seq<NodeId>)
    requires first in nodes
    ensures NoDup(order) && Elements(order) == nodes
    ensures order != [] && order[0] == first
  {
    var others := Enumerate(nodes - {first});
    order := [first] + others;
    assert first !in Elements(others);
    PrependElement(first, others);
  }

  function Joins(order: seq<NodeId>): seq<Change> {
    seq(|order|, i requires 0 <= i < |order| => Join(order[i]))
  }

  /** Every duplicate-free order is reached by joining the nodes one after the other. */
  lemma {:induction false} OrderOfJoins(order: seq<NodeId>)
    requires NoDup(order)
    ensures OrderAfter(Joins(order)) == order
  {
    if order != [] {
      var init, last := order[..|order| - 1], order[|order| - 1];
      OrderOfJoins(init);
      assert Joins(order)[..|order| - 1] == Joins(init);
      assert order == init + [last] && last !in init;
    }
  }

  /** The first node in insertion order owns every hash at which it has a virtual node. */
  lemma {:induction false} FirstNodeWinsTies(h: Hasher, v: nat, order: seq<NodeId>, i: nat)
    requires order != [] && i < v
    ensures var key := h(VirtualKey(order[0], i));
            Owner(Entries(h, v, order), key) == Some(order[0])
  {
    var key := h(VirtualKey(order[0], i));
    var init := order[..|order| - 1];
    if init == [] {
      assert Entries(h, v, order) == Block(h, v, order[0]);
      assert Block(h, v, order[0])[i].hash == key;
      BestIsNearest(Block(h, v, order[0]), key);
    } else {
      FirstNodeWinsTies(h, v, init, i);
      var ring := Entries(h, v, init);
      var e := VNode(key, order[0]);
      EntriesMembers(h, v, init, e);
      assert Block(h, v, order[0])[i] == e;
      assert e in ring && Dist(key, e.hash) == 0;
      BestIsNearest(ring, key);
      BestAppend(ring, Block(h, v, order[|order| - 1]), key);
    }
  }

  /** Routing is independent of the history exactly when no two nodes collide. */
  lemma HistoryIndependentExactly(h: Hasher, v: nat, nodes: set<NodeId>)
    ensures HistoryIndependent(h, v, nodes) <==> NodesDisjoint(h, v, nodes)
  {
    if NodesDisjoint(h, v, nodes) {
      forall one, two, key: u64 | Elements(OrderAfter(one)) == nodes && Elements(OrderAfter(two)) == nodes
        ensures Owner(Entries(h, v, OrderAfter(one)), key) == Owner(Entries(h, v, OrderAfter(two)), key)
      {
        HistoriesAgree(h, v, one, two, key);
      }
    }
    if HistoryIndependent(h, v, nodes) {
      forall a, b, i: nat, j: nat |
        a in nodes && b in nodes && i < v && j < v && h(VirtualKey(a, i)) == h(VirtualKey(b, j))
        ensures a == b
      {
        var one := SomeOrder(a, nodes);
        var two := SomeOrder(b, nodes);
        OrderOfJoins(one);
        OrderOfJoins(two);
        FirstNodeWinsTies(h, v, one, i);
        FirstNodeWinsTies(h, v, two, j);
      }
    }
  }

  /* ---------------- joins and leaves, for every hash function ---------------- */

  lemma {:induction false} EntriesOfJoin(h: Hasher, v: nat, order: seq<NodeId>, x: NodeId)
    ensures Entries(h, v, order + [x]) == Entries(h, v, order) + Block(h, v, x)
  {
    assert (order + [x])[..|order|] == order;
  }

  /** A join leaves each key with its owner or gives it to the newcomer, and the latter exactly when
      the newcomer is strictly nearer. */
  lemma JoinMovesKeysOnlyToNewcomer(h: Hasher, v: nat, order: seq<NodeId>, x: NodeId, key: u64)
    requires x !in order
    ensures var before := Owner(Entries(h, v, order), key);
            var after := Owner(Entries(h, v, Apply(order, Join(x))), key);
            && (after == before || after == Some(x))
            && (before.Some? ==> (after == before <==> NoneNearer(Entries(h, v, order), Block(h, v, x), key)))
  {
    var ring, block := Entries(h, v, order), Block(h, v, x);
    EntriesOfJoin(h, v, order, x);
    if ring == [] {
      if block != [] { BestIsNearest(block, key); }
      assert ring + block == block;
    } else {
      BestAppend(ring, block, key);
      NewcomerOwnsNothingYet(h, v, order, x, key);
    }
  }

  lemma NewcomerOwnsNothingYet(h: Hasher, v: nat, order: seq<NodeId>, x: NodeId, key: u64)
    requires x !in order && Entries(h, v, order) != []
    ensures Best(Entries(h, v, order), key).node != x
  {
    BestIsNearest(Entries(h, v, order), key);
    EntriesMembers(h, v, order, Best(Entries(h, v, order), key));
  }

  /** A leave changes the owner of no key but those the leaver owned. */
  lemma LeaveMovesOnlyItsOwnKeys(h: Hasher, v: nat, order: seq<NodeId>, x: NodeId, key: u64)
    requires Owner(Entries(h, v, order), key) != Some(x)
    ensures Owner(Entries(h, v, Apply(order, Leave(x))), key) == Owner(Entries(h, v, order), key)
  {
    EntriesAfterDelete(h, v, order, x);
    if Entries(h, v, order) != [] { BestSurvivesDrop(Entries(h, v, order), {x}, key); }
  }

  /** A fresh node that joins and leaves again restores the insertion order, hence the whole ring. */
  lemma JoinThenLeaveRestores(order: seq<NodeId>, x: NodeId)
    requires x !in order
    ensures Apply(Apply(order, Join(x)), Leave(x)) == order
  {
    DeleteConcat(order, [x], x);
    DeleteOne(x, x);
    DeleteAbsent(order, x);
  }

  /** A leave deletes the leaver from every preference list, and costs each replica set at most the
      leaver and one substitute. */
  lemma LeaveDeletesFromPreferences(h: Hasher, v: nat, order: seq<NodeId>, x: NodeId, key: u64, n: nat)
    ensures var before := Preference(Entries(h, v, order), key);
            var after := Preference(Entries(h, v, Apply(order, Leave(x))), key);
            && after == Delete(before, x)
            && Elements(Prefix(before, n)) - Elements(Prefix(after, n)) <= {x}
            && |Elements(Prefix(after, n)) - Elements(Prefix(before, n))| <= 1
  {
    EntriesAfterDelete(h, v, order, x);
    PreferenceAfterDrop(Entries(h, v, order), key, x);
    ReplicasAfterDrop(Entries(h, v, order), key, x, n);
  }
}
