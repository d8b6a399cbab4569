/** The consistent-hash ring object: binary-search lookup with wrap-around and the circular
    replica walk, over three views of the virtual nodes kept in step. */
module HashRings {
  import opened Common
  import opened RingTheory
  import opened RingWalk

  /** `slice::binary_search`: with duplicates, any matching position may come back. */
  method BinarySearch(s: seq<u64>, x: u64) returns (found: bool, pos: nat)
    requires Ascending(s)
    ensures pos <= |s|
    ensures found ==> pos < |s| && s[pos] == x
    ensures !found ==> (forall i :: 0 <= i < pos ==> s[i] < x) && (forall i :: pos <= i < |s| ==> x < s[i])
  {
    var lo, hi := 0, |s|;
    while lo < hi
      invariant 0 <= lo <= hi <= |s|
      invariant forall i :: 0 <= i < lo ==> s[i] < x
      invariant forall i :: hi <= i < |s| ==> x < s[i]
    {
      var mid := (lo + hi) / 2;
      forall i | 0 <= i < |s| ensures if i <= mid then s[i] <= s[mid] else s[mid] <= s[i] {
        if i <= mid { AscendingAt(s, i, mid); } else { AscendingAt(s, mid, i); }
      }
      if s[mid] == x {
        return true, mid;
      } else if s[mid] < x {
        lo := mid + 1;
      } else {
        hi := mid;
      }
    }
    return false, lo;
  }

  method StartPosition(s: seq<u64>, x: u64) returns (p: nat)
    requires Ascending(s) && s != []
    ensures IsStart(s, x, p)
  {
    var found, pos := BinarySearch(s, x);
    p := if !found && pos >= |s| then 0 else pos;
  }

  method Clockwise(current: nat, len: nat) returns (next: nat)
    requires current < len
    ensures next == if current + 1 == len then 0 else current + 1
  {
    next := (current + 1) % len;
  }

  /** The loop of `add_node`: one virtual node per index, pushed onto the ring and the positions. */
  method PushVirtualNodes(h: Hasher, v: nat, ring: seq<VNode>, nodeId: NodeId)
    returns (grown: seq<VNode>, block: seq<u64>)
    ensures grown == ring + Block(h, v, nodeId)
    ensures block == Hashes(Block(h, v, nodeId))
  {
    grown, block := ring, [];
    ghost var added := Block(h, v, nodeId);
    for i := 0 to v
      invariant grown == ring + added[..i]
      invariant block == Hashes(added)[..i]
    {
      var hash := h(VirtualKey(nodeId, i));
      TakeOneMore(added, i);
      TakeOneMore(Hashes(added), i);
      grown := grown + [VNode(hash, nodeId)];
      block := block + [hash];
    }
    assert added[..v] == added && Hashes(added)[..v] == Hashes(added);
  }

  /** Successor search: the nearest hash by binary search, then the first virtual node carrying it. */
  method LookUp(ring: seq<VNode>, sorted: seq<u64>, hash: u64) returns (r: Option<NodeId>)
    requires Ascending(sorted) && multiset(sorted) == multiset(Hashes(ring))
    ensures r == Owner(ring, hash)
  {
    assert |multiset(sorted)| == |multiset(Hashes(ring))|;
    if sorted == [] {
      return None;
    }
    var pos := StartPosition(sorted, hash);
    var target := sorted[pos];
    assert target in multiset(Hashes(ring));
    var i := FirstUnseen(ring, target, {});
    FirstStep(ring, sorted, hash, pos, i);
    r := Some(ring[i].node);
  }

  /** The first virtual node at `target` whose node is not yet seen; `|ring|` if there is none. */
  method FirstUnseen(ring: seq<VNode>, target: u64, seen: set<NodeId>) returns (i: nat)
    ensures i <= |ring|
    ensures i < |ring| ==> ring[i].hash == target && ring[i].node !in seen
    ensures forall j :: 0 <= j < i ==> ring[j].hash != target || ring[j].node in seen
  {
    i := 0;
    while i < |ring| && !(ring[i].hash == target && ring[i].node !in seen)
      invariant i <= |ring|
      invariant forall j :: 0 <= j < i ==> ring[j].hash != target || ring[j].node in seen
    {
      i := i + 1;
    }
  }

  /** One iteration of the walk: take the first unseen node at the current hash, if any, and move on. */
  method VisitHash(ring: seq<VNode>, sorted: seq<u64>, ghost w: WalkState, result: seq<NodeId>, seen: set<NodeId>,
                   current: nat, ghost steps: nat)
    returns (result': seq<NodeId>, seen': set<NodeId>, current': nat)
    requires Walking(w, ring, sorted, result, seen, current, steps)
    requires |result| < |Nodes(ring)|
    ensures steps < |sorted|
    ensures Walking(w, ring, sorted, result', seen', current', steps + 1)
    ensures |result'| <= |result| + 1
  {
    WalkGoesOn(ring, sorted, w.key, w.start, result, seen, steps);
    var i := FirstUnseen(ring, sorted[current], seen);
    if i < |ring| {
      WalkHit(ring, sorted, w.key, w.start, result, seen, steps, i);
      result', seen' := result + [ring[i].node], seen + {ring[i].node};
    } else {
      WalkMiss(ring, sorted, w.key, w.start, result, seen, steps);
      result', seen' := result, seen;
    }
    current' := Clockwise(current, |sorted|);
  }

  /** The circular walk of `get_n`. */
  method CollectNodes(ring: seq<VNode>, sorted: seq<u64>, hash: u64, n: nat, total: nat)
    returns (result: seq<NodeId>, ghost steps: nat)
    requires Ascending(sorted) && multiset(sorted) == multiset(Hashes(ring)) && sorted != []
    requires total == |Nodes(ring)|
    ensures steps <= |sorted|
    ensures ReplicaList(ring, hash, n, result)
  {
    var start := StartPosition(sorted, hash);
    var current, seen := start, {};
    ghost var w := WalkState(hash, start);
    result, steps := [], 0;
    WalkBegins(ring, sorted, hash, start);
    while |result| < n && |result| < total
      invariant Walking(w, ring, sorted, result, seen, current, steps)
      invariant steps <= |sorted| && |result| <= n && |result| <= total
      decreases |sorted| - steps
    {
      result, seen, current := VisitHash(ring, sorted, w, result, seen, current, steps);
      steps := steps + 1;
    }
    WalkEnds(ring, sorted, hash, start, result, seen, steps, n);
  }

  class HashRing {
    const hashOf: Hasher
    const virtualNodes: nat
    var ring: seq<VNode>
    var positions: map<NodeId, seq<u64>>
    var sortedRing: seq<u64>
    /** The nodes present, in the order they were added. */
    ghost var order: seq<NodeId>

    ghost predicate Valid()
      reads this
    {
      ViewsAgree(hashOf, virtualNodes, order, ring, positions, sortedRing)
    }

    constructor (h: Hasher, v: nat)
      ensures Valid() && order == [] && hashOf == h && virtualNodes == v
    {
      hashOf, virtualNodes := h, v;
      ring, positions, sortedRing, order := [], map[], [], [];
      new;
      assert Hashes(ring) == [];
    }

    method RebuildSorted()
      modifies this`sortedRing
      ensures sortedRing == Sort(Hashes(ring))
      ensures Ascending(sortedRing) && multiset(sortedRing) == multiset(Hashes(ring))
    {
      sortedRing := Sort(Hashes(ring));
      SortSorts(Hashes(ring));
    }

    method AddNode(nodeId: NodeId)
      requires Valid()
      modifies this
      ensures Valid()
      ensures order == RingTheory.Apply(old(order), Join(nodeId))
    {
      if nodeId in positions {
        return;
      }
      var grown, block := PushVirtualNodes(hashOf, virtualNodes, ring, nodeId);
      ViewsJoin(hashOf, virtualNodes, order, ring, positions, sortedRing, nodeId);
      ring := grown;
      positions := positions[nodeId := block];
      order := order + [nodeId];
      RebuildSorted();
    }

    method RemoveNode(nodeId: NodeId)
      requires Valid()
      modifies this
      ensures Valid()
      ensures order == RingTheory.Apply(old(order), Leave(nodeId))
    {
      if nodeId in positions {
        ViewsLeave(hashOf, virtualNodes, order, ring, positions, sortedRing, nodeId);
        positions := positions - {nodeId};
        ring := Drop(ring, {nodeId});
        order := Delete(order, nodeId);
        RebuildSorted();
      } else {
        DeleteAbsent(order, nodeId);
      }
    }

    method GetByHash(hash: u64) returns (r: Option<NodeId>)
      requires Valid()
      ensures r == Owner(ring, hash)
    {
      SortSorts(Hashes(ring));
      r := LookUp(ring, sortedRing, hash);
    }

    method Get(key: string) returns (r: Option<NodeId>)
      requires Valid()
      ensures r == Owner(ring, hashOf(key))
    {
      if ring == [] { return None; }
      r := GetByHash(hashOf(key));
    }

    /** `steps` counts loop iterations: the walk never needs more than one lap. */
    method GetN(key: string, n: nat) returns (result: seq<NodeId>, ghost steps: nat)
      requires Valid()
      ensures steps <= |sortedRing|
      ensures NoDup(result) && Elements(result) <= Elements(order)
      ensures virtualNodes == 0 ==> result == []
      ensures virtualNodes >= 1 ==> |result| == if n < |order| then n else |order|
      ensures result != [] ==> Owner(ring, hashOf(key)) == Some(result[0])
      ensures Unambiguous(ring, hashOf(key)) ==> result == Prefix(Preference(ring, hashOf(key)), n)
    {
      NoDupCard(order);
      SortSorts(Hashes(ring));
      if ring == [] {
        EmptyRing(hashOf, virtualNodes, order);
        return [], 0;
      }
      RingInhabited(hashOf, virtualNodes, order);
      EntriesNodes(hashOf, virtualNodes, order);
      assert sortedRing != [];
      result, steps := CollectNodes(ring, sortedRing, hashOf(key), n, |positions|);
    }
  }
}
