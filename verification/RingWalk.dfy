/** The theory behind the ring object: its three views of the virtual nodes, where a lookup may
    start in the sorted hashes, and what a circular walk over them has found after each step. */
module RingWalk {
  import opened Common
  import opened RingTheory

  /* ---------------- sorted hashes ---------------- */

  ghost predicate Ascending(s: seq<u64>) {
    forall i :: 0 < i < |s| ==> s[i - 1] <= s[i]
  }

  lemma {:induction false} AscendingAt(s: seq<u64>, i: nat, j: nat)
    requires Ascending(s) && i <= j < |s|
    ensures s[i] <= s[j]
    decreases j
  {
    if i < j { AscendingAt(s, i, j - 1); }
  }

  function Insert(s: seq<u64>, x: u64): seq<u64> {
    if s == [] || x <= s[0] then [x] + s else [s[0]] + Insert(s[1..], x)
  }

  /** Stands for `Vec::sort`. */
  function Sort(s: seq<u64>): seq<u64> {
    if s == [] then [] else Insert(Sort(s[1..]), s[0])
  }

  lemma PrependAscending(x: u64, s: seq<u64>)
    requires Ascending(s) && (s == [] || x <= s[0])
    ensures Ascending([x] + s)
  {
    forall i | 0 < i < |[x] + s| ensures ([x] + s)[i - 1] <= ([x] + s)[i] {
      if i > 1 { assert s[i - 2] <= s[i - 1]; }
    }
  }

  lemma {:induction false} InsertAscends(s: seq<u64>, x: u64)
    requires Ascending(s)
    ensures Ascending(Insert(s, x))
    ensures Insert(s, x) != [] && Insert(s, x)[0] == if s == [] || x <= s[0] then x else s[0]
  {
    if s == [] || x <= s[0] {
      PrependAscending(x, s);
    } else {
      InsertAscends(s[1..], x);
      PrependAscending(s[0], Insert(s[1..], x));
    }
  }

  lemma {:induction false} InsertKeeps(s: seq<u64>, x: u64)
    ensures multiset(Insert(s, x)) == multiset(s) + multiset{x}
  {
    if !(s == [] || x <= s[0]) {
      InsertKeeps(s[1..], x);
      assert s == [s[0]] + s[1..];
    }
  }

  lemma {:induction false} SortSorts(s: seq<u64>)
    ensures Ascending(Sort(s)) && multiset(Sort(s)) == multiset(s)
    ensures |Sort(s)| == |s|
  {
    if s != [] {
      assert s == [s[0]] + s[1..];
      SortSorts(s[1..]);
      InsertAscends(Sort(s[1..]), s[0]);
      InsertKeeps(Sort(s[1..]), s[0]);
    }
    assert |multiset(Sort(s))| == |multiset(s)|;
  }

  function Hashes(ring: seq<VNode>): (r: seq<u64>)
    ensures |r| == |ring| && forall i :: 0 <= i < |ring| ==> r[i] == ring[i].hash
  {
    seq(|ring|, i requires 0 <= i < |ring| => ring[i].hash)
  }

  /** Where a walk for hash `x` may start: a match if there is one, else the successor, else 0. */
  ghost predicate IsStart(s: seq<u64>, x: u64, p: nat) {
    p < |s| &&
    (s[p] == x
     || ((forall i :: 0 <= i < p ==> s[i] < x) && (forall i :: p <= i < |s| ==> x < s[i]))
     || (p == 0 && forall i :: 0 <= i < |s| ==> s[i] < x))
  }

  /** The position `k` steps clockwise of `p`, for at most one lap. */
  function Around(p: nat, k: nat, len: nat): (q: nat)
    requires p < len && k <= len
    ensures q < len
  {
    if p + k < len then p + k else p + k - len
  }

  /** The hashes in walking order. */
  ghost function Lap(s: seq<u64>, p: nat): (r: seq<u64>)
    requires p < |s|
    ensures |r| == |s| && multiset(r) == multiset(s)
    ensures forall k :: 0 <= k < |s| ==> r[k] == s[Around(p, k, |s|)]
  {
    assert s == s[..p] + s[p..];
    s[p..] + s[..p]
  }

  /** A lap meets hashes at growing distance; only copies of the key's own hash may come late. */
  lemma LapOrdered(s: seq<u64>, x: u64, p: nat, k: nat, l: nat)
    requires Ascending(s) && IsStart(s, x, p) && k <= l < |s|
    ensures Dist(x, Lap(s, p)[k]) <= Dist(x, Lap(s, p)[l]) || Lap(s, p)[l] == x
  {
    var i, j := Around(p, k, |s|), Around(p, l, |s|);
    assert Lap(s, p)[k] == s[i] && Lap(s, p)[l] == s[j];
    if i <= j { AscendingAt(s, i, j); }
    if p <= i { AscendingAt(s, p, i); } else { AscendingAt(s, i, p); }
    if p <= j { AscendingAt(s, p, j); } else { AscendingAt(s, j, p); }
  }

  /* ---------------- the replica walk, on values ---------------- */

  ghost function NodesAt(ring: seq<VNode>, h: u64): set<NodeId> {
    if ring == [] then {}
    else
      var last := ring[|ring| - 1];
      NodesAt(ring[..|ring| - 1], h) + if last.hash == h then {last.node} else {}
  }

  lemma {:induction false} NodesAtMember(ring: seq<VNode>, h: u64, y: NodeId)
    ensures y in NodesAt(ring, h) <==> VNode(h, y) in ring
  {
    if ring != [] {
      NodesAtMember(ring[..|ring| - 1], h, y);
      assert ring == ring[..|ring| - 1] + [ring[|ring| - 1]];
    }
  }

  /** The key's own hash is not shared by two different nodes. */
  ghost predicate Unambiguous(ring: seq<VNode>, key: u64) {
    |NodesAt(ring, key)| <= 1
  }

  /** How many nodes at hash `h` the walk has not seen yet. */
  ghost function Unseen(ring: seq<VNode>, h: u64, seen: set<NodeId>): nat {
    |NodesAt(ring, h) - seen|
  }

  /** Each visit to a hash has used up one of its nodes, unless none was left. */
  ghost predicate Drained(ring: seq<VNode>, seen: set<NodeId>, visited: seq<u64>) {
    forall h: u64 {:trigger Unseen(ring, h, seen)} ::
      Unseen(ring, h, seen) == 0 || multiset(visited)[h] + Unseen(ring, h, seen) <= |NodesAt(ring, h)|
  }

  lemma {:induction false} NodesAtBound(ring: seq<VNode>, h: u64)
    ensures |NodesAt(ring, h)| <= multiset(Hashes(ring))[h]
  {
    if ring != [] {
      var init, last := ring[..|ring| - 1], ring[|ring| - 1];
      NodesAtBound(init, h);
      assert ring == init + [last];
      assert Hashes(ring) == Hashes(init) + [last.hash];
    }
  }

  lemma UnseenAfter(ring: seq<VNode>, h: u64, seen: set<NodeId>, y: NodeId)
    ensures Unseen(ring, h, seen + {y}) <= Unseen(ring, h, seen)
    ensures y in NodesAt(ring, h) && y !in seen ==> Unseen(ring, h, seen + {y}) == Unseen(ring, h, seen) - 1
  {
    assert NodesAt(ring, h) - (seen + {y}) == (NodesAt(ring, h) - seen) - {y};
  }

  lemma DrainedByHit(ring: seq<VNode>, seen: set<NodeId>, visited: seq<u64>, t: u64, y: NodeId)
    requires Drained(ring, seen, visited) && y in NodesAt(ring, t) && y !in seen
    ensures Drained(ring, seen + {y}, visited + [t])
  {
    forall h: u64
      ensures Unseen(ring, h, seen + {y}) == 0
              || multiset(visited + [t])[h] + Unseen(ring, h, seen + {y}) <= |NodesAt(ring, h)|
    {
      UnseenAfter(ring, h, seen, y);
    }
  }

  lemma DrainedByMiss(ring: seq<VNode>, seen: set<NodeId>, visited: seq<u64>, t: u64)
    requires Drained(ring, seen, visited) && NodesAt(ring, t) <= seen
    ensures Drained(ring, seen, visited + [t])
  {
    assert NodesAt(ring, t) - seen == {};
    forall h: u64
      ensures Unseen(ring, h, seen) == 0
              || multiset(visited + [t])[h] + Unseen(ring, h, seen) <= |NodesAt(ring, h)|
    {}
  }

  lemma DrainedHash(ring: seq<VNode>, seen: set<NodeId>, visited: seq<u64>, h: u64)
    requires Drained(ring, seen, visited)
    requires multiset(visited)[h] >= |NodesAt(ring, h)|
    ensures NodesAt(ring, h) <= seen
  {
    var all := NodesAt(ring, h);
    assert Unseen(ring, h, seen) == 0;
    assert all == (all - seen) + (all * seen);
  }

  /** A full lap has seen every node, collisions or not. */
  lemma LapSeesAll(ring: seq<VNode>, seen: set<NodeId>, lap: seq<u64>)
    requires Drained(ring, seen, lap)
    requires multiset(lap) == multiset(Hashes(ring))
    ensures Nodes(ring) <= seen
  {
    forall e | e in ring ensures e.node in seen {
      NodesAtBound(ring, e.hash);
      DrainedHash(ring, seen, lap, e.hash);
      NodesAtMember(ring, e.hash, e.node);
    }
  }

  lemma CountedBefore(lap: seq<u64>, k: nat, h: u64)
    requires k <= |lap| && forall l :: k <= l < |lap| ==> lap[l] != h
    ensures multiset(lap[..k])[h] == multiset(lap)[h]
  {
    assert lap == lap[..k] + lap[k..];
    assert h !in lap[k..];
  }

  /** Hashes nearer than the current one have been drained. */
  lemma NearIsSeen(ring: seq<VNode>, seen: set<NodeId>, s: seq<u64>, key: u64, p: nat, k: nat, h: u64)
    requires Ascending(s) && multiset(s) == multiset(Hashes(ring))
    requires IsStart(s, key, p) && k < |s|
    requires Drained(ring, seen, Lap(s, p)[..k])
    requires Unambiguous(ring, key)
    requires Dist(key, h) < Dist(key, Lap(s, p)[k])
    ensures NodesAt(ring, h) <= seen
  {
    var lap := Lap(s, p);
    NodesAtBound(ring, h);
    if h == key {
      if s[p] == key {
        assert lap[0] == s[Around(p, 0, |s|)] == key;
        assert key in lap[..k] by { assert lap[..k][0] == key; }
      } else {
        assert key !in s;
      }
    } else {
      forall l | k <= l < |s| ensures lap[l] != h { LapOrdered(s, key, p, k, l); }
      CountedBefore(lap, k, h);
    }
    DrainedHash(ring, seen, lap[..k], h);
  }

  /** A nearest kept virtual node that is the first kept one at its hash is the best kept one. */
  lemma FirstOfItsHash(ring: seq<VNode>, gone: set<NodeId>, key: u64, i: nat)
    requires i < |ring| && ring[i].node !in gone
    requires forall j :: 0 <= j < i && ring[j].hash == ring[i].hash ==> ring[j].node in gone
    requires forall e :: e in ring && e.node !in gone ==> Dist(key, ring[i].hash) <= Dist(key, e.hash)
    ensures Drop(ring, gone) != [] && Best(Drop(ring, gone), key) == ring[i]
  {
    var front, e, back := ring[..i], ring[i], ring[i + 1..];
    forall f | f in front && f.node !in gone ensures Dist(key, e.hash) < Dist(key, f.hash) {
      assert f in ring && f.hash != e.hash;
      if Dist(key, f.hash) == Dist(key, e.hash) { DistInjective(key, f.hash, e.hash); }
    }
    assert ring == front + [e] + back;
    BestOfKept(front, e, back, gone, key);
  }

  /** The node pushed at a step is the next one in the key's preference list. */
  lemma NextPreferred(ring: seq<VNode>, seen: set<NodeId>, key: u64, t: u64, i: nat)
    requires i < |ring| && ring[i].hash == t && ring[i].node !in seen
    requires forall j :: 0 <= j < i && ring[j].hash == t ==> ring[j].node in seen
    requires forall e :: e in ring && e.node !in seen ==> Dist(key, t) <= Dist(key, e.hash)
    ensures Preference(Drop(ring, seen), key)
            == [ring[i].node] + Preference(Drop(ring, seen + {ring[i].node}), key)
  {
    FirstOfItsHash(ring, seen, key, i);
    DropTwice(ring, seen, {ring[i].node});
  }

  /* ---------------- the stored views ---------------- */

  /** The three stored views describe the same nodes, those of `order`. */
  ghost predicate ViewsAgree(h: Hasher, v: nat, order: seq<NodeId>,
                             ring: seq<VNode>, positions: map<NodeId, seq<u64>>, sortedRing: seq<u64>) {
    && NoDup(order)
    && ring == Entries(h, v, order)
    && positions.Keys == Elements(order)
    && (forall n :: n in positions ==> positions[n] == Hashes(Block(h, v, n)))
    && sortedRing == Sort(Hashes(ring))
  }

  /** Whatever joined and left before, there are three views that agree on who is there now. */
  lemma EveryHistoryHasViews(h: Hasher, v: nat, history: seq<Change>)
      returns (ring: seq<VNode>, positions: map<NodeId, seq<u64>>, sortedRing: seq<u64>)
    ensures ViewsAgree(h, v, OrderAfter(history), ring, positions, sortedRing)
  {
    var order := OrderAfter(history);
    OrderNoDup(history);
    ring := Entries(h, v, order);
    positions := map n | n in Elements(order) :: Hashes(Block(h, v, n));
    sortedRing := Sort(Hashes(ring));
  }

  /** Rings kept through any two histories with the same nodes send every key to the same node, and list the same
      replicas, when no two nodes share a hash. */
  lemma KeptRingsAgree(h: Hasher, v: nat, one: seq<Change>, two: seq<Change>, key: u64, n: nat,
                       ring: seq<VNode>, positions: map<NodeId, seq<u64>>, sortedRing: seq<u64>,
                       ring': seq<VNode>, positions': map<NodeId, seq<u64>>, sortedRing': seq<u64>,
                       result: seq<NodeId>, result': seq<NodeId>)
    requires ViewsAgree(h, v, OrderAfter(one), ring, positions, sortedRing) && ReplicaList(ring, key, n, result)
    requires ViewsAgree(h, v, OrderAfter(two), ring', positions', sortedRing') && ReplicaList(ring', key, n, result')
    requires positions.Keys == positions'.Keys && NodesDisjoint(h, v, positions.Keys)
    ensures Owner(ring, key) == Owner(ring', key) && result == result'
  {
    HistoriesAgree(h, v, one, two, key);
    EntriesCollisionFree(h, v, OrderAfter(one));
    EntriesCollisionFree(h, v, OrderAfter(two));
    CollisionFreeReplicas(ring, key, n, result);
    CollisionFreeReplicas(ring', key, n, result');
  }

  lemma ViewsJoin(h: Hasher, v: nat, order: seq<NodeId>,
                  ring: seq<VNode>, positions: map<NodeId, seq<u64>>, sortedRing: seq<u64>, x: NodeId)
    requires ViewsAgree(h, v, order, ring, positions, sortedRing) && x !in positions
    ensures x !in order
    ensures var block := Block(h, v, x);
            ViewsAgree(h, v, order + [x], ring + block, positions[x := Hashes(block)], Sort(Hashes(ring + block)))
  {
    assert x !in Elements(order);
    AppendElement(order, x);
  }

  lemma ViewsLeave(h: Hasher, v: nat, order: seq<NodeId>,
                   ring: seq<VNode>, positions: map<NodeId, seq<u64>>, sortedRing: seq<u64>, x: NodeId)
    requires ViewsAgree(h, v, order, ring, positions, sortedRing)
    ensures var rest := Drop(ring, {x});
            ViewsAgree(h, v, Delete(order, x), rest, positions - {x}, Sort(Hashes(rest)))
  {
    EntriesAfterDelete(h, v, order, x);
    DeleteKeepsNoDup(order, x);
    DeleteMembers(order, x);
  }

  /** What holds after `steps` iterations of the walk. */
  ghost predicate Walk(ring: seq<VNode>, s: seq<u64>, key: u64, p: nat,
                       result: seq<NodeId>, seen: set<NodeId>, steps: nat) {
    && Ascending(s) && multiset(s) == multiset(Hashes(ring)) && IsStart(s, key, p) && steps <= |s|
    && seen == Elements(result) && NoDup(result) && seen <= Nodes(ring)
    && Drained(ring, seen, Lap(s, p)[..steps])
    && (if steps == 0 then result == [] else result != [] && Owner(ring, key) == Some(result[0]))
    && (Unambiguous(ring, key) ==> Preference(ring, key) == result + Preference(Drop(ring, seen), key))
  }

  /** Where a walk was asked for and where it began. */
  datatype WalkState = WalkState(key: u64, start: nat)

  /** `Walk`, with the position the next iteration looks at. */
  ghost predicate Walking(w: WalkState, ring: seq<VNode>, s: seq<u64>,
                          result: seq<NodeId>, seen: set<NodeId>, current: nat, steps: nat) {
    && Walk(ring, s, w.key, w.start, result, seen, steps)
    && current == Around(w.start, steps, |s|)
  }

  lemma WalkBegins(ring: seq<VNode>, s: seq<u64>, key: u64, p: nat)
    requires Ascending(s) && multiset(s) == multiset(Hashes(ring)) && IsStart(s, key, p)
    ensures Walk(ring, s, key, p, [], {}, 0)
  {
    DropNothing(ring, {});
    forall h: u64 ensures multiset(Lap(s, p)[..0])[h] + Unseen(ring, h, {}) <= |NodesAt(ring, h)| {
      assert NodesAt(ring, h) - {} == NodesAt(ring, h);
    }
  }

  /** A walk that has not found every node is still within its first lap. */
  lemma WalkGoesOn(ring: seq<VNode>, s: seq<u64>, key: u64, p: nat,
                   result: seq<NodeId>, seen: set<NodeId>, steps: nat)
    requires Walk(ring, s, key, p, result, seen, steps) && |result| < |Nodes(ring)|
    ensures steps < |s|
  {
    NoDupCard(result);
    if steps == |s| {
      assert Lap(s, p)[..steps] == Lap(s, p);
      LapSeesAll(ring, seen, Lap(s, p));
      SubsetCard(Nodes(ring), seen);
      assert false;
    }
  }

  lemma HitIsNextPreferred(ring: seq<VNode>, s: seq<u64>, key: u64, p: nat, seen: set<NodeId>, steps: nat, i: nat)
    requires Ascending(s) && multiset(s) == multiset(Hashes(ring)) && IsStart(s, key, p) && steps < |s|
    requires Drained(ring, seen, Lap(s, p)[..steps]) && Unambiguous(ring, key)
    requires i < |ring| && ring[i].hash == Lap(s, p)[steps] && ring[i].node !in seen
    requires forall j :: 0 <= j < i && ring[j].hash == ring[i].hash ==> ring[j].node in seen
    ensures Preference(Drop(ring, seen), key)
            == [ring[i].node] + Preference(Drop(ring, seen + {ring[i].node}), key)
  {
    var t := ring[i].hash;
    forall e | e in ring && Dist(key, e.hash) < Dist(key, t) ensures e.node in seen {
      NearIsSeen(ring, seen, s, key, p, steps, e.hash);
      NodesAtMember(ring, e.hash, e.node);
    }
    NextPreferred(ring, seen, key, t, i);
  }

  lemma WalkHit(ring: seq<VNode>, s: seq<u64>, key: u64, p: nat,
                result: seq<NodeId>, seen: set<NodeId>, steps: nat, i: nat)
    requires Walk(ring, s, key, p, result, seen, steps) && steps < |s|
    requires i < |ring| && ring[i].hash == Lap(s, p)[steps] && ring[i].node !in seen
    requires forall j :: 0 <= j < i && ring[j].hash == ring[i].hash ==> ring[j].node in seen
    ensures Walk(ring, s, key, p, result + [ring[i].node], seen + {ring[i].node}, steps + 1)
  {
    var lap, t, y := Lap(s, p), ring[i].hash, ring[i].node;
    assert ring[i] in ring;
    NodesAtMember(ring, t, y);
    DrainedByHit(ring, seen, lap[..steps], t, y);
    TakeOneMore(lap, steps);
    AppendElement(result, y);
    if steps == 0 {
      assert lap[0] == s[Around(p, 0, |s|)];
      FirstStep(ring, s, key, p, i);
    }
    if Unambiguous(ring, key) {
      HitIsNextPreferred(ring, s, key, p, seen, steps, i);
      var rest := Preference(Drop(ring, seen + {y}), key);
      ConcatAssoc(result, [y], rest);
    }
  }

  lemma WalkMiss(ring: seq<VNode>, s: seq<u64>, key: u64, p: nat,
                 result: seq<NodeId>, seen: set<NodeId>, steps: nat)
    requires Walk(ring, s, key, p, result, seen, steps) && steps < |s|
    requires forall j :: 0 <= j < |ring| && ring[j].hash == Lap(s, p)[steps] ==> ring[j].node in seen
    ensures Walk(ring, s, key, p, result, seen, steps + 1)
  {
    var lap := Lap(s, p);
    forall y | y in NodesAt(ring, lap[steps]) ensures y in seen { NodesAtMember(ring, lap[steps], y); }
    DrainedByMiss(ring, seen, lap[..steps], lap[steps]);
    TakeOneMore(lap, steps);
    assert lap[steps] in multiset(lap);
    assert lap[steps] in multiset(Hashes(ring));
    var j :| 0 <= j < |Hashes(ring)| && Hashes(ring)[j] == lap[steps];
    assert ring[j].node in Elements(result);
  }

  /** What `get_n` promises of its result. */
  ghost predicate ReplicaList(ring: seq<VNode>, key: u64, n: nat, result: seq<NodeId>) {
    && NoDup(result) && Elements(result) <= Nodes(ring)
    && |result| == (if n < |Nodes(ring)| then n else |Nodes(ring)|)
    && (result != [] ==> Owner(ring, key) == Some(result[0]))
    && (Unambiguous(ring, key) ==> result == Prefix(Preference(ring, key), n))
  }

  lemma WalkEnds(ring: seq<VNode>, s: seq<u64>, key: u64, p: nat,
                 result: seq<NodeId>, seen: set<NodeId>, steps: nat, n: nat)
    requires Walk(ring, s, key, p, result, seen, steps)
    requires |result| == if n < |Nodes(ring)| then n else |Nodes(ring)|
    ensures ReplicaList(ring, key, n, result)
  {
    PreferenceListsNodes(ring, key);
  }

  lemma EmptyRing(h: Hasher, v: nat, order: seq<NodeId>)
    requires Entries(h, v, order) == []
    ensures v == 0 || order == []
  {
    if order != [] { assert Block(h, v, order[|order| - 1]) == []; }
  }

  lemma RingInhabited(h: Hasher, v: nat, order: seq<NodeId>)
    requires Entries(h, v, order) != []
    ensures v >= 1 && order != []
  {
    var e := Entries(h, v, order)[0];
    EntriesMembers(h, v, order, e);
  }

  lemma StartIsNearest(ring: seq<VNode>, s: seq<u64>, key: u64, p: nat, e: VNode)
    requires Ascending(s) && multiset(s) == multiset(Hashes(ring)) && IsStart(s, key, p) && e in ring
    ensures Dist(key, s[p]) <= Dist(key, e.hash)
  {
    var i :| 0 <= i < |ring| && ring[i] == e;
    assert Hashes(ring)[i] == e.hash;
    assert e.hash in multiset(s);
    var l :| 0 <= l < |s| && s[l] == e.hash;
    if p <= l { AscendingAt(s, p, l); } else { AscendingAt(s, l, p); }
  }

  lemma NearestIsBest(ring: seq<VNode>, key: u64, i: nat)
    requires i < |ring|
    requires forall e :: e in ring ==> Dist(key, ring[i].hash) <= Dist(key, e.hash)
    requires forall j :: 0 <= j < i ==> ring[j].hash != ring[i].hash
    ensures Best(ring, key) == ring[i]
  {
    FirstOfItsHash(ring, {}, key, i);
    DropNothing(ring, {});
  }

  lemma FirstStep(ring: seq<VNode>, s: seq<u64>, key: u64, p: nat, i: nat)
    requires Ascending(s) && multiset(s) == multiset(Hashes(ring)) && IsStart(s, key, p)
    requires i < |ring| && ring[i].hash == s[p]
    requires forall j :: 0 <= j < i ==> ring[j].hash != s[p]
    ensures Owner(ring, key) == Some(ring[i].node)
  {
    forall e | e in ring ensures Dist(key, ring[i].hash) <= Dist(key, e.hash) {
      StartIsNearest(ring, s, key, p, e);
    }
    NearestIsBest(ring, key, i);
  }

  /** Where no two nodes collide, every key is unambiguous. */
  lemma {:induction false} CollisionFreeIsUnambiguous(ring: seq<VNode>, key: u64)
    requires CollisionFree(ring)
    ensures Unambiguous(ring, key)
  {
    if ring != [] {
      var init, last := ring[..|ring| - 1], ring[|ring| - 1];
      assert ring == init + [last];
      CollisionFreeIsUnambiguous(init, key);
      if last.hash == key {
        forall y | y in NodesAt(init, key) ensures y == last.node { NodesAtMember(init, key, y); }
        assert NodesAt(ring, key) == {last.node};
      }
    }
  }

  /** Then what `get_n` returns is the beginning of the preference list. */
  lemma CollisionFreeReplicas(ring: seq<VNode>, key: u64, n: nat, result: seq<NodeId>)
    requires CollisionFree(ring) && ReplicaList(ring, key, n, result)
    ensures result == Prefix(Preference(ring, key), n)
  {
    CollisionFreeIsUnambiguous(ring, key);
  }

  /** A fresh node that joins and leaves again restores all three views. */
  lemma JoinThenLeaveRestoresViews(h: Hasher, v: nat, order: seq<NodeId>, x: NodeId,
                                   ring: seq<VNode>, positions: map<NodeId, seq<u64>>, sortedRing: seq<u64>,
                                   ring': seq<VNode>, positions': map<NodeId, seq<u64>>, sortedRing': seq<u64>)
    requires x !in order
    requires ViewsAgree(h, v, order, ring, positions, sortedRing)
    requires ViewsAgree(h, v, RingTheory.Apply(RingTheory.Apply(order, Join(x)), Leave(x)),
                        ring', positions', sortedRing')
    ensures ring' == ring && positions' == positions && sortedRing' == sortedRing
  {
    JoinThenLeaveRestores(order, x);
  }

  lemma UnambiguousAfterDrop(ring: seq<VNode>, gone: set<NodeId>, key: u64)
    requires Unambiguous(ring, key)
    ensures Unambiguous(Drop(ring, gone), key)
  {
    DropMembers(ring, gone);
    forall y | y in NodesAt(Drop(ring, gone), key) ensures y in NodesAt(ring, key) {
      NodesAtMember(Drop(ring, gone), key, y);
      NodesAtMember(ring, key, y);
    }
    SubsetCard(NodesAt(Drop(ring, gone), key), NodesAt(ring, key));
  }

  /** What `get_n` returns before and after a node leaves: the full list loses that node and keeps its order; a
      shorter one loses at most that node and gains at most one. */
  lemma ReplicasAfterLeave(h: Hasher, v: nat, order: seq<NodeId>, x: NodeId, key: u64, n: nat,
                           before: seq<NodeId>, after: seq<NodeId>)
    requires Unambiguous(Entries(h, v, order), key)
    requires ReplicaList(Entries(h, v, order), key, n, before)
    requires ReplicaList(Entries(h, v, RingTheory.Apply(order, Leave(x))), key, n, after)
    ensures n >= |Nodes(Entries(h, v, order))| ==> after == Delete(before, x)
    ensures Elements(before) - Elements(after) <= {x} && |Elements(after) - Elements(before)| <= 1
  {
    EntriesAfterDelete(h, v, order, x);
    UnambiguousAfterDrop(Entries(h, v, order), {x}, key);
    LeaveDeletesFromPreferences(h, v, order, x, key, n);
    PreferenceListsNodes(Entries(h, v, order), key);
  }
}
