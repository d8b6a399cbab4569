/** Routing a title, forwarding to a peer, and delivering a forwarded message. */
module ForwardTheory {
  import opened Common
  import opened Bytes
  import opened RingTheory
  import opened RouteTheory
  import opened RegistryTheory

  /* ---------------- routing ---------------- */

  datatype RoutePlan = Local(client: ClientId) | Remote(node: NodeId) | Nowhere

  /** Any of the candidates; `pick` stands for the random choice. */
  function Chosen(clients: seq<ClientId>, pick: nat): (r: Option<ClientId>)
    ensures r.Some? <==> clients != []
    ensures r.Some? ==> r.value in clients
  {
    if clients == [] then None else if pick < |clients| then Some(clients[pick]) else Some(clients[0])
  }

  /** Local subscribers first, then the title's node on the ring. */
  function Route(reg: Registry, owner: Option<NodeId>, t: Title, exclude: Option<ClientId>, pick: nat): RoutePlan {
    var local := Chosen(FindAllByTitle(reg, t, exclude), pick);
    if local.Some? then Local(local.value) else if owner.Some? then Remote(owner.value) else Nowhere
  }

  /** Local exactly when some other live client lists the title, and then it is such a client; away only when
      there is none. */
  lemma RouteIsLocalFirst(reg: Registry, owner: Option<NodeId>, t: Title, publisher: ClientId, pick: nat)
    requires Agrees(reg)
    ensures var plan := Route(reg, owner, t, Some(publisher), pick);
            && (plan.Local? <==> exists id :: Subscribed(reg, id, t) && id != publisher)
            && (plan.Local? ==> Subscribed(reg, plan.client, t) && plan.client != publisher)
            && (plan.Remote? ==> owner == Some(plan.node))
            && (plan.Nowhere? ==> owner == None)
  {
    var found := FindAllByTitle(reg, t, Some(publisher));
    var plan := Route(reg, owner, t, Some(publisher), pick);
    if plan.Local? {
      FindAllByTitleExact(reg, t, Some(publisher), plan.client);
      assert Subscribed(reg, plan.client, t);
    } else {
      assert found == [];
      forall id ensures !(Subscribed(reg, id, t) && id != publisher) {
        FindAllByTitleExact(reg, t, Some(publisher), id);
      }
    }
  }

  /* ---------------- forwarding ---------------- */

  datatype Kind = Unicast | Group | Broadcast

  datatype Request = Request(source: ClientId, target: ClientId, title: Title, payload: Buffer, kind: Kind)

  datatype ForwardMessage = ForwardMessage(
    forwardId: nat, source: ClientId, target: ClientId, title: Title, payload: Buffer,
    isGroup: bool, isBroadcast: bool, requireAck: bool)

  function MessageOf(req: Request, forwardId: nat): ForwardMessage {
    ForwardMessage(forwardId, req.source, req.target, req.title, req.payload,
                   req.kind.Group?, req.kind.Broadcast?, false)
  }

  /** A message queued on the connection to a node. */
  datatype Frame = Frame(node: NodeId, message: ForwardMessage)

  datatype FwdResult = Delivered | NoPeerForTitle | PeerUnreachable(reason: string)

  /** One `try_send`: how often it called the transport, and whether the transport took the message. */
  datatype Try = Try(node: NodeId, attempts: nat, accepted: bool)

  /** What a node knows when it forwards, its open connections apart. */
  datatype Peers = Peers(started: bool, local: NodeId, addrs: map<NodeId, Addr>, parses: Addr -> bool)

  predicate Reachable(p: Peers, n: NodeId) {
    n in p.addrs && p.parses(p.addrs[n])
  }

  predicate Eligible(p: Peers, exclude: Option<NodeId>, n: NodeId) {
    n != p.local && Some(n) != exclude && Reachable(p, n)
  }

  /** The peers of a fallback walk, in the order the connection map lists them. */
  function Candidates(p: Peers, exclude: Option<NodeId>, order: seq<NodeId>): seq<NodeId> {
    if order == [] then []
    else
      var before := Candidates(p, exclude, order[..|order| - 1]);
      var n := order[|order| - 1];
      if Eligible(p, exclude, n) then before + [n] else before
  }

  lemma {:induction false} CandidatesMembers(p: Peers, exclude: Option<NodeId>, order: seq<NodeId>, n: NodeId)
    ensures n in Candidates(p, exclude, order) <==> n in order && Eligible(p, exclude, n)
    decreases |order|
  {
    if order != [] {
      var init, last := order[..|order| - 1], order[|order| - 1];
      CandidatesMembers(p, exclude, init, n);
      assert order == init + [last];
    }
  }

  lemma {:induction false} CandidatesDistinct(p: Peers, exclude: Option<NodeId>, order: seq<NodeId>)
    requires NoDup(order)
    ensures NoDup(Candidates(p, exclude, order))
    decreases |order|
  {
    if order != [] {
      var init, last := order[..|order| - 1], order[|order| - 1];
      CandidatesDistinct(p, exclude, init);
      CandidatesMembers(p, exclude, init, last);
      if Eligible(p, exclude, last) { AppendNoDup(Candidates(p, exclude, init), last); }
    }
  }

  /** The peers a forward to `target` tries, in order, until one accepts. */
  function Itinerary(p: Peers, connected: set<NodeId>, target: NodeId, order: seq<NodeId>): seq<NodeId> {
    if !p.started then []
    else if target !in p.addrs then Candidates(p, None, order)
    else if Reachable(p, target) && target in connected then [target] + Candidates(p, Some(target), order)
    else Candidates(p, Some(target), order)
  }

  /** What a forward answers when nobody accepted. */
  function Failure(p: Peers, target: NodeId): FwdResult {
    if !p.started then PeerUnreachable("cluster-not-started")
    else if target !in p.addrs then NoPeerForTitle
    else PeerUnreachable(target.name)
  }

  /** `tries` went along the peers in order and stopped at the first acceptance, or ran through them all. */
  ghost predicate Walked(peers: seq<NodeId>, tries: seq<Try>, accepted: bool) {
    && |tries| <= |peers|
    && (forall i :: 0 <= i < |tries| ==> TriedAt(peers, tries, accepted, i))
    && (if accepted then tries != [] else |tries| == |peers|)
  }

  predicate TriedAt(peers: seq<NodeId>, tries: seq<Try>, accepted: bool, i: nat) {
    && i < |tries| <= |peers|
    && tries[i].node == peers[i] && 1 <= tries[i].attempts <= 2
    && tries[i].accepted == (accepted && i == |tries| - 1)
  }

  /** What the connection map may list when the walk starts: the first try can only have changed the target's own
      connection. */
  ghost predicate StillConnected(p: Peers, connected: set<NodeId>, target: NodeId, order: seq<NodeId>) {
    && NoDup(order)
    && (target !in p.addrs ==> Elements(order) == connected)
    && Elements(order) - {target} == connected - {target}
  }

  ghost predicate Forwarded(p: Peers, connected: set<NodeId>, target: NodeId, order: seq<NodeId>, tries: seq<Try>,
                            r: FwdResult) {
    && StillConnected(p, connected, target, order)
    && Walked(Itinerary(p, connected, target, order), tries, r.Delivered?)
    && (!r.Delivered? ==> r == Failure(p, target))
  }

  /** Calls of the transport, one entry per call. */
  function CallsOf(tries: seq<Try>): seq<NodeId> {
    if tries == [] then []
    else CallsOf(tries[..|tries| - 1]) + seq(tries[|tries| - 1].attempts, i => tries[|tries| - 1].node)
  }

  /** An accepted last try has put one message on that peer's connection; nothing else is queued. */
  function QueuedAfter(before: seq<Frame>, tries: seq<Try>, req: Request, forwardId: nat): seq<Frame> {
    if tries != [] && tries[|tries| - 1].accepted
    then before + [Frame(tries[|tries| - 1].node, MessageOf(req, forwardId))] else before
  }

  lemma ItineraryDistinct(p: Peers, connected: set<NodeId>, target: NodeId, order: seq<NodeId>)
    requires StillConnected(p, connected, target, order)
    ensures NoDup(Itinerary(p, connected, target, order))
  {
    CandidatesDistinct(p, None, order);
    CandidatesDistinct(p, Some(target), order);
    CandidatesMembers(p, Some(target), order, target);
    PrependElement(target, Candidates(p, Some(target), order));
  }

  /** Delivered exactly when one peer accepted; the one acceptance is the last try; no peer is tried twice. */
  lemma DeliveredMeansOneAcceptance(p: Peers, connected: set<NodeId>, target: NodeId, order: seq<NodeId>,
                                    tries: seq<Try>, r: FwdResult)
    requires Forwarded(p, connected, target, order, tries, r)
    ensures r.Delivered? <==> exists i :: 0 <= i < |tries| && tries[i].accepted
    ensures forall i :: 0 <= i < |tries| && tries[i].accepted ==> i == |tries| - 1
    ensures forall i, j :: 0 <= i < j < |tries| ==> tries[i].node != tries[j].node
  {
    var peers := Itinerary(p, connected, target, order);
    ItineraryDistinct(p, connected, target, order);
    forall i | 0 <= i < |tries| ensures tries[i].accepted ==> r.Delivered? && i == |tries| - 1 {
      assert TriedAt(peers, tries, r.Delivered?, i);
    }
    if r.Delivered? {
      assert TriedAt(peers, tries, true, |tries| - 1);
      assert tries[|tries| - 1].accepted;
    }
    forall i, j | 0 <= i < j < |tries| ensures tries[i].node != tries[j].node {
      assert TriedAt(peers, tries, r.Delivered?, i) && TriedAt(peers, tries, r.Delivered?, j);
      NoDupAt(peers, i, j);
    }
  }

  /** A failed forward of a started node has tried the target, if connected, and every other connected peer with a
      usable address. */
  lemma FailureTriedEveryone(p: Peers, connected: set<NodeId>, target: NodeId, order: seq<NodeId>, tries: seq<Try>,
                             r: FwdResult, n: NodeId)
    requires Forwarded(p, connected, target, order, tries, r) && !r.Delivered?
    requires p.started && n in connected && Reachable(p, n) && (n == target || n != p.local)
    ensures exists i :: 0 <= i < |tries| && tries[i].node == n
  {
    var peers := Itinerary(p, connected, target, order);
    CandidatesMembers(p, None, order, n);
    CandidatesMembers(p, Some(target), order, n);
    assert n != target ==> n in Elements(order) - {target};
    assert n in peers;
    var i :| 0 <= i < |peers| && peers[i] == n;
    assert TriedAt(peers, tries, false, i);
  }

  /** Why a forward failed: the cluster is not started, and then nobody was tried; the target has no address; or it has
      one, and is named. */
  lemma FailureReason(p: Peers, connected: set<NodeId>, target: NodeId, order: seq<NodeId>, tries: seq<Try>,
                      r: FwdResult)
    requires Forwarded(p, connected, target, order, tries, r) && !r.Delivered?
    ensures !p.started ==> r == PeerUnreachable("cluster-not-started") && tries == []
    ensures p.started ==> (r == NoPeerForTitle <==> target !in p.addrs)
    ensures p.started && target in p.addrs ==> r == PeerUnreachable(target.name)
  {}

  /** Besides the target only other connected peers with a usable address are tried, never the node itself; and the
      target, if it is connected and has a usable address, is tried before all others. */
  lemma TriedOnlyPeers(p: Peers, connected: set<NodeId>, target: NodeId, order: seq<NodeId>, tries: seq<Try>,
                       r: FwdResult, i: nat)
    requires Forwarded(p, connected, target, order, tries, r) && i < |tries|
    ensures var n := tries[i].node;
            && n in p.addrs && p.parses(p.addrs[n]) && n in connected + {target}
            && (n != target ==> n != p.local && n in connected)
            && (i > 0 ==> n != target)
    ensures target in connected && target in p.addrs && p.parses(p.addrs[target]) ==> tries[0].node == target
  {
    var peers := Itinerary(p, connected, target, order);
    assert TriedAt(peers, tries, r.Delivered?, i) && TriedAt(peers, tries, r.Delivered?, 0);
    var n := tries[i].node;
    CandidatesMembers(p, None, order, n);
    CandidatesMembers(p, Some(target), order, n);
    assert n in order ==> n in Elements(order);
    assert n != target && n in Elements(order) ==> n in connected - {target};
  }

  /* ---------------- the documented failure ---------------- */

  /** Some connected peer besides the target and the node itself has a usable address. */
  ghost predicate HasOtherPeer(p: Peers, connected: set<NodeId>, target: NodeId) {
    exists n :: n in connected && Eligible(p, Some(target), n)
  }

  /** What the fallback walk's documentation promises when nobody accepted: no other peer with an address, or every
      other peer failed. */
  ghost function DocumentedFailure(p: Peers, connected: set<NodeId>, target: NodeId): FwdResult {
    if HasOtherPeer(p, connected, target) then PeerUnreachable(target.name) else NoPeerForTitle
  }

  /** A failed forward of a started node answers as documented if and only if the target has an address exactly when
      there is another peer to try; and then another peer was tried. */
  lemma FailureDocumentedExactly(p: Peers, connected: set<NodeId>, target: NodeId, order: seq<NodeId>,
                                 tries: seq<Try>, r: FwdResult)
    requires Forwarded(p, connected, target, order, tries, r) && p.started && !r.Delivered?
    ensures r == DocumentedFailure(p, connected, target) <==>
            (target in p.addrs <==> HasOtherPeer(p, connected, target))
    ensures HasOtherPeer(p, connected, target) <==> exists i :: 0 <= i < |tries| && tries[i].node != target
  {
    var peers := Itinerary(p, connected, target, order);
    if HasOtherPeer(p, connected, target) {
      var n :| n in connected && Eligible(p, Some(target), n);
      FailureTriedEveryone(p, connected, target, order, tries, r, n);
    }
    if i :| 0 <= i < |tries| && tries[i].node != target {
      assert TriedAt(peers, tries, false, i);
      var n := peers[i];
      CandidatesMembers(p, None, order, n);
      CandidatesMembers(p, Some(target), order, n);
      assert n in Elements(order) - {target};
    }
  }

  /** A lone node asked for an addressed peer it has no connection to answers that the peer is unreachable; its
      documentation says there is no peer. */
  lemma LoneNodeBlamesTarget(local: NodeId, target: NodeId, addr: Addr, parses: Addr -> bool)
    ensures var p := Peers(true, local, map[target := addr], parses);
            && Forwarded(p, {}, target, [], [], PeerUnreachable(target.name))
            && DocumentedFailure(p, {}, target) == NoPeerForTitle
  {
    var p := Peers(true, local, map[target := addr], parses);
    var none: seq<NodeId> := [];
    assert Candidates(p, Some(target), none) == [] && Elements(none) == {};
  }

  /** A node that knows no address for the target, with a connected peer that refuses, answers that there is no peer;
      its documentation says the target is unreachable. */
  lemma RefusalWithoutAddressSaysNoPeer(local: NodeId, target: NodeId, other: NodeId, addr: Addr)
    requires other != local && other != target
    ensures var p := Peers(true, local, map[other := addr], _ => true);
            && Forwarded(p, {other}, target, [other], [Try(other, 1, false)], NoPeerForTitle)
            && DocumentedFailure(p, {other}, target) == PeerUnreachable(target.name)
  {
    var p := Peers(true, local, map[other := addr], _ => true);
    var none: seq<NodeId> := [];
    assert [other][..0] == none && Candidates(p, None, none) == none;
    assert none + [other] == [other] && Candidates(p, None, [other]) == [other];
    assert Eligible(p, Some(target), other);
    assert TriedAt([other], [Try(other, 1, false)], false, 0);
    assert Elements([other]) == {other};
  }

  /* ---------------- the walk's loop ---------------- */

  /** Nobody has accepted so far, and the eligible peers among the first `i` have all been tried. */
  ghost predicate Walking(p: Peers, exclude: Option<NodeId>, order: seq<NodeId>, i: nat, tries: seq<Try>) {
    i <= |order| && Walked(Candidates(p, exclude, order[..i]), tries, false)
  }

  lemma WalkedOneMore(peers: seq<NodeId>, tries: seq<Try>, t: Try)
    requires Walked(peers, tries, false) && 1 <= t.attempts <= 2
    ensures Walked(peers + [t.node], tries + [t], t.accepted)
  {
    forall i | 0 <= i < |tries| + 1 ensures TriedAt(peers + [t.node], tries + [t], t.accepted, i) {
      if i < |tries| { assert TriedAt(peers, tries, false, i); }
    }
  }

  lemma WalkingStep(p: Peers, exclude: Option<NodeId>, order: seq<NodeId>, i: nat, tries: seq<Try>, t: Try)
    requires Walking(p, exclude, order, i, tries) && i < |order| && t.node == order[i]
    requires Eligible(p, exclude, order[i]) && 1 <= t.attempts <= 2
    ensures t.accepted ==> Walked(Candidates(p, exclude, order), tries + [t], true)
    ensures !t.accepted ==> Walking(p, exclude, order, i + 1, tries + [t])
  {
    assert order[..i + 1][..i] == order[..i];
    WalkedOneMore(Candidates(p, exclude, order[..i]), tries, t);
    CandidatesPrefix(p, exclude, order, i + 1);
    if t.accepted {
      AcceptedEarly(Candidates(p, exclude, order[..i + 1]), Candidates(p, exclude, order), tries + [t]);
    }
  }

  lemma WalkingSkips(p: Peers, exclude: Option<NodeId>, order: seq<NodeId>, i: nat, tries: seq<Try>)
    requires Walking(p, exclude, order, i, tries) && i < |order| && !Eligible(p, exclude, order[i])
    ensures Walking(p, exclude, order, i + 1, tries)
  {
    assert order[..i + 1][..i] == order[..i];
  }

  lemma WalkingEnds(p: Peers, exclude: Option<NodeId>, order: seq<NodeId>, tries: seq<Try>, queue: seq<Frame>,
                    req: Request, forwardId: nat)
    requires Walking(p, exclude, order, |order|, tries)
    ensures Walked(Candidates(p, exclude, order), tries, false)
    ensures QueuedAfter(queue, tries, req, forwardId) == queue
  {
    assert order[..|order|] == order;
    if tries != [] { assert TriedAt(Candidates(p, exclude, order), tries, false, |tries| - 1); }
  }

  lemma {:induction false} CandidatesPrefix(p: Peers, exclude: Option<NodeId>, order: seq<NodeId>, i: nat)
    requires i <= |order|
    ensures Candidates(p, exclude, order[..i]) <= Candidates(p, exclude, order)
    decreases |order| - i
  {
    if i == |order| {
      assert order[..i] == order;
    } else {
      CandidatesPrefix(p, exclude, order, i + 1);
      assert order[..i + 1][..i] == order[..i];
    }
  }

  /** An accepted walk may stop early: it is a walk of any longer list. */
  lemma AcceptedEarly(peers: seq<NodeId>, longer: seq<NodeId>, tries: seq<Try>)
    requires Walked(peers, tries, true) && peers <= longer
    ensures Walked(longer, tries, true)
  {
    forall i | 0 <= i < |tries| ensures TriedAt(longer, tries, true, i) { assert TriedAt(peers, tries, true, i); }
  }

  /** The target's try, then the walk. */
  lemma WalkAfterTarget(first: Try, peers: seq<NodeId>, tries: seq<Try>, accepted: bool)
    requires Walked(peers, tries, accepted) && !first.accepted && 1 <= first.attempts <= 2
    ensures Walked([first.node] + peers, [first] + tries, accepted)
  {
    forall i | 0 <= i < |tries| + 1 ensures TriedAt([first.node] + peers, [first] + tries, accepted, i) {
      if i > 0 { assert TriedAt(peers, tries, accepted, i - 1); }
    }
  }

  lemma CallsOfOneMore(tries: seq<Try>, t: Try)
    ensures CallsOf(tries + [t]) == CallsOf(tries) + seq(t.attempts, i => t.node)
  {
    assert (tries + [t])[..|tries|] == tries;
  }

  lemma CallsGrow(before: seq<NodeId>, tries: seq<Try>, t: Try)
    ensures before + CallsOf(tries) + seq(t.attempts, i => t.node) == before + CallsOf(tries + [t])
  {
    CallsOfOneMore(tries, t);
    ConcatAssoc(before, CallsOf(tries), seq(t.attempts, i => t.node));
  }

  lemma LaterNodes(nodes: seq<NodeId>, i: nat)
    requires NoDup(nodes) && i < |nodes|
    ensures nodes[i] in Elements(nodes[i..]) && Elements(nodes[i + 1..]) == Elements(nodes[i..]) - {nodes[i]}
  {
    assert nodes[i..] == [nodes[i]] + nodes[i + 1..];
    if nodes[i] in nodes[i + 1..] {
      var k :| 0 <= k < |nodes[i + 1..]| && nodes[i + 1..][k] == nodes[i];
      NoDupAt(nodes, i, i + 1 + k);
      assert false;
    }
  }

  lemma {:induction false} CallsOfPrepend(t: Try, tries: seq<Try>)
    ensures CallsOf([t] + tries) == CallsOf([t]) + CallsOf(tries)
    decreases |tries|
  {
    if tries == [] {
      assert [t] + tries == [t];
    } else {
      var init, last := tries[..|tries| - 1], tries[|tries| - 1];
      CallsOfPrepend(t, init);
      assert [t] + tries == ([t] + init) + [last] && tries == init + [last];
      CallsOfOneMore([t] + init, last);
      CallsOfOneMore(init, last);
      ConcatAssoc(CallsOf([t]), CallsOf(init), seq(last.attempts, i => last.node));
    }
  }

  lemma TargetTookIt(p: Peers, connected: set<NodeId>, target: NodeId, order: seq<NodeId>, attempts: nat)
    requires p.started && Reachable(p, target) && target in connected && 1 <= attempts <= 2
    requires NoDup(order) && Elements(order) == connected
    ensures Forwarded(p, connected, target, order, [Try(target, attempts, true)], Delivered)
  {
    var none: seq<NodeId>, untried: seq<Try> := [], [];
    assert Walked(none, untried, false);
    WalkedOneMore(none, untried, Try(target, attempts, true));
    assert none + [target] == [target] && untried + [Try(target, attempts, true)] == [Try(target, attempts, true)];
    AcceptedEarly([target], [target] + Candidates(p, Some(target), order), [Try(target, attempts, true)]);
  }

  lemma TargetRefused(p: Peers, connected: set<NodeId>, target: NodeId, order: seq<NodeId>, attempts: nat,
                      rest: seq<Try>, ok: bool)
    requires p.started && target in p.addrs && StillConnected(p, connected, target, order)
    requires attempts <= 2 && (attempts > 0 <==> Reachable(p, target) && target in connected)
    requires Walked(Candidates(p, Some(target), order), rest, ok)
    ensures Forwarded(p, connected, target, order, AfterTarget(target, attempts, rest),
                      if ok then Delivered else PeerUnreachable(target.name))
  {
    if attempts > 0 { WalkAfterTarget(Try(target, attempts, false), Candidates(p, Some(target), order), rest, ok); }
  }

  /** The whole record when the target did not accept; a target that is not connected leaves no mark. */
  function AfterTarget(target: NodeId, attempts: nat, rest: seq<Try>): seq<Try> {
    if attempts > 0 then [Try(target, attempts, false)] + rest else rest
  }

  lemma AfterTargetRecord(before: seq<NodeId>, queue: seq<Frame>, target: NodeId, attempts: nat, rest: seq<Try>,
                          req: Request, forwardId: nat)
    ensures before + CallsOf(AfterTarget(target, attempts, rest)) ==
            before + seq(attempts, i => target) + CallsOf(rest)
    ensures QueuedAfter(queue, AfterTarget(target, attempts, rest), req, forwardId) ==
            QueuedAfter(queue, rest, req, forwardId)
  {
    var calls := seq(attempts, i => target);
    if attempts > 0 {
      var first := Try(target, attempts, false);
      CallsOfPrepend(first, rest);
      var none: seq<Try> := [];
      CallsOfOneMore(none, first);
      assert none + [first] == [first];
      assert CallsOf([first]) == calls;
    } else {
      assert calls == [];
    }
    ConcatAssoc(before, calls, CallsOf(rest));
    assert attempts == 0 ==> before + calls == before;
  }

  /* ---------------- delivering ---------------- */

  /** The local clients a forwarded message is for. */
  function Targets(reg: Registry, m: ForwardMessage, pick: nat): seq<ClientId> {
    if m.isBroadcast || m.isGroup then FindAllByTitle(reg, m.title, None)
    else if m.target != 0 then (if m.target in reg.clients then [m.target] else [])
    else
      var one := Chosen(FindAllByTitle(reg, m.title, None), pick);
      if one.Some? then [one.value] else []
  }

  /** A unicast reaches at most one client. */
  lemma UnicastHasOneTarget(reg: Registry, m: ForwardMessage, pick: nat)
    requires !m.isBroadcast && !m.isGroup
    ensures |Targets(reg, m, pick)| <= 1
  {}

  /** A unicast by title finds one client exactly when some client lists the title; one that names a client, that client
      exactly when it is live. */
  lemma UnicastFindsTarget(reg: Registry, m: ForwardMessage, pick: nat)
    requires Agrees(reg) && !m.isBroadcast && !m.isGroup
    ensures m.target == 0 ==> (|Targets(reg, m, pick)| == 1 <==> exists id :: Subscribed(reg, id, m.title))
    ensures m.target != 0 ==> (m.target in Targets(reg, m, pick) <==> m.target in reg.clients)
  {
    var found := FindAllByTitle(reg, m.title, None);
    forall id ensures id in found <==> Subscribed(reg, id, m.title) { FindAllByTitleExact(reg, m.title, None, id); }
    EmptyOrInhabited(found);
  }

  /** With an agreeing registry the targets are live clients that list the title, or the one client named. */
  lemma TargetsSubscribe(reg: Registry, m: ForwardMessage, pick: nat, id: ClientId)
    requires Agrees(reg) && id in Targets(reg, m, pick)
    ensures id in reg.clients
    ensures m.isBroadcast || m.isGroup || m.target == 0 ==> Subscribed(reg, id, m.title)
    ensures !m.isBroadcast && !m.isGroup && m.target != 0 ==> id == m.target
  {
    FindAllByTitleExact(reg, m.title, None, id);
  }

  /** A broadcast or group message reaches every subscriber, each once. */
  lemma FanOutReachesEveryone(reg: Registry, m: ForwardMessage, pick: nat, id: ClientId)
    requires Agrees(reg) && (m.isBroadcast || m.isGroup)
    ensures NoDup(Targets(reg, m, pick))
    ensures id in Targets(reg, m, pick) <==> Subscribed(reg, id, m.title)
  {
    FindAllByTitleExact(reg, m.title, None, id);
  }

  /** A packet handed to a local client's connection. */
  datatype ClientSend = ClientSend(client: ClientId, packet: Buffer, ok: bool)

  datatype DeliveryOutcome = DeliveryOutcome(deliveredTo: nat, failed: nat, ackedBack: bool)

  ghost predicate SentTo(sends: seq<ClientSend>, clients: seq<ClientId>, packet: Buffer) {
    |sends| == |clients| &&
    forall i :: 0 <= i < |sends| ==> sends[i] == ClientSend(clients[i], packet, sends[i].ok)
  }

  function Accepted(sends: seq<ClientSend>): nat {
    if sends == [] then 0 else Accepted(sends[..|sends| - 1]) + if sends[|sends| - 1].ok then 1 else 0
  }

  lemma SentOneMore(made: seq<ClientSend>, clients: seq<ClientId>, i: nat, packet: Buffer, s: ClientSend)
    requires i < |clients| && SentTo(made, clients[..i], packet) && s == ClientSend(clients[i], packet, s.ok)
    ensures SentTo(made + [s], clients[..i + 1], packet)
    ensures Accepted(made + [s]) == Accepted(made) + if s.ok then 1 else 0
  {
    assert (made + [s])[..|made|] == made;
    forall j | 0 <= j < |made| + 1
      ensures (made + [s])[j] == ClientSend(clients[..i + 1][j], packet, (made + [s])[j].ok)
    {
      if j < |made| { assert made[j] == ClientSend(clients[..i][j], packet, made[j].ok); }
    }
  }

  datatype ForwardAck = ForwardAck(forwardId: nat, node: NodeId, source: ClientId, success: bool)

  lemma {:induction false} AcceptedBound(made: seq<ClientSend>)
    ensures Accepted(made) <= |made|
    ensures Accepted(made) == |made| <==> forall i :: 0 <= i < |made| ==> made[i].ok
    decreases |made|
  {
    if made != [] {
      var init := made[..|made| - 1];
      AcceptedBound(init);
      assert forall i :: 0 <= i < |init| ==> init[i] == made[i];
    }
  }
}
