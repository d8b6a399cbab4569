/** Runs of several nodes: publishing, messages between nodes, and what becomes of every publish. */
module ClusterRuns {
  import opened Common
  import opened Bytes
  import opened PacketTheory
  import opened RingTheory
  import opened RegistryTheory
  import opened ForwardTheory
  import opened TitleTheory

  /** A message on its way, with the number of the publish it comes from. */
  datatype Flying = Flying(publish: nat, frame: Frame)

  /** A packet given to a client's connection at a node; `direct` if it was published there. */
  datatype Given = Given(publish: nat, node: NodeId, direct: bool, send: ClientSend)

  datatype Net = Net(
    published: seq<Buffer>,
    flight: seq<Flying>,
    given: seq<Given>,
    /** Publishes whose publisher was told there is no target. */
    returned: seq<nat>,
    /** Publishes lost between nodes or not taken by any client of the node they reached. */
    dropped: seq<nat>)

  datatype Event =
    | Publish(node: NodeId, situation: Situation, packet: Buffer, choices: Choices, effects: Effects)
    /** A node reads message `k`; its registry may be any by then. */
    | Arrive(k: nat, reg: Registry, pick: nat, made: seq<ClientSend>)
    | Lose(k: nat)

  ghost predicate Enabled(n: Net, e: Event) {
    match e
    case Publish(_, situation, packet, choices, effects) => Handles(situation, packet, choices, effects)
    case Arrive(k, reg, pick, made) =>
      k < |n.flight| && SentTo(made, Targets(reg, n.flight[k].frame.message, pick), n.flight[k].frame.message.payload)
    case Lose(k) => k < |n.flight|
  }

  function Without(flight: seq<Flying>, k: nat): seq<Flying> {
    if k < |flight| then flight[..k] + flight[k + 1..] else flight
  }

  function FlyingFrom(publish: nat, frames: seq<Frame>): seq<Flying> {
    seq(|frames|, i requires 0 <= i < |frames| => Flying(publish, frames[i]))
  }

  function GivenFrom(publish: nat, node: NodeId, direct: bool, sends: seq<ClientSend>): seq<Given> {
    seq(|sends|, i requires 0 <= i < |sends| => Given(publish, node, direct, sends[i]))
  }

  function Step(n: Net, e: Event): Net {
    match e
    case Publish(node, _, packet, _, effects) =>
      var p := |n.published|;
      Net(n.published + [packet], n.flight + FlyingFrom(p, effects.frames),
          n.given + GivenFrom(p, node, true, effects.sends),
          if effects.answers == [] then n.returned else n.returned + [p], n.dropped)
    case Arrive(k, _, _, made) =>
      if k >= |n.flight| then n
      else
        var m := n.flight[k];
        n.(flight := Without(n.flight, k), given := n.given + GivenFrom(m.publish, m.frame.node, false, made),
           dropped := if Accepted(made) > 0 then n.dropped else n.dropped + [m.publish])
    case Lose(k) =>
      if k >= |n.flight| then n
      else n.(flight := Without(n.flight, k), dropped := n.dropped + [n.flight[k].publish])
  }

  function Run(es: seq<Event>): Net {
    if es == [] then Net([], [], [], [], []) else Step(Run(es[..|es| - 1]), es[|es| - 1])
  }

  ghost predicate Admissible(es: seq<Event>) {
    es != [] ==> Admissible(es[..|es| - 1]) && Enabled(Run(es[..|es| - 1]), es[|es| - 1])
  }

  /* ---------------- what travels ---------------- */

  /** Everything on its way is a unicast of a published packet under its own title. */
  ghost predicate Travels(published: seq<Buffer>, f: Flying) {
    && f.publish < |published| && WellFormed(published[f.publish])
    && f.frame.message == MessageOf(Asked(published[f.publish]), f.frame.message.forwardId)
  }

  ghost predicate Carries(published: seq<Buffer>, g: Given) {
    g.publish < |published| && Stamped(published[g.publish], g.send.packet)
  }

  ghost predicate Faithful(n: Net) {
    && (forall i :: 0 <= i < |n.flight| ==> Travels(n.published, n.flight[i]))
    && (forall i :: 0 <= i < |n.given| ==> Carries(n.published, n.given[i]))
  }

  lemma WithoutAt(flight: seq<Flying>, k: nat, i: nat)
    requires k < |flight| && i < |Without(flight, k)|
    ensures Without(flight, k)[i] == if i < k then flight[i] else flight[i + 1]
  {}

  lemma PublishFaithful(n: Net, e: Event)
    requires Faithful(n) && e.Publish? && Enabled(n, e)
    ensures Faithful(Step(n, e))
  {
    var n' := Step(n, e);
    EffectsCarryPacket(e.situation, e.packet, e.choices, e.effects);
    forall i | 0 <= i < |n'.flight| ensures Travels(n'.published, n'.flight[i]) {
      if i < |n.flight| { assert Travels(n.published, n.flight[i]); }
    }
    forall i | 0 <= i < |n'.given| ensures Carries(n'.published, n'.given[i]) {
      if i < |n.given| { assert Carries(n.published, n.given[i]); }
    }
  }

  lemma ArriveFaithful(n: Net, e: Event)
    requires Faithful(n) && e.Arrive? && Enabled(n, e)
    ensures Faithful(Step(n, e))
  {
    var n' := Step(n, e);
    assert Travels(n.published, n.flight[e.k]);
    forall i | 0 <= i < |n'.flight| ensures Travels(n'.published, n'.flight[i]) {
      WithoutAt(n.flight, e.k, i);
      assert Travels(n.published, n.flight[if i < e.k then i else i + 1]);
    }
    forall i | 0 <= i < |n'.given| ensures Carries(n'.published, n'.given[i]) {
      if i < |n.given| { assert Carries(n.published, n.given[i]); }
    }
  }

  lemma LoseFaithful(n: Net, e: Event)
    requires Faithful(n) && e.Lose? && Enabled(n, e)
    ensures Faithful(Step(n, e))
  {
    var n' := Step(n, e);
    forall i | 0 <= i < |n'.flight| ensures Travels(n'.published, n'.flight[i]) {
      WithoutAt(n.flight, e.k, i);
      assert Travels(n.published, n.flight[if i < e.k then i else i + 1]);
    }
  }

  /** Over every run: what travels and what clients are given is what was published. */
  lemma {:induction false} EveryRunIsFaithful(es: seq<Event>)
    requires Admissible(es)
    ensures Faithful(Run(es))
    decreases |es|
  {
    if es != [] {
      var before, e := es[..|es| - 1], es[|es| - 1];
      EveryRunIsFaithful(before);
      match e {
        case Publish(_, _, _, _, _) => PublishFaithful(Run(before), e);
        case Arrive(_, _, _, _) => ArriveFaithful(Run(before), e);
        case Lose(_) => LoseFaithful(Run(before), e);
      }
    }
  }

  /* ---------------- counting ---------------- */

  function Mentions(s: seq<nat>, p: nat): nat {
    if s == [] then 0 else Mentions(s[..|s| - 1], p) + if s[|s| - 1] == p then 1 else 0
  }

  function Flights(s: seq<Flying>, p: nat): nat {
    if s == [] then 0 else Flights(s[..|s| - 1], p) + if s[|s| - 1].publish == p then 1 else 0
  }

  /** Packets of a publish given to clients. */
  function Contacts(s: seq<Given>, p: nat): nat {
    if s == [] then 0 else Contacts(s[..|s| - 1], p) + if s[|s| - 1].publish == p then 1 else 0
  }

  /** ... and those the client's connection took. */
  function Taken(s: seq<Given>, p: nat): nat {
    if s == [] then 0 else Taken(s[..|s| - 1], p) + if s[|s| - 1].publish == p && s[|s| - 1].send.ok then 1 else 0
  }

  /** All counts for one publish. */
  datatype Tally = Tally(known: bool, taken: nat, flying: nat, returned: nat, dropped: nat, contacts: nat)

  function TallyOf(n: Net, p: nat): Tally {
    Tally(p < |n.published|, Taken(n.given, p), Flights(n.flight, p), Mentions(n.returned, p), Mentions(n.dropped, p),
          Contacts(n.given, p))
  }

  /** A publish made so far has exactly one fate, and was given to or is on its way to at most one client. */
  predicate OneFate(t: Tally) {
    && t.taken + t.flying + t.returned + t.dropped == (if t.known then 1 else 0)
    && t.contacts + t.flying <= 1
    && (!t.known ==> t.contacts == 0)
  }

  lemma MentionsOneMore(s: seq<nat>, q: nat, p: nat)
    ensures Mentions(s + [q], p) == Mentions(s, p) + if q == p then 1 else 0
  {
    assert (s + [q])[..|s|] == s;
  }

  lemma {:induction false} FlightsConcat(a: seq<Flying>, b: seq<Flying>, p: nat)
    ensures Flights(a + b, p) == Flights(a, p) + Flights(b, p)
    decreases |b|
  {
    if b == [] {
      assert a + b == a;
    } else {
      FlightsConcat(a, b[..|b| - 1], p);
      assert (a + b)[..|a + b| - 1] == a + b[..|b| - 1];
    }
  }

  lemma FlightsWithout(s: seq<Flying>, k: nat, p: nat)
    requires k < |s|
    ensures Flights(s, p) == Flights(Without(s, k), p) + if s[k].publish == p then 1 else 0
  {
    var none: seq<Flying> := [];
    assert s == s[..k] + ([s[k]] + s[k + 1..]);
    FlightsConcat(s[..k], [s[k]] + s[k + 1..], p);
    FlightsConcat([s[k]], s[k + 1..], p);
    FlightsConcat(s[..k], s[k + 1..], p);
    assert [s[k]][..0] == none;
  }

  lemma {:induction false} FlyingFromCounts(q: nat, frames: seq<Frame>, p: nat)
    ensures Flights(FlyingFrom(q, frames), p) == if p == q then |frames| else 0
    decreases |frames|
  {
    if frames != [] {
      FlyingFromCounts(q, frames[..|frames| - 1], p);
      assert FlyingFrom(q, frames)[..|frames| - 1] == FlyingFrom(q, frames[..|frames| - 1]);
    }
  }

  lemma GivenFromSnoc(q: nat, node: NodeId, direct: bool, sends: seq<ClientSend>)
    requires sends != []
    ensures var last := Given(q, node, direct, sends[|sends| - 1]);
            GivenFrom(q, node, direct, sends) == GivenFrom(q, node, direct, sends[..|sends| - 1]) + [last]
  {}

  lemma GivenOneMore(s: seq<Given>, g: Given, p: nat)
    ensures Taken(s + [g], p) == Taken(s, p) + if g.publish == p && g.send.ok then 1 else 0
    ensures Contacts(s + [g], p) == Contacts(s, p) + if g.publish == p then 1 else 0
  {
    assert (s + [g])[..|s|] == s;
  }

  lemma {:induction false} GivenMore(a: seq<Given>, q: nat, node: NodeId, direct: bool, sends: seq<ClientSend>,
                                     p: nat)
    ensures Taken(a + GivenFrom(q, node, direct, sends), p) == Taken(a, p) + if p == q then Accepted(sends) else 0
    ensures Contacts(a + GivenFrom(q, node, direct, sends), p) == Contacts(a, p) + if p == q then |sends| else 0
    decreases |sends|
  {
    var b := GivenFrom(q, node, direct, sends);
    if sends == [] {
      assert a + b == a;
    } else {
      var fewer := sends[..|sends| - 1];
      var last := Given(q, node, direct, sends[|sends| - 1]);
      GivenMore(a, q, node, direct, fewer, p);
      GivenFromSnoc(q, node, direct, sends);
      ConcatAssoc(a, GivenFrom(q, node, direct, fewer), [last]);
      GivenOneMore(a + GivenFrom(q, node, direct, fewer), last, p);
    }
  }

  lemma PublishCounts(n: Net, e: Event, p: nat)
    requires e.Publish?
    ensures var t := TallyOf(n, p);
            TallyOf(Step(n, e), p) ==
            if p != |n.published| then t
            else Tally(true, t.taken + Accepted(e.effects.sends), t.flying + |e.effects.frames|,
                       t.returned + (if e.effects.answers == [] then 0 else 1), t.dropped,
                       t.contacts + |e.effects.sends|)
  {
    var q := |n.published|;
    FlightsConcat(n.flight, FlyingFrom(q, e.effects.frames), p);
    FlyingFromCounts(q, e.effects.frames, p);
    GivenMore(n.given, q, e.node, true, e.effects.sends, p);
    MentionsOneMore(n.returned, q, p);
  }

  lemma PublishSettles(n: Net, e: Event, p: nat)
    requires e.Publish? && Enabled(n, e) && OneFate(TallyOf(n, p))
    ensures OneFate(TallyOf(Step(n, e), p))
  {
    ExactlyOneOutcome(e.situation, e.packet, e.choices, e.effects);
    PublishCounts(n, e, p);
  }

  /** A message on its way is for at most one client of the node it reaches. */
  lemma ArrivesAtOne(n: Net, e: Event)
    requires e.Arrive? && Enabled(n, e) && Faithful(n)
    ensures |e.made| <= 1 && Accepted(e.made) <= |e.made| && n.flight[e.k].publish < |n.published|
  {
    assert Travels(n.published, n.flight[e.k]);
    UnicastHasOneTarget(e.reg, n.flight[e.k].frame.message, e.pick);
    AcceptedBound(e.made);
  }

  lemma ArriveFlights(n: Net, e: Event, p: nat)
    requires e.Arrive? && e.k < |n.flight|
    ensures Flights(n.flight, p) == Flights(Step(n, e).flight, p) + if n.flight[e.k].publish == p then 1 else 0
  {
    FlightsWithout(n.flight, e.k, p);
  }

  lemma ArriveGiven(n: Net, e: Event, p: nat)
    requires e.Arrive? && e.k < |n.flight|
    ensures var here, n' := n.flight[e.k].publish == p, Step(n, e);
            && Taken(n'.given, p) == Taken(n.given, p) + (if here then Accepted(e.made) else 0)
            && Contacts(n'.given, p) == Contacts(n.given, p) + (if here then |e.made| else 0)
  {
    GivenMore(n.given, n.flight[e.k].publish, n.flight[e.k].frame.node, false, e.made, p);
  }

  lemma ArriveDropped(n: Net, e: Event, p: nat)
    requires e.Arrive? && e.k < |n.flight|
    ensures Mentions(Step(n, e).dropped, p)
            == Mentions(n.dropped, p) + if n.flight[e.k].publish == p && Accepted(e.made) == 0 then 1 else 0
  {
    MentionsOneMore(n.dropped, n.flight[e.k].publish, p);
  }

  /** A tally before and after a message lands: `taken` of `contacts` clients took it. */
  predicate Landed(t: Tally, t': Tally, taken: nat, contacts: nat) {
    && t'.known == t.known && t'.returned == t.returned && t.flying == t'.flying + 1
    && t'.taken == t.taken + taken && t'.contacts == t.contacts + contacts
    && t'.dropped == t.dropped + if taken == 0 then 1 else 0
  }

  lemma LandedHasOneFate(t: Tally, t': Tally, taken: nat, contacts: nat)
    requires OneFate(t) && Landed(t, t', taken, contacts) && taken <= contacts <= 1
    ensures OneFate(t')
  {}

  lemma ArriveCounts(n: Net, e: Event, p: nat)
    requires e.Arrive? && e.k < |n.flight|
    ensures if n.flight[e.k].publish == p
            then Landed(TallyOf(n, p), TallyOf(Step(n, e), p), Accepted(e.made), |e.made|)
            else TallyOf(Step(n, e), p) == TallyOf(n, p)
  {
    ArriveFlights(n, e, p);
    ArriveGiven(n, e, p);
    ArriveDropped(n, e, p);
  }

  lemma ArriveSettles(n: Net, e: Event, p: nat)
    requires e.Arrive? && Enabled(n, e) && Faithful(n) && OneFate(TallyOf(n, p))
    ensures OneFate(TallyOf(Step(n, e), p))
  {
    ArrivesAtOne(n, e);
    ArriveCounts(n, e, p);
    if n.flight[e.k].publish == p {
      LandedHasOneFate(TallyOf(n, p), TallyOf(Step(n, e), p), Accepted(e.made), |e.made|);
    }
  }

  lemma LoseSettles(n: Net, e: Event, p: nat)
    requires e.Lose? && Enabled(n, e) && OneFate(TallyOf(n, p))
    ensures OneFate(TallyOf(Step(n, e), p))
  {
    FlightsWithout(n.flight, e.k, p);
    MentionsOneMore(n.dropped, n.flight[e.k].publish, p);
  }

  /** Over every run of the cluster, whatever the registries, connections and random choices: each publish has
      exactly one fate and is given to at most one client anywhere. */
  lemma {:induction false} EveryPublishHasOneFate(es: seq<Event>, p: nat)
    requires Admissible(es)
    ensures OneFate(TallyOf(Run(es), p))
    decreases |es|
  {
    if es != [] {
      var before, e := es[..|es| - 1], es[|es| - 1];
      EveryPublishHasOneFate(before, p);
      EveryRunIsFaithful(before);
      match e {
        case Publish(_, _, _, _, _) => PublishSettles(Run(before), e, p);
        case Arrive(_, _, _, _) => ArriveSettles(Run(before), e, p);
        case Lose(_) => LoseSettles(Run(before), e, p);
      }
    }
  }

  lemma {:induction false} ContactsAt(s: seq<Given>, i: nat)
    requires i < |s|
    ensures Contacts(s, s[i].publish) >= 1
    decreases |s|
  {
    if i < |s| - 1 { ContactsAt(s[..|s| - 1], i); }
  }

  lemma {:induction false} TwoContacts(s: seq<Given>, i: nat, j: nat)
    requires i < j < |s| && s[i].publish == s[j].publish
    ensures Contacts(s, s[i].publish) >= 2
    decreases |s|
  {
    if j == |s| - 1 { ContactsAt(s[..j], i); } else { TwoContacts(s[..|s| - 1], i, j); }
  }

  /** No two hand-overs belong to the same publish: one client, on one node, once. */
  lemma NoPublishReachesTwoClients(es: seq<Event>)
    requires Admissible(es)
    ensures forall i, j :: 0 <= i < j < |Run(es).given| ==> Run(es).given[i].publish != Run(es).given[j].publish
  {
    var given := Run(es).given;
    forall i, j | 0 <= i < j < |given| ensures given[i].publish != given[j].publish {
      EveryPublishHasOneFate(es, given[i].publish);
      if given[i].publish == given[j].publish { TwoContacts(given, i, j); }
    }
  }

  /** What travels is the published packet, for any one subscriber of its title, in the publisher's name, and asks for
      no acknowledgement. */
  lemma EveryMessageInFlight(es: seq<Event>, i: nat)
    requires Admissible(es) && i < |Run(es).flight|
    ensures var f := Run(es).flight[i];
            && f.publish < |Run(es).published| && WellFormed(Run(es).published[f.publish])
            && var packet, m := Run(es).published[f.publish], f.frame.message;
               && m.payload == packet && m.source == ViewOf(packet).source && m.target == 0
               && m.title == Title(TextOf(ViewOf(packet).title)) && !m.isGroup && !m.isBroadcast && !m.requireAck
  {
    EveryRunIsFaithful(es);
    assert Travels(Run(es).published, Run(es).flight[i]);
  }

  ghost predicate Spares(published: seq<Buffer>, g: Given) {
    && g.publish < |published| && WellFormed(published[g.publish])
    && (g.direct ==> g.send.client != ViewOf(published[g.publish]).source)
  }

  ghost predicate AllSpared(n: Net) {
    forall i :: 0 <= i < |n.given| ==> Spares(n.published, n.given[i])
  }

  lemma PublishSpares(n: Net, e: Event)
    requires AllSpared(n) && e.Publish? && Enabled(n, e)
    ensures AllSpared(Step(n, e))
  {
    GivenToOtherSubscriber(e.situation, e.packet, e.choices, e.effects);
    var n' := Step(n, e);
    forall i | 0 <= i < |n'.given| ensures Spares(n'.published, n'.given[i]) {
      if i < |n.given| { assert Spares(n.published, n.given[i]); }
    }
  }

  lemma OthersSpare(n: Net, e: Event)
    requires AllSpared(n) && Faithful(Step(n, e)) && !e.Publish?
    ensures AllSpared(Step(n, e))
  {
    var n' := Step(n, e);
    forall i | 0 <= i < |n'.given| ensures Spares(n'.published, n'.given[i]) {
      assert Carries(n'.published, n'.given[i]);
      if i < |n.given| { assert Spares(n.published, n.given[i]); }
    }
  }

  /** Over every run, whatever the registries: no node hands a publish made there to its publisher. */
  lemma {:induction false} NobodyGetsOwnPublish(es: seq<Event>)
    requires Admissible(es)
    ensures AllSpared(Run(es))
    decreases |es|
  {
    if es != [] {
      var n, e := Run(es[..|es| - 1]), es[|es| - 1];
      NobodyGetsOwnPublish(es[..|es| - 1]);
      EveryRunIsFaithful(es);
      if e.Publish? { PublishSpares(n, e); } else { OthersSpare(n, e); }
    }
  }

  /** Over every run with registries in order, a publish is given on its own node whenever another client there lists
      its title, and then to such a client; otherwise nothing is given there. */
  lemma PublishReachesSubscriber(es: seq<Event>, e: Event, i: nat)
    requires Admissible(es) && e.Publish? && Enabled(Run(es), e) && Agrees(e.situation.reg)
    ensures var more := Step(Run(es), e).given[|Run(es).given|..];
            && (more != [] <==> exists id :: OtherSubscriber(e.situation.reg, e.packet, id))
            && (i < |more| ==> OtherSubscriber(e.situation.reg, e.packet, more[i].send.client))
  {
    GivenToOtherSubscriber(e.situation, e.packet, e.choices, e.effects);
    assert Step(Run(es), e).given[|Run(es).given|..] == GivenFrom(|Run(es).published|, e.node, true, e.effects.sends);
  }

  /** A message that arrives is given only to clients listing the title it was published under, and goes nowhere
      else. */
  lemma ArrivalReachesSubscriber(es: seq<Event>, e: Event, i: nat)
    requires Admissible(es) && e.Arrive? && Enabled(Run(es), e) && Agrees(e.reg) && i < |e.made|
    ensures var f := Run(es).flight[e.k];
            && f.publish < |Run(es).published| && WellFormed(Run(es).published[f.publish])
            && Subscribed(e.reg, e.made[i].client, TitleOf(Run(es).published[f.publish]))
            && e.made[i].packet == Run(es).published[f.publish]
    ensures |Step(Run(es), e).flight| == |Run(es).flight| - 1
  {
    EveryRunIsFaithful(es);
    var f := Run(es).flight[e.k];
    assert Travels(Run(es).published, f);
    TargetsSubscribe(e.reg, f.frame.message, e.pick, e.made[i].client);
  }

  /** It is given to a client exactly when one lists the title at the node it reached. */
  lemma ArrivalFindsSubscriber(es: seq<Event>, e: Event)
    requires Admissible(es) && e.Arrive? && Enabled(Run(es), e) && Agrees(e.reg)
    ensures var f := Run(es).flight[e.k];
            && f.publish < |Run(es).published| && WellFormed(Run(es).published[f.publish])
            && (e.made != [] <==> exists id :: Subscribed(e.reg, id, TitleOf(Run(es).published[f.publish])))
  {
    var m := Run(es).flight[e.k].frame.message;
    EveryMessageInFlight(es, e.k);
    UnicastHasOneTarget(e.reg, m, e.pick);
    UnicastFindsTarget(e.reg, m, e.pick);
    assert |e.made| == |Targets(e.reg, m, e.pick)|;
    assert m.title == TitleOf(Run(es).published[Run(es).flight[e.k].publish]);
  }
}
