/** Joint runs whose message ids come from the process's own counter, which starts again at every restart. */
module MintedRuns {
  import opened Common
  import OT = OfflineTheory
  import OL = OfflineLedger
  import OfflineRuns
  import MI = MessageIds
  import ST = SessionTheory
  import opened JointRuns

  /** Ids minted since the last restart. */
  function Count(ops: seq<Op>): nat {
    if ops == [] then 0
    else match ops[|ops| - 1]
      case Crash => 0
      case Queue(_) => Count(ops[..|ops| - 1]) + 1
      case _ => Count(ops[..|ops| - 1])
  }

  /** Operation `k` happens at second `times[k]`, and each queued message carries the id minted for it. */
  ghost predicate Minted(ops: seq<Op>, times: seq<nat>) {
    && |times| == |ops| && MI.Clock(times)
    && forall k :: 0 <= k < |ops| && ops[k].Queue? ==> MintedAt(ops, times, k)
  }

  predicate MintedAt(ops: seq<Op>, times: seq<nat>, k: nat)
    requires k < |ops| == |times| && ops[k].Queue?
  {
    ops[k].m.id == MI.MessageId(times[k], Count(ops[..k]) % U64_SPAN)
  }

  /** Two messages queued in one second with counters that agree in their lower 16 bits. */
  predicate Twins(ops: seq<Op>, times: seq<nat>, j: nat, k: nat)
    requires |times| == |ops|
  {
    && j < k < |ops| && ops[j].Queue? && ops[k].Queue? && times[j] == times[k]
    && Count(ops[..j]) % MI.WINDOW == Count(ops[..k]) % MI.WINDOW
  }

  predicate Repeats(ops: seq<Op>, j: nat, k: nat) {
    j < k < |ops| && ops[j].Queue? && ops[k].Queue? && ops[j].m.id == ops[k].m.id
  }

  lemma TwinsRepeat(ops: seq<Op>, times: seq<nat>, j: nat, k: nat)
    requires Minted(ops, times)
    ensures Twins(ops, times, j, k) <==> Repeats(ops, j, k)
  {
    if j < k < |ops| && ops[j].Queue? && ops[k].Queue? {
      assert MintedAt(ops, times, j) && MintedAt(ops, times, k);
      MI.CounterLowBits(Count(ops[..j]));
      MI.CounterLowBits(Count(ops[..k]));
      MI.SameHalves(times[j], Count(ops[..j]) % U64_SPAN, times[k], Count(ops[..k]) % U64_SPAN);
    }
  }

  /* ---------------- freshness over joint runs ---------------- */

  /** A run whose operations are as they must be, freshness of ids apart. */
  ghost predicate Orderly(rows: map<ClientId, ST.Row>, ops: seq<Op>, lim: OL.Limits) {
    ops == [] ||
    var init, op := ops[..|ops| - 1], ops[|ops| - 1];
    && Orderly(rows, init, lim)
    && (op.Queue? || Enabled(SessionAfter(rows, init, lim), LedgerAfter(init, lim), op))
  }

  lemma {:induction false} NothingQueuedByClearing(h: seq<OL.Op>, order: seq<ClientId>)
    ensures OfflineRuns.QueuedBy(h + ClearEach(order)) == OfflineRuns.QueuedBy(h)
    decreases |order|
  {
    if order == [] {
      assert h + ClearEach(order) == h;
    } else {
      ClearEachSnoc(h, order);
      NothingQueuedByClearing(h, order[..|order| - 1]);
      QueuedBySnoc(h + ClearEach(order[..|order| - 1]), OL.ClearClient(order[|order| - 1]));
    }
  }

  lemma QueuedBySnoc(h: seq<OL.Op>, op: OL.Op)
    ensures OfflineRuns.QueuedBy(h + [op]) == OfflineRuns.QueuedBy(h) + if op.QueueMessage? then [op.m] else []
  {
    assert (h + [op])[..|h|] == h;
  }

  /** The messages queued so far are those of the run's queueing operations. */
  lemma QueuedByStep(ops: seq<Op>)
    requires ops != []
    ensures var before := OfflineRuns.QueuedBy(History(ops[..|ops| - 1]));
            var op := ops[|ops| - 1];
            OfflineRuns.QueuedBy(History(ops)) == before + if op.Queue? then [op.m] else []
  {
    var h, op := History(ops[..|ops| - 1]), ops[|ops| - 1];
    match op {
      case Queue(m) => QueuedBySnoc(h, OL.QueueMessage(m));
      case Login(id, _, now, _) => QueuedBySnoc(h, OL.Login(id, now));
      case Sweep(_, order) => NothingQueuedByClearing(h, order);
      case _ => assert h + StoreOps(op) == h;
    }
  }

  predicate QueuedId(ops: seq<Op>, j: nat, id: OT.MessageId) {
    j < |ops| && ops[j].Queue? && ops[j].m.id == id
  }

  lemma QueuedIdStep(ops: seq<Op>, id: OT.MessageId)
    requires ops != []
    ensures var init, op := ops[..|ops| - 1], ops[|ops| - 1];
            (exists j: nat :: QueuedId(ops, j, id)) <==>
            (exists j: nat :: QueuedId(init, j, id)) || (op.Queue? && op.m.id == id)
  {
    var init, op := ops[..|ops| - 1], ops[|ops| - 1];
    if op.Queue? && op.m.id == id { assert QueuedId(ops, |init|, id); }
    if j: nat :| QueuedId(init, j, id) { assert QueuedId(ops, j, id); }
    if j: nat :| QueuedId(ops, j, id) && j < |init| { assert QueuedId(init, j, id); }
  }

  lemma {:induction false} QueuedIds(ops: seq<Op>, id: OT.MessageId)
    ensures id in OL.IdSet(OfflineRuns.QueuedBy(History(ops))) <==> exists j: nat :: QueuedId(ops, j, id)
    decreases |ops|
  {
    if ops != [] {
      var init, op := ops[..|ops| - 1], ops[|ops| - 1];
      QueuedIds(init, id);
      QueuedByStep(ops);
      if op.Queue? { OL.IdSetSnoc(OfflineRuns.QueuedBy(History(init)), op.m); }
      QueuedIdStep(ops, id);
    }
  }

  /** Queueing is admissible exactly when no earlier operation queued that id. */
  lemma FreshExactly(rows: map<ClientId, ST.Row>, ops: seq<Op>, lim: OL.Limits, m: OT.Message)
    requires Admissible(rows, ops, lim)
    ensures OL.Admissible(LedgerAfter(ops, lim), OL.QueueMessage(m)) <==> forall j: nat :: !QueuedId(ops, j, m.id)
  {
    StoreRuns(rows, ops, lim);
    OfflineRuns.EveryRunIsSound(History(ops), lim);
    OfflineRuns.AddedIsQueued(History(ops), lim);
    QueuedIds(ops, m.id);
  }

  ghost predicate NoRepeats(ops: seq<Op>) {
    forall j: nat, k: nat :: !Repeats(ops, j, k)
  }

  lemma NoRepeatsStep(ops: seq<Op>)
    requires ops != []
    ensures var init, op := ops[..|ops| - 1], ops[|ops| - 1];
            NoRepeats(ops) <==> NoRepeats(init) && (op.Queue? ==> forall j: nat :: !QueuedId(init, j, op.m.id))
  {
    var init, op := ops[..|ops| - 1], ops[|ops| - 1];
    forall j: nat, k: nat | k < |init| ensures Repeats(ops, j, k) == Repeats(init, j, k) {}
    forall j: nat ensures Repeats(ops, j, |init|) == (op.Queue? && QueuedId(init, j, op.m.id)) {}
  }

  lemma {:induction false} AdmissibleExactly(rows: map<ClientId, ST.Row>, ops: seq<Op>, lim: OL.Limits)
    ensures Admissible(rows, ops, lim) <==> Orderly(rows, ops, lim) && NoRepeats(ops)
    decreases |ops|
  {
    if ops != [] {
      var init, op := ops[..|ops| - 1], ops[|ops| - 1];
      AdmissibleExactly(rows, init, lim);
      NoRepeatsStep(ops);
      if op.Queue? && Admissible(rows, init, lim) { FreshExactly(rows, init, lim, op.m); }
    }
  }

  /** A joint run with restarts in it is what the joint theorems rely on exactly when it is orderly and no two messages
      of one second were given counters that agree in their lower 16 bits. */
  lemma MintedRunsExactly(rows: map<ClientId, ST.Row>, ops: seq<Op>, lim: OL.Limits, times: seq<nat>)
    requires Minted(ops, times)
    ensures Admissible(rows, ops, lim) <==>
            Orderly(rows, ops, lim) && forall j: nat, k: nat :: !Twins(ops, times, j, k)
  {
    AdmissibleExactly(rows, ops, lim);
    forall j: nat, k: nat ensures Twins(ops, times, j, k) <==> Repeats(ops, j, k) {
      TwinsRepeat(ops, times, j, k);
    }
  }

  /* ---------------- when that is so ---------------- */

  /** No second sees queueings both before and after a restart. */
  ghost predicate QuietRestarts(ops: seq<Op>, times: seq<nat>)
    requires |times| == |ops|
  {
    forall j, c, k :: 0 <= j < c < k < |ops| && ops[j].Queue? && ops[c].Crash? && ops[k].Queue? ==> times[j] != times[k]
  }

  /** The queueing operations of second `t`. */
  ghost function QueuedIn(ops: seq<Op>, times: seq<nat>, t: nat): set<int>
    requires |times| == |ops|
  {
    set k | 0 <= k < |ops| && ops[k].Queue? && times[k] == t
  }

  /** The queueing operations from `j` on, before `k`. */
  ghost function Between(ops: seq<Op>, j: nat, k: nat): set<int>
    requires k <= |ops|
  {
    set i | j <= i < k && ops[i].Queue?
  }

  lemma {:induction false} CountsUp(ops: seq<Op>, j: nat, k: nat)
    requires j <= k <= |ops| && forall c :: j <= c < k ==> !ops[c].Crash?
    ensures Count(ops[..k]) == Count(ops[..j]) + |Between(ops, j, k)|
    decreases k - j
  {
    if j < k {
      CountsUp(ops, j, k - 1);
      TakeOneMore(ops, k - 1);
      assert ops[..k][..k - 1] == ops[..k - 1];
      assert Between(ops, j, k) == Between(ops, j, k - 1) + if ops[k - 1].Queue? then {k - 1} else {};
    } else {
      assert Between(ops, j, k) == {};
    }
  }

  lemma NoTwins(ops: seq<Op>, times: seq<nat>, j: nat, k: nat)
    requires |times| == |ops| && MI.Clock(times) && QuietRestarts(ops, times)
    requires forall t :: |QueuedIn(ops, times, t)| <= MI.WINDOW
    ensures !Twins(ops, times, j, k)
  {
    if Twins(ops, times, j, k) {
      CountsUp(ops, j, k);
      var burst := Between(ops, j, k) + {k};
      forall i | i in burst ensures i in QueuedIn(ops, times, times[j]) {
        MI.ClockAt(times, j, i);
        MI.ClockAt(times, i, k);
      }
      SubsetCard(burst, QueuedIn(ops, times, times[j]));
      assert j in Between(ops, j, k);
      MI.SameLowBitsFar(Count(ops[..j]), Count(ops[..k]));
      assert false;
    }
  }

  /** If every restart is followed by a new second before anything is queued, and no second queues more than 65536
      messages, orderly runs with restarts are sound. */
  lemma QuietRestartsAreSound(rows: map<ClientId, ST.Row>, ops: seq<Op>, lim: OL.Limits, times: seq<nat>)
    requires Minted(ops, times) && Orderly(rows, ops, lim) && QuietRestarts(ops, times)
    requires forall t :: |QueuedIn(ops, times, t)| <= MI.WINDOW
    requires forall id :: id in rows ==> rows[id].clientId == id
    ensures Admissible(rows, ops, lim) && ST.Tied(SessionAfter(rows, ops, lim))
    ensures OfflineRuns.Sound(LedgerAfter(ops, lim))
  {
    forall j: nat, k: nat ensures !Twins(ops, times, j, k) { NoTwins(ops, times, j, k); }
    MintedRunsExactly(rows, ops, lim, times);
    JointRunsAreSound(rows, ops, lim);
  }

  /** The first messages of two processes, queued in one second, get one id, and no such run is what the joint theorems
      rely on. */
  lemma RestartRepeatsAnId(rows: map<ClientId, ST.Row>, ops: seq<Op>, lim: OL.Limits, times: seq<nat>, j: nat, k: nat)
    requires Minted(ops, times) && j < k < |ops| && ops[j].Queue? && ops[k].Queue? && times[j] == times[k]
    requires Count(ops[..j]) == 0 && Count(ops[..k]) == 0
    ensures ops[j].m.id == ops[k].m.id && !Admissible(rows, ops, lim)
  {
    TwinsRepeat(ops, times, j, k);
    MintedRunsExactly(rows, ops, lim, times);
  }
}
