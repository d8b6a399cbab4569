/** Message ids: the second of minting in the upper 48 bits, a process-wide counter in the lower 16. */
module MessageIds {
  import opened Common

  const WINDOW: nat := 0x1_0000
  const MAX_SECONDS: nat := 0x1_0000_0000_0000

  /** `(now << 16) | (counter & 0xFFFF)` in 64 bits; the two halves do not overlap. */
  function MessageId(now: nat, counter: nat): nat {
    (now * WINDOW) % U64_SPAN + counter % WINDOW
  }

  /** The ids of a run: one per entry of `times`, the counter standing at `start` and wrapping. */
  function IdAt(times: seq<nat>, start: nat, i: nat): nat
    requires i < |times|
  {
    MessageId(times[i], (start + i) % U64_SPAN)
  }

  ghost predicate Distinct(times: seq<nat>, start: nat) {
    forall i, j :: 0 <= i < j < |times| ==> IdAt(times, start, i) != IdAt(times, start, j)
  }

  /** The clock never goes back and stays below 2^48 seconds. */
  ghost predicate Clock(times: seq<nat>) {
    && (forall i :: 0 < i < |times| ==> times[i - 1] <= times[i])
    && (forall i :: 0 <= i < |times| ==> times[i] < MAX_SECONDS)
  }

  /** Which ids of the run were minted in second `t`. */
  ghost function MintedIn(times: seq<nat>, t: nat): set<int> {
    set i | 0 <= i < |times| && times[i] == t
  }

  lemma {:induction false} ClockAt(times: seq<nat>, i: nat, j: nat)
    requires Clock(times) && i <= j < |times|
    ensures times[i] <= times[j]
    decreases j
  {
    if i < j { ClockAt(times, i, j - 1); }
  }

  lemma CounterLowBits(c: nat)
    ensures (c % U64_SPAN) % WINDOW == c % WINDOW
  {
    assert c == U64_SPAN * (c / U64_SPAN) + c % U64_SPAN;
    assert U64_SPAN == WINDOW * 0x1_0000_0000_0000;
  }

  /** Below 2^48 seconds the shift loses nothing. */
  lemma ShiftFits(now: nat)
    requires now < MAX_SECONDS
    ensures (now * WINDOW) % U64_SPAN == now * WINDOW
  {
    assert now * WINDOW < MAX_SECONDS * WINDOW == U64_SPAN;
  }

  /** The two halves of an id can be read back. */
  lemma HalvesUnique(a: nat, x: nat, b: nat, y: nat)
    requires x < WINDOW && y < WINDOW
    ensures a * WINDOW + x == b * WINDOW + y <==> a == b && x == y
  {}

  lemma SameHalves(now: nat, c: nat, now': nat, c': nat)
    requires now < MAX_SECONDS && now' < MAX_SECONDS
    ensures MessageId(now, c) == MessageId(now', c') <==> now == now' && c % WINDOW == c' % WINDOW
  {
    ShiftFits(now);
    ShiftFits(now');
    HalvesUnique(now, c % WINDOW, now', c' % WINDOW);
  }

  /** The second and the low bits of the counter can be read off an id. */
  lemma HalvesRead(now: nat, counter: nat)
    requires now < MAX_SECONDS
    ensures MessageId(now, counter) / 0x1_0000 == now && MessageId(now, counter) % 0x1_0000 == counter % 0x1_0000
    ensures MessageId(now, counter) < U64_SPAN
  {
    ShiftFits(now);
  }

  /** Two ids agree exactly when the seconds agree and the counters agree modulo 2^16. */
  lemma SameId(times: seq<nat>, start: nat, i: nat, j: nat)
    requires Clock(times) && i < |times| && j < |times|
    ensures IdAt(times, start, i) == IdAt(times, start, j) <==>
            times[i] == times[j] && (start + i) % WINDOW == (start + j) % WINDOW
  {
    CounterLowBits(start + i);
    CounterLowBits(start + j);
    SameHalves(times[i], (start + i) % U64_SPAN, times[j], (start + j) % U64_SPAN);
  }

  ghost function Range(lo: int, n: nat): set<int> {
    if n == 0 then {} else Range(lo, n - 1) + {lo + n - 1}
  }

  lemma {:induction false} RangeMembers(lo: int, n: nat)
    ensures |Range(lo, n)| == n
    ensures forall k :: k in Range(lo, n) <==> lo <= k < lo + n
  {
    if n > 0 { RangeMembers(lo, n - 1); }
  }

  lemma SameLowBitsFar(a: nat, b: nat)
    requires a < b && a % WINDOW == b % WINDOW
    ensures b - a >= WINDOW
  {}

  /** Ids a multiple of the window apart in one second mean a burst of more than a window. */
  lemma TwinsNeedABurst(times: seq<nat>, start: nat, i: nat, j: nat)
    requires Clock(times) && i < j < |times| && IdAt(times, start, i) == IdAt(times, start, j)
    ensures |MintedIn(times, times[i])| > WINDOW
  {
    SameId(times, start, i, j);
    SameLowBitsFar(start + i, start + j);
    var burst := Range(i, j + 1 - i);
    RangeMembers(i, j + 1 - i);
    forall k | k in burst ensures k in MintedIn(times, times[i]) {
      ClockAt(times, i, k);
      ClockAt(times, k, j);
    }
    SubsetCard(burst, MintedIn(times, times[i]));
  }

  lemma FirstOfSecond(times: seq<nat>, t: nat) returns (lo: nat)
    ensures lo <= |times|
    ensures forall i :: i in MintedIn(times, t) ==> lo <= i
    ensures lo < |times| ==> times[lo] == t
  {
    lo := 0;
    while lo < |times| && times[lo] != t
      invariant lo <= |times| && forall i :: i in MintedIn(times, t) ==> lo <= i
    {
      lo := lo + 1;
    }
  }

  lemma BurstReachesFar(times: seq<nat>, t: nat, lo: nat) returns (k: nat)
    requires |MintedIn(times, t)| > WINDOW
    requires forall i :: i in MintedIn(times, t) ==> lo <= i
    ensures lo + WINDOW <= k < |times| && times[k] == t
  {
    RangeMembers(lo, WINDOW);
    k := Surplus(MintedIn(times, t), Range(lo, WINDOW));
  }

  lemma WindowFurther(a: nat)
    ensures (a + WINDOW) % WINDOW == a % WINDOW
  {}

  lemma TwinsAWindowApart(times: seq<nat>, start: nat, i: nat)
    requires Clock(times) && i + WINDOW < |times| && times[i] == times[i + WINDOW]
    ensures IdAt(times, start, i) == IdAt(times, start, i + WINDOW)
  {
    SameId(times, start, i, i + WINDOW);
    WindowFurther(start + i);
    assert start + i + WINDOW == start + (i + WINDOW);
  }

  /** A burst of more than a window in one second repeats an id. */
  lemma BurstHasTwins(times: seq<nat>, start: nat, t: nat) returns (i: nat)
    requires Clock(times) && |MintedIn(times, t)| > WINDOW
    ensures i + WINDOW < |times| && IdAt(times, start, i) == IdAt(times, start, i + WINDOW)
  {
    i := FirstOfSecond(times, t);
    var k := BurstReachesFar(times, t, i);
    ClockAt(times, i, i + WINDOW);
    ClockAt(times, i + WINDOW, k);
    TwinsAWindowApart(times, start, i);
  }

  /** All ids of a run are distinct exactly when no second mints more than 65536 of them. */
  lemma IdsDistinctExactly(times: seq<nat>, start: nat)
    requires Clock(times)
    ensures Distinct(times, start) <==> forall t :: |MintedIn(times, t)| <= WINDOW
  {
    if forall t :: |MintedIn(times, t)| <= WINDOW {
      forall i, j | 0 <= i < j < |times| ensures IdAt(times, start, i) != IdAt(times, start, j) {
        if IdAt(times, start, i) == IdAt(times, start, j) {
          TwinsNeedABurst(times, start, i, j);
          assert false;
        }
      }
    }
    if t :| |MintedIn(times, t)| > WINDOW {
      var i := BurstHasTwins(times, start, t);
    }
  }

  /* ---------------- the object ---------------- */

  /** `ids` are the first ids of the run. */
  ghost predicate Minted(times: seq<nat>, start: nat, ids: seq<nat>) {
    |ids| <= |times| && forall i :: 0 <= i < |ids| ==> ids[i] == IdAt(times, start, i)
  }

  ghost predicate NoneRepeats(ids: seq<nat>) {
    forall i, j :: 0 <= i < j < |ids| ==> ids[i] != ids[j]
  }

  lemma MintedRepeats(times: seq<nat>, start: nat, ids: seq<nat>)
    requires Minted(times, start, ids) && |ids| == |times|
    ensures NoneRepeats(ids) <==> Distinct(times, start)
  {
    if NoneRepeats(ids) {
      forall i, j | 0 <= i < j < |times| ensures IdAt(times, start, i) != IdAt(times, start, j) {
        assert ids[i] == IdAt(times, start, i) && ids[j] == IdAt(times, start, j);
      }
    }
  }

  lemma CounterMovesOn(start: nat, i: nat)
    ensures ((start + i) % U64_SPAN + 1) % U64_SPAN == (start + (i + 1)) % U64_SPAN
    ensures (start + i) % U64_SPAN < U64_SPAN
  {}

  /** The static counter. */
  class IdSource {
    var counter: nat

    constructor ()
      ensures counter == 0
    {
      counter := 0;
    }

    method GenMessageId(now: nat) returns (id: nat)
      requires counter < U64_SPAN
      modifies this
      ensures id == MessageId(now, old(counter))
      ensures counter == (old(counter) + 1) % U64_SPAN
    {
      id := MessageId(now, counter);
      counter := (counter + 1) % U64_SPAN;
    }

    /** A run of the process: one id for each clock reading. */
    method MintEach(times: seq<nat>) returns (ids: seq<nat>)
      requires counter < U64_SPAN
      modifies this
      ensures Minted(times, old(counter), ids) && |ids| == |times|
      ensures counter == (old(counter) + |times|) % U64_SPAN
      ensures Clock(times) ==> (NoneRepeats(ids) <==> forall t :: |MintedIn(times, t)| <= WINDOW)
    {
      ids := [];
      for i := 0 to |times|
        invariant counter == (old(counter) + i) % U64_SPAN
        invariant |ids| == i && Minted(times, old(counter), ids)
      {
        CounterMovesOn(old(counter), i);
        var id := GenMessageId(times[i]);
        assert id == IdAt(times, old(counter), i);
        ids := ids + [id];
      }
      if Clock(times) {
        IdsDistinctExactly(times, old(counter));
        MintedRepeats(times, old(counter), ids);
      }
    }
  }
}
