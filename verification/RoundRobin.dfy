/** Group delivery: a process-wide counter picks one of the eligible subscribers in turn. */
module RoundRobin {
  import opened Common

  /** The subscriber picked by the `i`-th send after the counter stood at `start`. */
  function Turn(start: nat, i: nat, n: nat): (t: nat)
    requires n > 0
    ensures t < n
  {
    ((start + i) % U64_SPAN) % n
  }

  /** After `i` sends the counter has advanced by `i`, so the next pick is the `i`-th turn. */
  lemma TurnAfterSends(start: nat, i: nat, n: nat)
    requires n > 0
    ensures (start + i) % U64_SPAN % n == Turn(start, i, n)
    ensures ((start + i) % U64_SPAN + 1) % U64_SPAN == (start + (i + 1)) % U64_SPAN
  {}

  /** How many of the next `k` sends pick subscriber `j`. */
  function Picks(start: nat, k: nat, n: nat, j: nat): nat
    requires n > 0
  {
    if k == 0 then 0 else Picks(start, k - 1, n, j) + if Turn(start, k - 1, n) == j then 1 else 0
  }

  /** `a % n` and `a / n`, by repeated subtraction. */
  ghost function Rem(a: nat, n: nat): nat
    requires n > 0
  {
    if a < n then a else Rem(a - n, n)
  }

  ghost function Laps(a: nat, n: nat): nat
    requires n > 0
  {
    if a < n then 0 else 1 + Laps(a - n, n)
  }

  lemma DivisionUnique(a: nat, n: nat, q: nat, r: nat)
    requires n > 0 && a == n * q + r && r < n
    ensures a % n == r && a / n == q
  {
    var d := a / n - q;
    assert n * d == r - a % n by { assert a == n * (a / n) + a % n; }
    assert d <= 0 || n * d >= n;
    assert d >= 0 || n * d + n <= 0;
  }

  lemma {:induction false} SubtractionDivides(a: nat, n: nat)
    requires n > 0
    ensures Rem(a, n) == a % n && Laps(a, n) == a / n
    decreases a
  {
    if a < n {
      DivisionUnique(a, n, 0, a);
    } else {
      SubtractionDivides(a - n, n);
      var q := (a - n) / n;
      assert a == n * (q + 1) + (a - n) % n;
      DivisionUnique(a, n, q + 1, (a - n) % n);
    }
  }

  /** The number of picks, without wrap-around. */
  ghost function Hits(start: nat, k: nat, n: nat, j: nat): nat
    requires n > 0
  {
    if k == 0 then 0 else Hits(start, k - 1, n, j) + if Rem(start + k - 1, n) == j then 1 else 0
  }

  lemma TurnBeforeWrap(start: nat, i: nat, n: nat)
    requires n > 0 && start + i < U64_SPAN
    ensures Turn(start, i, n) == Rem(start + i, n)
  {
    SubtractionDivides(start + i, n);
    assert (start + i) % U64_SPAN == start + i;
  }

  lemma {:induction false} NoWrap(start: nat, k: nat, n: nat, j: nat)
    requires n > 0 && start + k <= U64_SPAN
    ensures Picks(start, k, n, j) == Hits(start, k, n, j)
  {
    if k > 0 {
      NoWrap(start, k - 1, n, j);
      TurnBeforeWrap(start, k - 1, n);
    }
  }

  lemma {:induction false} HitsSplit(start: nat, a: nat, b: nat, n: nat, j: nat)
    requires n > 0
    ensures Hits(start, a + b, n, j) == Hits(start, a, n, j) + Hits(start + a, b, n, j)
  {
    if b > 0 {
      HitsSplit(start, a, b - 1, n, j);
      assert start + (a + b) - 1 == (start + a) + b - 1;
    }
  }

  lemma {:induction false} HitsFromZero(k: nat, n: nat, j: nat)
    requires n > 0 && k <= n
    ensures Hits(0, k, n, j) == if j < k then 1 else 0
  {
    if k > 0 {
      HitsFromZero(k - 1, n, j);
    }
  }

  /** Any `n` turns in a row pick every subscriber exactly once. */
  lemma {:induction false} LapHitsEachOnce(start: nat, n: nat, j: nat)
    requires n > 0 && j < n
    ensures Hits(start, n, n, j) == 1
  {
    if start == 0 {
      HitsFromZero(n, n, j);
    } else {
      var s := start - 1;
      LapHitsEachOnce(s, n, j);
      HitsSplit(s, 1, n, n, j);
      HitsSplit(s, n, 1, n, j);
      assert Hits(s, 1, n, j) == Hits(s + n, 1, n, j) by {
        assert Hits(s, 0, n, j) == 0 == Hits(s + n, 0, n, j);
        assert Rem(s + n, n) == Rem(s, n);
      }
    }
  }

  lemma {:induction false} HitsOfLaps(start: nat, k: nat, n: nat, j: nat)
    requires n > 0 && j < n
    ensures Laps(k, n) <= Hits(start, k, n, j) <= Laps(k, n) + if Rem(k, n) == 0 then 0 else 1
    decreases k
  {
    LapHitsEachOnce(start, n, j);
    if k < n {
      HitsSplit(start, k, n - k, n, j);
    } else {
      HitsOfLaps(start + n, k - n, n, j);
      HitsSplit(start, n, k - n, n, j);
    }
  }

  /** With `n` unchanged subscribers and no other group traffic, `k` sends before the counter wraps
      pick each subscriber `k / n` times, rounded down or up. */
  lemma GroupSendsAreFair(start: nat, k: nat, n: nat, j: nat)
    requires n > 0 && j < n && start + k <= U64_SPAN
    ensures k / n <= Picks(start, k, n, j) <= (k / n) + if k % n == 0 then 0 else 1
  {
    HitsOfLaps(start, k, n, j);
    SubtractionDivides(k, n);
    NoWrap(start, k, n, j);
  }

  /* ---------------- the object ---------------- */

  /** `picks` are the subscribers of the first turns. */
  ghost predicate Picked(matching: seq<ClientId>, start: nat, picks: seq<ClientId>) {
    matching != [] && forall i :: 0 <= i < |picks| ==> picks[i] == matching[Turn(start, i, |matching|)]
  }

  function Times(picks: seq<ClientId>, c: ClientId): nat {
    if picks == [] then 0 else Times(picks[..|picks| - 1], c) + if picks[|picks| - 1] == c then 1 else 0
  }

  /** `times` is `k / n`, rounded down or up. */
  ghost predicate Fair(k: nat, n: nat, times: nat)
    requires n > 0
  {
    k / n <= times <= (k / n) + if k % n == 0 then 0 else 1
  }

  lemma PickedOneMore(matching: seq<ClientId>, start: nat, picks: seq<ClientId>, c: ClientId)
    requires Picked(matching, start, picks) && c == matching[Turn(start, |picks|, |matching|)]
    ensures Picked(matching, start, picks + [c])
  {}

  /** Counting a subscriber among the picks is counting its turns. */
  lemma {:induction false} TimesPicked(matching: seq<ClientId>, start: nat, picks: seq<ClientId>, j: nat)
    requires Picked(matching, start, picks) && NoDup(matching) && j < |matching|
    ensures Times(picks, matching[j]) == Picks(start, |picks|, |matching|, j)
    decreases |picks|
  {
    if picks != [] {
      TimesPicked(matching, start, picks[..|picks| - 1], j);
      var t := Turn(start, |picks| - 1, |matching|);
      assert picks[|picks| - 1] == matching[t];
      if t < j { NoDupAt(matching, t, j); }
      if j < t { NoDupAt(matching, j, t); }
    }
  }

  lemma PicksAreFair(matching: seq<ClientId>, start: nat, picks: seq<ClientId>, j: nat)
    requires Picked(matching, start, picks) && NoDup(matching) && j < |matching| && start + |picks| <= U64_SPAN
    ensures Fair(|picks|, |matching|, Times(picks, matching[j]))
  {
    TimesPicked(matching, start, picks, j);
    GroupSendsAreFair(start, |picks|, |matching|, j);
  }

  class GroupCounter {
    var index: nat

    constructor ()
      ensures index == 0
    {
      index := 0;
    }

    /** `None` stands for the NoTarget reply, which leaves the counter alone. */
    method Pick(matching: seq<ClientId>) returns (r: Option<ClientId>)
      requires index < U64_SPAN
      modifies this
      ensures r == if matching == [] then None else Some(matching[old(index) % |matching|])
      ensures index == if matching == [] then old(index) else (old(index) + 1) % U64_SPAN
    {
      if matching == [] {
        return None;
      }
      r := Some(matching[index % |matching|]);
      index := (index + 1) % U64_SPAN;
    }

    /** `k` group sends while the same subscribers match and nothing else uses the counter: each subscriber is picked
        `k / n` times, rounded down or up, if the counter does not wrap on the way. */
    method PickEach(matching: seq<ClientId>, k: nat) returns (picks: seq<ClientId>)
      requires index < U64_SPAN && matching != [] && NoDup(matching)
      modifies this
      ensures Picked(matching, old(index), picks) && |picks| == k
      ensures index == (old(index) + k) % U64_SPAN
      ensures old(index) + k <= U64_SPAN ==>
                forall j :: 0 <= j < |matching| ==> Fair(k, |matching|, Times(picks, matching[j]))
    {
      picks := [];
      for i := 0 to k
        invariant index == (old(index) + i) % U64_SPAN
        invariant |picks| == i && Picked(matching, old(index), picks)
      {
        TurnAfterSends(old(index), i, |matching|);
        var r := Pick(matching);
        PickedOneMore(matching, old(index), picks, r.value);
        picks := picks + [r.value];
      }
      if old(index) + k <= U64_SPAN {
        forall j | 0 <= j < |matching| ensures Fair(k, |matching|, Times(picks, matching[j])) {
          PicksAreFair(matching, old(index), picks, j);
        }
      }
    }
  }
}
