/** First in, first out: order of messages in logs and queues. */
module QueueOrder {
  import opened Common
  import opened OfflineTheory

  /** `a` is `b` with some elements left out. */
  ghost predicate Subsequence(a: seq<Message>, b: seq<Message>) {
    a == [] ||
    (b != [] && ((a[|a| - 1] == b[|b| - 1] && Subsequence(a[..|a| - 1], b[..|b| - 1]))
                 || Subsequence(a, b[..|b| - 1])))
  }

  lemma {:induction false} SubsequenceSame(a: seq<Message>)
    ensures Subsequence(a, a)
  {
    if a != [] { SubsequenceSame(a[..|a| - 1]); }
  }

  lemma SubsequenceSnoc(a: seq<Message>, b: seq<Message>, m: Message)
    requires Subsequence(a, b)
    ensures Subsequence(a, b + [m]) && Subsequence(a + [m], b + [m])
  {
    assert (a + [m])[..|a|] == a && (b + [m])[..|b|] == b;
  }

  /** One more element behind, taken along or not. */
  lemma SubsequenceStep(a: seq<Message>, b: seq<Message>, m: Message, a': seq<Message>, b': seq<Message>)
    requires Subsequence(a, b) && b' == b + [m] && (a' == a || a' == a + [m])
    ensures Subsequence(a', b')
  {
    SubsequenceSnoc(a, b, m);
  }

  lemma {:induction false} SubsequenceTrans(a: seq<Message>, b: seq<Message>, c: seq<Message>)
    requires Subsequence(a, b) && Subsequence(b, c)
    ensures Subsequence(a, c)
    decreases |a| + |b| + |c|
  {
    if a != [] {
      if b[|b| - 1] == c[|c| - 1] && Subsequence(b[..|b| - 1], c[..|c| - 1]) {
        if a[|a| - 1] == b[|b| - 1] && Subsequence(a[..|a| - 1], b[..|b| - 1]) {
          SubsequenceTrans(a[..|a| - 1], b[..|b| - 1], c[..|c| - 1]);
        } else {
          SubsequenceTrans(a, b[..|b| - 1], c[..|c| - 1]);
        }
      } else {
        SubsequenceTrans(a, b, c[..|c| - 1]);
      }
    }
  }

  lemma {:induction false} SubsequenceAfter(p: seq<Message>, a: seq<Message>, b: seq<Message>)
    requires Subsequence(a, b)
    ensures Subsequence(p + a, p + b)
  {
    if b == [] {
      assert p + a == p && p + b == p;
      SubsequenceSame(p);
    } else {
      assert (p + b)[..|p + b| - 1] == p + b[..|b| - 1];
      if a == [] {
        assert p + a == p;
        SubsequenceAfter(p, a, b[..|b| - 1]);
      } else if Subsequence(a, b[..|b| - 1]) {
        SubsequenceAfter(p, a, b[..|b| - 1]);
      } else {
        assert (p + a)[..|p + a| - 1] == p + a[..|a| - 1];
        SubsequenceAfter(p, a[..|a| - 1], b[..|b| - 1]);
      }
    }
  }

  lemma {:induction false} UnexpiredSubsequence(q: seq<Message>, now: nat, ttl: nat)
    ensures Subsequence(Unexpired(q, now, ttl), q)
  {
    if q != [] {
      var init, last := q[..|q| - 1], q[|q| - 1];
      UnexpiredSubsequence(init, now, ttl);
      SubsequenceStep(Unexpired(init, now, ttl), init, last, Unexpired(q, now, ttl), q);
    }
  }

  lemma {:induction false} DeleteByIdSubsequence(q: seq<Message>, id: MessageId)
    ensures Subsequence(DeleteById(q, id), q)
  {
    if q != [] {
      var init, last := q[..|q| - 1], q[|q| - 1];
      DeleteByIdSubsequence(init, id);
      SubsequenceStep(DeleteById(init, id), init, last, DeleteById(q, id), q);
    }
  }

  lemma {:induction false} TailSubsequence(q: seq<Message>)
    requires q != []
    ensures Subsequence(q[1..], q)
  {
    if |q| > 1 {
      var init, last := q[..|q| - 1], q[|q| - 1];
      TailSubsequence(init);
      SubsequenceStep(init[1..], init, last, q[1..], q);
    }
  }

  /** The messages of `q` for client `c`. */
  function For(q: seq<Message>, c: ClientId): seq<Message> {
    if q == [] then []
    else
      var before := For(q[..|q| - 1], c);
      if q[|q| - 1].clientId == c then before + [q[|q| - 1]] else before
  }

  lemma ForSnoc(q: seq<Message>, m: Message, c: ClientId)
    ensures For(q + [m], c) == if m.clientId == c then For(q, c) + [m] else For(q, c)
  {
    assert (q + [m])[..|q|] == q;
  }

  lemma {:induction false} ForConcat(a: seq<Message>, b: seq<Message>, c: ClientId)
    ensures For(a + b, c) == For(a, c) + For(b, c)
  {
    if b == [] {
      assert a + b == a;
    } else {
      assert (a + b)[..|a + b| - 1] == a + b[..|b| - 1];
      ForConcat(a, b[..|b| - 1], c);
    }
  }

  lemma {:induction false} ForOneClient(q: seq<Message>, owner: ClientId, c: ClientId)
    requires forall m :: m in q ==> m.clientId == owner
    ensures For(q, c) == if c == owner then q else []
  {
    if q != [] {
      assert q == q[..|q| - 1] + [q[|q| - 1]];
      ForOneClient(q[..|q| - 1], owner, c);
    }
  }

  lemma {:induction false} UnexpiredMembers(q: seq<Message>, now: nat, ttl: nat)
    ensures forall m :: m in Unexpired(q, now, ttl) <==> m in q && now <= m.timestamp + ttl
  {
    if q != [] {
      assert q == q[..|q| - 1] + [q[|q| - 1]];
      UnexpiredMembers(q[..|q| - 1], now, ttl);
    }
  }

  lemma ShrinkKeepsOrder(handed: seq<Message>, q: seq<Message>, q': seq<Message>, added: seq<Message>)
    requires Subsequence(handed + q, added) && Subsequence(q', q)
    ensures Subsequence(handed + q', added)
  {
    SubsequenceAfter(handed, q', q);
    SubsequenceTrans(handed + q', handed + q, added);
  }

  lemma QueueIsForOwner(t: Trees, c: ClientId)
    requires Consistent(t)
    ensures forall m :: m in Queue(t, c) ==> m.clientId == c
  {
    OwnedIds(t, c);
    forall m | m in Queue(t, c) ensures m.clientId == c { RowsMembers(t.queue, Ids(t, c), m); }
  }
}
