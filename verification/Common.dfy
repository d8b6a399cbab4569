/** Small vocabulary shared by the components of the broker. */
module Common {

  datatype Option<+T> = None | Some(value: T)

  const U64_SPAN: nat := 0x1_0000_0000_0000_0000
  const U128_SPAN: nat := 0x1_0000_0000_0000_0000_0000_0000_0000_0000

  /** Rust's `u64`. */
  type u64 = n: nat | n < 0x1_0000_0000_0000_0000

  type byte = b: nat | b < 0x100

  /** Client ids are `u128`; only equality and zero matter to the broker. */
  type ClientId = nat

  lemma TakeOneMore<T>(s: seq<T>, k: nat)
    requires k < |s|
    ensures s[..k + 1] == s[..k] + [s[k]]
  {}

  /** No element occurs twice. */
  ghost predicate NoDup<T>(s: seq<T>) {
    s == [] || (NoDup(s[..|s| - 1]) && s[|s| - 1] !in s[..|s| - 1])
  }

  lemma {:induction false} NoDupAt<T>(s: seq<T>, i: nat, j: nat)
    requires NoDup(s) && i < j < |s|
    ensures s[i] != s[j]
  {
    var init := s[..|s| - 1];
    if j == |s| - 1 { assert init[i] in init; } else { NoDupAt(init, i, j); }
  }

  function Elements<T>(s: seq<T>): set<T> {
    set x | x in s
  }

  /** `s` with every occurrence of `x` deleted: Rust's `retain(|y| y != x)`. */
  function Delete<T(==,!new)>(s: seq<T>, x: T): (r: seq<T>)
    ensures |r| <= |s|
  {
    if s == [] then []
    else
      var init, last := s[..|s| - 1], s[|s| - 1];
      if last == x then Delete(init, x) else Delete(init, x) + [last]
  }

  lemma {:induction false} DeleteMembers<T(!new)>(s: seq<T>, x: T)
    ensures forall y :: y in Delete(s, x) <==> y in s && y != x
    ensures Elements(Delete(s, x)) == Elements(s) - {x}
  {
    if s != [] {
      DeleteMembers(s[..|s| - 1], x);
      assert s == s[..|s| - 1] + [s[|s| - 1]];
    }
  }

  lemma {:induction false} DeleteConcat<T(!new)>(a: seq<T>, b: seq<T>, x: T)
    ensures Delete(a + b, x) == Delete(a, x) + Delete(b, x)
  {
    if b == [] {
      assert a + b == a;
    } else {
      var init, last := b[..|b| - 1], b[|b| - 1];
      assert (a + b)[..|a + b| - 1] == a + init;
      DeleteConcat(a, init, x);
    }
  }

  lemma {:induction false} DeleteAbsent<T(!new)>(s: seq<T>, x: T)
    requires x !in s
    ensures Delete(s, x) == s
  {
    if s != [] {
      DeleteAbsent(s[..|s| - 1], x);
      assert s == s[..|s| - 1] + [s[|s| - 1]];
    }
  }

  lemma {:induction false} DeleteKeepsNoDup<T(!new)>(s: seq<T>, x: T)
    requires NoDup(s)
    ensures NoDup(Delete(s, x))
  {
    if s != [] {
      var init, last := s[..|s| - 1], s[|s| - 1];
      DeleteKeepsNoDup(init, x);
      DeleteMembers(init, x);
      if last != x { AppendElement(Delete(init, x), last); }
    }
  }

  lemma DeleteOne<T(!new)>(y: T, x: T)
    ensures Delete([y], x) == if y == x then [] else [y]
  {
    assert [y][..0] == [];
  }

  lemma DeleteSplit<T(!new)>(front: seq<T>, x: T, back: seq<T>)
    requires x !in front && x !in back
    ensures Delete(front + ([x] + back), x) == front + back
  {
    DeleteConcat(front, [x] + back, x);
    DeleteAbsent(front, x);
    assert Delete([x] + back, x) == back by {
      DeleteConcat([x], back, x);
      DeleteOne(x, x);
      DeleteAbsent(back, x);
    }
  }

  lemma SplitAround<T>(p: seq<T>, k: nat)
    requires k < |p|
    ensures p == p[..k] + ([p[k]] + p[k + 1..])
  {}

  lemma NotAround<T>(p: seq<T>, k: nat)
    requires k < |p| && forall i :: 0 <= i < |p| && i != k ==> p[i] != p[k]
    ensures p[k] !in p[..k] && p[k] !in p[k + 1..]
  {}

  lemma SplitAt<T>(p: seq<T>, k: nat)
    requires NoDup(p) && k < |p|
    ensures p == p[..k] + ([p[k]] + p[k + 1..])
    ensures p[k] !in p[..k] && p[k] !in p[k + 1..]
  {
    forall i | 0 <= i < |p| && i != k ensures p[i] != p[k] {
      if i < k { NoDupAt(p, i, k); } else { NoDupAt(p, k, i); }
    }
    SplitAround(p, k);
    NotAround(p, k);
  }

  lemma DeleteAt<T(!new)>(p: seq<T>, k: nat)
    requires NoDup(p) && k < |p|
    ensures Delete(p, p[k]) == p[..k] + p[k + 1..]
  {
    SplitAt(p, k);
    DeleteSplit(p[..k], p[k], p[k + 1..]);
  }

  lemma AppendNothing<T>(s: seq<T>)
    ensures s + [] == s
  {}

  lemma SplitLast<T>(s: seq<T>)
    requires s != []
    ensures s == s[..|s| - 1] + [s[|s| - 1]]
  {}

  lemma ConcatAssoc<T>(a: seq<T>, b: seq<T>, c: seq<T>)
    ensures a + (b + c) == (a + b) + c
  {}

  lemma AppendElement<T>(s: seq<T>, x: T)
    ensures Elements(s + [x]) == Elements(s) + {x}
    ensures NoDup(s) && x !in s ==> NoDup(s + [x])
    ensures (s + [x])[..|s + [x]| - 1] == s
  {
    assert (s + [x])[..|s + [x]| - 1] == s;
  }

  lemma AppendNoDup<T>(s: seq<T>, x: T)
    requires NoDup(s) && x !in s
    ensures NoDup(s + [x])
  {
    assert (s + [x])[..|s|] == s;
  }

  lemma {:induction false} PrependElement<T>(x: T, s: seq<T>)
    ensures Elements([x] + s) == {x} + Elements(s)
    ensures NoDup(s) && x !in s ==> NoDup([x] + s)
  {
    if s != [] {
      PrependElement(x, s[..|s| - 1]);
      assert ([x] + s)[..|[x] + s| - 1] == [x] + s[..|s| - 1];
    }
  }

  /** Duplicate-free sequences have as many elements as their set. */
  lemma {:induction false} NoDupCard<T>(s: seq<T>)
    requires NoDup(s)
    ensures |Elements(s)| == |s|
  {
    if s != [] {
      var init, last := s[..|s| - 1], s[|s| - 1];
      NoDupCard(init);
      assert s == init + [last];
      AppendElement(init, last);
      assert last !in Elements(init);
    }
  }

  lemma {:induction false} SubsetCard<T>(a: set<T>, b: set<T>)
    requires a <= b
    ensures |a| <= |b|
    ensures |a| == |b| ==> a == b
  {
    if a != {} {
      var x :| x in a;
      SubsetCard(a - {x}, b - {x});
    }
  }

  lemma {:induction false} Surplus<T>(a: set<T>, b: set<T>) returns (x: T)
    requires |a| > |b|
    ensures x in a && x !in b
  {
    if a <= b {
      SubsetCard(a, b);
      assert false;
    }
    x :| x in a && x !in b;
  }

  lemma EmptyOrInhabited<T>(s: seq<T>)
    ensures s == [] || exists x :: x in s
  {
    if s != [] { assert s[0] in s; }
  }

  lemma {:induction false} Enumerate<T>(s: set<T>) returns (order: seq<T>)
    ensures NoDup(order) && Elements(order) == s
  {
    if s == {} {
      order := [];
    } else {
      var x :| x in s;
      var others := Enumerate(s - {x});
      order := others + [x];
      assert x !in Elements(others);
      AppendElement(others, x);
    }
  }

  /** The concatenation of a sequence of sequences, in order. */
  function Flatten<T>(ss: seq<seq<T>>): seq<T> {
    if ss == [] then [] else ss[0] + Flatten(ss[1..])
  }

  lemma {:induction false} FlattenConcat<T>(a: seq<seq<T>>, b: seq<seq<T>>)
    ensures Flatten(a + b) == Flatten(a) + Flatten(b)
  {
    if a == [] {
      assert a + b == b;
    } else {
      assert (a + b)[0] == a[0] && (a + b)[1..] == a[1..] + b;
      FlattenConcat(a[1..], b);
    }
  }

  lemma FlattenSnoc<T>(ss: seq<seq<T>>)
    requires ss != []
    ensures Flatten(ss) == Flatten(ss[..|ss| - 1]) + ss[|ss| - 1]
  {
    var init, last := ss[..|ss| - 1], ss[|ss| - 1];
    var none: seq<seq<T>> := [];
    assert ss == init + [last];
    FlattenConcat(init, [last]);
    assert [last][1..] == none;
    assert Flatten([last]) == last + Flatten(none) == last;
  }
}
