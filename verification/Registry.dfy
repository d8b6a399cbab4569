/** Client objects and the in-memory registry that indexes them by id and by title. */
module ClientRegistries {
  import opened Common
  import RT = RegistryTheory
  type Title = RT.Title

  /** A connected client; its title list is edited in place. Its id is the one it logged in with; a connection that
      logs in again under another id is in `ConnectionTheory`. */
  class RexClient {
    const id: ClientId
    var titles: seq<Title>
    /** When something was last received from it. */
    var lastRecv: nat

    /** The initial list is not checked for repetitions. */
    constructor (id: ClientId, title: Title, now: nat)
      ensures this.id == id && titles == RT.Pieces(title) && lastRecv == now
    {
      this.id := id;
      lastRecv := now;
      titles := RT.Pieces(title);
    }

    method InsertTitle(title: Title)
      modifies this`titles
      ensures titles == RT.InsertTitle(old(titles), title)
    {
      var pieces := RT.SplitText(title.text);
      for i := 0 to |pieces|
        invariant titles == RT.InsertAll(old(titles), RT.NonEmpty(pieces[..i]))
      {
        TakeOneMore(pieces, i);
        PieceTaken(old(titles), pieces[..i], pieces[i]);
        if pieces[i] != [] && RT.Title(pieces[i]) !in titles {
          titles := titles + [RT.Title(pieces[i])];
        }
      }
      assert pieces[..|pieces|] == pieces;
    }

    method RemoveTitle(title: Title)
      modifies this`titles
      ensures titles == Delete(old(titles), title)
    {
      titles := Delete(titles, title);
    }
  }

  lemma {:induction false} NonEmptySnoc(ps: seq<string>, p: string)
    ensures RT.NonEmpty(ps + [p]) == if p == [] then RT.NonEmpty(ps) else RT.NonEmpty(ps) + [RT.Title(p)]
  {
    if ps == [] {
      assert ps + [p] == [p] && [p][1..] == [];
      assert RT.NonEmpty([p][1..]) == [];
    } else {
      assert (ps + [p])[1..] == ps[1..] + [p];
      NonEmptySnoc(ps[1..], p);
    }
  }

  lemma PieceTaken(list: seq<Title>, ps: seq<string>, p: string)
    ensures RT.InsertAll(list, RT.NonEmpty(ps + [p]))
            == var before := RT.InsertAll(list, RT.NonEmpty(ps));
               if p == [] || RT.Title(p) in before then before else before + [RT.Title(p)]
  {
    NonEmptySnoc(ps, p);
    var ts := RT.NonEmpty(ps);
    if p != [] { assert (ts + [RT.Title(p)])[..|ts|] == ts; }
  }

  /* ---------------- lists of clients, seen as lists of ids ---------------- */

  type TitleMap = map<Title, seq<RexClient>>
  type ClientMap = map<ClientId, RexClient>

  function IdsOf(cs: seq<RexClient>): (r: seq<ClientId>)
    ensures |r| == |cs|
  {
    seq(|cs|, i requires 0 <= i < |cs| => cs[i].id)
  }

  ghost function IndexIds(m: TitleMap): map<Title, seq<ClientId>> {
    map t | t in m :: IdsOf(m[t])
  }

  function Listed(m: TitleMap, t: Title): seq<RexClient> {
    if t in m then m[t] else []
  }

  /** `entry(t).or_default()`, then a push unless the client is there. */
  function Push(m: TitleMap, t: Title, client: RexClient): TitleMap {
    var cur := Listed(m, t);
    m[t := if client.id in IdsOf(cur) then cur else cur + [client]]
  }

  function Retain(cs: seq<RexClient>, id: ClientId): seq<RexClient> {
    if cs == [] then []
    else
      var before := Retain(cs[..|cs| - 1], id);
      if cs[|cs| - 1].id == id then before else before + [cs[|cs| - 1]]
  }

  /** `retain`, and no entry for a list that became empty. */
  function Drop(m: TitleMap, t: Title, id: ClientId): TitleMap {
    if t !in m then m
    else
      var rest := Retain(m[t], id);
      if rest == [] then m - {t} else m[t := rest]
  }

  /** Every indexed client is the live client of its id. */
  ghost predicate Linked(m: TitleMap, live: ClientMap) {
    forall t, c :: t in m && c in m[t] ==> c.id in live && live[c.id] == c
  }

  lemma PushIds(m: TitleMap, t: Title, client: RexClient)
    ensures IndexIds(Push(m, t, client)) == RT.IndexAdd(IndexIds(m), t, client.id)
  {
    assert IdsOf([]) == [];
    assert IdsOf(Listed(m, t)) == RT.Subscribers(IndexIds(m), t);
    assert IdsOf(Listed(m, t) + [client]) == IdsOf(Listed(m, t)) + [client.id];
  }

  lemma PushLinked(m: TitleMap, live: ClientMap, t: Title, client: RexClient)
    requires Linked(m, live) && client.id in live && live[client.id] == client
    ensures Linked(Push(m, t, client), live)
  {}

  lemma {:induction false} RetainIds(cs: seq<RexClient>, id: ClientId)
    ensures IdsOf(Retain(cs, id)) == Delete(IdsOf(cs), id)
  {
    if cs != [] {
      var init, last := cs[..|cs| - 1], cs[|cs| - 1];
      RetainIds(init, id);
      assert IdsOf(cs)[..|cs| - 1] == IdsOf(init);
      assert IdsOf(Retain(init, id) + [last]) == IdsOf(Retain(init, id)) + [last.id];
    }
  }

  lemma {:induction false} RetainMembers(cs: seq<RexClient>, id: ClientId, c: RexClient)
    ensures c in Retain(cs, id) <==> c in cs && c.id != id
  {
    if cs != [] {
      assert cs == cs[..|cs| - 1] + [cs[|cs| - 1]];
      RetainMembers(cs[..|cs| - 1], id, c);
    }
  }

  lemma DropIds(m: TitleMap, t: Title, id: ClientId)
    ensures IndexIds(Drop(m, t, id)) == RT.IndexDrop(IndexIds(m), t, id)
  {
    if t in m {
      RetainIds(m[t], id);
      assert IdsOf(Retain(m[t], id)) == [] <==> Retain(m[t], id) == [];
    }
  }

  lemma DropLinked(m: TitleMap, live: ClientMap, t: Title, id: ClientId)
    requires Linked(m, live)
    ensures Linked(Drop(m, t, id), live)
  {
    if t in m {
      forall c | c in Retain(m[t], id) ensures c in m[t] { RetainMembers(m[t], id, c); }
    }
  }

  /** The index after a client has been dropped from the titles `ts`. */
  ghost predicate Dropped(m: TitleMap, m': TitleMap, live: ClientMap, ts: seq<Title>, id: ClientId) {
    Linked(m', live) && IndexIds(m') == RT.IndexDropAll(IndexIds(m), ts, id)
  }

  lemma DropMore(m: TitleMap, m': TitleMap, live: ClientMap, ts: seq<Title>, t: Title, id: ClientId)
    requires Dropped(m, m', live, ts, id)
    ensures Dropped(m, Drop(m', t, id), live, ts + [t], id)
  {
    assert (ts + [t])[..|ts|] == ts;
    DropIds(m', t, id);
    DropLinked(m', live, t, id);
  }

  /** The index after a client was pushed to the titles `ts`: everybody else stays, only it can be new. */
  ghost predicate Pushed(m: TitleMap, m': TitleMap, ts: seq<Title>, client: RexClient) {
    && IndexIds(m') == RT.IndexAddAll(IndexIds(m), ts, client.id)
    && (forall t, c :: t in m && c in m[t] ==> t in m' && c in m'[t])
    && (forall t, c :: t in m' && c in m'[t] ==> c == client || (t in m && c in m[t]))
  }

  lemma PushMore(m: TitleMap, m': TitleMap, ts: seq<Title>, t: Title, client: RexClient)
    requires Pushed(m, m', ts, client)
    ensures Pushed(m, Push(m', t, client), ts + [t], client)
  {
    assert (ts + [t])[..|ts|] == ts;
    PushIds(m', t, client);
  }

  lemma LinkedAfterPush(m: TitleMap, m': TitleMap, live: ClientMap, ts: seq<Title>, client: RexClient)
    requires Pushed(m, m', ts, client) && client.id in live && live[client.id] == client
    ensures Linked(m', live) <==> Linked(m, live)
  {}

  /** Putting a client object under its id leaves the index linked exactly when the index does not hold another object
      with that id. */
  lemma LinkedAfterInsert(m: TitleMap, live: ClientMap, client: RexClient)
    requires Linked(m, live)
    ensures Linked(m, live[client.id := client]) <==>
            (client.id in live ==> live[client.id] == client || forall t :: t in m ==> client.id !in IdsOf(m[t]))
  {
    var live' := live[client.id := client];
    if client.id in live && live[client.id] != client {
      if t :| t in m && client.id in IdsOf(m[t]) {
        var i :| 0 <= i < |m[t]| && IdsOf(m[t])[i] == client.id;
        assert m[t][i] in m[t] && m[t][i] != client;
      } else {
        forall t, c | t in m && c in m[t] ensures c.id in live' && live'[c.id] == c {
          var i :| 0 <= i < |m[t]| && m[t][i] == c;
          assert IdsOf(m[t])[i] == c.id;
        }
      }
    }
  }

  /** A dropped client no longer occurs anywhere, so the rest stay linked without it. */
  lemma UnlinkedAfterDrop(m: TitleMap, live: ClientMap, id: ClientId)
    requires Linked(m, live) && forall t :: t in m ==> id !in IdsOf(m[t])
    ensures Linked(m, live - {id})
  {
    forall t, c | t in m && c in m[t] ensures c.id != id {
      var i :| 0 <= i < |m[t]| && m[t][i] == c;
      assert IdsOf(m[t])[i] == c.id;
    }
  }

  /** What the id map knows of every client's titles. */
  ghost function ListsOf(live: ClientMap): map<ClientId, seq<Title>>
    reads live.Values
  {
    map id | id in live :: live[id].titles
  }

  lemma ListsOfInsert(live: ClientMap, client: RexClient)
    ensures ListsOf(live[client.id := client]) == ListsOf(live)[client.id := client.titles]
  {}
}
