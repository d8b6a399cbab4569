/** The registry with its client objects explicit. A connection owns one client object; its id is a field that a login
    sets, so one object can be reached under several ids, and the index holds objects, not ids. */
module ConnectionTheory {
  import opened Common
  import RT = RegistryTheory
  type Title = RT.Title

  /** Names an object; a number, so that an index of objects has the type of an index of ids. */
  type Conn = nat

  datatype Client = Client(id: ClientId, titles: seq<Title>)

  datatype Server = Server(store: map<Conn, Client>, live: map<ClientId, Conn>, index: map<Title, seq<Conn>>)

  const EMPTY: Server := Server(map[], map[], map[])

  /* ---------------- the operations ---------------- */

  function At(store: map<Conn, Client>, o: Conn): Client {
    if o in store then store[o] else Client(0, [])
  }

  /** Some object of the list has the id now. */
  predicate HasId(store: map<Conn, Client>, cs: seq<Conn>, id: ClientId) {
    exists i :: 0 <= i < |cs| && At(store, cs[i]).id == id
  }

  /** The object joins the entry unless an object with that id is there. */
  function Push(store: map<Conn, Client>, index: map<Title, seq<Conn>>, t: Title, o: Conn, id: ClientId)
    : map<Title, seq<Conn>>
  {
    var cur := RT.Subscribers(index, t);
    index[t := if HasId(store, cur, id) then cur else cur + [o]]
  }

  function PushAll(store: map<Conn, Client>, index: map<Title, seq<Conn>>, ts: seq<Title>, o: Conn, id: ClientId)
    : map<Title, seq<Conn>>
  {
    if ts == [] then index else Push(store, PushAll(store, index, ts[..|ts| - 1], o, id), ts[|ts| - 1], o, id)
  }

  /** Keeps the objects whose id is another one. */
  function Retain(store: map<Conn, Client>, cs: seq<Conn>, id: ClientId): seq<Conn> {
    if cs == [] then []
    else
      var init, last := cs[..|cs| - 1], cs[|cs| - 1];
      if At(store, last).id == id then Retain(store, init, id) else Retain(store, init, id) + [last]
  }

  function Drop(store: map<Conn, Client>, index: map<Title, seq<Conn>>, t: Title, id: ClientId)
    : map<Title, seq<Conn>>
  {
    if t !in index then index
    else
      var rest := Retain(store, index[t], id);
      if rest == [] then index - {t} else index[t := rest]
  }

  function DropAll(store: map<Conn, Client>, index: map<Title, seq<Conn>>, ts: seq<Title>, id: ClientId)
    : map<Title, seq<Conn>>
  {
    if ts == [] then index else Drop(store, DropAll(store, index, ts[..|ts| - 1], id), ts[|ts| - 1], id)
  }

  /** A new connection's object, registered nowhere. */
  function Open(s: Server, o: Conn, id: ClientId): Server {
    s.(store := s.store[o := Client(id, [])])
  }

  /** The list that object `o` has after a title string is inserted. */
  function Longer(s: Server, o: Conn, t: Title): seq<Title> {
    RT.InsertTitle(At(s.store, o).titles, t)
  }

  /** A login over connection `o`. A live id's object takes the titles, behind the index's back. Otherwise the
      connection's own object takes id and titles and is added, whatever ids it is registered under already. */
  function Login(s: Server, o: Conn, id: ClientId, t: Title): Server {
    if id in s.live then
      var c := s.live[id];
      s.(store := s.store[c := Client(At(s.store, c).id, Longer(s, c, t))])
    else
      var store := s.store[o := Client(id, Longer(s, o, t))];
      Server(store, s.live[id := o], PushAll(store, s.index, Longer(s, o, t), o, id))
  }

  function Register(s: Server, id: ClientId, t: Title): Server {
    if id !in s.live then s
    else
      var o := s.live[id];
      var store := s.store[o := Client(At(s.store, o).id, Longer(s, o, t))];
      Server(store, s.live, Push(store, s.index, t, o, id))
  }

  function Unregister(s: Server, id: ClientId, t: Title): Server {
    if id !in s.live then s
    else
      var o := s.live[id];
      var store := s.store[o := Client(At(s.store, o).id, Delete(At(s.store, o).titles, t))];
      Server(store, s.live, Drop(store, s.index, t, id))
  }

  function Remove(s: Server, id: ClientId): Server {
    if id !in s.live then s
    else s.(live := s.live - {id}, index := DropAll(s.store, s.index, At(s.store, s.live[id]).titles, id))
  }

  /** A closing connection removes the id its object has by then. */
  function Close(s: Server, o: Conn): Server { Remove(s, At(s.store, o).id) }

  /* ---------------- two readings of the registry ---------------- */

  /** The object is registered under the id it has. */
  predicate Own(s: Server, o: Conn) {
    o in s.store && s.store[o].id in s.live && s.live[s.store[o].id] == o
  }

  /** A live id whose object has since taken another id. */
  predicate Stale(s: Server, id: ClientId) {
    id in s.live && At(s.store, s.live[id]).id != id
  }

  /** By object: the objects registered under the id they have, and the index as it is. */
  function ByConnection(s: Server): RT.Registry {
    RT.Registry(map o | o in s.store && Own(s, o) :: s.store[o].titles, s.index)
  }

  function Ids(store: map<Conn, Client>, cs: seq<Conn>): (r: seq<ClientId>)
    ensures |r| == |cs| && forall i :: 0 <= i < |cs| ==> r[i] == At(store, cs[i]).id
  {
    seq(|cs|, i requires 0 <= i < |cs| => At(store, cs[i]).id)
  }

  /** By id, as its users see it: every live id with its object's list, every index entry with its objects' ids. */
  function ById(s: Server): RT.Registry {
    RT.Registry(map id | id in s.live :: At(s.store, s.live[id]).titles,
                map t | t in s.index :: Ids(s.store, s.index[t]))
  }

  /** Index and lists agree object by object. */
  ghost predicate Sound(s: Server) {
    && (forall id :: id in s.live ==> s.live[id] in s.store)
    && (forall o, t :: o in s.store && t in s.store[o].titles ==> RT.Clean(t))
    && RT.Agrees(ByConnection(s))
  }

  /** No id that its object has given up still lists a title. */
  ghost predicate StaleIdsAreSilent(s: Server) {
    forall id :: Stale(s, id) ==> At(s.store, s.live[id]).titles == []
  }

  /* ---------------- agreement by id ---------------- */

  /** An object in an index entry is registered under the id it has and lists the title. */
  lemma IndexedExactly(s: Server, o: Conn, t: Title)
    requires Sound(s)
    ensures o in RT.Subscribers(s.index, t) <==> Own(s, o) && t in s.store[o].titles
  {
    assert RT.Subscribed(ByConnection(s), o, t) <==> o in RT.Subscribers(s.index, t);
  }

  lemma {:induction false} IdsNoDup(s: Server, cs: seq<Conn>)
    requires NoDup(cs) && forall c :: c in cs ==> Own(s, c)
    ensures NoDup(Ids(s.store, cs))
    decreases |cs|
  {
    if cs != [] {
      var init, last := cs[..|cs| - 1], cs[|cs| - 1];
      IdsNoDup(s, init);
      assert Ids(s.store, cs)[..|cs| - 1] == Ids(s.store, init);
      forall i | 0 <= i < |init| ensures At(s.store, init[i]).id != At(s.store, last).id {
        assert init[i] in init && Own(s, init[i]) && Own(s, last);
      }
    }
  }

  lemma TidyById(s: Server)
    requires Sound(s)
    ensures RT.Tidy(ById(s).index)
  {
    forall t | t in ById(s).index ensures NoDup(ById(s).index[t]) && ById(s).index[t] != [] {
      forall c | c in s.index[t] ensures Own(s, c) { IndexedExactly(s, c, t); }
      IdsNoDup(s, s.index[t]);
    }
  }

  /** An id is indexed under a title exactly when it is live, its object still has it and lists the title. */
  lemma IndexedById(s: Server, id: ClientId, t: Title)
    requires Sound(s)
    ensures id in RT.Subscribers(ById(s).index, t) <==>
            id in s.live && !Stale(s, id) && t in At(s.store, s.live[id]).titles
  {
    var cs := RT.Subscribers(s.index, t);
    assert RT.Subscribers(ById(s).index, t) == Ids(s.store, cs);
    if id in RT.Subscribers(ById(s).index, t) {
      var i :| 0 <= i < |cs| && At(s.store, cs[i]).id == id;
      IndexedExactly(s, cs[i], t);
    }
    if id in s.live && !Stale(s, id) && t in At(s.store, s.live[id]).titles {
      IndexedExactly(s, s.live[id], t);
      var i :| 0 <= i < |cs| && cs[i] == s.live[id];
      assert Ids(s.store, cs)[i] == id;
    }
  }

  /** What callers see agrees exactly when no given-up id still lists a title. */
  lemma AgreesByIdExactly(s: Server)
    requires Sound(s)
    ensures RT.Agrees(ById(s)) <==> StaleIdsAreSilent(s)
  {
    var r := ById(s);
    TidyById(s);
    assert RT.CleanLists(r.clients);
    if StaleIdsAreSilent(s) {
      forall id, t ensures RT.AgreesOn(r, id, t) { IndexedById(s, id, t); }
      RT.AgreesWhen(r);
    }
    if RT.Agrees(r) {
      forall id | Stale(s, id) ensures At(s.store, s.live[id]).titles == [] {
        if At(s.store, s.live[id]).titles != [] {
          var t := At(s.store, s.live[id]).titles[0];
          IndexedById(s, id, t);
          assert RT.Subscribed(r, id, t);
          assert false;
        }
      }
    }
  }

  /* ---------------- ids stand for objects ---------------- */

  /** Among the indexed objects, only `o` has the id. */
  ghost predicate Tells(store: map<Conn, Client>, index: map<Title, seq<Conn>>, o: Conn, id: ClientId) {
    forall t, c :: c in RT.Subscribers(index, t) ==> (At(store, c).id == id <==> c == o)
  }

  lemma PushAdds(store: map<Conn, Client>, index: map<Title, seq<Conn>>, t: Title, o: Conn, id: ClientId)
    requires At(store, o).id == id && Tells(store, index, o, id)
    ensures Push(store, index, t, o, id) == RT.IndexAdd(index, t, o)
    ensures Tells(store, Push(store, index, t, o, id), o, id)
  {
    var cur := RT.Subscribers(index, t);
    if o in cur {
      var i :| 0 <= i < |cur| && cur[i] == o;
      assert At(store, cur[i]).id == id;
    }
    assert HasId(store, cur, id) <==> o in cur;
    forall u, c | c in RT.Subscribers(RT.IndexAdd(index, t, o), u) ensures At(store, c).id == id <==> c == o {
      assert c == o || c in RT.Subscribers(index, u);
    }
  }

  lemma {:induction false} PushAllAdds(store: map<Conn, Client>, index: map<Title, seq<Conn>>, ts: seq<Title>, o: Conn,
                                       id: ClientId)
    requires At(store, o).id == id && Tells(store, index, o, id)
    ensures PushAll(store, index, ts, o, id) == RT.IndexAddAll(index, ts, o)
    ensures Tells(store, PushAll(store, index, ts, o, id), o, id)
    decreases |ts|
  {
    if ts != [] {
      PushAllAdds(store, index, ts[..|ts| - 1], o, id);
      PushAdds(store, PushAll(store, index, ts[..|ts| - 1], o, id), ts[|ts| - 1], o, id);
    }
  }

  lemma {:induction false} RetainDeletes(store: map<Conn, Client>, cs: seq<Conn>, o: Conn, id: ClientId)
    requires forall c :: c in cs ==> (At(store, c).id == id <==> c == o)
    ensures Retain(store, cs, id) == Delete(cs, o)
    decreases |cs|
  {
    if cs != [] {
      assert cs[|cs| - 1] in cs;
      RetainDeletes(store, cs[..|cs| - 1], o, id);
    }
  }

  lemma DropDrops(store: map<Conn, Client>, index: map<Title, seq<Conn>>, t: Title, o: Conn, id: ClientId)
    requires Tells(store, index, o, id)
    ensures Drop(store, index, t, id) == RT.IndexDrop(index, t, o)
    ensures Tells(store, Drop(store, index, t, id), o, id)
  {
    if t in index {
      forall c | c in index[t] ensures At(store, c).id == id <==> c == o {
        assert c in RT.Subscribers(index, t);
      }
      RetainDeletes(store, index[t], o, id);
      DeleteMembers(index[t], o);
      forall u, c | c in RT.Subscribers(Drop(store, index, t, id), u) ensures At(store, c).id == id <==> c == o {
        assert c in RT.Subscribers(index, u);
      }
    }
  }

  lemma {:induction false} DropAllDrops(store: map<Conn, Client>, index: map<Title, seq<Conn>>, ts: seq<Title>, o: Conn,
                                        id: ClientId)
    requires Tells(store, index, o, id)
    ensures DropAll(store, index, ts, id) == RT.IndexDropAll(index, ts, o)
    ensures Tells(store, DropAll(store, index, ts, id), o, id)
    decreases |ts|
  {
    if ts != [] {
      DropAllDrops(store, index, ts[..|ts| - 1], o, id);
      DropDrops(store, DropAll(store, index, ts[..|ts| - 1], id), ts[|ts| - 1], o, id);
    }
  }

  /** Among the indexed objects only the one registered under an id can have it. */
  lemma OwnersTell(s: Server, o: Conn, store: map<Conn, Client>, id: ClientId)
    requires Sound(s) && (id in s.live ==> s.live[id] == o)
    requires store.Keys == s.store.Keys + {o} && At(store, o).id == id
    requires forall c :: c in s.store && c != o ==> store[c].id == s.store[c].id
    ensures Tells(store, s.index, o, id)
  {
    forall t, c | c in RT.Subscribers(s.index, t) ensures At(store, c).id == id <==> c == o {
      IndexedExactly(s, c, t);
    }
  }

  /* ---------------- what each operation keeps ---------------- */

  /** Nothing changes for the other objects when one object's list changes and its id does not. */
  lemma NewList(s: Server, o: Conn, list: seq<Title>)
    requires o in s.store
    ensures var s' := s.(store := s.store[o := Client(s.store[o].id, list)]);
            && (forall c :: Own(s', c) <==> Own(s, c))
            && (Own(s, o) ==> ByConnection(s').clients == ByConnection(s).clients[o := list])
            && (!Own(s, o) ==> ByConnection(s').clients == ByConnection(s).clients)
  {}

  lemma LongerMembers(s: Server, o: Conn, t: Title)
    requires Sound(s)
    ensures forall u :: u in Longer(s, o, t) ==> RT.Clean(u)
    ensures forall u :: u in Longer(s, o, t) <==> u in At(s.store, o).titles || u in RT.Pieces(t)
  {
    RT.PiecesClean(t);
    RT.InsertAllMembers(At(s.store, o).titles, RT.Pieces(t));
  }

  lemma OpenSound(s: Server, o: Conn, id: ClientId)
    requires Sound(s) && o !in s.store
    ensures Sound(Open(s, o, id)) && ByConnection(Open(s, o, id)) == ByConnection(s)
  {
    assert forall c :: Own(Open(s, o, id), c) <==> Own(s, c);
    assert ByConnection(Open(s, o, id)).clients == ByConnection(s).clients;
  }

  lemma NewOwner(s: Server, o: Conn, id: ClientId, list: seq<Title>)
    requires o in s.store && id !in s.live
    ensures var s' := Server(s.store[o := Client(id, list)], s.live[id := o], s.index);
            ByConnection(s').clients == ByConnection(s).clients[o := list]
  {
    var s' := Server(s.store[o := Client(id, list)], s.live[id := o], s.index);
    assert forall c :: c != o ==> (Own(s', c) <==> Own(s, c));
  }

  /** Keyed by object, a login under an id that is not live is an ordinary addition. */
  lemma FirstLogin(s: Server, o: Conn, id: ClientId, t: Title)
    requires Sound(s) && o in s.store && id !in s.live
    ensures ByConnection(Login(s, o, id, t)) == RT.AddClient(ByConnection(s), o, Longer(s, o, t))
  {
    var s', list := Login(s, o, id, t), Longer(s, o, t);
    OwnersTell(s, o, s'.store, id);
    PushAllAdds(s'.store, s.index, list, o, id);
    NewOwner(s, o, id, list);
    assert ByConnection(s').clients == ByConnection(s'.(index := s.index)).clients;
  }

  /** It keeps index and lists in agreement, object by object, whether or not the connection is registered already. */
  lemma FirstLoginSound(s: Server, o: Conn, id: ClientId, t: Title)
    requires Sound(s) && o in s.store && id !in s.live
    ensures Sound(Login(s, o, id, t))
  {
    LongerMembers(s, o, t);
    FirstLogin(s, o, id, t);
    RT.AddClientAgrees(ByConnection(s), o, Longer(s, o, t));
  }

  /** A login under a live id keeps it exactly when that id's object is indexed under no id of its own or has all the
      titles. */
  lemma RepeatedLoginSoundExactly(s: Server, o: Conn, id: ClientId, t: Title)
    requires Sound(s) && id in s.live
    ensures var c := s.live[id];
            Sound(Login(s, o, id, t)) <==> (Own(s, c) ==> forall p :: p in RT.Pieces(t) ==> p in s.store[c].titles)
  {
    var s', c := Login(s, o, id, t), s.live[id];
    LongerMembers(s, c, t);
    NewList(s, c, Longer(s, c, t));
    if Own(s, c) {
      assert ByConnection(s') == RT.InsertBehindIndex(ByConnection(s), c, t);
      RT.RepeatedLoginAgreesExactly(ByConnection(s), c, t);
    }
  }

  /** Registering under the id an object has: keyed by object it is an ordinary registration. */
  lemma RegisterOwn(s: Server, id: ClientId, t: Title)
    requires Sound(s) && id in s.live && !Stale(s, id)
    ensures ByConnection(Register(s, id, t)) == RT.RegisterTitle(ByConnection(s), s.live[id], t)
    ensures Sound(Register(s, id, t)) <==> RT.Clean(t)
  {
    var s', o := Register(s, id, t), s.live[id];
    LongerMembers(s, o, t);
    NewList(s, o, Longer(s, o, t));
    assert s'.(index := s.index) == s.(store := s'.store);
    assert ByConnection(s').clients == ByConnection(s'.(index := s.index)).clients;
    OwnersTell(s, o, s'.store, id);
    PushAdds(s'.store, s.index, t, o, id);
    RT.RegisterTitleAgreesExactly(ByConnection(s), o, t);
  }

  /** No indexed object has an id that was given up. */
  lemma NobodyHas(s: Server, store: map<Conn, Client>, id: ClientId, t: Title)
    requires Sound(s) && Stale(s, id)
    requires store.Keys == s.store.Keys && forall c :: c in s.store ==> store[c].id == s.store[c].id
    ensures !HasId(store, RT.Subscribers(s.index, t), id)
  {
    var cur := RT.Subscribers(s.index, t);
    forall i | 0 <= i < |cur| ensures At(store, cur[i]).id != id { IndexedExactly(s, cur[i], t); }
  }

  /** Registering under a given-up id puts the object into the entry once more. */
  lemma RegisterStale(s: Server, id: ClientId, t: Title)
    requires Sound(s) && Stale(s, id)
    ensures var s', o := Register(s, id, t), s.live[id];
            && s'.index == s.index[t := RT.Subscribers(s.index, t) + [o]]
            && s'.live == s.live && s'.store == s.store[o := Client(s.store[o].id, Longer(s, o, t))]
            && (forall c :: Own(s', c) <==> Own(s, c))
  {
    var s', o := Register(s, id, t), s.live[id];
    NobodyHas(s, s'.store, id, t);
    NewList(s, o, Longer(s, o, t));
  }

  lemma RegisterStaleKeeps(s: Server, id: ClientId, t: Title)
    requires Sound(s) && Stale(s, id) && RT.Clean(t)
    requires Own(s, s.live[id]) && t !in s.store[s.live[id]].titles
    ensures Sound(Register(s, id, t))
  {
    var s', o := Register(s, id, t), s.live[id];
    RegisterStale(s, id, t);
    LongerMembers(s, o, t);
    IndexedExactly(s, o, t);
    assert ByConnection(s').clients == ByConnection(s).clients[o := Longer(s, o, t)];
    RT.RegisterTitleAgreesExactly(ByConnection(s), o, t);
  }

  lemma RegisterStaleBreaks(s: Server, id: ClientId, t: Title)
    requires Sound(s) && Stale(s, id)
    requires !RT.Clean(t) || !Own(s, s.live[id]) || t in s.store[s.live[id]].titles
    ensures !Sound(Register(s, id, t))
  {
    var s', o := Register(s, id, t), s.live[id];
    var cur := RT.Subscribers(s.index, t);
    RegisterStale(s, id, t);
    LongerMembers(s, o, t);
    IndexedExactly(s, o, t);
    assert (cur + [o])[..|cur|] == cur;
    if o in cur {
      assert !NoDup(s'.index[t]);
    } else if Sound(s') {
      IndexedExactly(s', o, t);
      assert false;
    }
  }

  /** Registering under a live id keeps it exactly when the title is clean and, if the object has given that id up, the
      object is registered under the id it has and did not list the title. */
  lemma RegisterSoundExactly(s: Server, id: ClientId, t: Title)
    requires Sound(s) && id in s.live
    ensures Sound(Register(s, id, t)) <==>
            RT.Clean(t) && (Stale(s, id) ==> Own(s, s.live[id]) && t !in s.store[s.live[id]].titles)
  {
    if !Stale(s, id) {
      RegisterOwn(s, id, t);
    } else if RT.Clean(t) && Own(s, s.live[id]) && t !in s.store[s.live[id]].titles {
      RegisterStaleKeeps(s, id, t);
    } else {
      RegisterStaleBreaks(s, id, t);
    }
  }

  lemma {:induction false} RetainAll(store: map<Conn, Client>, cs: seq<Conn>, id: ClientId)
    requires !HasId(store, cs, id)
    ensures Retain(store, cs, id) == cs
    decreases |cs|
  {
    if cs != [] {
      var init := cs[..|cs| - 1];
      assert forall i :: 0 <= i < |init| ==> init[i] == cs[i];
      RetainAll(store, init, id);
    }
  }

  /** Unregistering under a given-up id leaves the index alone. */
  lemma DropStale(s: Server, store: map<Conn, Client>, id: ClientId, t: Title)
    requires Sound(s) && Stale(s, id)
    requires store.Keys == s.store.Keys && forall c :: c in s.store ==> store[c].id == s.store[c].id
    ensures Drop(store, s.index, t, id) == s.index
  {
    NobodyHas(s, store, id, t);
    if t in s.index { RetainAll(store, s.index[t], id); }
  }

  lemma UnregisterOwn(s: Server, id: ClientId, t: Title)
    requires Sound(s) && id in s.live && !Stale(s, id)
    ensures ByConnection(Unregister(s, id, t)) == RT.UnregisterTitle(ByConnection(s), s.live[id], t)
    ensures Sound(Unregister(s, id, t))
  {
    var s', o := Unregister(s, id, t), s.live[id];
    DeleteMembers(s.store[o].titles, t);
    NewList(s, o, Delete(s.store[o].titles, t));
    assert s'.(index := s.index) == s.(store := s'.store);
    assert ByConnection(s').clients == ByConnection(s'.(index := s.index)).clients;
    OwnersTell(s, o, s'.store, id);
    DropDrops(s'.store, s.index, t, o, id);
    RT.UnregisterTitleAgrees(ByConnection(s), o, t);
  }

  lemma UnregisterStale(s: Server, id: ClientId, t: Title)
    requires Sound(s) && Stale(s, id)
    ensures Sound(Unregister(s, id, t)) <==> !(Own(s, s.live[id]) && t in s.store[s.live[id]].titles)
  {
    var s', o := Unregister(s, id, t), s.live[id];
    var list := s.store[o].titles;
    DeleteMembers(list, t);
    NewList(s, o, Delete(list, t));
    DropStale(s, s'.store, id, t);
    assert s' == s.(store := s'.store);
    IndexedExactly(s, o, t);
    if t !in list {
      DeleteAbsent(list, t);
      assert s'.store == s.store;
    } else if !Own(s, o) {
      assert ByConnection(s') == ByConnection(s);
    } else if Sound(s') {
      IndexedExactly(s', o, t);
      assert false;
    }
  }

  /** Unregistering keeps it exactly when the id is not a given-up one of an object indexed under the title. */
  lemma UnregisterSoundExactly(s: Server, id: ClientId, t: Title)
    requires Sound(s) && id in s.live
    ensures Sound(Unregister(s, id, t)) <==>
            (Stale(s, id) ==> !(Own(s, s.live[id]) && t in s.store[s.live[id]].titles))
  {
    if Stale(s, id) { UnregisterStale(s, id, t); } else { UnregisterOwn(s, id, t); }
  }

  lemma {:induction false} DropAllStale(s: Server, ts: seq<Title>, id: ClientId)
    requires Sound(s) && Stale(s, id)
    ensures DropAll(s.store, s.index, ts, id) == s.index
    decreases |ts|
  {
    if ts != [] {
      DropAllStale(s, ts[..|ts| - 1], id);
      DropStale(s, s.store, id, ts[|ts| - 1]);
    }
  }

  /** Removing an id always keeps it; removing a given-up id leaves the index alone. */
  lemma RemoveSound(s: Server, id: ClientId)
    requires Sound(s)
    ensures Sound(Remove(s, id))
    ensures Stale(s, id) ==> ByConnection(Remove(s, id)) == ByConnection(s)
    ensures id in s.live && !Stale(s, id) ==>
              ByConnection(Remove(s, id)) == RT.RemoveClient(ByConnection(s), s.live[id])
  {
    if id in s.live {
      var s', o := Remove(s, id), s.live[id];
      if Stale(s, id) {
        DropAllStale(s, s.store[o].titles, id);
        assert forall c :: Own(s', c) <==> Own(s, c);
        assert ByConnection(s').clients == ByConnection(s).clients;
      } else {
        OwnersTell(s, o, s.store, id);
        DropAllDrops(s.store, s.index, s.store[o].titles, o, id);
        assert forall c :: Own(s', c) <==> Own(s, c) && c != o;
        assert ByConnection(s').clients == ByConnection(s).clients - {o};
        RT.RemoveClientAgrees(ByConnection(s), o);
      }
    }
  }

  /** A closed connection's object is in no index entry, and its id is not live. */
  lemma CloseForgets(s: Server, o: Conn, t: Title)
    requires Sound(s) && o in s.store
    ensures var s' := Close(s, o);
            Sound(s') && s.store[o].id !in s'.live && o !in RT.Subscribers(s'.index, t)
  {
    RemoveSound(s, s.store[o].id);
    IndexedExactly(Close(s, o), o, t);
  }

  /* ---------------- a second login on one connection ---------------- */

  /** A connection registered as `was` logs in as `id`: what callers see stays in agreement exactly when the connection
      then lists no title at all. */
  lemma SecondLoginAgreesExactly(s: Server, was: ClientId, id: ClientId, t: Title)
    requires Sound(s) && RT.Agrees(ById(s)) && was in s.live && id !in s.live
    ensures RT.Agrees(ById(Login(s, s.live[was], id, t))) <==> RT.InsertTitle(ById(s).clients[was], t) == []
  {
    var o := s.live[was];
    var s' := Login(s, o, id, t);
    AgreesByIdExactly(s);
    FirstLoginSound(s, o, id, t);
    AgreesByIdExactly(s');
    assert Stale(s', was) && At(s'.store, s'.live[was]).titles == Longer(s, o, t);
    forall k | Stale(s', k) && Longer(s, o, t) == [] ensures At(s'.store, s'.live[k]).titles == [] {
      if s.live[k] != o { assert Stale(s, k); }
    }
  }

  /** After it both ids are live with one list, `id` is indexed under all of it and `was` under nothing. */
  lemma SecondLoginMovesTheIndex(s: Server, was: ClientId, id: ClientId, t: Title, u: Title)
    requires Sound(s) && was in s.live && id !in s.live
    ensures var r := ById(Login(s, s.live[was], id, t));
            && was in r.clients && id in r.clients
            && r.clients[was] == r.clients[id] == RT.InsertTitle(ById(s).clients[was], t)
            && (id in RT.Subscribers(r.index, u) <==> u in r.clients[id])
            && was !in RT.Subscribers(r.index, u)
  {
    var s' := Login(s, s.live[was], id, t);
    FirstLoginSound(s, s.live[was], id, t);
    IndexedById(s', id, u);
    IndexedById(s', was, u);
  }

  lemma TwoLogins(s: Server, o: Conn, a: ClientId, t: Title, b: ClientId, u: Title)
    requires Sound(s) && o in s.store && a !in s.live && b !in s.live && a != b && RT.Clean(t)
    ensures var s2 := Login(Login(s, o, a, t), o, b, u);
            && Sound(s2) && o in s2.store && s2.store[o].id == b && t in s2.store[o].titles
            && a in s2.live && s2.live[a] == o
  {
    var s1 := Login(s, o, a, t);
    LongerMembers(s, o, t);
    RT.PiecesClean(t);
    FirstLoginSound(s, o, a, t);
    LongerMembers(s1, o, u);
    FirstLoginSound(s1, o, b, u);
  }

  /** Login as `a`, login as `b`, close: from any server, `a` stays live and lists its title, and no index entry names
      it. */
  lemma SecondLoginStrandsAClient(s: Server, o: Conn, a: ClientId, t: Title, b: ClientId, u: Title, v: Title)
    requires Sound(s) && o in s.store && a !in s.live && b !in s.live && a != b && RT.Clean(t)
    ensures var r := ById(Close(Login(Login(s, o, a, t), o, b, u), o));
            a in r.clients && t in r.clients[a] && a !in RT.Subscribers(r.index, v) && !RT.Agrees(r)
  {
    var s2 := Login(Login(s, o, a, t), o, b, u);
    TwoLogins(s, o, a, t, b, u);
    RemoveSound(s2, b);
    var s3 := Close(s2, o);
    assert Stale(s3, a) && t in At(s3.store, s3.live[a]).titles;
    IndexedById(s3, a, v);
    AgreesByIdExactly(s3);
  }
}
