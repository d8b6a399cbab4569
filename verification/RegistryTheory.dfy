/** The client registry on values: each live client's own title list, and an index from title to
    subscribers that must say the same thing. */
module RegistryTheory {
  import opened Common

  datatype Title = Title(text: string)

  datatype Registry = Registry(clients: map<ClientId, seq<Title>>, index: map<Title, seq<ClientId>>)

  /** What is remembered of a client from an earlier run of the server. */
  datatype Ghost = Ghost(titles: seq<Title>, until: nat)

  const EMPTY: Registry := Registry(map[], map[])

  /* ---------------- title lists ---------------- */

  /** The text cut at every `;`, empty pieces included. */
  function SplitText(s: string): (r: seq<string>)
    ensures r != []
  {
    if s == [] then [[]]
    else
      var rest := SplitText(s[1..]);
      if s[0] == ';' then [[]] + rest else [[s[0]] + rest[0]] + rest[1..]
  }

  function NonEmpty(pieces: seq<string>): seq<Title> {
    if pieces == [] then []
    else if pieces[0] == [] then NonEmpty(pieces[1..])
    else [Title(pieces[0])] + NonEmpty(pieces[1..])
  }

  /** The titles a client's list receives for one title string. */
  function Pieces(t: Title): seq<Title> {
    NonEmpty(SplitText(t.text))
  }

  /** Appends the titles that are not yet there. */
  function InsertAll(list: seq<Title>, ts: seq<Title>): seq<Title> {
    if ts == [] then list
    else
      var before := InsertAll(list, ts[..|ts| - 1]);
      if ts[|ts| - 1] in before then before else before + [ts[|ts| - 1]]
  }

  function InsertTitle(list: seq<Title>, t: Title): seq<Title> {
    InsertAll(list, Pieces(t))
  }

  /** A title that splitting leaves alone. */
  predicate Clean(t: Title) {
    t.text != [] && ';' !in t.text
  }

  lemma {:induction false} SplitWithoutSemicolon(s: string)
    requires ';' !in s
    ensures SplitText(s) == [s]
  {
    if s != [] {
      assert s == [s[0]] + s[1..];
      SplitWithoutSemicolon(s[1..]);
    }
  }

  lemma {:induction false} SplitPieces(s: string, p: string)
    requires p in SplitText(s)
    ensures ';' !in p
  {
    if s != [] {
      var rest := SplitText(s[1..]);
      if s[0] != ';' && p == [s[0]] + rest[0] {
        SplitPieces(s[1..], rest[0]);
      } else if p != [] {
        SplitPieces(s[1..], p);
      }
    }
  }

  function JoinText(pieces: seq<string>): string
    requires pieces != []
  {
    if |pieces| == 1 then pieces[0] else pieces[0] + ";" + JoinText(pieces[1..])
  }

  /** Splitting loses nothing: joined with `;` the pieces are the text again. */
  lemma {:induction false} JoinOfSplit(s: string)
    ensures JoinText(SplitText(s)) == s
    ensures forall p :: p in SplitText(s) ==> ';' !in p
  {
    forall p | p in SplitText(s) ensures ';' !in p { SplitPieces(s, p); }
    if s != [] {
      var rest := SplitText(s[1..]);
      JoinOfSplit(s[1..]);
      assert s == [s[0]] + s[1..];
      if s[0] == ';' {
        assert ([[]] + rest)[1..] == rest;
        assert JoinText([[]] + rest) == [] + ";" + JoinText(rest);
      } else {
        var all := [[s[0]] + rest[0]] + rest[1..];
        assert all[1..] == rest[1..];
        if |rest| > 1 { assert JoinText(all) == ([s[0]] + rest[0]) + ";" + JoinText(rest[1..]); }
      }
    }
  }

  /** `s[i..j]` is a longest stretch without `;`. */
  predicate Stretch(s: string, i: nat, j: nat) {
    && i <= j <= |s| && ';' !in s[i..j]
    && (i == 0 || s[i - 1] == ';') && (j == |s| || s[j] == ';')
  }

  /** The first piece is the stretch from the start of the text. */
  lemma {:induction false} FirstPiece(s: string)
    ensures |SplitText(s)[0]| <= |s| && SplitText(s)[0] == s[..|SplitText(s)[0]|] && Stretch(s, 0, |SplitText(s)[0]|)
  {
    if s != [] && s[0] != ';' {
      FirstPiece(s[1..]);
      var k := |SplitText(s[1..])[0]|;
      assert s[..k + 1] == [s[0]] + s[1..][..k];
      assert k + 1 < |s| ==> s[k + 1] == s[1..][k];
    }
  }

  lemma StretchFromStart(s: string, j: nat, k: nat)
    requires Stretch(s, 0, j) && Stretch(s, 0, k)
    ensures j <= k
  {
    var head := s[0..j];
    assert forall m :: 0 <= m < |head| ==> head[m] == s[m];
  }

  /** A stretch further on is one of the text without its first character. */
  lemma StretchShift(s: string, i: nat, j: nat)
    requires s != [] && 0 < i <= j <= |s| && (i == 1 ==> s[0] == ';')
    ensures Stretch(s, i, j) <==> Stretch(s[1..], i - 1, j - 1)
    ensures s[i..j] == s[1..][i - 1..j - 1]
  {
    var t := s[1..];
    assert |s[i..j]| == |t[i - 1..j - 1]|;
    assert forall m :: 0 <= m < j - i ==> s[i..j][m] == t[i - 1..j - 1][m];
    assert s[i..j] == t[i - 1..j - 1];
  }

  lemma LaterPiece(s: string, k: nat)
    requires 0 < k < |SplitText(s)|
    ensures s != [] && var j := if s[0] == ';' then k - 1 else k;
            j < |SplitText(s[1..])| && SplitText(s)[k] == SplitText(s[1..])[j]
  {
    if s != [] {
      var rest := SplitText(s[1..]);
      assert s[0] == ';' ==> SplitText(s) == [[]] + rest;
      assert s[0] != ';' ==> SplitText(s) == [[s[0]] + rest[0]] + rest[1..];
    }
  }

  /** Every piece is a longest stretch without `;`, the first at the start and the others further on. */
  lemma {:induction false} PieceIsStretch(s: string, k: nat) returns (i: nat, j: nat)
    requires k < |SplitText(s)|
    ensures Stretch(s, i, j) && s[i..j] == SplitText(s)[k] && (i == 0 <==> k == 0)
  {
    if k == 0 {
      FirstPiece(s);
      i, j := 0, |SplitText(s)[0]|;
    } else {
      LaterPiece(s, k);
      var a, b := PieceIsStretch(s[1..], if s[0] == ';' then k - 1 else k);
      StretchShift(s, a + 1, b + 1);
      i, j := a + 1, b + 1;
    }
  }

  /** Every longest stretch without `;` is a piece. */
  lemma {:induction false} StretchIsPiece(s: string, i: nat, j: nat) returns (k: nat)
    requires Stretch(s, i, j)
    ensures k < |SplitText(s)| && SplitText(s)[k] == s[i..j] && (i == 0 <==> k == 0)
  {
    if i == 0 {
      k := 0;
      FirstPiece(s);
      StretchFromStart(s, j, |SplitText(s)[0]|);
      StretchFromStart(s, |SplitText(s)[0]|, j);
    } else {
      StretchShift(s, i, j);
      k := StretchIsPiece(s[1..], i - 1, j - 1);
      if s[0] == ';' { k := k + 1; }
    }
  }

  lemma {:induction false} NonEmptyMembers(pieces: seq<string>)
    ensures forall t :: t in NonEmpty(pieces) <==> t.text in pieces && t.text != []
  {
    if pieces != [] {
      assert pieces == [pieces[0]] + pieces[1..];
      NonEmptyMembers(pieces[1..]);
    }
  }

  /** Pieces are always clean, and a clean title is its own only piece. */
  lemma PiecesClean(t: Title)
    ensures forall p :: p in Pieces(t) ==> Clean(p)
    ensures Clean(t) ==> Pieces(t) == [t]
  {
    NonEmptyMembers(SplitText(t.text));
    forall p | p in Pieces(t) ensures Clean(p) { SplitPieces(t.text, p.text); }
    if Clean(t) {
      SplitWithoutSemicolon(t.text);
      assert NonEmpty([t.text]) == [Title(t.text)] + NonEmpty([t.text][1..]);
    }
  }

  lemma {:induction false} InsertAllMembers(list: seq<Title>, ts: seq<Title>)
    ensures forall t :: t in InsertAll(list, ts) <==> t in list || t in ts
  {
    if ts != [] {
      assert ts == ts[..|ts| - 1] + [ts[|ts| - 1]];
      InsertAllMembers(list, ts[..|ts| - 1]);
    }
  }

  /** What a title string adds to a list, read off the text: its nonempty longest stretches without `;`. */
  lemma InsertTitleExactly(list: seq<Title>, t: Title, p: string)
    ensures Title(p) in InsertTitle(list, t) <==>
            Title(p) in list || (p != [] && exists i: nat, j: nat :: Stretch(t.text, i, j) && t.text[i..j] == p)
  {
    InsertAllMembers(list, Pieces(t));
    NonEmptyMembers(SplitText(t.text));
    if p in SplitText(t.text) {
      var k :| 0 <= k < |SplitText(t.text)| && SplitText(t.text)[k] == p;
      var i, j := PieceIsStretch(t.text, k);
    }
    forall i: nat, j: nat | Stretch(t.text, i, j) && t.text[i..j] == p ensures p in SplitText(t.text) {
      var k := StretchIsPiece(t.text, i, j);
    }
  }

  /** The list keeps its order, grows at the end, and gets no repetitions. */
  lemma {:induction false} InsertAllGrows(list: seq<Title>, ts: seq<Title>)
    ensures list <= InsertAll(list, ts)
    ensures NoDup(list) ==> NoDup(InsertAll(list, ts))
  {
    if ts != [] {
      var before, t := InsertAll(list, ts[..|ts| - 1]), ts[|ts| - 1];
      InsertAllGrows(list, ts[..|ts| - 1]);
      if t !in before && NoDup(before) { AppendNoDup(before, t); }
    }
  }

  lemma InsertCleanMembers(list: seq<Title>, t: Title)
    requires Clean(t)
    ensures forall u :: u in InsertTitle(list, t) <==> u in list || u == t
  {
    PiecesClean(t);
    InsertAllMembers(list, Pieces(t));
  }

  /* ---------------- the index ---------------- */

  function Subscribers(index: map<Title, seq<ClientId>>, t: Title): seq<ClientId> {
    if t in index then index[t] else []
  }

  function IndexAdd(index: map<Title, seq<ClientId>>, t: Title, id: ClientId): map<Title, seq<ClientId>> {
    var cur := Subscribers(index, t);
    index[t := if id in cur then cur else cur + [id]]
  }

  function IndexAddAll(index: map<Title, seq<ClientId>>, ts: seq<Title>, id: ClientId): map<Title, seq<ClientId>> {
    if ts == [] then index else IndexAdd(IndexAddAll(index, ts[..|ts| - 1], id), ts[|ts| - 1], id)
  }

  function IndexDrop(index: map<Title, seq<ClientId>>, t: Title, id: ClientId): map<Title, seq<ClientId>> {
    if t !in index then index
    else
      var rest := Delete(index[t], id);
      if rest == [] then index - {t} else index[t := rest]
  }

  function IndexDropAll(index: map<Title, seq<ClientId>>, ts: seq<Title>, id: ClientId): map<Title, seq<ClientId>> {
    if ts == [] then index else IndexDrop(IndexDropAll(index, ts[..|ts| - 1], id), ts[|ts| - 1], id)
  }

  /** Every index entry is a nonempty list without repetition. */
  ghost predicate Tidy(index: map<Title, seq<ClientId>>) {
    forall t :: t in index ==> NoDup(index[t]) && index[t] != []
  }

  lemma IndexAddEffect(index: map<Title, seq<ClientId>>, t: Title, id: ClientId)
    requires Tidy(index)
    ensures Tidy(IndexAdd(index, t, id))
    ensures forall u, x :: x in Subscribers(IndexAdd(index, t, id), u) <==>
                           x in Subscribers(index, u) || (u == t && x == id)
  {
    var cur := Subscribers(index, t);
    if id !in cur { AppendNoDup(cur, id); }
  }

  lemma {:induction false} IndexAddAllEffect(index: map<Title, seq<ClientId>>, ts: seq<Title>, id: ClientId)
    requires Tidy(index)
    ensures Tidy(IndexAddAll(index, ts, id))
    ensures forall u, x :: x in Subscribers(IndexAddAll(index, ts, id), u) <==>
                           x in Subscribers(index, u) || (u in ts && x == id)
  {
    if ts != [] {
      var init, last := ts[..|ts| - 1], ts[|ts| - 1];
      assert ts == init + [last];
      IndexAddAllEffect(index, init, id);
      IndexAddEffect(IndexAddAll(index, init, id), last, id);
    }
  }

  lemma IndexDropEffect(index: map<Title, seq<ClientId>>, t: Title, id: ClientId)
    requires Tidy(index)
    ensures Tidy(IndexDrop(index, t, id))
    ensures forall u, x :: x in Subscribers(IndexDrop(index, t, id), u) <==>
                           x in Subscribers(index, u) && !(u == t && x == id)
  {
    if t in index {
      DeleteMembers(index[t], id);
      DeleteKeepsNoDup(index[t], id);
    }
  }

  lemma {:induction false} IndexDropAllEffect(index: map<Title, seq<ClientId>>, ts: seq<Title>, id: ClientId)
    requires Tidy(index)
    ensures Tidy(IndexDropAll(index, ts, id))
    ensures forall u, x :: x in Subscribers(IndexDropAll(index, ts, id), u) <==>
                           x in Subscribers(index, u) && !(u in ts && x == id)
  {
    if ts != [] {
      var init, last := ts[..|ts| - 1], ts[|ts| - 1];
      assert ts == init + [last];
      IndexDropAllEffect(index, init, id);
      IndexDropEffect(IndexDropAll(index, init, id), last, id);
    }
  }

  /* ---------------- the operations ---------------- */

  function AddClient(r: Registry, id: ClientId, titles: seq<Title>): Registry {
    Registry(r.clients[id := titles], IndexAddAll(r.index, titles, id))
  }

  function RemoveClient(r: Registry, id: ClientId): Registry {
    if id !in r.clients then r
    else Registry(r.clients - {id}, IndexDropAll(r.index, r.clients[id], id))
  }

  /** The list receives the pieces, the index the string as a whole. */
  function RegisterTitle(r: Registry, id: ClientId, t: Title): Registry {
    if id !in r.clients then r
    else Registry(r.clients[id := InsertTitle(r.clients[id], t)], IndexAdd(r.index, t, id))
  }

  function UnregisterTitle(r: Registry, id: ClientId, t: Title): Registry {
    if id !in r.clients then r
    else Registry(r.clients[id := Delete(r.clients[id], t)], IndexDrop(r.index, t, id))
  }

  /** The existing-client branch of login: the list grows behind the index's back. */
  function InsertBehindIndex(r: Registry, id: ClientId, t: Title): Registry {
    if id !in r.clients then r
    else r.(clients := r.clients[id := InsertTitle(r.clients[id], t)])
  }

  ghost predicate Subscribed(r: Registry, id: ClientId, t: Title) {
    id in r.clients && t in r.clients[id]
  }

  ghost predicate CleanLists(clients: map<ClientId, seq<Title>>) {
    forall id, t :: id in clients && t in clients[id] ==> Clean(t)
  }

  /** The index lists exactly the live clients whose own list holds the title, each once. */
  ghost predicate Agrees(r: Registry) {
    && Tidy(r.index)
    && CleanLists(r.clients)
    && forall id, t {:trigger Subscribed(r, id, t)} :: id in Subscribers(r.index, t) <==> Subscribed(r, id, t)
  }

  /** What the index must say of one client and one title. */
  ghost predicate AgreesOn(r: Registry, id: ClientId, t: Title) {
    id in Subscribers(r.index, t) <==> Subscribed(r, id, t)
  }

  lemma AgreesWhen(r: Registry)
    requires Tidy(r.index) && CleanLists(r.clients)
    requires forall id, t :: AgreesOn(r, id, t)
    ensures Agrees(r)
  {
    forall id, t ensures id in Subscribers(r.index, t) <==> Subscribed(r, id, t) { assert AgreesOn(r, id, t); }
  }

  /** What `add_client` relies on: clean titles, and an id that is not live or was listed under no other titles. */
  ghost predicate CanAdd(r: Registry, id: ClientId, titles: seq<Title>) {
    && (forall t :: t in titles ==> Clean(t))
    && (id in r.clients ==> forall t :: t in r.clients[id] ==> t in titles)
  }

  lemma AddClientAgrees(r: Registry, id: ClientId, titles: seq<Title>)
    requires Agrees(r) && CanAdd(r, id, titles)
    ensures Agrees(AddClient(r, id, titles))
  {
    var r' := AddClient(r, id, titles);
    IndexAddAllEffect(r.index, titles, id);
    forall x, t ensures AgreesOn(r', x, t) {
      assert Subscribed(r, x, t) <==> x in Subscribers(r.index, t);
    }
    AgreesWhen(r');
  }

  /** Adding keeps list and index in agreement exactly then: a live id that loses a title stays indexed under it. */
  lemma AddClientAgreesExactly(r: Registry, id: ClientId, titles: seq<Title>)
    requires Agrees(r)
    ensures Agrees(AddClient(r, id, titles)) <==> CanAdd(r, id, titles)
  {
    var r' := AddClient(r, id, titles);
    if CanAdd(r, id, titles) {
      AddClientAgrees(r, id, titles);
    } else if t :| t in titles && !Clean(t) {
      assert id in r'.clients && t in r'.clients[id];
    } else {
      var t :| t in r.clients[id] && t !in titles;
      IndexAddAllEffect(r.index, titles, id);
      assert Subscribed(r, id, t) && !Subscribed(r', id, t);
      assert id in Subscribers(r'.index, t);
    }
  }

  lemma RemoveClientAgrees(r: Registry, id: ClientId)
    requires Agrees(r)
    ensures Agrees(RemoveClient(r, id))
  {
    if id in r.clients {
      var r' := RemoveClient(r, id);
      IndexDropAllEffect(r.index, r.clients[id], id);
      forall x, t ensures AgreesOn(r', x, t) {
        assert Subscribed(r, x, t) <==> x in Subscribers(r.index, t);
      }
      AgreesWhen(r');
    }
  }

  lemma UnregisterTitleAgrees(r: Registry, id: ClientId, t: Title)
    requires Agrees(r)
    ensures Agrees(UnregisterTitle(r, id, t))
  {
    if id in r.clients {
      var r' := UnregisterTitle(r, id, t);
      IndexDropEffect(r.index, t, id);
      DeleteMembers(r.clients[id], t);
      forall x, u ensures AgreesOn(r', x, u) {
        assert Subscribed(r, x, u) <==> x in Subscribers(r.index, u);
      }
      AgreesWhen(r');
    }
  }

  lemma AgreesAfterSubscribing(r: Registry, id: ClientId, t: Title, list: seq<Title>, index: map<Title, seq<ClientId>>)
    requires Agrees(r) && id in r.clients && Clean(t) && Tidy(index)
    requires forall u :: u in list <==> u in r.clients[id] || u == t
    requires forall u, x :: x in Subscribers(index, u) <==> x in Subscribers(r.index, u) || (u == t && x == id)
    ensures Agrees(Registry(r.clients[id := list], index))
  {
    var r' := Registry(r.clients[id := list], index);
    forall x, u ensures AgreesOn(r', x, u) {
      assert Subscribed(r, x, u) <==> x in Subscribers(r.index, u);
    }
    AgreesWhen(r');
  }

  lemma RegisterCleanAgrees(r: Registry, id: ClientId, t: Title)
    requires Agrees(r) && id in r.clients && Clean(t)
    ensures Agrees(RegisterTitle(r, id, t))
  {
    IndexAddEffect(r.index, t, id);
    InsertCleanMembers(r.clients[id], t);
    AgreesAfterSubscribing(r, id, t, InsertTitle(r.clients[id], t), IndexAdd(r.index, t, id));
  }

  /** An unclean title is indexed whole while the list gets its pieces: the index names a client that does not list
      it. */
  lemma RegisterUncleanBreaks(r: Registry, id: ClientId, t: Title)
    requires Agrees(r) && id in r.clients && !Clean(t)
    ensures var r' := RegisterTitle(r, id, t);
            id in Subscribers(r'.index, t) && !Subscribed(r', id, t) && !Agrees(r')
  {
    var r' := RegisterTitle(r, id, t);
    assert id in Subscribers(r'.index, t);
    PiecesClean(t);
    InsertAllMembers(r.clients[id], Pieces(t));
    assert !Subscribed(r', id, t);
  }

  /** Registering a title keeps list and index in agreement exactly when the title is nonempty and has
      no `;`, or the client is not live. */
  lemma RegisterTitleAgreesExactly(r: Registry, id: ClientId, t: Title)
    requires Agrees(r)
    ensures Agrees(RegisterTitle(r, id, t)) <==> (id in r.clients ==> Clean(t))
  {
    if id in r.clients {
      if Clean(t) { RegisterCleanAgrees(r, id, t); } else { RegisterUncleanBreaks(r, id, t); }
    }
  }

  /** A repeated login keeps agreement exactly when it brings no title the client does not already have. */
  lemma RepeatedLoginAgreesExactly(r: Registry, id: ClientId, t: Title)
    requires Agrees(r) && id in r.clients
    ensures Agrees(InsertBehindIndex(r, id, t)) <==> forall p :: p in Pieces(t) ==> p in r.clients[id]
  {
    var r' := InsertBehindIndex(r, id, t);
    PiecesClean(t);
    InsertAllMembers(r.clients[id], Pieces(t));
    if forall p :: p in Pieces(t) ==> p in r.clients[id] {
      forall x, u ensures AgreesOn(r', x, u) {
        assert Subscribed(r, x, u) <==> x in Subscribers(r.index, u);
      }
      AgreesWhen(r');
    } else {
      var p :| p in Pieces(t) && p !in r.clients[id];
      assert !Subscribed(r, id, p) && Subscribed(r', id, p);
    }
  }

  /* ---------------- what callers see of an operation ---------------- */

  /** After an addition the client is subscribed to exactly its titles; the others as before. */
  lemma AddClientEffect(r: Registry, id: ClientId, titles: seq<Title>, k: ClientId, u: Title)
    requires Agrees(r) && CanAdd(r, id, titles)
    ensures var r' := AddClient(r, id, titles);
            && r'.clients.Keys == r.clients.Keys + {id}
            && (k in Subscribers(r'.index, u) <==> if k == id then u in titles else Subscribed(r, k, u))
  {
    AddClientAgrees(r, id, titles);
    assert Subscribed(AddClient(r, id, titles), k, u) <==> k in Subscribers(AddClient(r, id, titles).index, u);
  }

  /** After a removal nobody is subscribed who was not before, and the client to nothing. */
  lemma RemoveClientEffect(r: Registry, id: ClientId, k: ClientId, u: Title)
    requires Agrees(r)
    ensures var r' := RemoveClient(r, id);
            r'.clients.Keys == r.clients.Keys - {id}
            && (k in Subscribers(r'.index, u) <==> k != id && Subscribed(r, k, u))
  {
    RemoveClientAgrees(r, id);
    assert Subscribed(RemoveClient(r, id), k, u) <==> k in Subscribers(RemoveClient(r, id).index, u);
  }

  /** After a registration of a live client it is subscribed to that title too. */
  lemma RegisterTitleEffect(r: Registry, id: ClientId, t: Title, k: ClientId, u: Title)
    requires Agrees(r) && id in r.clients && Clean(t)
    ensures var r' := RegisterTitle(r, id, t);
            && r'.clients.Keys == r.clients.Keys
            && (k in Subscribers(r'.index, u) <==> Subscribed(r, k, u) || (k == id && u == t))
  {
    RegisterCleanAgrees(r, id, t);
    InsertCleanMembers(r.clients[id], t);
    assert Subscribed(RegisterTitle(r, id, t), k, u) <==> k in Subscribers(RegisterTitle(r, id, t).index, u);
  }

  /** After an unregistration it is not. */
  lemma UnregisterTitleEffect(r: Registry, id: ClientId, t: Title, k: ClientId, u: Title)
    requires Agrees(r)
    ensures var r' := UnregisterTitle(r, id, t);
            && r'.clients.Keys == r.clients.Keys
            && (k in Subscribers(r'.index, u) <==> Subscribed(r, k, u) && !(k == id && u == t))
  {
    UnregisterTitleAgrees(r, id, t);
    if id in r.clients { DeleteMembers(r.clients[id], t); }
    assert Subscribed(UnregisterTitle(r, id, t), k, u) <==> k in Subscribers(UnregisterTitle(r, id, t).index, u);
  }

  /* ---------------- queries ---------------- */

  /** Subscribers of a title, without the excluded client. */
  function FindAllByTitle(r: Registry, t: Title, exclude: Option<ClientId>): seq<ClientId> {
    if exclude.None? then Subscribers(r.index, t) else Delete(Subscribers(r.index, t), exclude.value)
  }

  /** The lookup returns exactly the live clients whose list holds the title, minus the excluded one,
      each once. */
  lemma FindAllByTitleExact(r: Registry, t: Title, exclude: Option<ClientId>, id: ClientId)
    requires Agrees(r)
    ensures NoDup(FindAllByTitle(r, t, exclude))
    ensures id in FindAllByTitle(r, t, exclude) <==>
            id in r.clients && t in r.clients[id] && exclude != Some(id)
  {
    var all := Subscribers(r.index, t);
    assert Subscribed(r, id, t) <==> id in all;
    if exclude.Some? {
      DeleteMembers(all, exclude.value);
      DeleteKeepsNoDup(all, exclude.value);
    }
  }

  /** All titles on some client's list. */
  ghost function TitlesInUse(clients: map<ClientId, seq<Title>>): set<Title> {
    set id, t | id in clients && t in clients[id] :: t
  }

  /** The index has exactly the titles in use as keys, so counting either gives the same number. */
  lemma TitleCountsAgree(r: Registry)
    requires Agrees(r)
    ensures r.index.Keys == TitlesInUse(r.clients)
    ensures |r.index| == |TitlesInUse(r.clients)|
  {
    forall t | t in r.index ensures t in TitlesInUse(r.clients) {
      var id := r.index[t][0];
      assert Subscribed(r, id, t);
    }
    forall t | t in TitlesInUse(r.clients) ensures t in r.index {
      var id :| id in r.clients && t in r.clients[id];
      assert Subscribed(r, id, t);
    }
    assert |r.index| == |r.index.Keys|;
  }

  /* ---------------- every run ---------------- */

  datatype Op =
    | OpAdd(id: ClientId, titles: seq<Title>)
    | OpRemove(id: ClientId)
    | OpRegister(id: ClientId, t: Title)
    | OpUnregister(id: ClientId, t: Title)

  function Step(r: Registry, op: Op): Registry {
    match op
    case OpAdd(id, titles) => AddClient(r, id, titles)
    case OpRemove(id) => RemoveClient(r, id)
    case OpRegister(id, t) => RegisterTitle(r, id, t)
    case OpUnregister(id, t) => UnregisterTitle(r, id, t)
  }

  /** Added lists are clean and keep what a live id listed before; titles registered for live ids are clean. */
  ghost predicate Allowed(r: Registry, op: Op) {
    match op
    case OpAdd(id, titles) => CanAdd(r, id, titles)
    case OpRegister(id, t) => id in r.clients ==> Clean(t)
    case _ => true
  }

  function Run(ops: seq<Op>): Registry {
    if ops == [] then EMPTY else Step(Run(ops[..|ops| - 1]), ops[|ops| - 1])
  }

  ghost predicate AllowedRun(ops: seq<Op>) {
    ops == [] || (AllowedRun(ops[..|ops| - 1]) && Allowed(Run(ops[..|ops| - 1]), ops[|ops| - 1]))
  }

  /** In every reachable registry, index and lists agree. */
  lemma {:induction false} EveryRunAgrees(ops: seq<Op>)
    requires AllowedRun(ops)
    ensures Agrees(Run(ops))
  {
    if ops != [] {
      var r, op := Run(ops[..|ops| - 1]), ops[|ops| - 1];
      EveryRunAgrees(ops[..|ops| - 1]);
      match op {
        case OpAdd(id, titles) => AddClientAgrees(r, id, titles);
        case OpRemove(id) => RemoveClientAgrees(r, id);
        case OpRegister(id, t) => RegisterTitleAgreesExactly(r, id, t);
        case OpUnregister(id, t) => UnregisterTitleAgrees(r, id, t);
      }
    }
  }
}
