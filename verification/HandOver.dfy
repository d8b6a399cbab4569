/** The packets that carry offline messages to a client at its login. */
module HandOver {
  import opened Common
  import opened Bytes
  import opened PacketTheory
  import OT = OfflineTheory

  /** A new `Title` packet, then its source and message id set; `utf8` gives a title's bytes. */
  function PacketFor(m: OT.Message, client: ClientId, utf8: string -> Buffer): Buffer {
    Put(Put(New(CTitle, utf8(m.title), m.payload), 20, 16, client), 12, 8, m.id)
  }

  function PacketsFor(q: seq<OT.Message>, client: ClientId, utf8: string -> Buffer): seq<Buffer> {
    seq(|q|, i requires 0 <= i < |q| => PacketFor(q[i], client, utf8))
  }

  /** The packet is well formed and carries the message's id, title and payload, addressed by the client itself. */
  lemma PacketForReads(m: OT.Message, client: ClientId, utf8: string -> Buffer)
    requires |utf8(m.title)| <= 255 && TITLE_OFFSET + |utf8(m.title)| + |m.payload| < U32_SPAN
    requires m.id < U64_SPAN && client < U128_SPAN
    ensures var c := PacketFor(m, client, utf8);
            && WellFormed(c)
            && ViewOf(c) == View(9901, 0, m.id, client, utf8(m.title), m.payload)
  {
    var made := New(CTitle, utf8(m.title), m.payload);
    NewReadsBack(CTitle, utf8(m.title), m.payload);
    EditEffect(made, SetSource(client));
    EditEffect(Put(made, 20, 16, client), SetMessageId(m.id));
  }

  /** One send per queued message, oldest first; a failed send is only logged, so every message counts as sent. */
  method SendEach(queued: seq<OT.Message>, client: ClientId, utf8: string -> Buffer) returns (packets: seq<Buffer>)
    ensures packets == PacketsFor(queued, client, utf8)
    ensures |packets| == |queued| && forall i :: 0 <= i < |queued| ==> packets[i] == PacketFor(queued[i], client, utf8)
  {
    packets := [];
    for i := 0 to |queued|
      invariant packets == PacketsFor(queued[..i], client, utf8)
    {
      var m := queued[i];
      var packet := New(CTitle, utf8(m.title), m.payload);
      packet := Put(packet, 20, 16, client);
      packet := Put(packet, 12, 8, m.id);
      packets := packets + [packet];
    }
    assert queued[..|queued|] == queued;
  }
}
