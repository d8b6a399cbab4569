/** Acknowledgement replies as the packets that carry them. */
module AckWire {
  import opened Common
  import opened Bytes
  import opened PacketTheory
  import opened AckTheory

  type AckBytes = p: Buffer | |p| == TITLE_OFFSET + 8 witness seq(TITLE_OFFSET + 8, i => 0)

  datatype Sent = Sent(dest: ClientId, packet: AckBytes, at: nat)

  /** What the publisher reads out of the packet. */
  function ReplyOf(s: Sent): Reply {
    Reply(s.dest, AckedId(s.packet), if RetCodeOf(Field(s.packet, 8, 4)) == AckTimeout then TimedOut else Acked, s.at)
  }

  function RepliesOf(sent: seq<Sent>): seq<Reply> {
    if sent == [] then [] else RepliesOf(sent[..|sent| - 1]) + [ReplyOf(sent[|sent| - 1])]
  }

  lemma RepliesOfAppend(sent: seq<Sent>, s: Sent)
    ensures RepliesOf(sent + [s]) == RepliesOf(sent) + [ReplyOf(s)]
  {
    assert (sent + [s])[..|sent|] == sent;
  }

  /** Widths of the source's integers: u64 message ids, u128 client ids. */
  ghost predicate InRange(id: nat, source: ClientId) {
    id < U64_SPAN && source < U128_SPAN
  }

  ghost predicate AllInRange(pending: map<nat, Info>) {
    forall id :: id in pending ==> InRange(id, pending[id].source)
  }

  /** An `AckReturn` to the publisher with the acknowledged id as its data, and 8803 as its code for a timeout. */
  ghost predicate Wired(s: Sent) {
    && WellFormed(s.packet)
    && ViewOf(s.packet) == View(9916, if ReplyOf(s).outcome.TimedOut? then 8803 else 0, 0, s.dest, [],
                                LE(ReplyOf(s).id, 8))
  }

  ghost predicate AllWired(sent: seq<Sent>) {
    forall i :: 0 <= i < |sent| ==> Wired(sent[i])
  }

  lemma WireOneMore(sent: seq<Sent>, s: Sent)
    requires AllWired(sent) && Wired(s)
    ensures AllWired(sent + [s]) && RepliesOf(sent + [s]) == RepliesOf(sent) + [ReplyOf(s)]
  {
    RepliesOfAppend(sent, s);
  }

  /** To `before` were added timeouts only: `AckReturn` packets with code 8803 and the overdue id as data. */
  ghost predicate TimeoutsAfter(before: seq<Sent>, sent: seq<Sent>) {
    && before <= sent
    && forall j :: |before| <= j < |sent| ==>
         && WellFormed(sent[j].packet)
         && ViewOf(sent[j].packet) == View(9916, 8803, 0, sent[j].dest, [], LE(AckedId(sent[j].packet), 8))
  }

  lemma TimeoutOneMore(before: seq<Sent>, sent: seq<Sent>, s: Sent)
    requires AllWired(sent) && TimeoutsAfter(before, sent) && Wired(s) && ReplyOf(s).outcome.TimedOut?
    ensures AllWired(sent + [s]) && TimeoutsAfter(before, sent + [s])
    ensures RepliesOf(sent + [s]) == RepliesOf(sent) + [ReplyOf(s)]
  {
    WireOneMore(sent, s);
  }

  /** A packet with the fields of a reply is read as that reply. */
  lemma ReadsAs(s: Sent, id: nat, code: nat, data: Buffer)
    requires WellFormed(s.packet) && ViewOf(s.packet) == View(9916, code, 0, s.dest, [], data)
    requires AckedId(s.packet) == id && data == LE(id, 8) && (code == 0 || code == 8803)
    ensures ReplyOf(s) == Reply(s.dest, id, if code == 0 then Acked else TimedOut, s.at) && Wired(s)
  {}

  lemma AckReads(id: nat, source: ClientId, at: nat)
    requires InRange(id, source)
    ensures ReplyOf(Sent(source, AckPacket(id, source, CAckReturn), at)) == Reply(source, id, Acked, at)
    ensures Wired(Sent(source, AckPacket(id, source, CAckReturn), at))
  {
    AckRoundTrip(id, source, CAckReturn);
    ReadsAs(Sent(source, AckPacket(id, source, CAckReturn), at), id, 0, LE(id, 8));
  }

  function TimeoutPacket(id: nat, source: ClientId): AckBytes {
    Put(AckPacket(id, source, CAckReturn), 8, 4, RetCodeValue(AckTimeout))
  }

  lemma TimeoutFields(v: View, source: ClientId, data: Buffer)
    requires v == View(CommandCode(CAckReturn), 0, 0, source, [], data)
    ensures v.(retcode := RetCodeValue(AckTimeout)) == View(9916, 8803, 0, source, [], data)
  {}

  lemma TimeoutView(id: nat, source: ClientId)
    requires InRange(id, source)
    ensures var c := TimeoutPacket(id, source);
            WellFormed(c) && ViewOf(c) == View(9916, 8803, 0, source, [], LE(id, 8)) && AckedId(c) == id
  {
    AckRoundTrip(id, source, CAckReturn);
    var c := AckPacket(id, source, CAckReturn);
    SetCodeKeepsId(c, AckTimeout);
    TimeoutFields(ViewOf(c), source, LE(id, 8));
  }

  lemma TimeoutReads(id: nat, source: ClientId, at: nat)
    requires InRange(id, source)
    ensures ReplyOf(Sent(source, TimeoutPacket(id, source), at)) == Reply(source, id, TimedOut, at)
    ensures Wired(Sent(source, TimeoutPacket(id, source), at))
  {
    TimeoutView(id, source);
    ReadsAs(Sent(source, TimeoutPacket(id, source), at), id, 8803, LE(id, 8));
  }
}
