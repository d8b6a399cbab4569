/** Frames between cluster nodes: a big-endian 32-bit length and a payload; a length above 16 MiB makes the
    reader skip the four header bytes and go on. */
module ClusterFrameTheory {
  import opened Common
  import opened Bytes

  const MAX_MESSAGE_SIZE: nat := 0x100_0000
  const HEADER_SIZE: nat := 4

  datatype Next = NeedMore | Skip(rest: Buffer) | Payload(payload: Buffer, rest: Buffer)

  /** One turn of the parse loop. */
  function Take(buf: Buffer): Next {
    if |buf| < HEADER_SIZE then NeedMore
    else
      var length := FromBE(buf[..HEADER_SIZE]);
      if length > MAX_MESSAGE_SIZE then Skip(buf[HEADER_SIZE..])
      else if |buf| < HEADER_SIZE + length then NeedMore
      else Payload(buf[HEADER_SIZE..HEADER_SIZE + length], buf[HEADER_SIZE + length..])
  }

  datatype Read = Read(payloads: seq<Buffer>, rest: Buffer)

  function ReadAll(buf: Buffer): Read
    decreases |buf|
  {
    match Take(buf)
    case NeedMore => Read([], buf)
    case Skip(rest) => ReadAll(rest)
    case Payload(payload, rest) =>
      var tail := ReadAll(rest);
      Read([payload] + tail.payloads, tail.rest)
  }

  lemma TakeMore(a: Buffer, b: Buffer)
    requires !Take(a).NeedMore?
    ensures Take(a + b) == match Take(a)
                           case Skip(rest) => Skip(rest + b)
                           case Payload(payload, rest) => Payload(payload, rest + b)
                           case NeedMore => NeedMore
  {
    assert (a + b)[..HEADER_SIZE] == a[..HEADER_SIZE];
    assert (a + b)[HEADER_SIZE..] == a[HEADER_SIZE..] + b;
    if Take(a).Payload? {
      var end := HEADER_SIZE + FromBE(a[..HEADER_SIZE]);
      assert (a + b)[HEADER_SIZE..end] == a[HEADER_SIZE..end] && (a + b)[end..] == a[end..] + b;
    }
  }

  /** Every byte stream: reading part of it and then the leftover with more bytes is reading it at once. */
  lemma {:induction false} ReadMore(a: Buffer, b: Buffer)
    ensures var p := ReadAll(a);
            var q := ReadAll(p.rest + b);
            ReadAll(a + b) == Read(p.payloads + q.payloads, q.rest)
    decreases |a|
  {
    match Take(a) {
      case NeedMore =>
        assert [] + ReadAll(a + b).payloads == ReadAll(a + b).payloads;
      case Skip(rest) =>
        TakeMore(a, b);
        ReadMore(rest, b);
      case Payload(payload, rest) =>
        TakeMore(a, b);
        ReadMore(rest, b);
        var p := ReadAll(rest);
        ConcatAssoc([payload], p.payloads, ReadAll(p.rest + b).payloads);
    }
  }

  /** A header that announces more than 16 MiB is skipped, and only the header. */
  lemma OversizeHeaderSkipped(n: nat, rest: Buffer)
    requires 0x100_0000 < n < U32_SPAN
    ensures ReadAll(BE(n, 4) + rest) == ReadAll(rest)
  {
    PowerSizes();
    FromBEofBE(n, 4);
    assert (BE(n, 4) + rest)[..4] == BE(n, 4) && (BE(n, 4) + rest)[4..] == rest;
  }

  /** A reader that has received the chunks one by one. */
  function ReadChunks(chunks: seq<Buffer>): Read {
    if chunks == [] then Read([], [])
    else
      var before := ReadChunks(chunks[..|chunks| - 1]);
      var now := ReadAll(before.rest + chunks[|chunks| - 1]);
      Read(before.payloads + now.payloads, now.rest)
  }

  /** Every byte stream, oversize headers included: payloads and leftover do not depend on the cutting. */
  lemma {:induction false} CuttingDoesNotMatter(chunks: seq<Buffer>)
    ensures ReadChunks(chunks) == ReadAll(Flatten(chunks))
  {
    if chunks != [] {
      CuttingDoesNotMatter(chunks[..|chunks| - 1]);
      FlattenSnoc(chunks);
      ReadMore(Flatten(chunks[..|chunks| - 1]), chunks[|chunks| - 1]);
    }
  }

  /* ---------------- sending ---------------- */

  /** `len as u32` in front of the payload; the sender does not check the size. */
  function FrameOf(payload: Buffer): Buffer {
    BE(|payload| % U32_SPAN, HEADER_SIZE) + payload
  }

  function FramesOf(payloads: seq<Buffer>): seq<Buffer> {
    seq(|payloads|, i requires 0 <= i < |payloads| => FrameOf(payloads[i]))
  }

  lemma HeaderOf(payload: Buffer, rest: Buffer)
    ensures FromBE((FrameOf(payload) + rest)[..HEADER_SIZE]) == |payload| % U32_SPAN
    ensures (FrameOf(payload) + rest)[HEADER_SIZE..] == payload + rest
  {
    PowerSizes();
    FromBEofBE(|payload| % U32_SPAN, HEADER_SIZE);
    assert (FrameOf(payload) + rest)[..HEADER_SIZE] == BE(|payload| % U32_SPAN, HEADER_SIZE);
  }

  lemma TakeFrame(payload: Buffer, rest: Buffer)
    requires |payload| <= MAX_MESSAGE_SIZE
    ensures Take(FrameOf(payload) + rest) == Payload(payload, rest)
  {
    var buf := FrameOf(payload) + rest;
    HeaderOf(payload, rest);
    assert buf[HEADER_SIZE..HEADER_SIZE + |payload|] == (payload + rest)[..|payload|];
    assert buf[HEADER_SIZE + |payload|..] == (payload + rest)[|payload|..];
  }

  /** Any sequence of sent payloads of at most 16 MiB comes back unchanged and in order, and nothing else. */
  lemma {:induction false} SentIsReceived(payloads: seq<Buffer>)
    requires forall i :: 0 <= i < |payloads| ==> |payloads[i]| <= MAX_MESSAGE_SIZE
    ensures ReadAll(Flatten(FramesOf(payloads))) == Read(payloads, [])
    decreases |payloads|
  {
    if payloads != [] {
      var p, rest := payloads[0], payloads[1..];
      assert FramesOf(payloads)[1..] == FramesOf(rest);
      TakeFrame(p, Flatten(FramesOf(rest)));
      SentIsReceived(rest);
      assert payloads == [p] + rest;
    }
  }

  /** ... through any cutting of the byte stream. */
  lemma SentIsReceivedInChunks(payloads: seq<Buffer>, chunks: seq<Buffer>)
    requires forall i :: 0 <= i < |payloads| ==> |payloads[i]| <= MAX_MESSAGE_SIZE
    requires Flatten(chunks) == Flatten(FramesOf(payloads))
    ensures ReadChunks(chunks) == Read(payloads, [])
  {
    CuttingDoesNotMatter(chunks);
    SentIsReceived(payloads);
  }

  /** A reader never finds a payload above the limit. */
  lemma {:induction false} PayloadsWithinLimit(buf: Buffer)
    ensures forall i :: 0 <= i < |ReadAll(buf).payloads| ==> |ReadAll(buf).payloads[i]| <= MAX_MESSAGE_SIZE
    decreases |buf|
  {
    match Take(buf) {
      case NeedMore =>
      case Skip(rest) => PayloadsWithinLimit(rest);
      case Payload(payload, rest) => PayloadsWithinLimit(rest);
    }
  }

  /** A sequence of sent payloads arrives as itself exactly when each of them is at most 16 MiB. */
  lemma SendAllExactly(payloads: seq<Buffer>)
    ensures ReadAll(Flatten(FramesOf(payloads))) == Read(payloads, [])
            <==> forall i :: 0 <= i < |payloads| ==> |payloads[i]| <= MAX_MESSAGE_SIZE
  {
    if forall i :: 0 <= i < |payloads| ==> |payloads[i]| <= MAX_MESSAGE_SIZE {
      SentIsReceived(payloads);
    } else {
      PayloadsWithinLimit(Flatten(FramesOf(payloads)));
    }
  }

  /** One sent payload arrives as itself exactly when it is at most 16 MiB. */
  lemma SendExactly(payload: Buffer)
    ensures ReadAll(FrameOf(payload)) == Read([payload], []) <==> |payload| <= MAX_MESSAGE_SIZE
  {
    var none: seq<Buffer> := [];
    SendAllExactly([payload]);
    assert FramesOf([payload]) == [FrameOf(payload)] && [FrameOf(payload)][1..] == none;
    assert Flatten([FrameOf(payload)]) == FrameOf(payload) + Flatten(none) == FrameOf(payload);
  }
}
