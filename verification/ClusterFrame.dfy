/** The reading and sending ends of a cluster connection. */
module ClusterFrames {
  import opened Common
  import opened Bytes
  import opened ClusterFrameTheory

  class FrameReader {
    var buffer: Buffer
    /** Payloads handed to the message decoder, oldest first. */
    var received: seq<Buffer>

    constructor ()
      ensures buffer == [] && received == []
    {
      buffer, received := [], [];
    }

    /** Takes every complete frame off the buffer. */
    method OnRead(bytes: Buffer)
      modifies this
      ensures var r := ReadAll(old(buffer) + bytes);
              received == old(received) + r.payloads && buffer == r.rest
    {
      buffer := buffer + bytes;
      ghost var whole := ReadAll(buffer);
      ghost var taken: seq<Buffer> := [];
      while |buffer| >= HEADER_SIZE
        invariant received == old(received) + taken
        invariant whole == Read(taken + ReadAll(buffer).payloads, ReadAll(buffer).rest)
        decreases |buffer|
      {
        var length := FromBE(buffer[..HEADER_SIZE]);
        if length > MAX_MESSAGE_SIZE {
          buffer := buffer[HEADER_SIZE..];
          continue;
        }
        if |buffer| < HEADER_SIZE + length {
          break;
        }
        ghost var next := Take(buffer);
        var data := buffer[HEADER_SIZE..HEADER_SIZE + length];
        buffer := buffer[HEADER_SIZE + length..];
        assert next == Payload(data, buffer);
        ConcatAssoc(taken, [data], ReadAll(buffer).payloads);
        ConcatAssoc(old(received), taken, [data]);
        received := received + [data];
        taken := taken + [data];
      }
      assert taken + [] == taken;
    }
  }

  /** The bytes `send_to` puts on the wire. */
  method BuildFrame(payload: Buffer) returns (frame: Buffer)
    ensures frame == FrameOf(payload)
    ensures |payload| <= MAX_MESSAGE_SIZE ==> forall rest :: Take(frame + rest) == Payload(payload, rest)
  {
    frame := BE(|payload| % U32_SPAN, HEADER_SIZE);
    frame := frame + payload;
    if |payload| <= MAX_MESSAGE_SIZE {
      forall rest ensures Take(frame + rest) == Payload(payload, rest) { TakeFrame(payload, rest); }
    }
  }

  /** A whole connection, chunk by chunk. */
  method Receive(chunks: seq<Buffer>) returns (received: seq<Buffer>, leftover: Buffer)
    ensures Read(received, leftover) == ReadAll(Flatten(chunks))
  {
    var reader := new FrameReader();
    for i := 0 to |chunks|
      invariant fresh(reader)
      invariant Read(reader.received, reader.buffer) == ReadChunks(chunks[..i])
    {
      TakeOneMore(chunks, i);
      assert chunks[..i + 1][..i] == chunks[..i];
      reader.OnRead(chunks[i]);
    }
    assert chunks[..|chunks|] == chunks;
    CuttingDoesNotMatter(chunks);
    return reader.received, reader.buffer;
  }
}
