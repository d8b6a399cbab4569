/** The per-connection read loop: bytes accumulate in a buffer, the parser takes whole frames off it. */
module Streams {
  import opened Common
  import opened Bytes
  import opened PacketTheory
  import opened StreamTheory

  class ConnectionDriver {
    const maxBufferSize: nat
    var buffer: Buffer
    /** Frames passed to the handler, oldest first. */
    var dispatched: seq<Buffer>
    var clears: nat
    var broken: bool

    ghost function State(): Connection
      reads this
    {
      Connection(buffer, dispatched, clears, broken)
    }

    constructor (maxBufferSize: nat)
      ensures State() == FRESH && this.maxBufferSize == maxBufferSize
    {
      this.maxBufferSize := maxBufferSize;
      buffer, dispatched, clears, broken := [], [], 0, false;
    }

    /** Takes frames off the front of the buffer until none is complete. */
    method ParseAndHandleBuffer()
      requires !broken
      modifies this
      ensures var p := ParseAll(old(buffer));
              State() == if p.broken then Connection(p.rest, old(dispatched) + p.frames, old(clears), true)
                         else if |p.rest| > maxBufferSize
                         then Connection([], old(dispatched) + p.frames, old(clears) + 1, false)
                         else Connection(p.rest, old(dispatched) + p.frames, old(clears), false)
    {
      ghost var taken: seq<Buffer> := [];
      ghost var whole := ParseAll(buffer);
      while true
        invariant !broken && clears == old(clears) && dispatched == old(dispatched) + taken
        invariant whole == Parsed(taken + ParseAll(buffer).frames, ParseAll(buffer).rest, ParseAll(buffer).broken)
        decreases |buffer|
      {
        match TryDeserialize(buffer) {
          case NeedMore =>
            assert taken + [] == taken;
            break;
          case Broken =>
            assert taken + [] == taken;
            broken := true;
            return;
          case Frame(packet, rest) =>
            ConcatAssoc(taken, [packet], ParseAll(rest).frames);
            ConcatAssoc(old(dispatched), taken, [packet]);
            dispatched := dispatched + [packet];
            taken := taken + [packet];
            buffer := rest;
        }
      }
      if |buffer| > maxBufferSize {
        buffer := [];
        clears := clears + 1;
      }
    }

    method OnRead(bytes: Buffer)
      modifies this
      ensures State() == OnChunk(old(State()), bytes, maxBufferSize)
    {
      if broken {
        return;
      }
      buffer := buffer + bytes;
      ParseAndHandleBuffer();
    }
  }

  /** A whole connection, chunk by chunk. */
  method Drive(chunks: seq<Buffer>, maxBufferSize: nat) returns (dispatched: seq<Buffer>, leftover: Buffer, clears: nat)
    ensures OnChunks(chunks, maxBufferSize).dispatched == dispatched
    ensures OnChunks(chunks, maxBufferSize).buffer == leftover
    ensures OnChunks(chunks, maxBufferSize).clears == clears
  {
    var driver := new ConnectionDriver(maxBufferSize);
    for i := 0 to |chunks|
      invariant fresh(driver) && driver.maxBufferSize == maxBufferSize
      invariant driver.State() == OnChunks(chunks[..i], maxBufferSize)
    {
      TakeOneMore(chunks, i);
      assert chunks[..i + 1][..i] == chunks[..i];
      driver.OnRead(chunks[i]);
    }
    assert chunks[..|chunks|] == chunks;
    return driver.dispatched, driver.buffer, driver.clears;
  }
}
