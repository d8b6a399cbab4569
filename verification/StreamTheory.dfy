/** The server's frame parser over whole connections: any cutting of the byte stream into chunks. */
module StreamTheory {
  import opened Common
  import opened Bytes
  import opened PacketTheory

  /** What one pass of the parse loop makes of a buffer. */
  datatype Parsed = Parsed(frames: seq<Buffer>, rest: Buffer, broken: bool)

  function ParseAll(buf: Buffer): Parsed
    decreases |buf|
  {
    match TryDeserialize(buf)
    case NeedMore => Parsed([], buf, false)
    case Broken => Parsed([], buf, true)
    case Frame(packet, rest) =>
      var tail := ParseAll(rest);
      Parsed([packet] + tail.frames, tail.rest, tail.broken)
  }

  lemma FrontFrame(a: Buffer, b: Buffer)
    requires TryDeserialize(a).Frame?
    ensures TryDeserialize(a + b) == Frame(TryDeserialize(a).packet, TryDeserialize(a).rest + b)
  {
    assert (a + b)[0..4] == a[0..4];
    var n := Field(a, 0, 4);
    assert (a + b)[..n] == a[..n] && (a + b)[n..] == a[n..] + b;
  }

  /** Parsing a buffer and then the leftover with more bytes is parsing it all at once. */
  lemma {:induction false} ParseMore(a: Buffer, b: Buffer)
    requires !ParseAll(a).broken
    ensures var p := ParseAll(a);
            var q := ParseAll(p.rest + b);
            ParseAll(a + b) == Parsed(p.frames + q.frames, q.rest, q.broken)
    decreases |a|
  {
    match TryDeserialize(a) {
      case NeedMore =>
        var q := ParseAll(a + b);
        assert [] + q.frames == q.frames;
      case Frame(packet, rest) =>
        FrontFrame(a, b);
        ParseMore(rest, b);
        var tail := ParseAll(rest);
        var q := ParseAll(tail.rest + b);
        ConcatAssoc([packet], tail.frames, q.frames);
    }
  }

  /** A frame as the parser sees it. */
  ghost predicate IsFrame(f: Buffer) {
    |f| >= TITLE_OFFSET && Field(f, 0, 4) == |f|
  }

  lemma PacketIsFrame(c: Buffer)
    requires WellFormed(c)
    ensures IsFrame(c)
  {}

  /** A strict beginning of some frame of at most `limit` bytes. */
  ghost predicate Unfinished(r: Buffer, limit: nat) {
    exists f :: IsFrame(f) && |f| <= limit && |r| < |f| && r == f[..|r|]
  }

  lemma UnfinishedWaits(r: Buffer, limit: nat)
    requires Unfinished(r, limit)
    ensures TryDeserialize(r) == NeedMore && ParseAll(r) == Parsed([], r, false) && |r| < limit
  {
    var f :| IsFrame(f) && |f| <= limit && |r| < |f| && r == f[..|r|];
    if |r| >= 4 { assert r[0..4] == f[0..4]; }
  }

  lemma FrameThenRest(f: Buffer, rest: Buffer)
    requires IsFrame(f)
    ensures TryDeserialize(f + rest) == Frame(f, rest)
  {
    assert (f + rest)[0..4] == f[0..4];
    assert (f + rest)[..|f|] == f && (f + rest)[|f|..] == rest;
  }

  ghost predicate AllFrames(fs: seq<Buffer>, limit: nat) {
    forall i :: 0 <= i < |fs| ==> IsFrame(fs[i]) && |fs[i]| <= limit
  }

  /** A stream of frames and an unfinished one parses to exactly those frames. */
  lemma {:induction false} ParseStream(fs: seq<Buffer>, tail: Buffer, limit: nat)
    requires AllFrames(fs, limit) && Unfinished(tail, limit)
    ensures ParseAll(Flatten(fs) + tail) == Parsed(fs, tail, false)
    decreases |fs|
  {
    if fs == [] {
      UnfinishedWaits(tail, limit);
      assert Flatten(fs) + tail == tail;
    } else {
      assert Flatten(fs) + tail == fs[0] + (Flatten(fs[1..]) + tail);
      FrameThenRest(fs[0], Flatten(fs[1..]) + tail);
      ParseStream(fs[1..], tail, limit);
      assert fs == [fs[0]] + fs[1..];
    }
  }

  /** A length below 37 stops the parser: the frames before it are dispatched and nothing behind it. */
  lemma {:induction false} ShortLengthStops(fs: seq<Buffer>, bad: Buffer)
    requires forall i :: 0 <= i < |fs| ==> IsFrame(fs[i])
    requires |bad| >= 4 && Field(bad, 0, 4) < 37
    ensures ParseAll(Flatten(fs) + bad) == Parsed(fs, bad, true)
    decreases |fs|
  {
    if fs == [] {
      assert Flatten(fs) + bad == bad;
    } else {
      assert Flatten(fs) + bad == fs[0] + (Flatten(fs[1..]) + bad);
      FrameThenRest(fs[0], Flatten(fs[1..]) + bad);
      ShortLengthStops(fs[1..], bad);
      assert fs == [fs[0]] + fs[1..];
    }
  }

  /** Any beginning of such a stream parses without a fault and leaves an unfinished frame. */
  lemma {:induction false} ParseBeginning(fs: seq<Buffer>, tail: Buffer, limit: nat, b: Buffer)
    requires AllFrames(fs, limit) && Unfinished(tail, limit)
    requires b <= Flatten(fs) + tail
    ensures !ParseAll(b).broken && Unfinished(ParseAll(b).rest, limit)
    decreases |fs|
  {
    if fs == [] {
      assert Flatten(fs) + tail == tail;
      PrefixUnfinished(tail, limit, b);
      UnfinishedWaits(b, limit);
    } else {
      var s := Flatten(fs[1..]) + tail;
      assert Flatten(fs) + tail == fs[0] + s;
      if |b| < |fs[0]| {
        assert b == fs[0][..|b|];
        assert Unfinished(b, limit);
        UnfinishedWaits(b, limit);
      } else {
        var rest := b[|fs[0]|..];
        assert b == fs[0] + rest && rest <= s;
        FrameThenRest(fs[0], rest);
        ParseBeginning(fs[1..], tail, limit, rest);
      }
    }
  }

  lemma PrefixUnfinished(tail: Buffer, limit: nat, b: Buffer)
    requires Unfinished(tail, limit) && b <= tail
    ensures Unfinished(b, limit)
  {
    var f :| IsFrame(f) && |f| <= limit && |tail| < |f| && tail == f[..|tail|];
    assert b == f[..|b|];
  }

  /* ---------------- the connection ---------------- */

  /** A connection: bytes not yet parsed, frames dispatched, times the buffer was thrown away. */
  datatype Connection = Connection(buffer: Buffer, dispatched: seq<Buffer>, clears: nat, broken: bool)

  const FRESH: Connection := Connection([], [], 0, false)

  /** One chunk: parse what there is, then throw away a leftover that is too large. */
  function OnChunk(c: Connection, chunk: Buffer, max: nat): Connection {
    if c.broken then c
    else
      var p := ParseAll(c.buffer + chunk);
      if p.broken then Connection(p.rest, c.dispatched + p.frames, c.clears, true)
      else if |p.rest| > max then Connection([], c.dispatched + p.frames, c.clears + 1, false)
      else Connection(p.rest, c.dispatched + p.frames, c.clears, false)
  }

  function OnChunks(chunks: seq<Buffer>, max: nat): Connection {
    if chunks == [] then FRESH else OnChunk(OnChunks(chunks[..|chunks| - 1], max), chunks[|chunks| - 1], max)
  }

  /** After any chunks of a well-formed stream the connection is where one parse of all bytes would be. */
  lemma {:induction false} ChunksFollowStream(fs: seq<Buffer>, tail: Buffer, max: nat, chunks: seq<Buffer>)
    requires AllFrames(fs, max + 1) && Unfinished(tail, max + 1)
    requires Flatten(chunks) <= Flatten(fs) + tail
    ensures var p := ParseAll(Flatten(chunks));
            OnChunks(chunks, max) == Connection(p.rest, p.frames, 0, false)
    decreases |chunks|
  {
    if chunks == [] {
      assert Flatten<byte>([]) == [];
    } else {
      var init, last := chunks[..|chunks| - 1], chunks[|chunks| - 1];
      FlattenSnoc(chunks);
      var before := Flatten(init);
      assert before <= Flatten(chunks);
      ChunksFollowStream(fs, tail, max, init);
      ParseBeginning(fs, tail, max + 1, before);
      ParseBeginning(fs, tail, max + 1, Flatten(chunks));
      ParseMore(before, last);
      UnfinishedWaits(ParseAll(Flatten(chunks)).rest, max + 1);
    }
  }

  /** However a stream of frames of at most `max + 1` bytes is cut into chunks, exactly those frames are
      dispatched, in order, the buffer is never thrown away, and what is left is the unfinished frame. */
  lemma EveryCuttingDispatchesFrames(fs: seq<Buffer>, tail: Buffer, max: nat, chunks: seq<Buffer>)
    requires AllFrames(fs, max + 1) && Unfinished(tail, max + 1)
    requires Flatten(chunks) == Flatten(fs) + tail
    ensures OnChunks(chunks, max) == Connection(tail, fs, 0, false)
  {
    ChunksFollowStream(fs, tail, max, chunks);
    ParseStream(fs, tail, max + 1);
  }

  /** In particular packets made by `new` and edited by the setters: whatever the cutting, each is dispatched as the
      packet it is, with its fields. */
  lemma EveryCuttingDispatchesPackets(ps: seq<Buffer>, max: nat, chunks: seq<Buffer>)
    requires forall i :: 0 <= i < |ps| ==> WellFormed(ps[i]) && |ps[i]| <= max + 1
    requires Flatten(chunks) == Flatten(ps)
    ensures OnChunks(chunks, max) == Connection([], ps, 0, false)
  {
    forall i | 0 <= i < |ps| ensures IsFrame(ps[i]) { PacketIsFrame(ps[i]); }
    CuttingSafeExactly(ps, max);
  }

  lemma ParsedUpToCut(fs: seq<Buffer>, k: nat)
    requires forall i :: 0 <= i < |fs| ==> IsFrame(fs[i])
    requires k < |fs| && |fs[k]| > 0
    ensures var most := fs[k][..|fs[k]| - 1];
            ParseAll(Flatten(fs[..k]) + most) == Parsed(fs[..k], most, false)
  {
    var f := fs[k];
    var limit := LongestOf(fs[..k]) + |f|;
    assert Unfinished(f[..|f| - 1], limit);
    ParseStream(fs[..k], f[..|f| - 1], limit);
  }

  /** A frame that outgrows the buffer limit by two or more is lost if all but its last byte arrive first: what came
      before is dispatched, and its own bytes are gone. */
  lemma LongFrameIsLost(fs: seq<Buffer>, max: nat, k: nat) returns (chunks: seq<Buffer>)
    requires forall i :: 0 <= i < |fs| ==> IsFrame(fs[i])
    requires k < |fs| && |fs[k]| > max + 1
    ensures Flatten(chunks) == Flatten(fs) && OnChunks(chunks, max).clears > 0
    ensures |chunks| == 2 && OnChunks(chunks[..1], max) == Connection([], fs[..k], 1, false)
  {
    var f := fs[k];
    var first, second := Flatten(fs[..k]) + f[..|f| - 1], [f[|f| - 1]] + Flatten(fs[k + 1..]);
    chunks := [first, second];
    CutBeforeLastByte(fs, k);
    ParsedUpToCut(fs, k);
    OneChunkTooLarge(first, second, fs[..k], f[..|f| - 1], max);
  }

  lemma FlattenTwo(a: Buffer, b: Buffer)
    ensures Flatten([a, b]) == a + b
  {
    var none: seq<Buffer> := [];
    assert [a, b][1..] == [b] && [b][1..] == none;
    assert Flatten([b]) == b + Flatten(none) == b;
  }

  lemma FlattenAt(fs: seq<Buffer>, k: nat)
    requires k < |fs|
    ensures Flatten(fs) == Flatten(fs[..k]) + (fs[k] + Flatten(fs[k + 1..]))
  {
    assert fs == fs[..k] + fs[k..];
    FlattenConcat(fs[..k], fs[k..]);
    assert fs[k..][1..] == fs[k + 1..];
  }

  lemma CutBeforeLastByte(fs: seq<Buffer>, k: nat)
    requires k < |fs| && |fs[k]| > 0
    ensures var f := fs[k];
            Flatten([Flatten(fs[..k]) + f[..|f| - 1], [f[|f| - 1]] + Flatten(fs[k + 1..])]) == Flatten(fs)
  {
    var f := fs[k];
    var front, most, last, back := Flatten(fs[..k]), f[..|f| - 1], [f[|f| - 1]], Flatten(fs[k + 1..]);
    FlattenTwo(front + most, last + back);
    FlattenAt(fs, k);
    assert f == most + last;
    ConcatAssoc(most, last, back);
    ConcatAssoc(front, most, last + back);
  }

  lemma OneChunkTooLarge(first: Buffer, second: Buffer, fs: seq<Buffer>, most: Buffer, max: nat)
    requires ParseAll(first) == Parsed(fs, most, false) && |most| > max
    ensures OnChunks([first, second], max).clears > 0
    ensures OnChunks([first, second][..1], max) == Connection([], fs, 1, false)
  {
    var none: seq<Buffer> := [];
    assert [first][..0] == none;
    assert FRESH.buffer + first == first;
    assert OnChunks([first], max) == OnChunk(OnChunks(none, max), first, max);
    assert [first, second][..1] == [first];
  }

  ghost function LongestOf(fs: seq<Buffer>): (n: nat)
    ensures forall i :: 0 <= i < |fs| ==> |fs[i]| <= n
  {
    if fs == [] then 0
    else
      var n := LongestOf(fs[..|fs| - 1]);
      assert fs == fs[..|fs| - 1] + [fs[|fs| - 1]];
      if |fs[|fs| - 1]| > n then |fs[|fs| - 1]| else n
  }

  /** The stream survives every cutting exactly when no frame is longer than `max + 1`. */
  lemma CuttingSafeExactly(fs: seq<Buffer>, max: nat)
    requires forall i :: 0 <= i < |fs| ==> IsFrame(fs[i])
    ensures (forall chunks: seq<Buffer> :: Flatten(chunks) == Flatten(fs)
                                           ==> OnChunks(chunks, max) == Connection([], fs, 0, false))
            <==> AllFrames(fs, max + 1)
  {
    if AllFrames(fs, max + 1) {
      forall chunks: seq<Buffer> | Flatten(chunks) == Flatten(fs)
        ensures OnChunks(chunks, max) == Connection([], fs, 0, false)
      {
        if fs == [] {
          NoBytes(chunks, max);
        } else {
          assert fs[0][..0] == [] && Unfinished([], max + 1);
          assert Flatten(fs) + [] == Flatten(fs);
          EveryCuttingDispatchesFrames(fs, [], max, chunks);
        }
      }
    } else {
      var k :| 0 <= k < |fs| && |fs[k]| > max + 1;
      var chunks := LongFrameIsLost(fs, max, k);
    }
  }

  lemma {:induction false} NoBytes(chunks: seq<Buffer>, max: nat)
    requires Flatten(chunks) == []
    ensures OnChunks(chunks, max) == FRESH
  {
    if chunks != [] {
      FlattenSnoc(chunks);
      NoBytes(chunks[..|chunks| - 1], max);
      assert FRESH.buffer + chunks[|chunks| - 1] == [];
    }
  }
}
