/** Docker's multiplexed log stream, decoded from chunks that may split a frame anywhere. */
module StreamDemux {
  import opened Bytes

  datatype StreamKind = Stdout | Stderr

  datatype Frame = Frame(stream: StreamKind, data: seq<byte>)

  const HEADER_LENGTH := 8
  const STREAM_TYPE_STDERR := 2

  function StreamKindFromType(t: byte): StreamKind {
    if t == STREAM_TYPE_STDERR then Stderr else Stdout
  }

  function ReadUInt32BE(b: seq<byte>): (n: nat)
    requires |b| >= 4
    ensures n < 0x1_0000_0000
  {
    var a: int, b1: int, c: int, d: int := b[0], b[1], b[2], b[3];
    a * 0x100_0000 + b1 * 0x1_0000 + c * 0x100 + d
  }

  /** Length of the frame at the head of `buffer`, once its header is there. */
  function FrameEnd(buffer: seq<byte>): (n: nat)
    requires |buffer| >= HEADER_LENGTH
    ensures n >= HEADER_LENGTH
  {
    HEADER_LENGTH + ReadUInt32BE(buffer[4..8])
  }

  predicate HasFrame(buffer: seq<byte>) {
    |buffer| >= HEADER_LENGTH && |buffer| >= FrameEnd(buffer)
  }

  function HeadFrame(buffer: seq<byte>): Frame
    requires HasFrame(buffer)
  {
    Frame(StreamKindFromType(buffer[0]), buffer[HEADER_LENGTH..FrameEnd(buffer)])
  }

  // ----- one decode of everything -----

  datatype Decoded = Decoded(frames: seq<Frame>, rest: seq<byte>)

  function Decode(buffer: seq<byte>): Decoded
    decreases |buffer|
  {
    if !HasFrame(buffer) then Decoded([], buffer)
    else
      var d := Decode(buffer[FrameEnd(buffer)..]);
      Decoded([HeadFrame(buffer)] + d.frames, d.rest)
  }

  /** Decoding can stop anywhere and go on from what was left. */
  lemma {:induction false} DecodeConcat(a: seq<byte>, b: seq<byte>)
    ensures var first := Decode(a); var second := Decode(first.rest + b);
            Decode(a + b) == Decoded(first.frames + second.frames, second.rest)
    decreases |a|
  {
    if HasFrame(a) {
      var n := FrameEnd(a);
      assert (a + b)[4..8] == a[4..8];
      assert HeadFrame(a + b) == HeadFrame(a);
      assert (a + b)[n..] == a[n..] + b;
      DecodeConcat(a[n..], b);
      var d := Decode(a[n..]);
      var second := Decode(d.rest + b);
      assert [HeadFrame(a)] + (d.frames + second.frames) == [HeadFrame(a)] + d.frames + second.frames;
    } else {
      assert [] + Decode(a + b).frames == Decode(a + b).frames;
    }
  }

  lemma DecodeNone(buffer: seq<byte>)
    requires !HasFrame(buffer)
    ensures Decode(buffer) == Decoded([], buffer)
  {
  }

  lemma DecodeStep(buffer: seq<byte>)
    requires HasFrame(buffer)
    ensures var rest := Decode(buffer[FrameEnd(buffer)..]);
            Decode(buffer) == Decoded([HeadFrame(buffer)] + rest.frames, rest.rest)
  {
    hide ReadUInt32BE, FrameEnd, HeadFrame, HasFrame;
  }

  lemma DecodeHead(frames: seq<Frame>, buffer: seq<byte>)
    requires HasFrame(buffer)
    ensures var rest := Decode(buffer[FrameEnd(buffer)..]);
            && frames + Decode(buffer).frames == frames + [HeadFrame(buffer)] + rest.frames
            && Decode(buffer).rest == rest.rest
  {
    hide Decode, ReadUInt32BE;
    DecodeStep(buffer);
    Associative(frames, [HeadFrame(buffer)], Decode(buffer[FrameEnd(buffer)..]).frames);
  }

  class DockerStreamDemuxer {
    var buffer: seq<byte>
    ghost var received: seq<byte>
    ghost var emitted: seq<Frame>

    ghost predicate Valid()
      reads this
    {
      Decode(received) == Decoded(emitted, buffer)
    }

    constructor ()
      ensures Valid() && received == [] && emitted == []
    {
      buffer, received, emitted := [], [], [];
    }

    /** Returns the frames that became complete with this chunk. */
    method Push(chunk: seq<byte>) returns (frames: seq<Frame>)
      requires Valid()
      modifies this
      ensures Valid()
      ensures received == old(received) + chunk && emitted == old(emitted) + frames
      ensures frames == Decode(old(buffer) + chunk).frames && buffer == Decode(old(buffer) + chunk).rest
    {
      hide ReadUInt32BE, Decode;
      DecodeConcat(received, chunk);
      received := received + chunk;
      buffer := if |buffer| == 0 then chunk else buffer + chunk;
      ghost var all := buffer;
      assert all == old(buffer) + chunk;
      frames := [];
      assert [] + Decode(all).frames == Decode(all).frames;
      while true
        invariant Decode(all) == Decoded(frames + Decode(buffer).frames, Decode(buffer).rest)
        invariant emitted == old(emitted) && received == old(received) + chunk
        decreases |buffer|
      {
        if |buffer| < HEADER_LENGTH {
          break;
        }
        var size := ReadUInt32BE(buffer[4..8]);
        var frameEnd := HEADER_LENGTH + size;
        if |buffer| < frameEnd {
          break;
        }
        DecodeHead(frames, buffer);
        frames := frames + [Frame(StreamKindFromType(buffer[0]), buffer[HEADER_LENGTH..frameEnd])];
        buffer := buffer[frameEnd..];
      }
      DecodeNone(buffer);
      assert frames + [] == frames;
      emitted := emitted + frames;
    }

    /** True exactly when the bytes so far are not a whole number of frames. */
    method HasPendingPartialFrame() returns (pending: bool)
      requires Valid()
      ensures pending <==> !IsWholeFrames(received)
    {
      WholeFramesLeaveNothing(received);
      return |buffer| > 0;
    }
  }

  /** A fresh demuxer fed every chunk in turn. */
  method DemuxChunks(chunks: seq<seq<byte>>) returns (frames: seq<Frame>, pending: bool)
    ensures frames == Decode(Flatten(chunks)).frames
    ensures pending <==> !IsWholeFrames(Flatten(chunks))
  {
    var demuxer := new DockerStreamDemuxer();
    frames := [];
    assert chunks[..0] == [];
    for i := 0 to |chunks|
      invariant demuxer.Valid() && fresh(demuxer)
      invariant demuxer.received == Flatten(chunks[..i]) && demuxer.emitted == frames
    {
      FlattenSnoc(chunks[..i], chunks[i]);
      assert chunks[..i + 1] == chunks[..i] + [chunks[i]];
      var more := demuxer.Push(chunks[i]);
      frames := frames + more;
    }
    assert chunks[..|chunks|] == chunks;
    pending := demuxer.HasPendingPartialFrame();
  }

  // ----- the sending side -----

  /** A frame as it is on the wire; only the type and the payload matter to the decoder. */
  datatype WireFrame = WireFrame(kind: byte, padding: seq<byte>, payload: seq<byte>) {
    predicate Valid() {
      |padding| == 3 && |payload| < 0x1_0000_0000
    }
  }

  function WriteUInt32BE(n: nat): (b: seq<byte>)
    requires n < 0x1_0000_0000
    ensures |b| == 4
  {
    [n / 0x100_0000, n / 0x1_0000 % 0x100, n / 0x100 % 0x100, n % 0x100]
  }

  function Encode(f: WireFrame): (b: seq<byte>)
    requires f.Valid()
    ensures |b| == HEADER_LENGTH + |f.payload|
  {
    [f.kind] + f.padding + WriteUInt32BE(|f.payload|) + f.payload
  }

  ghost predicate AllValid(frames: seq<WireFrame>) {
    forall f :: f in frames ==> f.Valid()
  }

  function EncodeAll(frames: seq<WireFrame>): seq<byte>
    requires AllValid(frames)
  {
    if frames == [] then [] else Encode(frames[0]) + EncodeAll(frames[1..])
  }

  function Meanings(frames: seq<WireFrame>): (r: seq<Frame>)
    ensures |r| == |frames|
  {
    seq(|frames|, i requires 0 <= i < |frames| => Frame(StreamKindFromType(frames[i].kind), frames[i].payload))
  }

  lemma EncodeReads(f: WireFrame, rest: seq<byte>)
    requires f.Valid()
    ensures var b := Encode(f) + rest;
            && HasFrame(b) && FrameEnd(b) == |Encode(f)| && b[FrameEnd(b)..] == rest
            && HeadFrame(b) == Frame(StreamKindFromType(f.kind), f.payload)
  {
    hide ReadUInt32BE, WriteUInt32BE;
    var b := Encode(f) + rest;
    SizeReads(|f.payload|);
    assert b[4..8] == WriteUInt32BE(|f.payload|);
    assert b[8..8 + |f.payload|] == f.payload;
    assert b[8 + |f.payload|..] == rest;
  }

  lemma SizeReads(n: nat)
    requires n < 0x1_0000_0000
    ensures ReadUInt32BE(WriteUInt32BE(n)) == n
  {
    var q := n / 0x100;
    assert q / 0x100 == n / 0x1_0000 && q / 0x1_0000 == n / 0x100_0000;
  }

  /** Any frame list, encoded and decoded, comes back whole with nothing pending. */
  lemma {:induction false} DecodeEncode(frames: seq<WireFrame>)
    requires AllValid(frames)
    ensures Decode(EncodeAll(frames)) == Decoded(Meanings(frames), [])
    decreases |frames|
  {
    if frames != [] {
      var f, rest := frames[0], frames[1..];
      DecodeEncode(rest);
      EncodeReads(f, EncodeAll(rest));
      assert Meanings(frames) == [Frame(StreamKindFromType(f.kind), f.payload)] + Meanings(rest);
    }
  }

  /** Which stream each encoded frame comes out on: type 2 is stderr, and every other type stdout. */
  lemma StreamsByType(frames: seq<WireFrame>)
    requires AllValid(frames)
    ensures var decoded := Decode(EncodeAll(frames)).frames;
            && |decoded| == |frames|
            && forall i :: 0 <= i < |frames| ==>
                 && decoded[i].stream == (if frames[i].kind == 2 then Stderr else Stdout)
                 && decoded[i].data == frames[i].payload
  {
    DecodeEncode(frames);
  }

  function BigEndian32(a: int, b: int, c: int, d: int): int {
    a * 16777216 + b * 65536 + c * 256 + d
  }

  /** Bytes 4 to 7 of a frame are its payload's length, most significant byte first. */
  lemma SizeField(b: seq<byte>)
    requires |b| >= 4
    ensures ReadUInt32BE(b) == BigEndian32(b[0], b[1], b[2], b[3])
  {
  }

  /** The frame at the head of any bytes, said of the bytes. */
  lemma DecodesHead(b: seq<byte>)
    ensures var whole := |b| >= 8 && 8 + BigEndian32(b[4], b[5], b[6], b[7]) <= |b|;
            if !whole then Decode(b) == Decoded([], b)
            else
              var end := 8 + BigEndian32(b[4], b[5], b[6], b[7]);
              var rest := Decode(b[end..]);
              Decode(b) == Decoded([Frame(if b[0] == 2 then Stderr else Stdout, b[8..end])] + rest.frames, rest.rest)
  {
    if |b| >= 8 {
      SizeField(b[4..8]);
    }
    hide ReadUInt32BE;
    if HasFrame(b) {
      DecodeStep(b);
    }
  }

  ghost predicate IsWholeFrames(bytes: seq<byte>) {
    exists frames: seq<WireFrame> :: AllValid(frames) && EncodeAll(frames) == bytes
  }

  function WireHead(buffer: seq<byte>): WireFrame
    requires HasFrame(buffer)
  {
    WireFrame(buffer[0], buffer[1..4], buffer[HEADER_LENGTH..FrameEnd(buffer)])
  }

  lemma WireHeadEncodes(buffer: seq<byte>)
    requires HasFrame(buffer)
    ensures WireHead(buffer).Valid() && Encode(WireHead(buffer)) == buffer[..FrameEnd(buffer)]
  {
    var size := buffer[4..8];
    assert WriteUInt32BE(ReadUInt32BE(size)) == size by { SizeRoundTrip(size[0], size[1], size[2], size[3]); }
    assert buffer[..FrameEnd(buffer)] == [buffer[0]] + buffer[1..4] + size + buffer[8..FrameEnd(buffer)];
  }

  lemma SizeRoundTrip(a: byte, b: byte, c: byte, d: byte)
    ensures WriteUInt32BE(ReadUInt32BE([a, b, c, d])) == [a, b, c, d]
  {
    var n := ReadUInt32BE([a, b, c, d]);
    assert n / 0x100 == a * 0x1_0000 + b * 0x100 + c;
    assert n / 0x1_0000 == a * 0x100 + b;
  }

  /** What has been decoded is always the encoding of some frames in front of what is left. */
  lemma {:induction false} DecodedPrefix(bytes: seq<byte>) returns (frames: seq<WireFrame>)
    ensures AllValid(frames) && bytes == EncodeAll(frames) + Decode(bytes).rest
    decreases |bytes|
  {
    hide ReadUInt32BE, WriteUInt32BE, Encode, WireHead, HeadFrame;
    if HasFrame(bytes) {
      var n := FrameEnd(bytes);
      var rest := DecodedPrefix(bytes[n..]);
      WireHeadEncodes(bytes);
      frames := [WireHead(bytes)] + rest;
      assert frames[1..] == rest;
      assert EncodeAll(frames) == bytes[..n] + EncodeAll(rest);
      assert bytes == bytes[..n] + bytes[n..];
      Associative(bytes[..n], EncodeAll(rest), Decode(bytes).rest);
    } else {
      frames := [];
    }
  }

  lemma WholeFramesLeaveNothing(bytes: seq<byte>)
    ensures IsWholeFrames(bytes) <==> Decode(bytes).rest == []
  {
    if IsWholeFrames(bytes) {
      var frames: seq<WireFrame> :| AllValid(frames) && EncodeAll(frames) == bytes;
      DecodeEncode(frames);
    }
    if Decode(bytes).rest == [] {
      var frames := DecodedPrefix(bytes);
      assert EncodeAll(frames) == bytes;
    }
  }

  // ----- one stream's text -----

  function StreamBytes(frames: seq<Frame>, kind: StreamKind): seq<byte> {
    if frames == [] then []
    else (if frames[0].stream == kind then frames[0].data else []) + StreamBytes(frames[1..], kind)
  }

  /** The joined bytes are decoded once, so characters split across frames survive. */
  function JoinStreamText(decode: Decoder, frames: seq<Frame>, kind: StreamKind): string {
    decode(StreamBytes(frames, kind))
  }

  lemma {:induction false} StreamBytesConcat(a: seq<Frame>, b: seq<Frame>, kind: StreamKind)
    ensures StreamBytes(a + b, kind) == StreamBytes(a, kind) + StreamBytes(b, kind)
  {
    if a == [] {
      assert a + b == b;
    } else {
      assert (a + b)[1..] == a[1..] + b;
      StreamBytesConcat(a[1..], b, kind);
    }
  }

  /** The payloads of the frames of type 2, or of the others, one after another. */
  function PayloadsOf(frames: seq<WireFrame>, stderr: bool): seq<seq<byte>> {
    if frames == [] then []
    else
      var init := PayloadsOf(frames[..|frames| - 1], stderr);
      var last := frames[|frames| - 1];
      if (last.kind == 2) == stderr then init + [last.payload] else init
  }

  lemma {:induction false} MeaningsSplit(frames: seq<WireFrame>, stderr: bool)
    ensures StreamBytes(Meanings(frames), if stderr then Stderr else Stdout) == Flatten(PayloadsOf(frames, stderr))
  {
    if frames != [] {
      var init, last := frames[..|frames| - 1], frames[|frames| - 1];
      var kind := if stderr then Stderr else Stdout;
      var one := Frame(if last.kind == 2 then Stderr else Stdout, last.payload);
      MeaningsSplit(init, stderr);
      assert Meanings(frames) == Meanings(init) + [one];
      StreamBytesConcat(Meanings(init), [one], kind);
      assert [one][1..] == [];
      FlattenSnoc(PayloadsOf(init, stderr), last.payload);
    }
  }

  /** Each stream's text is what was sent on it, in order, decoded once, and nothing of the other. */
  lemma TextOfStream(decode: Decoder, frames: seq<WireFrame>, stderr: bool)
    requires AllValid(frames)
    ensures JoinStreamText(decode, Decode(EncodeAll(frames)).frames, if stderr then Stderr else Stdout)
            == decode(Flatten(PayloadsOf(frames, stderr)))
  {
    DecodeEncode(frames);
    MeaningsSplit(frames, stderr);
  }

  /** Cutting one frame's payload in two, anywhere in the stream, does not change any stream's text. */
  lemma CutsDoNotShow(decode: Decoder, before: seq<Frame>, stream: StreamKind, x: seq<byte>, y: seq<byte>,
                      after: seq<Frame>, kind: StreamKind)
    ensures JoinStreamText(decode, before + [Frame(stream, x + y)] + after, kind)
            == JoinStreamText(decode, before + [Frame(stream, x), Frame(stream, y)] + after, kind)
  {
    var one, two := [Frame(stream, x + y)], [Frame(stream, x), Frame(stream, y)];
    StreamBytesConcat(before + one, after, kind);
    StreamBytesConcat(before, one, kind);
    StreamBytesConcat(before + two, after, kind);
    StreamBytesConcat(before, two, kind);
    StreamBytesConcat([Frame(stream, x)], [Frame(stream, y)], kind);
    assert two == [Frame(stream, x)] + [Frame(stream, y)];
    forall f: Frame ensures StreamBytes([f], kind) == if f.stream == kind then f.data else [] {
      assert [f][1..] == [];
    }
  }
}
