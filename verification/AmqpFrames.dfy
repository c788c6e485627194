/**
 The AMQP wire format: frames (section 4.2.3 of AMQP 0-9-1) and short strings.
 */
module AmqpFrames {
  import opened Basics
  import opened Bytes

  const MAX_PAYLOAD := 10 * 1024 * 1024
  const FRAME_END: byte := 0xCE

  newtype uint16 = x: int | 0 <= x < 0x1_0000

  datatype Frame = Frame(kind: byte, channel: uint16, payload: bytes)

  datatype ReadResult =
    | Got(frame: Frame, rest: bytes)
    | ShortInput
    | TooLarge
    | BadFrameEnd

  /** `writeFrame`: the size field is the payload length truncated to 32 bits. */
  function WriteFrame(f: Frame): bytes {
    [f.kind] + BigEndian(f.channel as int, 2) + BigEndian(|f.payload| % 0x1_0000_0000, 4) + f.payload + [FRAME_END]
  }

  /** `readFrame` on the bytes still to come. */
  function ReadFrame(input: bytes): (r: ReadResult)
    ensures r.Got? ==> |r.rest| < |input| && r.rest == input[|input| - |r.rest|..]
  {
    if |input| < 7 then ShortInput
    else
      FieldBounds();
      NumberBound(input[1..3]);
      var channel := Number(input[1..3]);
      var size := Number(input[3..7]);
      if size > MAX_PAYLOAD then TooLarge
      else if |input| < 7 + size + 1 then ShortInput
      else if input[7 + size] != FRAME_END then BadFrameEnd
      else Got(Frame(input[0], channel as uint16, input[7..7 + size]), input[8 + size..])
  }

  /** What a written frame's seven header octets say. */
  lemma HeaderOf(f: Frame, rest: bytes)
    ensures var w := WriteFrame(f) + rest;
            && |w| == 8 + |f.payload| + |rest|
            && w[0] == f.kind
            && Number(w[1..3]) == f.channel as int
            && Number(w[3..7]) == |f.payload| % 0x1_0000_0000
            && w[7..7 + |f.payload|] == f.payload
            && w[7 + |f.payload|] == FRAME_END
            && w[8 + |f.payload|..] == rest
  {
    var w, size := WriteFrame(f) + rest, |f.payload| % 0x1_0000_0000;
    FieldBounds();
    NumberOfBigEndian(f.channel as int, 2);
    NumberOfBigEndian(size, 4);
    assert w[1..3] == BigEndian(f.channel as int, 2);
    assert w[3..7] == BigEndian(size, 4);
  }

  lemma ReadsFrame(w: bytes, size: nat)
    requires |w| >= 8 + size && Number(w[3..7]) == size <= MAX_PAYLOAD && w[7 + size] == FRAME_END
    requires Number(w[1..3]) < 0x1_0000
    ensures ReadFrame(w) == Got(Frame(w[0], Number(w[1..3]) as uint16, w[7..7 + size]), w[8 + size..])
  {
  }

  /** A written frame reads back as itself, leaving what follows, exactly when its payload is within the limit. */
  lemma FrameRoundTrip(f: Frame, rest: bytes)
    ensures ReadFrame(WriteFrame(f) + rest) == Got(f, rest) <==> |f.payload| <= MAX_PAYLOAD
  {
    var w := WriteFrame(f) + rest;
    HeaderOf(f, rest);
    if |f.payload| <= MAX_PAYLOAD {
      ReadsFrame(w, |f.payload|);
    } else if ReadFrame(w).Got? {
      assert |ReadFrame(w).frame.payload| <= MAX_PAYLOAD;
    }
  }

  lemma ReadIsWritten(input: bytes)
    requires ReadFrame(input).Got?
    ensures var r := ReadFrame(input); input == WriteFrame(r.frame) + r.rest && |r.frame.payload| <= MAX_PAYLOAD
  {
    var r, size := ReadFrame(input), Number(input[3..7]);
    BigEndianOfNumber(input[1..3]);
    BigEndianOfNumber(input[3..7]);
    assert |r.frame.payload| == size == size % 0x1_0000_0000;
    var head := [input[0]] + input[1..3] + input[3..7];
    assert input == head + input[7..7 + size] + [input[7 + size]] + input[8 + size..];
  }

  /** A frame is read off exactly those inputs that begin with it, as it would be written and within the limit. */
  lemma FrameReadIff(input: bytes, f: Frame, rest: bytes)
    ensures ReadFrame(input) == Got(f, rest) <==> input == WriteFrame(f) + rest && |f.payload| <= MAX_PAYLOAD
  {
    FrameRoundTrip(f, rest);
    if ReadFrame(input) == Got(f, rest) {
      ReadIsWritten(input);
    }
  }

  function WriteAll(frames: seq<Frame>): bytes {
    if frames == [] then [] else WriteFrame(frames[0]) + WriteAll(frames[1..])
  }

  /** The frames a reader gets before its first error, and that error. */
  function ReadAll(input: bytes): (seq<Frame>, ReadResult)
    decreases |input|
  {
    var r := ReadFrame(input);
    if r.Got? then
      var (frames, last) := ReadAll(r.rest);
      ([r.frame] + frames, last)
    else
      ([], r)
  }

  /** What is left of the input as frames are read off it one by one. */
  ghost predicate Chain(rests: seq<bytes>, frames: seq<Frame>) {
    |rests| == |frames| + 1 && forall i | 0 <= i < |frames| :: ReadFrame(rests[i]) == Got(frames[i], rests[i + 1])
  }

  lemma {:induction false} ReadAllChain(rests: seq<bytes>, frames: seq<Frame>)
    requires Chain(rests, frames) && !ReadFrame(rests[|frames|]).Got?
    ensures ReadAll(rests[0]) == (frames, ReadFrame(rests[|frames|]))
    decreases frames
  {
    if frames != [] {
      assert ReadFrame(rests[0]) == Got(frames[0], rests[1]);
      forall i | 0 <= i < |frames| - 1 ensures ReadFrame(rests[1..][i]) == Got(frames[1..][i], rests[1..][i + 1]) {
        assert ReadFrame(rests[i + 1]) == Got(frames[i + 1], rests[i + 2]);
      }
      ReadAllChain(rests[1..], frames[1..]);
      assert frames == [frames[0]] + frames[1..];
    }
  }

  ghost function Rests(frames: seq<Frame>, tail: bytes): seq<bytes> {
    seq(|frames| + 1, i requires 0 <= i <= |frames| => WriteAll(frames[i..]) + tail)
  }

  lemma RestStep(frames: seq<Frame>, tail: bytes, i: nat)
    requires i < |frames| && |frames[i].payload| <= MAX_PAYLOAD
    ensures ReadFrame(WriteAll(frames[i..]) + tail) == Got(frames[i], WriteAll(frames[i + 1..]) + tail)
  {
    assert frames[i..][1..] == frames[i + 1..];
    AppendAssociative(WriteFrame(frames[i]), WriteAll(frames[i + 1..]), tail);
    FrameRoundTrip(frames[i], WriteAll(frames[i + 1..]) + tail);
  }

  /** Repeated reading gives back every frame list that was written, whatever incomplete bytes follow. */
  lemma StreamRoundTrip(frames: seq<Frame>, tail: bytes)
    requires forall f | f in frames :: |f.payload| <= MAX_PAYLOAD
    requires |tail| < 7
    ensures ReadAll(WriteAll(frames) + tail) == (frames, ShortInput)
  {
    var rests := Rests(frames, tail);
    forall i | 0 <= i < |frames| ensures ReadFrame(rests[i]) == Got(frames[i], rests[i + 1]) {
      RestStep(frames, tail, i);
    }
    assert frames[0..] == frames && frames[|frames|..] == [] && [] + tail == tail;
    ReadAllChain(rests, frames);
  }

  // Short strings

  function Zeros(n: nat): (z: bytes)
    ensures |z| == n
  {
    seq(n, _ => 0)
  }

  /** `encodeShortStr`: anything past 255 octets is dropped. */
  function EncodeShortStr(s: bytes): bytes {
    var t := if |s| > 255 then s[..255] else s;
    [|t|] + t
  }

  /** `readShortStr`: missing octets read as zeros. */
  function ReadShortStr(b: bytes): (r: (bytes, bytes))
    ensures |r.1| <= |b|
  {
    if |b| == 0 then ([], [])
    else
      var n := b[0];
      if |b| - 1 >= n then (b[1..1 + n], b[1 + n..])
      else (b[1..] + Zeros(n - (|b| - 1)), [])
  }

  /** What is read always has the announced length; octets that are missing are zeros, and then nothing is left. */
  lemma ShortStrReads(b: bytes)
    requires b != []
    ensures var (s, rest) := ReadShortStr(b);
            && |s| == b[0]
            && (forall i | 0 <= i < |s| :: s[i] == if 1 + i < |b| then b[1 + i] else 0)
            && rest == if 1 + b[0] <= |b| then b[1 + b[0]..] else []
  {
  }

  lemma ShortStrRoundTrip(s: bytes, rest: bytes)
    ensures ReadShortStr(EncodeShortStr(s) + rest) == (if |s| > 255 then s[..255] else s, rest)
  {
    var t := if |s| > 255 then s[..255] else s;
    var b := EncodeShortStr(s) + rest;
    assert b[1..1 + |t|] == t && b[1 + |t|..] == rest;
  }

  /** `readShort` skips two octets, or whatever is left. */
  function SkipShort(b: bytes): bytes {
    if |b| >= 2 then b[2..] else []
  }

  /** `parsePublish`: the exchange and routing key of a Basic.Publish. */
  function ParsePublish(args: bytes): (bytes, bytes) {
    var (exchange, rest) := ReadShortStr(SkipShort(args));
    var (key, _) := ReadShortStr(rest);
    (exchange, key)
  }

  /** The arguments a client sends: a reserved short, two short strings and flags. */
  function PublishArgs(exchange: bytes, key: bytes, flags: bytes): bytes {
    BigEndian(0, 2) + EncodeShortStr(exchange) + EncodeShortStr(key) + flags
  }

  lemma ParsePublishRoundTrip(exchange: bytes, key: bytes, flags: bytes)
    requires |exchange| <= 255 && |key| <= 255
    ensures ParsePublish(PublishArgs(exchange, key, flags)) == (exchange, key)
  {
    var tail := EncodeShortStr(key) + flags;
    assert SkipShort(PublishArgs(exchange, key, flags)) == EncodeShortStr(exchange) + tail;
    ShortStrRoundTrip(exchange, tail);
    ShortStrRoundTrip(key, flags);
  }
}
