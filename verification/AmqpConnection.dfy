/**
 One AMQP client connection: method, header and body frames of many channels
 arrive interleaved, and the contents of each publish are put together per
 channel (section 4.2.6 of AMQP 0-9-1).
 */
module AmqpConnection {
  import opened Basics
  import opened Bytes
  import opened AmqpFrames

  datatype Publish = Publish(exchange: bytes, key: bytes, size: nat, body: bytes)

  /** One run of `processPublish`. */
  datatype Processed = Processed(channel: uint16, exchange: bytes, key: bytes, body: bytes)

  datatype Status = Open | Closed | Crashed

  datatype State = State(publishes: map<uint16, Publish>, processed: seq<Processed>, status: Status)

  const Start := State(map[], [], Open)

  predicate IsMethod(f: Frame, classId: nat, methodId: nat) {
    f.kind == 1 && |f.payload| >= 4 && Number(f.payload[0..2]) == classId && Number(f.payload[2..4]) == methodId
  }

  /** Connection.Close, or a method frame too short to hold a class and a method. */
  predicate EndsConnection(f: Frame) {
    f.kind == 1 && (|f.payload| < 4 || IsMethod(f, 10, 50))
  }

  function Step(s: State, f: Frame): (t: State)
    requires s.status.Open?
    ensures t.status.Open? <==> !EndsConnection(f)
  {
    if f.kind == 1 then
      if |f.payload| < 4 then s.(status := Crashed)
      else if IsMethod(f, 10, 50) then s.(status := Closed)
      else if IsMethod(f, 60, 40) then
        var (exchange, key) := ParsePublish(f.payload[4..]);
        s.(publishes := s.publishes[f.channel := Publish(exchange, key, 0, [])])
      else s
    else if f.channel !in s.publishes then s
    else
      var pub := s.publishes[f.channel];
      if f.kind == 2 && |f.payload| >= 12 then
        s.(publishes := s.publishes[f.channel := pub.(size := Number(f.payload[4..12]))])
      else if f.kind == 3 then
        var body := pub.body + f.payload;
        if |body| >= pub.size then
          s.(publishes := s.publishes - {f.channel},
             processed := s.processed + [Processed(f.channel, pub.exchange, pub.key, body)])
        else s.(publishes := s.publishes[f.channel := pub.(body := body)])
      else s
  }

  function Run(s: State, frames: seq<Frame>): State
    decreases frames
  {
    if frames == [] || !s.status.Open? then s else Run(Step(s, frames[0]), frames[1..])
  }

  // The server side

  class Connection {
    var publishes: map<uint16, Publish>
    var processed: seq<Processed>
    var status: Status

    constructor ()
      ensures Value() == Start
    {
      publishes, processed, status := map[], [], Open;
    }

    function Value(): State
      reads this
    {
      State(publishes, processed, status)
    }

    /** The frame switch of `handleConn`, with the branch of `handleMethod` that starts a publish. */
    method HandleFrame(f: Frame)
      requires status.Open?
      modifies this
      ensures Value() == Step(old(Value()), f)
    {
      if f.kind == 1 {
        if |f.payload| < 4 {
          status := Crashed;
          return;
        }
        var classId, methodId, args := Number(f.payload[0..2]), Number(f.payload[2..4]), f.payload[4..];
        if classId == 60 && methodId == 40 {
          var (exchange, key) := ParsePublish(args);
          publishes := publishes[f.channel := Publish(exchange, key, 0, [])];
        } else if classId == 10 && methodId == 50 {
          status := Closed;
        }
      } else if f.kind == 2 {
        if f.channel in publishes && |f.payload| >= 12 {
          var size := Number(f.payload[4..12]);
          publishes := publishes[f.channel := publishes[f.channel].(size := size)];
        }
      } else if f.kind == 3 {
        if f.channel in publishes {
          var pub := publishes[f.channel];
          pub := pub.(body := pub.body + f.payload);
          if |pub.body| >= pub.size {
            processed := processed + [Processed(f.channel, pub.exchange, pub.key, pub.body)];
            publishes := publishes - {f.channel};
          } else {
            publishes := publishes[f.channel := pub];
          }
        }
      }
    }
  }

  const ProtocolHeader: bytes := [0x41, 0x4D, 0x51, 0x50, 0, 0, 9, 1]

  /** With the protocol header, frames are read until one ends the connection. */
  function Outcome(input: bytes): State {
    if ProtocolHeader <= input then Run(Start, ReadAll(input[8..]).0) else Start
  }

  /** A client that sends these frames, and on channel `ch` these contents. */
  ghost predicate Sends(input: bytes, frames: seq<Frame>, ch: uint16, ms: seq<Content>) {
    && input == ProtocolHeader + WriteAll(frames)
    && (forall f | f in frames :: |f.payload| <= MAX_PAYLOAD)
    && ContentFrames(Own(ch, Live(frames))) == AllFrames(ch, ms)
    && (forall m | m in ms :: m.Valid())
  }

  /** Open while no frame ends the connection, and a crash exactly when the first that does is a short method frame. */
  ghost predicate EndsAsFramesSay(frames: seq<Frame>, status: Status) {
    && (status.Open? <==> forall i | 0 <= i < |frames| :: !EndsConnection(frames[i]))
    && (status.Crashed? <==> exists i: nat :: FirstToEnd(frames, i) && ShortMethod(frames[i]))
  }

  lemma OutcomeOfFrames(input: bytes)
    ensures forall frames, ch, ms | Sends(input, frames, ch, ms) ::
              OnChannel(ch, Outcome(input).processed) == Expected(ch, ms)
    ensures ProtocolHeader <= input ==> EndsAsFramesSay(ReadAll(input[8..]).0, Outcome(input).status)
  {
    forall frames, ch, ms | Sends(input, frames, ch, ms)
      ensures OnChannel(ch, Outcome(input).processed) == Expected(ch, ms)
    {
      SentContentsProcessed(frames, ch, ms);
    }
    if ProtocolHeader <= input {
      EndsWithFirstEnder(Start, ReadAll(input[8..]).0);
    }
  }

  /** `handleConn` on everything the client will ever send. */
  method HandleConn(input: bytes) returns (last: State)
    ensures last == Outcome(input)
    ensures forall frames, ch, ms | Sends(input, frames, ch, ms) :: OnChannel(ch, last.processed) == Expected(ch, ms)
    ensures last.processed != [] || !last.status.Open? ==> ProtocolHeader <= input
    ensures ProtocolHeader <= input ==> EndsAsFramesSay(ReadAll(input[8..]).0, last.status)
  {
    OutcomeOfFrames(input);
    var conn := new Connection();
    if |input| < 8 || input[..8] != ProtocolHeader {
      return conn.Value();
    }
    var rest := input[8..];
    while conn.status.Open?
      invariant Run(conn.Value(), ReadAll(rest).0) == Run(Start, ReadAll(input[8..]).0)
      decreases |rest|, conn.status.Open?
    {
      var r := ReadFrame(rest);
      if !r.Got? {
        break;
      }
      assert ReadAll(rest).0 == [r.frame] + ReadAll(r.rest).0;
      conn.HandleFrame(r.frame);
      rest := r.rest;
    }
    last := conn.Value();
  }

  // A channel's outcome depends only on its own frames

  function Own(ch: uint16, frames: seq<Frame>): seq<Frame> {
    if frames == [] then []
    else (if frames[0].channel == ch then [frames[0]] else []) + Own(ch, frames[1..])
  }

  function OnChannel(ch: uint16, done: seq<Processed>): seq<Processed> {
    if done == [] then []
    else OnChannel(ch, done[..|done| - 1]) + (if done[|done| - 1].channel == ch then [done[|done| - 1]] else [])
  }

  /** The frames handled before the connection ends. */
  function Live(frames: seq<Frame>): seq<Frame> {
    if frames == [] || EndsConnection(frames[0]) then [] else [frames[0]] + Live(frames[1..])
  }

  /** `solo` is the part of `s` that channel `ch` sees. */
  ghost predicate SoloView(s: State, solo: State, ch: uint16) {
    && s.status.Open? && solo.status.Open?
    && OnChannel(ch, s.processed) == solo.processed
    && (ch in s.publishes <==> ch in solo.publishes)
    && (ch in s.publishes ==> s.publishes[ch] == solo.publishes[ch])
  }

  lemma StepKeepsSoloView(s: State, solo: State, ch: uint16, f: Frame)
    requires SoloView(s, solo, ch) && !EndsConnection(f)
    ensures SoloView(Step(s, f), if f.channel == ch then Step(solo, f) else solo, ch)
  {
    var t := Step(s, f);
    if t.processed != s.processed {
      assert t.processed[..|t.processed| - 1] == s.processed;
    }
  }

  lemma {:induction false} RunKeepsSoloView(s: State, solo: State, ch: uint16, frames: seq<Frame>)
    requires SoloView(s, solo, ch)
    ensures OnChannel(ch, Run(s, frames).processed) == Run(solo, Own(ch, Live(frames))).processed
    decreases frames
  {
    if frames != [] && !EndsConnection(frames[0]) {
      var f, rest := frames[0], frames[1..];
      StepKeepsSoloView(s, solo, ch, f);
      var solo' := if f.channel == ch then Step(solo, f) else solo;
      RunKeepsSoloView(Step(s, f), solo', ch, rest);
      assert Live(frames)[1..] == Live(rest);
      if f.channel == ch {
        assert Own(ch, Live(frames)) == [f] + Own(ch, Live(rest));
      } else {
        assert Own(ch, Live(frames)) == Own(ch, Live(rest));
      }
    }
  }

  /**
   What is processed on a channel is what its own frames, up to the connection's
   end, produce on a connection of their own.
   */
  lemma ChannelsAreIndependent(frames: seq<Frame>, ch: uint16)
    ensures OnChannel(ch, Run(Start, frames).processed) == Run(Start, Own(ch, Live(frames))).processed
  {
    RunKeepsSoloView(Start, Start, ch, frames);
  }

  // Content assembly

  /** What a client publishes on a channel: the body is cut into frames at will. */
  datatype Content = Content(exchange: bytes, key: bytes, flags: bytes, properties: bytes, bodies: seq<bytes>) {
    predicate Valid() {
      |exchange| <= 255 && |key| <= 255 && |Concat(bodies)| < Pow256(8)
    }

    function Result(ch: uint16): Processed {
      Processed(ch, exchange, key, Concat(bodies))
    }

    function PublishFrame(ch: uint16): Frame {
      Frame(1, ch, BigEndian(60, 2) + BigEndian(40, 2) + PublishArgs(exchange, key, flags))
    }

    function HeaderFrame(ch: uint16): Frame {
      Frame(2, ch, BigEndian(60, 2) + BigEndian(0, 2) + BigEndian(|Concat(bodies)|, 8) + properties)
    }

    function Frames(ch: uint16): seq<Frame> {
      [PublishFrame(ch)] + [HeaderFrame(ch)] + BodyFrames(ch, bodies)
    }
  }

  function BodyFrames(ch: uint16, bodies: seq<bytes>): (r: seq<Frame>)
    ensures |r| == |bodies|
  {
    if bodies == [] then [] else [Frame(3, ch, bodies[0])] + BodyFrames(ch, bodies[1..])
  }

  lemma {:induction false} RunAppend(s: State, a: seq<Frame>, b: seq<Frame>)
    ensures Run(s, a + b) == Run(Run(s, a), b)
    decreases a
  {
    if a == [] {
      assert a + b == b;
    } else if s.status.Open? {
      assert (a + b)[1..] == a[1..] + b;
      RunAppend(Step(s, a[0]), a[1..], b);
    }
  }

  lemma {:induction false} StrayBodiesIgnored(s: State, ch: uint16, bodies: seq<bytes>)
    requires s.status.Open? && ch !in s.publishes
    ensures Run(s, BodyFrames(ch, bodies)) == s
  {
    if bodies != [] {
      assert BodyFrames(ch, bodies)[1..] == BodyFrames(ch, bodies[1..]);
      StrayBodiesIgnored(s, ch, bodies[1..]);
    }
  }

  /** The body frames of a waiting publish complete it exactly once. */
  lemma {:induction false} BodiesComplete(s: State, ch: uint16, bodies: seq<bytes>)
    requires s.status.Open? && ch in s.publishes && bodies != []
    requires s.publishes[ch].size == |s.publishes[ch].body| + |Concat(bodies)|
    ensures var pub := s.publishes[ch];
            var done := Processed(ch, pub.exchange, pub.key, pub.body + Concat(bodies));
            Run(s, BodyFrames(ch, bodies)) == State(s.publishes - {ch}, s.processed + [done], Open)
    decreases bodies
  {
    var pub, rest := s.publishes[ch], bodies[1..];
    var f := Frame(3, ch, bodies[0]);
    var t := Step(s, f);
    assert BodyFrames(ch, bodies)[1..] == BodyFrames(ch, rest);
    assert pub.body + Concat(bodies) == pub.body + bodies[0] + Concat(rest);
    if |Concat(rest)| == 0 {
      StrayBodiesIgnored(t, ch, rest);
      assert pub.body + Concat(bodies) == pub.body + bodies[0];
    } else {
      BodiesComplete(t, ch, rest);
      assert t.publishes - {ch} == s.publishes - {ch};
    }
  }

  lemma PublishStep(s: State, ch: uint16, m: Content)
    requires s.status.Open? && m.Valid()
    ensures Step(s, m.PublishFrame(ch)) == s.(publishes := s.publishes[ch := Publish(m.exchange, m.key, 0, [])])
  {
    var args := PublishArgs(m.exchange, m.key, m.flags);
    var payload := m.PublishFrame(ch).payload;
    FieldBounds();
    NumberOfBigEndian(60, 2);
    NumberOfBigEndian(40, 2);
    assert payload[0..2] == BigEndian(60, 2) && payload[2..4] == BigEndian(40, 2) && payload[4..] == args;
    ParsePublishRoundTrip(m.exchange, m.key, m.flags);
  }

  lemma HeaderStep(s: State, ch: uint16, m: Content)
    requires s.status.Open? && m.Valid() && ch in s.publishes
    ensures Step(s, m.HeaderFrame(ch)) ==
            s.(publishes := s.publishes[ch := s.publishes[ch].(size := |Concat(m.bodies)|)])
  {
    var payload := m.HeaderFrame(ch).payload;
    NumberOfBigEndian(|Concat(m.bodies)|, 8);
    assert payload[4..12] == BigEndian(|Concat(m.bodies)|, 8);
  }

  lemma RunTwo(s: State, a: Frame, s1: State, b: Frame, s2: State, rest: seq<Frame>)
    requires s.status.Open? && Step(s, a) == s1 && s1.status.Open? && Step(s1, b) == s2
    ensures Run(s, [a, b] + rest) == Run(s2, rest)
  {
    var frames := [a, b] + rest;
    assert frames[1..] == [b] + rest && frames[1..][1..] == rest;
  }

  /** The state after a publish and its header: the publish waits for its whole body. */
  function Waiting(s: State, ch: uint16, m: Content): State {
    s.(publishes := s.publishes[ch := Publish(m.exchange, m.key, |Concat(m.bodies)|, [])])
  }

  lemma PublishAndHeader(s: State, ch: uint16, m: Content)
    requires s.status.Open? && m.Valid()
    ensures Run(s, m.Frames(ch)) == Run(Waiting(s, ch, m), BodyFrames(ch, m.bodies))
  {
    var s1 := s.(publishes := s.publishes[ch := Publish(m.exchange, m.key, 0, [])]);
    PublishStep(s, ch, m);
    HeaderStep(s1, ch, m);
    TwoSteps(s, ch, m, m.PublishFrame(ch), s1, m.HeaderFrame(ch));
  }

  lemma TwoSteps(s: State, ch: uint16, m: Content, a: Frame, s1: State, b: Frame)
    requires s.status.Open? && s1 == s.(publishes := s.publishes[ch := Publish(m.exchange, m.key, 0, [])])
    requires Step(s, a) == s1
    requires Step(s1, b) == s1.(publishes := s1.publishes[ch := s1.publishes[ch].(size := |Concat(m.bodies)|)])
    ensures Run(s, [a, b] + BodyFrames(ch, m.bodies)) == Run(Waiting(s, ch, m), BodyFrames(ch, m.bodies))
  {
    var s2 := Waiting(s, ch, m);
    assert s1.publishes[ch := s1.publishes[ch].(size := |Concat(m.bodies)|)] == s2.publishes;
    RunTwo(s, a, s1, b, s2, BodyFrames(ch, m.bodies));
  }

  /** A publish is processed, once and with its whole body, exactly when it has a body frame. */
  lemma ContentProcessed(s: State, ch: uint16, m: Content)
    requires s.status.Open? && m.Valid()
    ensures var t := Run(s, m.Frames(ch));
            && t.status.Open?
            && t.processed == s.processed + if m.bodies == [] then [] else [m.Result(ch)]
  {
    PublishAndHeader(s, ch, m);
    if m.bodies != [] {
      BodiesComplete(Waiting(s, ch, m), ch, m.bodies);
      assert [] + Concat(m.bodies) == Concat(m.bodies);
    }
  }

  function AllFrames(ch: uint16, ms: seq<Content>): seq<Frame> {
    if ms == [] then [] else ms[0].Frames(ch) + AllFrames(ch, ms[1..])
  }

  function Expected(ch: uint16, ms: seq<Content>): seq<Processed> {
    if ms == [] then []
    else (if ms[0].bodies == [] then [] else [ms[0].Result(ch)]) + Expected(ch, ms[1..])
  }

  lemma {:induction false} ContentsProcessed(s: State, ch: uint16, ms: seq<Content>)
    requires s.status.Open? && forall m | m in ms :: m.Valid()
    ensures Run(s, AllFrames(ch, ms)).processed == s.processed + Expected(ch, ms)
    decreases ms
  {
    if ms != [] {
      var first, rest := ms[0], ms[1..];
      var t := Run(s, first.Frames(ch));
      assert Run(s, AllFrames(ch, ms)) == Run(t, AllFrames(ch, rest)) by {
        RunAppend(s, first.Frames(ch), AllFrames(ch, rest));
      }
      ContentProcessed(s, ch, first);
      ContentsProcessed(t, ch, rest);
      AppendAssociative(s.processed, if first.bodies == [] then [] else [first.Result(ch)], Expected(ch, rest));
    }
  }

  // Frames that touch no publish: heartbeats, unknown kinds, and every other method

  predicate Neutral(f: Frame) {
    f.kind != 2 && f.kind != 3 && (f.kind == 1 ==> !EndsConnection(f) && !IsMethod(f, 60, 40))
  }

  function ContentFrames(frames: seq<Frame>): seq<Frame> {
    if frames == [] then []
    else (if Neutral(frames[0]) then [] else [frames[0]]) + ContentFrames(frames[1..])
  }

  lemma {:induction false} NeutralFramesIgnored(s: State, frames: seq<Frame>)
    ensures Run(s, frames) == Run(s, ContentFrames(frames))
    decreases frames
  {
    if frames != [] && s.status.Open? {
      if Neutral(frames[0]) {
        assert Step(s, frames[0]) == s;
        NeutralFramesIgnored(s, frames[1..]);
        assert ContentFrames(frames) == ContentFrames(frames[1..]);
      } else {
        NeutralFramesIgnored(Step(s, frames[0]), frames[1..]);
        assert ContentFrames(frames)[1..] == ContentFrames(frames[1..]);
      }
    }
  }

  /**
   Whatever the other channels send and however the frames interleave: when the
   content frames of channel `ch` spell the contents `ms`, exactly those of them
   that have a body frame are processed on `ch`, once each, whole and in order.
   */
  lemma InterleavedContentsAssembled(frames: seq<Frame>, ch: uint16, ms: seq<Content>)
    requires ContentFrames(Own(ch, Live(frames))) == AllFrames(ch, ms)
    requires forall m | m in ms :: m.Valid()
    ensures OnChannel(ch, Run(Start, frames).processed) == Expected(ch, ms)
  {
    var own := Own(ch, Live(frames));
    ChannelsAreIndependent(frames, ch);
    NeutralFramesIgnored(Start, own);
    ContentsProcessed(Start, ch, ms);
    assert [] + Expected(ch, ms) == Expected(ch, ms);
  }

  /** The same from the wire: what the server reads off the socket of a client that writes these frames. */
  lemma WireContentsAssembled(frames: seq<Frame>, ch: uint16, ms: seq<Content>)
    requires forall f | f in frames :: |f.payload| <= MAX_PAYLOAD
    requires ContentFrames(Own(ch, Live(frames))) == AllFrames(ch, ms)
    requires forall m | m in ms :: m.Valid()
    ensures OnChannel(ch, Run(Start, ReadAll(WriteAll(frames)).0).processed) == Expected(ch, ms)
  {
    StreamRoundTrip(frames, []);
    assert WriteAll(frames) + [] == WriteAll(frames);
    InterleavedContentsAssembled(frames, ch, ms);
  }

  /** And so for the whole connection, protocol header included. */
  lemma SentContentsProcessed(frames: seq<Frame>, ch: uint16, ms: seq<Content>)
    requires Sends(ProtocolHeader + WriteAll(frames), frames, ch, ms)
    ensures OnChannel(ch, Outcome(ProtocolHeader + WriteAll(frames)).processed) == Expected(ch, ms)
  {
    var input := ProtocolHeader + WriteAll(frames);
    assert ProtocolHeader <= input && input[8..] == WriteAll(frames);
    WireContentsAssembled(frames, ch, ms);
  }

  function Results(ch: uint16, ms: seq<Content>): (r: seq<Processed>)
    ensures |r| == |ms|
  {
    if ms == [] then [] else [ms[0].Result(ch)] + Results(ch, ms[1..])
  }

  lemma {:induction false} ExpectedIsAllIffNoneEmpty(ch: uint16, ms: seq<Content>)
    ensures |Expected(ch, ms)| <= |ms|
    ensures Expected(ch, ms) == Results(ch, ms) <==> forall m | m in ms :: m.bodies != []
  {
    if ms != [] {
      ExpectedIsAllIffNoneEmpty(ch, ms[1..]);
      assert forall m :: m in ms <==> m == ms[0] || m in ms[1..];
      if ms[0].bodies != [] {
        assert Expected(ch, ms)[1..] == Expected(ch, ms[1..]);
        assert Results(ch, ms)[1..] == Results(ch, ms[1..]);
      }
    }
  }

  /**
   In any interleaving the publishes of a channel are all processed, whole and in
   order, precisely when none is empty: section 4.2.6 lets an empty content have
   no body frame, and then nothing is processed.
   */
  lemma AllProcessedIffNoneEmpty(frames: seq<Frame>, ch: uint16, ms: seq<Content>)
    requires ContentFrames(Own(ch, Live(frames))) == AllFrames(ch, ms)
    requires forall m | m in ms :: m.Valid() && (|Concat(m.bodies)| == 0 ==> m.bodies == [])
    ensures OnChannel(ch, Run(Start, frames).processed) == Results(ch, ms) <==>
            forall m | m in ms :: |Concat(m.bodies)| > 0
  {
    InterleavedContentsAssembled(frames, ch, ms);
    ExpectedIsAllIffNoneEmpty(ch, ms);
    assert forall m | m in ms :: m.bodies != [] <==> |Concat(m.bodies)| > 0;
  }

  // How a connection ends

  /** Frame `i` is the first that ends the connection. */
  ghost predicate FirstToEnd(frames: seq<Frame>, i: nat) {
    && i < |frames| && EndsConnection(frames[i])
    && forall j | 0 <= j < i :: !EndsConnection(frames[j])
  }

  /** A method frame too short for a class and a method; slicing its payload panics the whole server. */
  predicate ShortMethod(f: Frame) {
    f.kind == 1 && |f.payload| < 4
  }

  /**
   The connection ends with the first frame that ends it; that crashes the server
   exactly when it is a short method frame.
   */
  lemma {:induction false} EndsWithFirstEnder(s: State, frames: seq<Frame>)
    requires s.status.Open?
    ensures Run(s, frames).status.Open? <==> forall i | 0 <= i < |frames| :: !EndsConnection(frames[i])
    ensures Run(s, frames).status.Crashed? <==> exists i: nat :: FirstToEnd(frames, i) && ShortMethod(frames[i])
    decreases frames
  {
    if frames != [] {
      var rest := frames[1..];
      if EndsConnection(frames[0]) {
        assert FirstToEnd(frames, 0);
        forall i: nat | FirstToEnd(frames, i) ensures i == 0 {
        }
      } else {
        EndsWithFirstEnder(Step(s, frames[0]), rest);
        forall i: nat | FirstToEnd(frames, i) ensures i > 0 && FirstToEnd(rest, i - 1) {
          assert forall j | 0 <= j < i - 1 :: rest[j] == frames[j + 1];
        }
        forall i: nat | FirstToEnd(rest, i) ensures FirstToEnd(frames, i + 1) {
          assert forall j | 0 < j < i + 1 :: frames[j] == rest[j - 1];
        }
        assert forall i | 0 <= i < |rest| :: rest[i] == frames[i + 1];
      }
    }
  }

  const CloseFrame := Frame(1, 0, [0, 10, 0, 50])

  /** Connection.Close ends the connection, and nothing after it is looked at. */
  lemma CloseEndsConnection(rest: bytes)
    ensures Outcome(ProtocolHeader + WriteFrame(CloseFrame) + rest) == State(map[], [], Closed)
  {
    var f, input := CloseFrame, ProtocolHeader + WriteFrame(CloseFrame) + rest;
    assert input[8..] == WriteFrame(f) + rest;
    FrameRoundTrip(f, rest);
    CloseIsClose();
    var frames := ReadAll(WriteFrame(f) + rest).0;
    var closed := Step(Start, f);
    assert frames[0] == f && closed == State(map[], [], Closed);
    assert Run(closed, frames[1..]) == closed;
    assert Run(Start, frames) == Run(closed, frames[1..]);
  }

  lemma CloseIsClose()
    ensures IsMethod(CloseFrame, 10, 50)
  {
    var b := CloseFrame.payload;
    assert b[0..2] == [0, 10] && b[2..4] == [0, 50];
    assert forall x: byte :: [0, x][..1] == [0] && Number([0]) == 0 && Number([0, x]) == x;
  }

  /** The shortest client that takes the server down: the protocol header and an empty method frame. */
  lemma EmptyMethodCrashes(rest: bytes)
    ensures Outcome(ProtocolHeader + WriteFrame(Frame(1, 0, [])) + rest).status.Crashed?
  {
    var f := Frame(1, 0, []);
    var input := ProtocolHeader + WriteFrame(f) + rest;
    assert input[8..] == WriteFrame(f) + rest;
    FrameRoundTrip(f, rest);
    var frames := ReadAll(WriteFrame(f) + rest).0;
    assert frames[0] == f && ShortMethod(f) && FirstToEnd(frames, 0);
    EndsWithFirstEnder(Start, frames);
  }
}
