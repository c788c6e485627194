/**
 The three servers that run the keep-open loop.
 */
module StreamProtocols {
  import opened Options
  import opened KeepOpenStream

  // HTTP: server-sent events or plain chunks

  datatype HttpEvent = HttpEvent(event: string, id: string, data: string)

  /** `writeStream`: templates are rendered in configured events, pushes go out verbatim. */
  function Http(render: string -> string): Protocol<HttpEvent, HttpEvent> {
    Protocol(
      (ev: HttpEvent) => Continue(ev.(data := render(ev.data))),
      (data: string) => Continue(HttpEvent("", "", data)),
      (msg: string) => if msg != "" then Some(HttpEvent("error", "", msg)) else None,
      false)
  }

  // gRPC: server streaming

  datatype GrpcMessage<+R> = GrpcReply(response: R) | GrpcError(code: int, message: string)

  /** `serveServerStream`: an error entry, or a reply that cannot be marshalled, ends the call. */
  function Grpc<R>(marshal: R -> Option<string>): Protocol<GrpcMessage<R>, string> {
    Protocol(
      (msg: GrpcMessage<R>) =>
        if msg.GrpcError? then Finish(None)
        else match marshal(msg.response) case Some(body) => Continue(body) case None => Finish(None),
      (data: string) => Continue(data),
      (msg: string) => None,
      true)
  }

  const GRPC_OK := 0
  const GRPC_UNKNOWN := 2
  const GRPC_ABORTED := 10
  const GRPC_INTERNAL := 13

  /** `safeGRPCCode`: anything that is no status code is Unknown. */
  function SafeCode(n: int): (code: int)
    ensures 0 <= code <= 16 && (0 <= n <= 16 ==> code == n)
  {
    if n < 0 || n > 16 then GRPC_UNKNOWN else n
  }

  datatype Status = Status(code: int, message: string) | TransportError

  /** `status.Error`: for the OK code it is no error at all, and the message is lost. */
  function StatusError(code: int, message: string): Status {
    if code == GRPC_OK then Status(GRPC_OK, "") else Status(code, message)
  }

  /** What the call returns to its client for each way the loop ends; `marshalError` is the library's message. */
  function GrpcStatus<R>(events: seq<GrpcMessage<R>>, marshalError: string, end: End): Status {
    match end
    case Disconnected => Status(GRPC_OK, "")
    case ClosedWith(msg) => if msg != "" then StatusError(GRPC_ABORTED, msg) else Status(GRPC_OK, "")
    case EventStopped(i) =>
      if i < |events| && events[i].GrpcError? then StatusError(SafeCode(events[i].code), events[i].message)
      else Status(GRPC_INTERNAL, marshalError)
    case PushStopped => TransportError
    case SendFailed => TransportError
  }

  // GraphQL: subscriptions over a websocket

  datatype WsMessage = Next(payload: string) | Error(message: string) | Complete

  function SendEvent(valid: string -> bool, complain: string -> string, data: string): Reaction<WsMessage> {
    if valid(data) then Continue(Next(data)) else Finish(Some(Error(complain(data))))
  }

  /** `runSubscription`: data that is not JSON ends the subscription with an error message. */
  function GraphQL(render: string -> string, valid: string -> bool,
                   complain: string -> string): Protocol<string, WsMessage> {
    Protocol(
      (data: string) => SendEvent(valid, complain, render(data)),
      (data: string) => SendEvent(valid, complain, data),
      (msg: string) => if msg != "" then Some(Error(msg)) else Some(Complete),
      false)
  }

  ghost predicate JsonData(valid: string -> bool, out: seq<Emission<WsMessage>>) {
    forall i | 0 <= i < |out| && out[i].frame.Next? :: valid(out[i].frame.payload)
  }

  lemma StepKeepsJson(render: string -> string, valid: string -> bool, complain: string -> string,
                      events: seq<string>, s: Stream<WsMessage>, c: Choice)
    requires JsonData(valid, s.out)
    ensures JsonData(valid, Step(GraphQL(render, valid, complain), events, s, c).out)
  {
    var p := GraphQL(render, valid, complain);
    if s.end.None? {
      match c {
        case TimerFires(sent) =>
          if s.idx < |events| {
            ReactionKeepsJson(valid, complain, s.out, render(events[s.idx]));
          }
        case TakePush(sent) =>
          if s.pushes != [] {
            ReactionKeepsJson(valid, complain, s.out, s.pushes[0]);
          }
        case TakeClose => assert JsonData(valid, StepTakeClose(p, s).out);
        case _ =>
      }
    }
  }

  /** Whatever an event or a push makes the loop write, its data is JSON. */
  lemma ReactionKeepsJson(valid: string -> bool, complain: string -> string, out: seq<Emission<WsMessage>>,
                          data: string)
    requires JsonData(valid, out)
    ensures match SendEvent(valid, complain, data)
            case Continue(f) =>
              && (forall i :: JsonData(valid, out + [Configured(i, f)]))
              && (forall d :: JsonData(valid, out + [Pushed(d, f)]))
            case Finish(last) => JsonData(valid, out + Last(last))
  {
  }

  /** A subscription only ever sends valid JSON as data, whatever was configured or pushed. */
  lemma {:induction false} GraphQLSendsOnlyJson(render: string -> string, valid: string -> bool,
                                                complain: string -> string, events: seq<string>,
                                                s: Stream<WsMessage>, schedule: seq<Choice>)
    requires JsonData(valid, s.out)
    ensures JsonData(valid, Run(GraphQL(render, valid, complain), events, s, schedule).out)
    decreases schedule
  {
    if schedule != [] {
      StepKeepsJson(render, valid, complain, events, s, schedule[0]);
      var t := Step(GraphQL(render, valid, complain), events, s, schedule[0]);
      GraphQLSendsOnlyJson(render, valid, complain, events, t, schedule[1..]);
    }
  }

  /** A kept-open HTTP stream ends only by its client or by a close; it never drops an event. */
  lemma HttpEndsOnlyFromOutside(render: string -> string, events: seq<HttpEvent>, schedule: seq<Choice>)
    ensures var s := Run(Http(render), events, Init(), schedule);
            && s.idx <= |events| && ConfiguredPart(s.out) == Scheduled(Http(render), events, s.idx)
            && (s.end.Some? ==> s.end.value.Disconnected? || s.end.value.ClosedWith?)
  {
    var p := Http(render);
    var s := Run(p, events, Init(), schedule);
    EveryRunKeepsInv(p, events, schedule);
    HttpNeverFails(render, events, Init(), schedule);
    if s.end.Some? {
      var n: nat, k: nat, j: nat :| n <= |s.out| && Ended(p, events, s, s.out[..n], k, j);
      HttpEnd(render, events, s, n, k, j);
    }
  }

  /**
   While an HTTP stream runs, its events went out rendered, under their own name
   and id, and its pushes verbatim, each in order.
   */
  lemma HttpWritesInOrder(render: string -> string, events: seq<HttpEvent>, schedule: seq<Choice>, i: nat)
    requires Run(Http(render), events, Init(), schedule).end.None?
    ensures var s := Run(Http(render), events, Init(), schedule);
            && s.idx <= |events|
            && |ConfiguredPart(s.out)| == s.idx
            && (i < s.idx ==>
                  ConfiguredPart(s.out)[i] ==
                    Configured(i, HttpEvent(events[i].event, events[i].id, render(events[i].data))))
            && |PushedPart(s.out)| + |s.pushes| == |s.accepted|
            && (i < |PushedPart(s.out)| ==>
               PushedPart(s.out)[i] == Pushed(s.accepted[i], HttpEvent("", "", s.accepted[i])))
  {
    WrittenInOrder(Http(render), events, schedule, i);
  }

  /** While a gRPC stream runs, its replies went out marshalled and its pushes verbatim, each in order. */
  lemma GrpcSendsInOrder<R>(marshal: R -> Option<string>, events: seq<GrpcMessage<R>>, schedule: seq<Choice>, i: nat)
    requires Run(Grpc(marshal), events, Init(), schedule).end.None?
    ensures var s := Run(Grpc(marshal), events, Init(), schedule);
            && s.idx <= |events|
            && |ConfiguredPart(s.out)| == s.idx
            && (i < s.idx ==>
                  && events[i].GrpcReply? && marshal(events[i].response).Some?
                  && ConfiguredPart(s.out)[i] == Configured(i, marshal(events[i].response).value))
            && |PushedPart(s.out)| + |s.pushes| == |s.accepted|
            && (i < |PushedPart(s.out)| ==> PushedPart(s.out)[i] == Pushed(s.accepted[i], s.accepted[i]))
  {
    WrittenInOrder(Grpc(marshal), events, schedule, i);
  }

  /** While a subscription runs, its events went out rendered and its pushes verbatim, each in order, all valid JSON. */
  lemma GraphQLSendsInOrder(render: string -> string, valid: string -> bool, complain: string -> string,
                            events: seq<string>, schedule: seq<Choice>, i: nat)
    requires Run(GraphQL(render, valid, complain), events, Init(), schedule).end.None?
    ensures var s := Run(GraphQL(render, valid, complain), events, Init(), schedule);
            && s.idx <= |events|
            && |ConfiguredPart(s.out)| == s.idx
            && (i < s.idx ==>
                  valid(render(events[i])) && ConfiguredPart(s.out)[i] == Configured(i, Next(render(events[i]))))
            && |PushedPart(s.out)| + |s.pushes| == |s.accepted|
            && (i < |PushedPart(s.out)| ==>
                  valid(s.accepted[i]) && PushedPart(s.out)[i] == Pushed(s.accepted[i], Next(s.accepted[i])))
  {
    WrittenInOrder(GraphQL(render, valid, complain), events, schedule, i);
  }

  ghost predicate StatusExplained<R>(marshal: R -> Option<string>, events: seq<GrpcMessage<R>>, marshalError: string,
                                     s: Stream<string>)
    requires s.end.Some?
  {
    var end := s.end.value;
    match end
    case ClosedWith(msg) =>
      && s.closes != [] && s.closes[0] == msg
      && GrpcStatus(events, marshalError, end) ==
         Status(if s.closes[0] == "" then GRPC_OK else GRPC_ABORTED, s.closes[0])
    case EventStopped(i) =>
      && i < |events| && AllContinue(Grpc(marshal), events, i)
      && (events[i].GrpcError? ==>
            var status := GrpcStatus(events, marshalError, end);
            && status.Status? && (status.code == GRPC_OK <==> events[i].code == 0)
            && (events[i].code == 0 ==> status.message == "")
            && (events[i].code != 0 ==>
                  && status.message == events[i].message
                  && status.code == if 1 <= events[i].code <= 16 then events[i].code else GRPC_UNKNOWN))
      && (events[i].GrpcReply? ==>
            marshal(events[i].response).None?
              && GrpcStatus(events, marshalError, end).code == GRPC_INTERNAL)
    case PushStopped => false
    case Disconnected => GrpcStatus(events, marshalError, end).code == GRPC_OK
    case SendFailed => true
  }

  lemma EndGivesStatus<R>(marshal: R -> Option<string>, events: seq<GrpcMessage<R>>, marshalError: string,
                          s: Stream<string>, n: nat, k: nat, j: nat)
    requires n <= |s.out| && Ended(Grpc(marshal), events, s, s.out[..n], k, j)
    ensures StatusExplained(marshal, events, marshalError, s)
  {
  }

  /**
   The status a gRPC stream ends with. A close gives Aborted with the message of
   the first close accepted, or OK when that is empty. An error entry is the first
   entry that could not be sent; it gives its own error, except that one with code
   0 ends the call as a success and loses its message. An entry that cannot be
   marshalled gives Internal. A push never ends the call.
   */
  lemma GrpcStatusExplained<R>(marshal: R -> Option<string>, events: seq<GrpcMessage<R>>, marshalError: string,
                               schedule: seq<Choice>)
    requires Run(Grpc(marshal), events, Init(), schedule).end.Some?
    ensures StatusExplained(marshal, events, marshalError, Run(Grpc(marshal), events, Init(), schedule))
  {
    var p := Grpc(marshal);
    var s := Run(p, events, Init(), schedule);
    EveryRunKeepsInv(p, events, schedule);
    var n: nat, k: nat, j: nat :| n <= |s.out| && Ended(p, events, s, s.out[..n], k, j);
    EndGivesStatus(marshal, events, marshalError, s, n, k, j);
  }

  /** What follows everything else on a stream that was closed. */
  ghost predicate EndsWith<F>(out: seq<Emission<F>>, last: seq<Emission<F>>) {
    exists n: nat :: n <= |out| && NoFinal(out[..n]) && out[n..] == last
  }

  /**
   Closing with a message announces it as an error; closing without one ends HTTP
   and gRPC silently and GraphQL with "complete".
   */
  lemma CloseIsAnnounced<R>(render: string -> string, valid: string -> bool, complain: string -> string,
                            marshal: R -> Option<string>, http: seq<HttpEvent>, graphql: seq<string>,
                            grpc: seq<GrpcMessage<R>>, schedule: seq<Choice>, msg: string)
    ensures var s := Run(Http(render), http, Init(), schedule);
            s.end == Some(ClosedWith(msg)) ==>
              EndsWith(s.out, if msg == "" then [] else [Final(HttpEvent("error", "", msg))])
    ensures var s := Run(GraphQL(render, valid, complain), graphql, Init(), schedule);
            s.end == Some(ClosedWith(msg)) ==> EndsWith(s.out, [Final(if msg == "" then Complete else Error(msg))])
    ensures var s := Run(Grpc(marshal), grpc, Init(), schedule);
            s.end == Some(ClosedWith(msg)) ==> EndsWith(s.out, [])
  {
    if Run(Http(render), http, Init(), schedule).end == Some(ClosedWith(msg)) {
      ClosedByFirstClose(Http(render), http, schedule, msg);
    }
    if Run(GraphQL(render, valid, complain), graphql, Init(), schedule).end == Some(ClosedWith(msg)) {
      ClosedByFirstClose(GraphQL(render, valid, complain), graphql, schedule, msg);
    }
    if Run(Grpc(marshal), grpc, Init(), schedule).end == Some(ClosedWith(msg)) {
      ClosedByFirstClose(Grpc(marshal), grpc, schedule, msg);
    }
  }

  lemma HttpEnd(render: string -> string, events: seq<HttpEvent>, s: Stream<HttpEvent>, n: nat, k: nat, j: nat)
    requires n <= |s.out| && Ended(Http(render), events, s, s.out[..n], k, j)
    requires s.end != Some(SendFailed)
    ensures s.end.value.Disconnected? || s.end.value.ClosedWith?
    ensures k == s.idx && ConfiguredPart(s.out) == ConfiguredPart(s.out[..n])
  {
    if s.end.value.ClosedWith? {
      assert s.out == s.out[..n] + Last(Http(render).onClose(s.end.value.msg));
    }
    ConfiguredPartOfEnd(s.out, n);
  }

  lemma {:induction false} HttpNeverFails(render: string -> string, events: seq<HttpEvent>, s: Stream<HttpEvent>,
                                          schedule: seq<Choice>)
    requires s.end != Some(SendFailed)
    ensures Run(Http(render), events, s, schedule).end != Some(SendFailed)
    decreases schedule
  {
    if schedule != [] {
      HttpNeverFails(render, events, Step(Http(render), events, s, schedule[0]), schedule[1..]);
    }
  }

  lemma {:induction false} GraphQLNeverFails(render: string -> string, valid: string -> bool,
                                             complain: string -> string, events: seq<string>,
                                             s: Stream<WsMessage>, schedule: seq<Choice>)
    requires s.end != Some(SendFailed)
    ensures Run(GraphQL(render, valid, complain), events, s, schedule).end != Some(SendFailed)
    decreases schedule
  {
    if schedule != [] {
      var t := Step(GraphQL(render, valid, complain), events, s, schedule[0]);
      GraphQLNeverFails(render, valid, complain, events, t, schedule[1..]);
    }
  }

  /** What ended a subscription that ended by itself. */
  ghost predicate BadDataEnd(render: string -> string, valid: string -> bool, events: seq<string>,
                             s: Stream<WsMessage>) {
    match s.end
    case Some(EventStopped(i)) => i < |events| && !valid(render(events[i]))
    case Some(PushStopped) => s.taken != [] && !valid(s.taken[|s.taken| - 1])
    case Some(SendFailed) => false
    case _ => true
  }

  lemma ExplainedBadData(render: string -> string, valid: string -> bool, complain: string -> string,
                         events: seq<string>, s: Stream<WsMessage>, before: seq<Emission<WsMessage>>, k: nat)
    requires EndExplained(GraphQL(render, valid, complain), events, s, before, k) && s.end != Some(SendFailed)
    ensures BadDataEnd(render, valid, events, s)
  {
  }

  /** A subscription ends by itself only on data that is not JSON, configured or pushed; failed writes never end it. */
  lemma GraphQLEndsOnBadData(render: string -> string, valid: string -> bool, complain: string -> string,
                             events: seq<string>, schedule: seq<Choice>)
    ensures BadDataEnd(render, valid, events, Run(GraphQL(render, valid, complain), events, Init(), schedule))
  {
    var p := GraphQL(render, valid, complain);
    var s := Run(p, events, Init(), schedule);
    if s.end.Some? {
      EveryRunKeepsInv(p, events, schedule);
      GraphQLNeverFails(render, valid, complain, events, Init(), schedule);
      var n: nat, k: nat, j: nat :| n <= |s.out| && Ended(p, events, s, s.out[..n], k, j);
      ExplainedBadData(render, valid, complain, events, s, s.out[..n], k);
    }
  }

  /** On gRPC a reply or push that cannot be sent ends the call. */
  lemma GrpcFailedSendEnds<R>(marshal: R -> Option<string>, events: seq<GrpcMessage<R>>, s: Stream<string>)
    requires s.end.None?
    ensures s.idx < |events| && events[s.idx].GrpcReply? && marshal(events[s.idx].response).Some? ==>
              Step(Grpc(marshal), events, s, TimerFires(false)).end == Some(SendFailed)
    ensures s.pushes != [] ==> Step(Grpc(marshal), events, s, TakePush(false)).end == Some(SendFailed)
  {
    FailedSendEnds(Grpc(marshal), events, s);
  }

  /** A gRPC stream sends nothing configured from its first error entry on. */
  lemma GrpcSilentFromFirstError<R>(marshal: R -> Option<string>, events: seq<GrpcMessage<R>>,
                                    schedule: seq<Choice>, e: nat)
    requires e < |events| && events[e].GrpcError?
    ensures ConfiguredPart(Run(Grpc(marshal), events, Init(), schedule).out) <= PlainOut(Grpc(marshal), events)
    ensures |PlainOut(Grpc(marshal), events)| <= e
  {
    var p := Grpc(marshal);
    ConfiguredPrefixOfPlain(p, events, schedule);
    var k := FirstStop(p, events, 0);
    assert p.onEvent(events[e]).Finish?;
    if k > 0 {
      ScheduledAt(p, events, k, 0);
    }
  }
}
