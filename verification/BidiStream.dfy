/**
 Bidirectional gRPC streams: each client message is answered with the
 configured message of the same index. In the keep-open form a goroutine
 receives ahead of the loop, which also takes pushes and a close.
 */
module BidiStream {
  import opened Basics
  import opened Options
  import opened KeepOpenStream

  datatype Event<+F> = Received | Sent(e: Emission<F>)

  /** What the receiving goroutine offers the loop. */
  datatype Offer = Nothing | Message | Failure

  datatype Phase = Selecting | Answering(index: nat)

  /** The last three fields record every push accepted, every push taken off the queue and every close accepted. */
  datatype Bidi<+F> = Bidi(
    offer: Offer, receiving: bool, handed: nat, idx: nat, recvDone: bool, phase: Phase,
    pushes: seq<string>, close: Option<string>, trace: seq<Event<F>>, end: Option<End>,
    accepted: seq<string>, taken: seq<string>, closes: seq<string>)

  function InitBidi<F>(): Bidi<F> {
    Bidi(Nothing, true, 0, 0, false, Selecting, [], None, [], None, [], [], [])
  }

  datatype Turn =
    | ClientSays(ok: bool)
    | HandOver
    | Answer(sent: bool)
    | AcceptPush(data: string)
    | AcceptClose(msg: string)
    | SendPush(sent: bool)
    | EndByClose
    | ClientGone

  /** The goroutine: `RecvMsg`, then wait until the loop takes what came. */
  function StepReceive<F>(s: Bidi<F>, ok: bool): Bidi<F> {
    if !s.receiving || !s.offer.Nothing? then s
    else if ok then s.(offer := Message, trace := s.trace + [Received])
    else s.(offer := Failure, receiving := false)
  }

  function StepHandOver<E, F>(stream: seq<E>, s: Bidi<F>): Bidi<F> {
    match s.offer
    case Nothing => s
    case Failure => if s.recvDone then s else s.(offer := Nothing, recvDone := true)
    case Message =>
      if s.recvDone then s
      else
        var t := s.(offer := Nothing, handed := s.handed + 1);
        if s.idx >= |stream| then t else t.(idx := s.idx + 1, phase := Answering(s.idx))
  }

  function StepAnswer<E, F>(p: Protocol<E, F>, stream: seq<E>, s: Bidi<F>, sent: bool): Bidi<F> {
    if !s.phase.Answering? || s.phase.index >= |stream| then s
    else
      match p.onEvent(stream[s.phase.index])
      case Finish(_) => s.(end := Some(EventStopped(s.phase.index)))
      case Continue(f) =>
        if sent then s.(phase := Selecting, trace := s.trace + [Sent(Configured(s.phase.index, f))])
        else s.(end := Some(SendFailed))
  }

  function StepSendPush<E, F>(p: Protocol<E, F>, s: Bidi<F>, sent: bool): Bidi<F> {
    if s.pushes == [] then s
    else
      var t := s.(pushes := s.pushes[1..], taken := s.taken + [s.pushes[0]]);
      match p.onPush(s.pushes[0])
      case Finish(_) => t.(end := Some(PushStopped))
      case Continue(f) =>
        if sent then t.(trace := s.trace + [Sent(Pushed(s.pushes[0], f))]) else t.(end := Some(SendFailed))
  }

  predicate AtSelect<F>(s: Bidi<F>) {
    s.end.None? && s.phase.Selecting?
  }

  function StepBidi<E, F>(p: Protocol<E, F>, stream: seq<E>, s: Bidi<F>, turn: Turn): Bidi<F> {
    match turn
    case AcceptPush(data) =>
      if |s.pushes| < PUSH_QUEUE then s.(pushes := s.pushes + [data], accepted := s.accepted + [data]) else s
    case AcceptClose(msg) => if s.close.None? then s.(close := Some(msg), closes := s.closes + [msg]) else s
    case ClientSays(ok) => if s.end.Some? then s else StepReceive(s, ok)
    case Answer(sent) => if s.end.Some? then s else StepAnswer(p, stream, s, sent)
    case HandOver => if AtSelect(s) then StepHandOver(stream, s) else s
    case SendPush(sent) => if AtSelect(s) then StepSendPush(p, s, sent) else s
    case EndByClose =>
      if AtSelect(s) && s.close.Some? then s.(end := Some(ClosedWith(s.close.value)), close := None) else s
    case ClientGone => if AtSelect(s) then s.(end := Some(Disconnected)) else s
  }

  function RunBidi<E, F>(p: Protocol<E, F>, stream: seq<E>, s: Bidi<F>, turns: seq<Turn>): Bidi<F>
    decreases turns
  {
    if turns == [] then s else RunBidi(p, stream, StepBidi(p, stream, s, turns[0]), turns[1..])
  }

  /** The keep-open loop, with the goroutine and the two closures running between its turns. */
  method ServeBidi<E, F>(p: Protocol<E, F>, stream: seq<E>, turns: seq<Turn>)
    returns (trace: seq<Event<F>>, end: Option<End>)
    ensures var s := RunBidi(p, stream, InitBidi(), turns); trace == s.trace && end == s.end
  {
    var idx, recvDone, offer, receiving, phase := 0, false, Nothing, true, Selecting;
    var pushCh: seq<string>, closeCh: Option<string> := [], None;
    trace, end := [], None;
    ghost var s: Bidi<F> := InitBidi();
    for i := 0 to |turns|
      invariant s == Bidi(offer, receiving, s.handed, idx, recvDone, phase, pushCh, closeCh, trace, end,
                          s.accepted, s.taken, s.closes)
      invariant RunBidi(p, stream, s, turns[i..]) == RunBidi(p, stream, InitBidi(), turns)
    {
      var turn := turns[i];
      s := StepBidi(p, stream, s, turn);
      assert turns[i..][1..] == turns[i + 1..];
      if turn.AcceptPush? {
        if |pushCh| < PUSH_QUEUE {
          pushCh := pushCh + [turn.data];
        }
      } else if turn.AcceptClose? {
        if closeCh.None? {
          closeCh := Some(turn.msg);
        }
      } else if end.Some? {
      } else if turn.ClientSays? {
        if receiving && offer.Nothing? {
          if turn.ok {
            offer := Message;
            trace := trace + [Received];
          } else {
            offer := Failure;
            receiving := false;
          }
        }
      } else if turn.Answer? {
        if phase.Answering? && phase.index < |stream| {
          match p.onEvent(stream[phase.index]) {
            case Finish(_) => end := Some(EventStopped(phase.index));
            case Continue(f) =>
              if turn.sent {
                trace := trace + [Sent(Configured(phase.index, f))];
                phase := Selecting;
              } else {
                end := Some(SendFailed);
              }
          }
        }
      } else if phase.Answering? {
      } else if turn.ClientGone? {
        end := Some(Disconnected);
      } else if turn.EndByClose? {
        if closeCh.Some? {
          end := Some(ClosedWith(closeCh.value));
          closeCh := None;
        }
      } else if turn.SendPush? {
        if pushCh != [] {
          var data := pushCh[0];
          pushCh := pushCh[1..];
          match p.onPush(data) {
            case Finish(_) => end := Some(PushStopped);
            case Continue(f) =>
              if turn.sent {
                trace := trace + [Sent(Pushed(data, f))];
              } else {
                end := Some(SendFailed);
              }
          }
        }
      } else if !recvDone && offer.Failure? {
        offer := Nothing;
        recvDone := true;
      } else if !recvDone && offer.Message? {
        offer := Nothing;
        if idx < |stream| {
          phase := Answering(idx);
          idx := idx + 1;
        }
      }
    }
  }

  // What the trace shows

  function CountReceived<F>(trace: seq<Event<F>>): nat {
    if trace == [] then 0
    else CountReceived(trace[..|trace| - 1]) + if trace[|trace| - 1].Received? then 1 else 0
  }

  function Replies<F>(trace: seq<Event<F>>): seq<Emission<F>> {
    if trace == [] then []
    else
      var last := trace[|trace| - 1];
      Replies(trace[..|trace| - 1]) + if last.Sent? && last.e.Configured? then [last.e] else []
  }

  /** Reply `i` comes after at least `i + 1` client messages. */
  ghost predicate Paced<F>(trace: seq<Event<F>>) {
    forall t | 0 <= t < |trace| && trace[t].Sent? && trace[t].e.Configured? ::
      trace[t].e.index < CountReceived(trace[..t])
  }

  /** The replies are the first `k` configured messages, none of them an error entry, each in its turn. */
  ghost predicate Answered<E, F>(p: Protocol<E, F>, stream: seq<E>, trace: seq<Event<F>>, k: nat) {
    && Paced(trace)
    && AllContinue(p, stream, k) && Replies(trace) == Scheduled(p, stream, k)
    && k <= CountReceived(trace)
  }

  ghost predicate RepliesPaced<E, F>(p: Protocol<E, F>, stream: seq<E>, trace: seq<Event<F>>) {
    exists k: nat :: Answered(p, stream, trace, k)
  }

  lemma TraceAppend<F>(trace: seq<Event<F>>, e: Event<F>)
    ensures CountReceived(trace + [e]) == CountReceived(trace) + if e.Received? then 1 else 0
    ensures Replies(trace + [e]) == Replies(trace) + if e.Sent? && e.e.Configured? then [e.e] else []
    ensures Paced(trace) && (e.Sent? && e.e.Configured? ==> e.e.index < CountReceived(trace)) ==> Paced(trace + [e])
  {
    var after := trace + [e];
    assert after[..|trace|] == trace;
    assert forall t | 0 <= t < |trace| :: after[..t] == trace[..t];
  }

  /** A message from the client, or a push, leaves the replies as they are. */
  lemma AnsweredAside<E, F>(p: Protocol<E, F>, stream: seq<E>, trace: seq<Event<F>>, k: nat, e: Event<F>)
    requires Answered(p, stream, trace, k) && (e.Received? || !e.e.Configured?)
    ensures Answered(p, stream, trace + [e], k)
    ensures CountReceived(trace + [e]) == CountReceived(trace) + if e.Received? then 1 else 0
  {
    TraceAppend(trace, e);
  }

  lemma AnsweredNext<E, F>(p: Protocol<E, F>, stream: seq<E>, trace: seq<Event<F>>, k: nat, f: F)
    requires Answered(p, stream, trace, k) && k < CountReceived(trace)
    requires k < |stream| && p.onEvent(stream[k]) == Continue(f)
    ensures Answered(p, stream, trace + [Sent(Configured(k, f))], k + 1)
    ensures CountReceived(trace + [Sent(Configured(k, f))]) == CountReceived(trace)
  {
    TraceAppend(trace, Sent(Configured(k, f)));
  }

  ghost predicate BidiInv<E, F>(p: Protocol<E, F>, stream: seq<E>, s: Bidi<F>) {
    && s.idx == Min(s.handed, |stream|)
    && CountReceived(s.trace) == s.handed + (if s.offer.Message? then 1 else 0)
    && (s.phase.Answering? ==> s.idx == s.phase.index + 1)
    && Answered(p, stream, s.trace, if s.phase.Selecting? then s.idx else s.phase.index)
  }

  lemma ReceiveKeepsBidiInv<E, F>(p: Protocol<E, F>, stream: seq<E>, s: Bidi<F>, ok: bool)
    requires BidiInv(p, stream, s)
    ensures BidiInv(p, stream, StepReceive(s, ok))
  {
    AnsweredAside(p, stream, s.trace, if s.phase.Selecting? then s.idx else s.phase.index, Received);
  }

  lemma AnswerKeepsBidiInv<E, F>(p: Protocol<E, F>, stream: seq<E>, s: Bidi<F>, sent: bool)
    requires BidiInv(p, stream, s)
    ensures BidiInv(p, stream, StepAnswer(p, stream, s, sent))
  {
    if s.phase.Answering? {
      var i := s.phase.index;
      assert i < |stream| && i < s.handed <= CountReceived(s.trace);
      if sent && p.onEvent(stream[i]).Continue? {
        AnsweredNext(p, stream, s.trace, i, p.onEvent(stream[i]).frame);
        assert BidiInv(p, stream, StepAnswer(p, stream, s, sent));
      }
    }
  }

  lemma PushKeepsBidiInv<E, F>(p: Protocol<E, F>, stream: seq<E>, s: Bidi<F>, sent: bool)
    requires BidiInv(p, stream, s) && AtSelect(s)
    ensures BidiInv(p, stream, StepSendPush(p, s, sent))
  {
    if s.pushes != [] && sent && p.onPush(s.pushes[0]).Continue? {
      AnsweredAside(p, stream, s.trace, s.idx, Sent(Pushed(s.pushes[0], p.onPush(s.pushes[0]).frame)));
    }
  }

  lemma HandOverKeepsBidiInv<E, F>(p: Protocol<E, F>, stream: seq<E>, s: Bidi<F>)
    requires BidiInv(p, stream, s) && AtSelect(s)
    ensures BidiInv(p, stream, StepHandOver(stream, s))
  {
  }

  lemma StepKeepsBidiInv<E, F>(p: Protocol<E, F>, stream: seq<E>, s: Bidi<F>, turn: Turn)
    requires BidiInv(p, stream, s)
    ensures BidiInv(p, stream, StepBidi(p, stream, s, turn))
  {
    match turn {
      case ClientSays(ok) => ReceiveKeepsBidiInv(p, stream, s, ok);
      case Answer(sent) => AnswerKeepsBidiInv(p, stream, s, sent);
      case HandOver => if AtSelect(s) { HandOverKeepsBidiInv(p, stream, s); }
      case SendPush(sent) => if AtSelect(s) { PushKeepsBidiInv(p, stream, s, sent); }
      case _ =>
    }
  }

  lemma {:induction false} RunKeepsBidiInv<E, F>(p: Protocol<E, F>, stream: seq<E>, s: Bidi<F>, turns: seq<Turn>)
    requires BidiInv(p, stream, s)
    ensures BidiInv(p, stream, RunBidi(p, stream, s, turns))
    decreases turns
  {
    if turns != [] {
      StepKeepsBidiInv(p, stream, s, turns[0]);
      RunKeepsBidiInv(p, stream, StepBidi(p, stream, s, turns[0]), turns[1..]);
    }
  }

  /**
   In every keep-open run: replies in order, each after its own client message,
   never past the list or an error entry; and between turns every message
   handed to the loop has been answered as far as the list goes.
   */
  lemma KeepOpenRepliesPaced<E, F>(p: Protocol<E, F>, stream: seq<E>, turns: seq<Turn>)
    ensures var s := RunBidi(p, stream, InitBidi(), turns);
            && RepliesPaced(p, stream, s.trace)
            && (s.phase.Selecting? ==> Answered(p, stream, s.trace, Min(s.handed, |stream|)))
            && CountReceived(s.trace) <= s.handed + 1
  {
    RunKeepsBidiInv(p, stream, InitBidi(), turns);
    var s := RunBidi(p, stream, InitBidi(), turns);
    var k: nat := if s.phase.Selecting? then s.idx else s.phase.index;
    assert Answered(p, stream, s.trace, k);
  }

  // Pushes and closes

  function PushesSent<F>(trace: seq<Event<F>>): seq<Emission<F>> {
    if trace == [] then []
    else
      var last := trace[|trace| - 1];
      PushesSent(trace[..|trace| - 1]) + if last.Sent? && last.e.Pushed? then [last.e] else []
  }

  lemma PushesSentAppend<F>(trace: seq<Event<F>>, e: Event<F>)
    ensures PushesSent(trace + [e]) == PushesSent(trace) + if e.Sent? && e.e.Pushed? then [e.e] else []
  {
    assert (trace + [e])[..|trace|] == trace;
  }

  /** The first `j` pushes taken off the queue were sent, in order. */
  ghost predicate SentFirst<E, F>(p: Protocol<E, F>, s: Bidi<F>, j: nat) {
    j <= |s.taken| && AllPushable(p, s.taken[..j]) && PushesSent(s.trace) == Delivered(p, s.taken[..j])
  }

  ghost predicate QueueInv<E, F>(p: Protocol<E, F>, s: Bidi<F>) {
    && |s.pushes| <= PUSH_QUEUE
    && s.accepted == s.taken + s.pushes
    && (s.end.None? ==> SentFirst(p, s, |s.taken|) && s.closes == (if s.close.Some? then [s.close.value] else []))
    && (s.end.Some? ==> SentFirst(p, s, |s.taken|) || (|s.taken| > 0 && SentFirst(p, s, |s.taken| - 1)))
    && (s.end.Some? && s.end.value.ClosedWith? ==> s.closes != [] && s.closes[0] == s.end.value.msg)
  }

  /** Nothing about pushes or closes changed but the trace, which got no push. */
  lemma AsideKeepsQueueInv<E, F>(p: Protocol<E, F>, s: Bidi<F>, t: Bidi<F>, e: Event<F>)
    requires QueueInv(p, s) && (e.Received? || !e.e.Pushed?)
    requires t.pushes == s.pushes && t.accepted == s.accepted && t.taken == s.taken && t.closes == s.closes
             && t.close == s.close
    requires t.trace == s.trace || t.trace == s.trace + [e]
    requires t.end == s.end || (s.end.None? && !t.end.value.ClosedWith?)
    ensures QueueInv(p, t)
  {
    PushesSentAppend(s.trace, e);
  }

  lemma SentOneMore<E, F>(p: Protocol<E, F>, s: Bidi<F>, t: Bidi<F>, data: string)
    requires SentFirst(p, s, |s.taken|) && p.onPush(data).Continue?
    requires t.taken == s.taken + [data] && t.trace == s.trace + [Sent(Pushed(data, p.onPush(data).frame))]
    ensures SentFirst(p, t, |t.taken|)
  {
    PushesSentAppend(s.trace, Sent(Pushed(data, p.onPush(data).frame)));
    assert s.taken[..|s.taken|] == s.taken && t.taken[..|t.taken|] == t.taken && t.taken[..|s.taken|] == s.taken;
  }

  lemma SendPushKeepsQueueInv<E, F>(p: Protocol<E, F>, s: Bidi<F>, sent: bool)
    requires QueueInv(p, s) && s.end.None?
    ensures QueueInv(p, StepSendPush(p, s, sent))
  {
    if s.pushes != [] {
      var t, data := StepSendPush(p, s, sent), s.pushes[0];
      assert s.pushes == [data] + s.pushes[1..];
      AppendAssociative(s.taken, [data], s.pushes[1..]);
      var n := |s.taken|;
      assert s.taken[..n] == s.taken && t.taken[..n] == s.taken;
      if t.end.None? {
        SentOneMore(p, s, t, data);
      } else {
        assert SentFirst(p, t, n);
      }
    }
  }

  lemma AcceptPushKeepsQueueInv<E, F>(p: Protocol<E, F>, stream: seq<E>, s: Bidi<F>, data: string)
    requires QueueInv(p, s)
    ensures QueueInv(p, StepBidi(p, stream, s, AcceptPush(data)))
  {
    AppendAssociative(s.taken, s.pushes, [data]);
  }

  lemma CloseKeepsQueueInv<E, F>(p: Protocol<E, F>, stream: seq<E>, s: Bidi<F>, msg: string)
    requires QueueInv(p, s)
    ensures QueueInv(p, StepBidi(p, stream, s, AcceptClose(msg)))
  {
  }

  lemma EndByCloseKeepsQueueInv<E, F>(p: Protocol<E, F>, stream: seq<E>, s: Bidi<F>)
    requires QueueInv(p, s)
    ensures QueueInv(p, StepBidi(p, stream, s, EndByClose))
  {
  }

  lemma AnswerKeepsQueueInv<E, F>(p: Protocol<E, F>, stream: seq<E>, s: Bidi<F>, sent: bool)
    requires QueueInv(p, s) && s.end.None?
    ensures QueueInv(p, StepAnswer(p, stream, s, sent))
  {
    var t := StepAnswer(p, stream, s, sent);
    AsideKeepsQueueInv(p, s, t, if t.trace == s.trace then Received else t.trace[|s.trace|]);
  }

  lemma ClientKeepsQueueInv<E, F>(p: Protocol<E, F>, stream: seq<E>, s: Bidi<F>, ok: bool)
    requires QueueInv(p, s) && s.end.None?
    ensures QueueInv(p, StepReceive(s, ok))
    ensures QueueInv(p, StepHandOver(stream, s))
    ensures QueueInv(p, s.(end := Some(Disconnected)))
  {
    AsideKeepsQueueInv(p, s, StepReceive(s, ok), Received);
    AsideKeepsQueueInv(p, s, StepHandOver(stream, s), Received);
    AsideKeepsQueueInv(p, s, s.(end := Some(Disconnected)), Received);
  }

  lemma StepKeepsQueueInv<E, F>(p: Protocol<E, F>, stream: seq<E>, s: Bidi<F>, turn: Turn)
    requires QueueInv(p, s)
    ensures QueueInv(p, StepBidi(p, stream, s, turn))
  {
    match turn {
      case AcceptPush(data) => AcceptPushKeepsQueueInv(p, stream, s, data);
      case AcceptClose(msg) => CloseKeepsQueueInv(p, stream, s, msg);
      case EndByClose => EndByCloseKeepsQueueInv(p, stream, s);
      case SendPush(sent) => if AtSelect(s) { SendPushKeepsQueueInv(p, s, sent); }
      case Answer(sent) => if s.end.None? { AnswerKeepsQueueInv(p, stream, s, sent); }
      case ClientSays(ok) => if s.end.None? { ClientKeepsQueueInv(p, stream, s, ok); }
      case _ => if s.end.None? { ClientKeepsQueueInv(p, stream, s, true); }
    }
  }

  lemma {:induction false} RunKeepsQueueInv<E, F>(p: Protocol<E, F>, stream: seq<E>, s: Bidi<F>, turns: seq<Turn>)
    requires QueueInv(p, s)
    ensures QueueInv(p, RunBidi(p, stream, s, turns))
    decreases turns
  {
    if turns != [] {
      StepKeepsQueueInv(p, stream, s, turns[0]);
      RunKeepsQueueInv(p, stream, StepBidi(p, stream, s, turns[0]), turns[1..]);
    }
  }

  /**
   While the call runs every accepted push was sent, in order, or is among the 16
   queued; a closed call ended with the first close accepted.
   */
  lemma BidiLosesNoPush<E, F>(p: Protocol<E, F>, stream: seq<E>, turns: seq<Turn>)
    ensures var s := RunBidi(p, stream, InitBidi(), turns);
            && |s.pushes| <= PUSH_QUEUE && s.accepted == s.taken + s.pushes
            && (s.end.None? ==> AllPushable(p, s.taken) && PushesSent(s.trace) == Delivered(p, s.taken))
            && (s.end.Some? && s.end.value.ClosedWith? ==> s.closes != [] && s.closes[0] == s.end.value.msg)
  {
    var s := RunBidi(p, stream, InitBidi(), turns);
    RunKeepsQueueInv(p, stream, InitBidi(), turns);
    assert s.taken[..|s.taken|] == s.taken;
  }

  // What a run makes of the pushes and closes it is given

  lemma {:induction false} RunBidiAppend<E, F>(p: Protocol<E, F>, stream: seq<E>, s: Bidi<F>, turns: seq<Turn>,
                                               turn: Turn)
    ensures RunBidi(p, stream, s, turns + [turn]) == StepBidi(p, stream, RunBidi(p, stream, s, turns), turn)
    decreases turns
  {
    if turns == [] {
      assert ([] + [turn])[1..] == [];
    } else {
      RunBidiAppend(p, stream, StepBidi(p, stream, s, turns[0]), turns[1..], turn);
      assert (turns + [turn])[1..] == turns[1..] + [turn];
    }
  }

  lemma LastTurn<E, F>(p: Protocol<E, F>, stream: seq<E>, turns: seq<Turn>)
    requires turns != []
    ensures var n := |turns| - 1;
            RunBidi(p, stream, InitBidi(), turns) ==
            StepBidi(p, stream, RunBidi(p, stream, InitBidi(), turns[..n]), turns[n])
  {
    var n := |turns| - 1;
    assert turns == turns[..n] + [turns[n]];
    RunBidiAppend(p, stream, InitBidi<F>(), turns[..n], turns[n]);
  }

  /** The data pushed in these turns, in order. */
  function PushData(turns: seq<Turn>): seq<string> {
    if turns == [] then []
    else
      var n := |turns| - 1;
      PushData(turns[..n]) + if turns[n].AcceptPush? then [turns[n].data] else []
  }

  /** The messages of the closes in these turns, in order. */
  function CloseMessages(turns: seq<Turn>): seq<string> {
    if turns == [] then []
    else
      var n := |turns| - 1;
      CloseMessages(turns[..n]) + if turns[n].AcceptClose? then [turns[n].msg] else []
  }

  ghost predicate RecordsExplained<F>(s: Bidi<F>, data: seq<string>, messages: seq<string>) {
    && Sublist(s.accepted, data) && (|data| <= PUSH_QUEUE ==> s.accepted == data)
    && Sublist(s.closes, messages)
    && (messages != [] ==> s.closes != [] && s.closes[0] == messages[0])
    && (s.closes == [] ==> s.close.None?)
  }

  lemma TurnRecords<E, F>(p: Protocol<E, F>, stream: seq<E>, s: Bidi<F>, turn: Turn)
    ensures var t := StepBidi(p, stream, s, turn);
            && t.accepted == s.accepted + (if turn.AcceptPush? && |s.pushes| < PUSH_QUEUE then [turn.data] else [])
            && t.closes == s.closes + (if turn.AcceptClose? && s.close.None? then [turn.msg] else [])
            && (t.close.Some? ==> s.close.Some? || turn.AcceptClose?)
  {
  }

  lemma NextRecords<E, F>(p: Protocol<E, F>, stream: seq<E>, s: Bidi<F>, turn: Turn, data: seq<string>,
                          messages: seq<string>)
    requires RecordsExplained(s, data, messages) && s.accepted == s.taken + s.pushes
    ensures RecordsExplained(StepBidi(p, stream, s, turn),
                             data + (if turn.AcceptPush? then [turn.data] else []),
                             messages + (if turn.AcceptClose? then [turn.msg] else []))
  {
    TurnRecords(p, stream, s, turn);
    var more := if turn.AcceptPush? then [turn.data] else [];
    var said := if turn.AcceptClose? then [turn.msg] else [];
    SublistNext(s.accepted, data, if |s.pushes| < PUSH_QUEUE then more else [], more);
    SublistNext(s.closes, messages, if s.close.None? then said else [], said);
  }

  /**
   The pushes a call accepted are those it was given, in order, less some, and less
   none when there were at most 16; the first close it was given is the first it
   accepted.
   */
  lemma {:induction false} BidiAcceptsAsGiven<E, F>(p: Protocol<E, F>, stream: seq<E>, turns: seq<Turn>)
    ensures RecordsExplained(RunBidi(p, stream, InitBidi(), turns), PushData(turns), CloseMessages(turns))
  {
    if turns != [] {
      var n := |turns| - 1;
      BidiAcceptsAsGiven(p, stream, turns[..n]);
      RunKeepsQueueInv(p, stream, InitBidi(), turns[..n]);
      LastTurn(p, stream, turns);
      NextRecords(p, stream, RunBidi(p, stream, InitBidi(), turns[..n]), turns[n], PushData(turns[..n]),
                  CloseMessages(turns[..n]));
    }
  }

  /** So a closed call ended with the first message it was given. */
  lemma BidiClosedByFirstClose<E, F>(p: Protocol<E, F>, stream: seq<E>, turns: seq<Turn>, msg: string)
    requires RunBidi(p, stream, InitBidi(), turns).end == Some(ClosedWith(msg))
    ensures CloseMessages(turns) != [] && CloseMessages(turns)[0] == msg
  {
    BidiAcceptsAsGiven(p, stream, turns);
    RunKeepsQueueInv(p, stream, InitBidi(), turns);
  }

  // What is ready is acted on

  /** One message of a client whose replies all get through. */
  const Round := [ClientSays(true), HandOver, Answer(true)]

  function Rounds(n: nat): seq<Turn> {
    if n == 0 then [] else Round + Rounds(n - 1)
  }

  /** What a round adds to the trace when the call has handled `k` messages. */
  function RoundTrace<E, F>(p: Protocol<E, F>, stream: seq<E>, k: nat): seq<Event<F>>
    requires k < |stream| ==> p.onEvent(stream[k]).Continue?
  {
    [Received] + if k < |stream| then [Sent(Configured(k, p.onEvent(stream[k]).frame))] else []
  }

  function RoundsTrace<E, F>(p: Protocol<E, F>, stream: seq<E>, k: nat, n: nat): seq<Event<F>>
    requires forall i | k <= i < k + n && i < |stream| :: p.onEvent(stream[i]).Continue?
    decreases n
  {
    if n == 0 then [] else RoundTrace(p, stream, k) + RoundsTrace(p, stream, k + 1, n - 1)
  }

  /** Between turns, with nothing of the client's under way. */
  predicate Idle<E, F>(stream: seq<E>, s: Bidi<F>) {
    AtSelect(s) && s.receiving && s.offer.Nothing? && !s.recvDone && s.idx == Min(s.handed, |stream|)
  }

  lemma RoundAnswers<E, F>(p: Protocol<E, F>, stream: seq<E>, s: Bidi<F>)
    requires Idle(stream, s) && (s.handed < |stream| ==> p.onEvent(stream[s.handed]).Continue?)
    ensures var t := RunBidi(p, stream, s, Round);
            && Idle(stream, t) && t.handed == s.handed + 1
            && t.trace == s.trace + RoundTrace(p, stream, s.handed)
  {
    var s1 := StepBidi(p, stream, s, ClientSays(true));
    var s2 := StepBidi(p, stream, s1, HandOver);
    var s3 := StepBidi(p, stream, s2, Answer(true));
    RunThree(p, stream, s, ClientSays(true), HandOver, Answer(true));
    if s.handed < |stream| {
      AppendAssociative(s.trace, [Received], [Sent(Configured(s.handed, p.onEvent(stream[s.handed]).frame))]);
    }
  }

  lemma RunThree<E, F>(p: Protocol<E, F>, stream: seq<E>, s: Bidi<F>, a: Turn, b: Turn, c: Turn)
    ensures RunBidi(p, stream, s, [a, b, c]) ==
            StepBidi(p, stream, StepBidi(p, stream, StepBidi(p, stream, s, a), b), c)
  {
    assert [a, b, c][1..] == [b, c] && [b, c][1..] == [c] && [c][1..] == [];
    assert RunBidi(p, stream, StepBidi(p, stream, s, a), [b, c]) ==
           RunBidi(p, stream, StepBidi(p, stream, StepBidi(p, stream, s, a), b), [c]);
  }

  lemma {:induction false} RunBidiConcat<E, F>(p: Protocol<E, F>, stream: seq<E>, s: Bidi<F>, a: seq<Turn>,
                                               b: seq<Turn>)
    ensures RunBidi(p, stream, s, a + b) == RunBidi(p, stream, RunBidi(p, stream, s, a), b)
    decreases a
  {
    if a == [] {
      assert a + b == b;
    } else {
      RunBidiConcat(p, stream, StepBidi(p, stream, s, a[0]), a[1..], b);
      assert (a + b)[1..] == a[1..] + b;
    }
  }

  /**
   From any state between messages, further messages are each received and
   answered in turn, as far as the list goes.
   */
  lemma {:induction false} RoundsAnswer<E, F>(p: Protocol<E, F>, stream: seq<E>, s: Bidi<F>, n: nat)
    requires Idle(stream, s)
    requires forall i | s.handed <= i < s.handed + n && i < |stream| :: p.onEvent(stream[i]).Continue?
    ensures var t := RunBidi(p, stream, s, Rounds(n));
            && Idle(stream, t) && t.handed == s.handed + n
            && t.trace == s.trace + RoundsTrace(p, stream, s.handed, n)
    decreases n
  {
    if n > 0 {
      var t := RunBidi(p, stream, s, Round);
      RoundAnswers(p, stream, s);
      RunBidiConcat(p, stream, s, Round, Rounds(n - 1));
      RoundsAnswer(p, stream, t, n - 1);
      AppendAssociative(s.trace, RoundTrace(p, stream, s.handed), RoundsTrace(p, stream, s.handed + 1, n - 1));
    }
  }

  /** So the whole trace of a client that says `n` things, with no entry that ends the call among their answers. */
  lemma ClientIsAnswered<E, F>(p: Protocol<E, F>, stream: seq<E>, n: nat)
    requires forall i | 0 <= i < n && i < |stream| :: p.onEvent(stream[i]).Continue?
    ensures var s := RunBidi(p, stream, InitBidi(), Rounds(n));
            s.end.None? && s.trace == RoundsTrace(p, stream, 0, n)
  {
    RoundsAnswer(p, stream, InitBidi<F>(), n);
  }

  lemma TakesReady<E, F>(p: Protocol<E, F>, stream: seq<E>, s: Bidi<F>, first: string)
    requires AtSelect(s) && s.accepted == s.taken + s.pushes
    requires s.closes == if s.close.Some? then [s.close.value] else []
    ensures |s.taken| < |s.accepted| && p.onPush(s.accepted[|s.taken|]).Continue? ==>
              var data := s.accepted[|s.taken|];
              StepBidi(p, stream, s, SendPush(true)).trace == s.trace + [Sent(Pushed(data, p.onPush(data).frame))]
    ensures s.closes != [] && s.closes[0] == first ==>
              StepBidi(p, stream, s, EndByClose).end == Some(ClosedWith(first))
    ensures StepBidi(p, stream, s, ClientGone).end == Some(Disconnected)
  {
  }

  /** A waiting push is sent when the loop takes it. */
  lemma WaitingPushSent<E, F>(p: Protocol<E, F>, stream: seq<E>, turns: seq<Turn>)
    requires AtSelect(RunBidi(p, stream, InitBidi(), turns))
    ensures var s := RunBidi(p, stream, InitBidi(), turns);
            |s.taken| < |s.accepted| && p.onPush(s.accepted[|s.taken|]).Continue? ==>
              var data := s.accepted[|s.taken|];
              RunBidi(p, stream, InitBidi(), turns + [SendPush(true)]).trace ==
              s.trace + [Sent(Pushed(data, p.onPush(data).frame))]
  {
    RunBidiAppend(p, stream, InitBidi<F>(), turns, SendPush(true));
    RunKeepsQueueInv(p, stream, InitBidi(), turns);
    TakesReady(p, stream, RunBidi(p, stream, InitBidi(), turns), "");
  }

  /** A waiting close ends the call when the loop looks, with the first message; a client that leaves ends it too. */
  lemma WaitingCloseEnds<E, F>(p: Protocol<E, F>, stream: seq<E>, turns: seq<Turn>)
    requires AtSelect(RunBidi(p, stream, InitBidi(), turns))
    ensures CloseMessages(turns) != [] ==>
              RunBidi(p, stream, InitBidi(), turns + [EndByClose]).end == Some(ClosedWith(CloseMessages(turns)[0]))
    ensures RunBidi(p, stream, InitBidi(), turns + [ClientGone]).end == Some(Disconnected)
  {
    RunBidiAppend(p, stream, InitBidi<F>(), turns, EndByClose);
    RunBidiAppend(p, stream, InitBidi<F>(), turns, ClientGone);
    RunKeepsQueueInv(p, stream, InitBidi(), turns);
    BidiAcceptsAsGiven(p, stream, turns);
    var messages := CloseMessages(turns);
    TakesReady(p, stream, RunBidi(p, stream, InitBidi(), turns), if messages == [] then "" else messages[0]);
  }

  /** A reply or push that cannot be sent ends the call and leaves no trace. */
  lemma BidiFailedSendEnds<E, F>(p: Protocol<E, F>, stream: seq<E>, s: Bidi<F>)
    requires s.end.None?
    ensures s.phase.Answering? && s.phase.index < |stream| && p.onEvent(stream[s.phase.index]).Continue? ==>
              var t := StepBidi(p, stream, s, Answer(false)); t.end == Some(SendFailed) && t.trace == s.trace
    ensures AtSelect(s) && s.pushes != [] && p.onPush(s.pushes[0]).Continue? ==>
              var t := StepBidi(p, stream, s, SendPush(false)); t.end == Some(SendFailed) && t.trace == s.trace
  {
  }

  /** What must have happened in `turns` for a call to have ended as it did. */
  ghost predicate EndCaused<E, F>(p: Protocol<E, F>, stream: seq<E>, end: End, turns: seq<Turn>) {
    match end
    case Disconnected => ClientGone in turns
    case ClosedWith(_) => EndByClose in turns
    case EventStopped(i) => i < |stream| && p.onEvent(stream[i]).Finish?
    case PushStopped => exists d :: p.onPush(d).Finish?
    case SendFailed => Answer(false) in turns || SendPush(false) in turns
  }

  lemma StepEndCaused<E, F>(p: Protocol<E, F>, stream: seq<E>, s: Bidi<F>, turn: Turn)
    requires s.end.None? && StepBidi(p, stream, s, turn).end.Some?
    ensures EndCaused(p, stream, StepBidi(p, stream, s, turn).end.value, [turn])
  {
  }

  /**
   No call ends but by its client leaving, a close, an entry or push that ends it,
   or a failed send: a half-close alone ends none.
   */
  lemma {:induction false} HalfCloseNeverEnds<E, F>(p: Protocol<E, F>, stream: seq<E>, s: Bidi<F>, turns: seq<Turn>)
    requires s.end.None?
    ensures var t := RunBidi(p, stream, s, turns); t.end.Some? ==> EndCaused(p, stream, t.end.value, turns)
    decreases turns
  {
    if turns != [] {
      var t := StepBidi(p, stream, s, turns[0]);
      if t.end.Some? {
        StepEndCaused(p, stream, s, turns[0]);
        EndStays(p, stream, t, turns[1..]);
        assert forall x :: x in [turns[0]] ==> x in turns;
      } else {
        HalfCloseNeverEnds(p, stream, t, turns[1..]);
        assert forall x :: x in turns[1..] ==> x in turns;
      }
    }
  }

  lemma {:induction false} EndStays<E, F>(p: Protocol<E, F>, stream: seq<E>, s: Bidi<F>, turns: seq<Turn>)
    requires s.end.Some?
    ensures var t := RunBidi(p, stream, s, turns); t.end == s.end && t.trace == s.trace
    decreases turns
  {
    if turns != [] {
      EndStays(p, stream, StepBidi(p, stream, s, turns[0]), turns[1..]);
    }
  }

  /** The first `k` entries were answered and entry `k` ended the call, by itself or because its send failed. */
  ghost predicate StoppedAt<E, F>(p: Protocol<E, F>, stream: seq<E>, trace: seq<Event<F>>, sendOk: nat -> bool,
                                  k: nat, end: End) {
    && Answered(p, stream, trace, k) && CountReceived(trace) == k + 1 <= |stream|
    && if p.onEvent(stream[k]).Finish? then end == EventStopped(k) else !sendOk(k) && end == SendFailed
  }

  /**
   The loop without keep-open: `client` says how many messages come before the
   half-close, `sendOk` which sends succeed.
   */
  method PlainBidi<E, F>(p: Protocol<E, F>, stream: seq<E>, client: nat, sendOk: nat -> bool)
    returns (trace: seq<Event<F>>, end: Option<End>)
    ensures RepliesPaced(p, stream, trace)
    ensures end.None? ==> CountReceived(trace) == client && Answered(p, stream, trace, Min(client, |stream|))
    ensures end.Some? ==> exists k: nat :: k < client && StoppedAt(p, stream, trace, sendOk, k, end.value)
  {
    trace, end := [], None;
    for i := 0 to client
      invariant CountReceived(trace) == i && end.None?
      invariant Answered(p, stream, trace, Min(i, |stream|))
    {
      if i >= |stream| {
        AnsweredAside(p, stream, trace, |stream|, Received);
        trace := trace + [Received];
        continue;
      }
      trace, end := AnswerOne(p, stream, trace, i, sendOk);
      if end.Some? {
        return;
      }
    }
  }

  /** Receiving message `i` and answering it. */
  method AnswerOne<E, F>(p: Protocol<E, F>, stream: seq<E>, before: seq<Event<F>>, i: nat, sendOk: nat -> bool)
    returns (trace: seq<Event<F>>, end: Option<End>)
    requires i < |stream| && CountReceived(before) == i && Answered(p, stream, before, i)
    ensures end.None? ==> CountReceived(trace) == i + 1 && Answered(p, stream, trace, i + 1)
    ensures end.Some? ==> StoppedAt(p, stream, trace, sendOk, i, end.value)
  {
    AnsweredAside(p, stream, before, i, Received);
    trace, end := before + [Received], None;
    match p.onEvent(stream[i]) {
      case Finish(_) =>
        end := Some(EventStopped(i));
      case Continue(f) =>
        if !sendOk(i) {
          end := Some(SendFailed);
          return;
        }
        AnsweredNext(p, stream, trace, i, f);
        trace := trace + [Sent(Configured(i, f))];
    }
  }
}
