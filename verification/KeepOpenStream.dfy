/**
 The send loop behind a kept-open HTTP stream, gRPC server stream and GraphQL
 subscription: configured events fire on timers, pushes wait in a 16-slot
 queue, a close waits in a one-slot mailbox, and the client may leave. A
 `select` takes any branch that is ready, so a run is any schedule of choices.
 */
module KeepOpenStream {
  import opened Basics
  import opened Options

  const PUSH_QUEUE := 16

  /** What a protocol does with one event: write a frame, or end the stream. */
  datatype Reaction<+F> = Continue(frame: F) | Finish(last: Option<F>)

  datatype Protocol<!E, +F> = Protocol(
    onEvent: E -> Reaction<F>,
    onPush: string -> Reaction<F>,
    onClose: string -> Option<F>,
    sendMayFail: bool)

  datatype Emission<+F> =
    | Configured(index: nat, frame: F)
    | Pushed(data: string, frame: F)
    | Final(frame: F)

  datatype End = Disconnected | ClosedWith(msg: string) | EventStopped(index: nat) | PushStopped | SendFailed

  /**
   `pushes` and `close` are the two channels, `out` what was written. The last
   three fields record every push accepted, every push taken off the queue and
   every close accepted.
   */
  datatype Stream<+F> = Stream(
    idx: nat, pushes: seq<string>, close: Option<string>, out: seq<Emission<F>>, end: Option<End>,
    accepted: seq<string>, taken: seq<string>, closes: seq<string>)

  function Init<F>(): Stream<F> {
    Stream(0, [], None, [], None, [], [], [])
  }

  datatype Choice =
    | Push(data: string)
    | Close(msg: string)
    | TimerFires(sent: bool)
    | TakePush(sent: bool)
    | TakeClose
    | Disconnect

  /** The `Push` closure: a full queue refuses. */
  function StepPush<F>(s: Stream<F>, data: string): Stream<F> {
    if |s.pushes| < PUSH_QUEUE then s.(pushes := s.pushes + [data], accepted := s.accepted + [data]) else s
  }

  /** The `Close` closure: a full mailbox drops the message. */
  function StepClose<F>(s: Stream<F>, msg: string): Stream<F> {
    if s.close.None? then s.(close := Some(msg), closes := s.closes + [msg]) else s
  }

  function Last<F>(last: Option<F>): seq<Emission<F>> {
    match last
    case Some(f) => [Final(f)]
    case None => []
  }

  function StepTimer<E, F>(p: Protocol<E, F>, events: seq<E>, s: Stream<F>, sent: bool): Stream<F> {
    if s.idx >= |events| then s
    else
      var t := s.(idx := s.idx + 1);
      match p.onEvent(events[s.idx])
      case Continue(f) =>
        if sent || !p.sendMayFail then t.(out := s.out + [Configured(s.idx, f)]) else t.(end := Some(SendFailed))
      case Finish(last) => t.(out := s.out + Last(last), end := Some(EventStopped(s.idx)))
  }

  function StepTakePush<E, F>(p: Protocol<E, F>, s: Stream<F>, sent: bool): Stream<F> {
    if s.pushes == [] then s
    else
      var data := s.pushes[0];
      var t := s.(pushes := s.pushes[1..], taken := s.taken + [data]);
      match p.onPush(data)
      case Continue(f) =>
        if sent || !p.sendMayFail then t.(out := s.out + [Pushed(data, f)]) else t.(end := Some(SendFailed))
      case Finish(last) => t.(out := s.out + Last(last), end := Some(PushStopped))
  }

  function StepTakeClose<E, F>(p: Protocol<E, F>, s: Stream<F>): Stream<F> {
    match s.close
    case None => s
    case Some(msg) => s.(close := None, out := s.out + Last(p.onClose(msg)), end := Some(ClosedWith(msg)))
  }

  /** A choice that is not ready changes nothing; after the end only the two closures can still run. */
  function Step<E, F>(p: Protocol<E, F>, events: seq<E>, s: Stream<F>, c: Choice): Stream<F> {
    match c
    case Push(data) => StepPush(s, data)
    case Close(msg) => StepClose(s, msg)
    case TimerFires(sent) => if s.end.Some? then s else StepTimer(p, events, s, sent)
    case TakePush(sent) => if s.end.Some? then s else StepTakePush(p, s, sent)
    case TakeClose => if s.end.Some? then s else StepTakeClose(p, s)
    case Disconnect => if s.end.Some? then s else s.(end := Some(Disconnected))
  }

  function Run<E, F>(p: Protocol<E, F>, events: seq<E>, s: Stream<F>, schedule: seq<Choice>): Stream<F>
    decreases schedule
  {
    if schedule == [] then s else Run(p, events, Step(p, events, s, schedule[0]), schedule[1..])
  }

  /** The loop itself, with the two closures called between its turns. */
  method Serve<E, F>(p: Protocol<E, F>, events: seq<E>, schedule: seq<Choice>)
    returns (out: seq<Emission<F>>, end: Option<End>, pushCh: seq<string>, closeCh: Option<string>)
    ensures var s := Run(p, events, Init(), schedule);
            out == s.out && end == s.end && pushCh == s.pushes && closeCh == s.close
  {
    var idx := 0;
    out, end, pushCh, closeCh := [], None, [], None;
    ghost var s: Stream<F> := Init();
    for turn := 0 to |schedule|
      invariant idx == s.idx && out == s.out && end == s.end && pushCh == s.pushes && closeCh == s.close
      invariant Run(p, events, s, schedule[turn..]) == Run(p, events, Init(), schedule)
    {
      var c := schedule[turn];
      s := Step(p, events, s, c);
      assert schedule[turn..][1..] == schedule[turn + 1..];
      if c.Push? {
        if |pushCh| < PUSH_QUEUE {
          pushCh := pushCh + [c.data];
        }
      } else if c.Close? {
        if closeCh.None? {
          closeCh := Some(c.msg);
        }
      } else if end.Some? {
      } else if c.Disconnect? {
        end := Some(Disconnected);
      } else if c.TakeClose? && closeCh.Some? {
        var msg := closeCh.value;
        closeCh := None;
        out := out + Last(p.onClose(msg));
        end := Some(ClosedWith(msg));
      } else if c.TakePush? && pushCh != [] {
        var data := pushCh[0];
        pushCh := pushCh[1..];
        match p.onPush(data) {
          case Finish(last) =>
            out := out + Last(last);
            end := Some(PushStopped);
          case Continue(f) =>
            if c.sent || !p.sendMayFail {
              out := out + [Pushed(data, f)];
            } else {
              end := Some(SendFailed);
            }
        }
      } else if c.TimerFires? && idx < |events| {
        var i := idx;
        idx := idx + 1;
        match p.onEvent(events[i]) {
          case Finish(last) =>
            out := out + Last(last);
            end := Some(EventStopped(i));
          case Continue(f) =>
            if c.sent || !p.sendMayFail {
              out := out + [Configured(i, f)];
            } else {
              end := Some(SendFailed);
            }
        }
      }
    }
  }

  // What every interleaving keeps

  ghost predicate AllContinue<E, F>(p: Protocol<E, F>, events: seq<E>, k: nat) {
    k <= |events| && forall i | 0 <= i < k :: p.onEvent(events[i]).Continue?
  }

  /** The first `k` configured events, in order, each as its own frame. */
  ghost function Scheduled<E, F>(p: Protocol<E, F>, events: seq<E>, k: nat): seq<Emission<F>>
    requires AllContinue(p, events, k)
  {
    if k == 0 then [] else Scheduled(p, events, k - 1) + [Configured(k - 1, p.onEvent(events[k - 1]).frame)]
  }

  ghost predicate AllPushable<E, F>(p: Protocol<E, F>, pushes: seq<string>) {
    forall d | d in pushes :: p.onPush(d).Continue?
  }

  /** These pushes, in order, each as its own frame. */
  ghost function Delivered<E, F>(p: Protocol<E, F>, pushes: seq<string>): seq<Emission<F>>
    requires AllPushable(p, pushes)
  {
    if pushes == [] then []
    else
      var n := |pushes| - 1;
      Delivered(p, pushes[..n]) + [Pushed(pushes[n], p.onPush(pushes[n]).frame)]
  }

  function ConfiguredPart<F>(out: seq<Emission<F>>): seq<Emission<F>> {
    if out == [] then []
    else ConfiguredPart(out[..|out| - 1]) + (if out[|out| - 1].Configured? then [out[|out| - 1]] else [])
  }

  function PushedPart<F>(out: seq<Emission<F>>): seq<Emission<F>> {
    if out == [] then []
    else PushedPart(out[..|out| - 1]) + (if out[|out| - 1].Pushed? then [out[|out| - 1]] else [])
  }

  ghost predicate NoFinal<F>(out: seq<Emission<F>>) {
    forall i | 0 <= i < |out| :: !out[i].Final?
  }

  /** While the loop runs. */
  ghost predicate Running<E, F>(p: Protocol<E, F>, events: seq<E>, s: Stream<F>) {
    && s.end.None?
    && NoFinal(s.out)
    && AllContinue(p, events, s.idx) && ConfiguredPart(s.out) == Scheduled(p, events, s.idx)
    && AllPushable(p, s.taken) && PushedPart(s.out) == Delivered(p, s.taken)
    && s.closes == (if s.close.Some? then [s.close.value] else [])
  }

  /** What ended the loop, and what it wrote on the way out. */
  ghost predicate EndExplained<E, F>(p: Protocol<E, F>, events: seq<E>, s: Stream<F>, before: seq<Emission<F>>,
                                     k: nat) {
    && s.end.Some?
    && match s.end.value {
         case Disconnected => s.out == before && k == s.idx
         case SendFailed => s.out == before
         case ClosedWith(msg) =>
           s.closes != [] && s.closes[0] == msg && s.out == before + Last(p.onClose(msg)) && k == s.idx
         case EventStopped(i) =>
           && i < |events| && i == k && s.idx == i + 1
           && p.onEvent(events[i]).Finish? && s.out == before + Last(p.onEvent(events[i]).last)
         case PushStopped =>
           && s.taken != [] && k == s.idx
           && var d := s.taken[|s.taken| - 1];
           && p.onPush(d).Finish? && s.out == before + Last(p.onPush(d).last)
       }
  }

  /** After the loop: all it wrote before its last act was scheduled events and accepted pushes. */
  ghost predicate Ended<E, F>(p: Protocol<E, F>, events: seq<E>, s: Stream<F>, before: seq<Emission<F>>, k: nat,
                              j: nat) {
    && NoFinal(before)
    && k <= s.idx <= k + 1 && AllContinue(p, events, k) && ConfiguredPart(before) == Scheduled(p, events, k)
    && j <= |s.taken| <= j + 1 && AllPushable(p, s.taken[..j]) && PushedPart(before) == Delivered(p, s.taken[..j])
    && EndExplained(p, events, s, before, k)
  }

  ghost predicate Inv<E, F>(p: Protocol<E, F>, events: seq<E>, s: Stream<F>) {
    && s.idx <= |events|
    && |s.pushes| <= PUSH_QUEUE
    && s.accepted == s.taken + s.pushes
    && (s.end.None? ==> Running(p, events, s))
    && (s.end.Some? ==> exists n: nat, k: nat, j: nat :: n <= |s.out| && Ended(p, events, s, s.out[..n], k, j))
  }

  lemma EndsWell<E, F>(p: Protocol<E, F>, events: seq<E>, s: Stream<F>, t: Stream<F>)
    requires Running(p, events, s)
    requires t.taken == s.taken || (t.taken != [] && t.taken[..|t.taken| - 1] == s.taken)
    requires s.idx <= t.idx <= s.idx + 1
    requires EndExplained(p, events, t, s.out, s.idx)
    ensures |s.out| <= |t.out| && Ended(p, events, t, t.out[..|s.out|], s.idx, |s.taken|)
  {
    assert t.taken[..|s.taken|] == s.taken;
    assert t.out[..|s.out|] == s.out;
  }

  lemma PartsOfAppend<F>(out: seq<Emission<F>>, e: Emission<F>)
    ensures ConfiguredPart(out + [e]) == ConfiguredPart(out) + if e.Configured? then [e] else []
    ensures PushedPart(out + [e]) == PushedPart(out) + if e.Pushed? then [e] else []
  {
    assert (out + [e])[..|out|] == out;
  }

  lemma RunningAfterEvent<E, F>(p: Protocol<E, F>, events: seq<E>, s: Stream<F>, f: F)
    requires Running(p, events, s) && s.idx < |events| && p.onEvent(events[s.idx]) == Continue(f)
    ensures Running(p, events, s.(idx := s.idx + 1, out := s.out + [Configured(s.idx, f)]))
  {
    var k, e := s.idx, Configured(s.idx, f);
    PartsOfAppend(s.out, e);
    assert AllContinue(p, events, k + 1);
    assert Scheduled(p, events, k + 1) == Scheduled(p, events, k) + [e];
    assert NoFinal(s.out + [e]);
  }

  lemma RunningAfterPush<E, F>(p: Protocol<E, F>, events: seq<E>, s: Stream<F>, t: Stream<F>, data: string, f: F)
    requires Running(p, events, s) && p.onPush(data) == Continue(f)
    requires t == s.(pushes := t.pushes, taken := s.taken + [data], out := s.out + [Pushed(data, f)])
    ensures Running(p, events, t)
  {
    PartsOfAppend(s.out, Pushed(data, f));
    assert t.taken[..|t.taken| - 1] == s.taken;
  }

  lemma TimerKeepsInv<E, F>(p: Protocol<E, F>, events: seq<E>, s: Stream<F>, sent: bool)
    requires Inv(p, events, s) && s.end.None?
    ensures Inv(p, events, StepTimer(p, events, s, sent))
  {
    var t := StepTimer(p, events, s, sent);
    if s.idx < |events| {
      if t.end.Some? {
        EndsWell(p, events, s, t);
      } else {
        RunningAfterEvent(p, events, s, p.onEvent(events[s.idx]).frame);
      }
    }
  }

  lemma TakePushKeepsInv<E, F>(p: Protocol<E, F>, events: seq<E>, s: Stream<F>, sent: bool)
    requires Inv(p, events, s) && s.end.None?
    ensures Inv(p, events, StepTakePush(p, s, sent))
  {
    var t := StepTakePush(p, s, sent);
    if s.pushes != [] {
      assert s.pushes == [s.pushes[0]] + s.pushes[1..];
      AppendAssociative(s.taken, [s.pushes[0]], s.pushes[1..]);
      if t.end.Some? {
        assert t.taken[..|t.taken| - 1] == s.taken;
        EndsWell(p, events, s, t);
      } else {
        RunningAfterPush(p, events, s, t, s.pushes[0], p.onPush(s.pushes[0]).frame);
      }
    }
  }

  lemma LeaveKeepsInv<E, F>(p: Protocol<E, F>, events: seq<E>, s: Stream<F>)
    requires Inv(p, events, s) && s.end.None?
    ensures Inv(p, events, StepTakeClose(p, s))
    ensures Inv(p, events, s.(end := Some(Disconnected)))
  {
    EndsWell(p, events, s, s.(end := Some(Disconnected)));
    var t := StepTakeClose(p, s);
    if t.end.Some? {
      EndsWell(p, events, s, t);
    }
  }

  /** The closures touch nothing an ended stream's explanation rests on but the later closes. */
  lemma EndedKept<E, F>(p: Protocol<E, F>, events: seq<E>, s: Stream<F>, t: Stream<F>)
    requires s.end.Some? && Inv(p, events, s)
    requires t == s.(pushes := t.pushes, accepted := t.accepted, close := t.close, closes := t.closes)
    requires s.closes <= t.closes
    ensures exists n: nat, k: nat, j: nat :: n <= |t.out| && Ended(p, events, t, t.out[..n], k, j)
  {
    var n: nat, k: nat, j: nat :| n <= |s.out| && Ended(p, events, s, s.out[..n], k, j);
    assert Ended(p, events, t, t.out[..n], k, j);
  }

  lemma PushKeepsInv<E, F>(p: Protocol<E, F>, events: seq<E>, s: Stream<F>, data: string)
    requires Inv(p, events, s)
    ensures Inv(p, events, StepPush(s, data))
  {
    AppendAssociative(s.taken, s.pushes, [data]);
    if s.end.Some? {
      EndedKept(p, events, s, StepPush(s, data));
    }
  }

  lemma CloseKeepsInv<E, F>(p: Protocol<E, F>, events: seq<E>, s: Stream<F>, msg: string)
    requires Inv(p, events, s)
    ensures Inv(p, events, StepClose(s, msg))
  {
    if s.end.Some? {
      EndedKept(p, events, s, StepClose(s, msg));
    }
  }

  lemma StepKeepsInv<E, F>(p: Protocol<E, F>, events: seq<E>, s: Stream<F>, c: Choice)
    requires Inv(p, events, s)
    ensures Inv(p, events, Step(p, events, s, c))
  {
    match c {
      case Push(data) => PushKeepsInv(p, events, s, data);
      case Close(msg) => CloseKeepsInv(p, events, s, msg);
      case TimerFires(sent) => if s.end.None? { TimerKeepsInv(p, events, s, sent); }
      case TakePush(sent) => if s.end.None? { TakePushKeepsInv(p, events, s, sent); }
      case TakeClose => if s.end.None? { LeaveKeepsInv(p, events, s); }
      case Disconnect => if s.end.None? { LeaveKeepsInv(p, events, s); }
    }
  }

  lemma {:induction false} RunKeepsInv<E, F>(p: Protocol<E, F>, events: seq<E>, s: Stream<F>, schedule: seq<Choice>)
    requires Inv(p, events, s)
    ensures Inv(p, events, Run(p, events, s, schedule))
    decreases schedule
  {
    if schedule != [] {
      StepKeepsInv(p, events, s, schedule[0]);
      RunKeepsInv(p, events, Step(p, events, s, schedule[0]), schedule[1..]);
    }
  }

  lemma InitInv<E, F>(p: Protocol<E, F>, events: seq<E>)
    ensures Inv(p, events, Init<F>())
  {
  }

  /** Every reachable state of every run is explained. */
  lemma EveryRunKeepsInv<E, F>(p: Protocol<E, F>, events: seq<E>, schedule: seq<Choice>)
    ensures Inv(p, events, Run(p, events, Init(), schedule))
  {
    InitInv(p, events);
    RunKeepsInv(p, events, Init(), schedule);
  }

  /** While it runs: events in order, and every accepted push delivered in order or still among the 16 queued. */
  lemma NothingLostWhileRunning<E, F>(p: Protocol<E, F>, events: seq<E>, schedule: seq<Choice>)
    requires Run(p, events, Init(), schedule).end.None?
    ensures var s := Run(p, events, Init(), schedule);
            && AllContinue(p, events, s.idx) && ConfiguredPart(s.out) == Scheduled(p, events, s.idx)
            && AllPushable(p, s.taken) && PushedPart(s.out) == Delivered(p, s.taken)
            && s.accepted == s.taken + s.pushes && |s.pushes| <= PUSH_QUEUE
  {
    EveryRunKeepsInv(p, events, schedule);
  }

  lemma {:induction false} ScheduledAt<E, F>(p: Protocol<E, F>, events: seq<E>, k: nat, i: nat)
    requires AllContinue(p, events, k) && i < k
    ensures |Scheduled(p, events, k)| == k && Scheduled(p, events, k)[i] == Configured(i, p.onEvent(events[i]).frame)
    decreases k
  {
    if i < k - 1 {
      ScheduledAt(p, events, k - 1, i);
    } else if k > 1 {
      ScheduledAt(p, events, k - 1, 0);
    }
  }

  lemma {:induction false} DeliveredAt<E, F>(p: Protocol<E, F>, pushes: seq<string>, i: nat)
    requires AllPushable(p, pushes) && i < |pushes|
    ensures |Delivered(p, pushes)| == |pushes|
            && Delivered(p, pushes)[i] == Pushed(pushes[i], p.onPush(pushes[i]).frame)
    decreases pushes
  {
    var n := |pushes| - 1;
    if i < n {
      DeliveredAt(p, pushes[..n], i);
    } else if n > 0 {
      DeliveredAt(p, pushes[..n], 0);
    }
  }

  /** While it runs, event by event and push by push. */
  lemma WrittenInOrder<E, F>(p: Protocol<E, F>, events: seq<E>, schedule: seq<Choice>, i: nat)
    requires Run(p, events, Init(), schedule).end.None?
    ensures var s := Run(p, events, Init(), schedule);
            && s.idx <= |events| && |ConfiguredPart(s.out)| == s.idx
            && (i < s.idx ==>
                  && p.onEvent(events[i]).Continue?
                  && ConfiguredPart(s.out)[i] == Configured(i, p.onEvent(events[i]).frame))
            && |PushedPart(s.out)| + |s.pushes| == |s.accepted|
            && (i < |PushedPart(s.out)| ==>
                  && p.onPush(s.accepted[i]).Continue?
                  && PushedPart(s.out)[i] == Pushed(s.accepted[i], p.onPush(s.accepted[i]).frame))
  {
    var s := Run(p, events, Init(), schedule);
    NothingLostWhileRunning(p, events, schedule);
    if s.idx > 0 {
      ScheduledAt(p, events, s.idx, if i < s.idx then i else 0);
    }
    if s.taken != [] {
      DeliveredAt(p, s.taken, if i < |s.taken| then i else 0);
    }
  }

  // What a run makes of the pushes and closes it is given

  lemma {:induction false} RunAppend<E, F>(p: Protocol<E, F>, events: seq<E>, s: Stream<F>, schedule: seq<Choice>,
                                           c: Choice)
    ensures Run(p, events, s, schedule + [c]) == Step(p, events, Run(p, events, s, schedule), c)
    decreases schedule
  {
    if schedule == [] {
      assert ([] + [c])[1..] == [];
    } else {
      RunAppend(p, events, Step(p, events, s, schedule[0]), schedule[1..], c);
      assert (schedule + [c])[1..] == schedule[1..] + [c];
    }
  }

  /** The data of the pushes in a schedule, in order. */
  function Data(schedule: seq<Choice>): seq<string> {
    if schedule == [] then []
    else
      var n := |schedule| - 1;
      Data(schedule[..n]) + if schedule[n].Push? then [schedule[n].data] else []
  }

  /** The messages of the closes in a schedule, in order. */
  function Messages(schedule: seq<Choice>): seq<string> {
    if schedule == [] then []
    else
      var n := |schedule| - 1;
      Messages(schedule[..n]) + if schedule[n].Close? then [schedule[n].msg] else []
  }

  lemma LastStep<E, F>(p: Protocol<E, F>, events: seq<E>, schedule: seq<Choice>)
    requires schedule != []
    ensures var n := |schedule| - 1;
            Run(p, events, Init(), schedule) == Step(p, events, Run(p, events, Init(), schedule[..n]), schedule[n])
  {
    var n := |schedule| - 1;
    assert schedule == schedule[..n] + [schedule[n]];
    RunAppend(p, events, Init<F>(), schedule[..n], schedule[n]);
  }

  /** What one step adds to the records of what was accepted. */
  lemma StepRecords<E, F>(p: Protocol<E, F>, events: seq<E>, s: Stream<F>, c: Choice)
    ensures var t := Step(p, events, s, c);
            && t.accepted == s.accepted + (if c.Push? && |s.pushes| < PUSH_QUEUE then [c.data] else [])
            && t.closes == s.closes + (if c.Close? && s.close.None? then [c.msg] else [])
            && (t.close.Some? ==> s.close.Some? || c.Close?)
  {
  }

  lemma SublistNext<T>(a: seq<T>, b: seq<T>, more: seq<T>, all: seq<T>)
    requires Sublist(a, b) && |all| <= 1 && (more == [] || more == all)
    ensures Sublist(a + more, b + all)
  {
    if all == [] {
      assert a + more == a && b + all == b;
    } else {
      SublistAppend(a, b, all[0]);
      assert all == [all[0]] && (more == [] ==> a + more == a);
    }
  }

  /** The pushes accepted are those of the schedule, in order, less some, and less none when there are at most 16. */
  lemma {:induction false} AcceptedAsPushed<E, F>(p: Protocol<E, F>, events: seq<E>, schedule: seq<Choice>)
    ensures var s := Run(p, events, Init(), schedule);
            && Sublist(s.accepted, Data(schedule))
            && (|Data(schedule)| <= PUSH_QUEUE ==> s.accepted == Data(schedule))
  {
    if schedule != [] {
      var n := |schedule| - 1;
      var before, c := schedule[..n], schedule[n];
      AcceptedAsPushed(p, events, before);
      EveryRunKeepsInv(p, events, before);
      LastStep(p, events, schedule);
      NextAccepted(p, events, Run(p, events, Init(), before), c, Data(before));
    }
  }

  lemma NextAccepted<E, F>(p: Protocol<E, F>, events: seq<E>, s: Stream<F>, c: Choice, data: seq<string>)
    requires Sublist(s.accepted, data) && (|data| <= PUSH_QUEUE ==> s.accepted == data)
    requires s.accepted == s.taken + s.pushes
    ensures var t, all := Step(p, events, s, c), data + if c.Push? then [c.data] else [];
            Sublist(t.accepted, all) && (|all| <= PUSH_QUEUE ==> t.accepted == all)
  {
    StepRecords(p, events, s, c);
    var all := if c.Push? then [c.data] else [];
    SublistNext(s.accepted, data, if |s.pushes| < PUSH_QUEUE then all else [], all);
  }

  /** A push is accepted exactly when fewer than 16 of those before it wait. */
  lemma PushAcceptedIff<E, F>(p: Protocol<E, F>, events: seq<E>, schedule: seq<Choice>, data: string)
    ensures var s, t := Run(p, events, Init(), schedule), Run(p, events, Init(), schedule + [Push(data)]);
            && t.accepted == (if |s.accepted| < |s.taken| + PUSH_QUEUE then s.accepted + [data] else s.accepted)
            && t.taken == s.taken && t.out == s.out && t.end == s.end && t.closes == s.closes
  {
    EveryRunKeepsInv(p, events, schedule);
    RunAppend(p, events, Init<F>(), schedule, Push(data));
  }

  /** The first close of a schedule is always accepted, and is the first that was. */
  lemma {:induction false} FirstCloseAccepted<E, F>(p: Protocol<E, F>, events: seq<E>, schedule: seq<Choice>)
    ensures ClosesExplained(Run(p, events, Init(), schedule), Messages(schedule))
  {
    if schedule != [] {
      var n := |schedule| - 1;
      FirstCloseAccepted(p, events, schedule[..n]);
      LastStep(p, events, schedule);
      NextClose(p, events, Run(p, events, Init(), schedule[..n]), schedule[n], Messages(schedule[..n]));
    }
  }

  predicate ClosesExplained<F>(s: Stream<F>, messages: seq<string>) {
    && Sublist(s.closes, messages)
    && (messages != [] ==> s.closes != [] && s.closes[0] == messages[0])
    && (s.closes == [] ==> s.close.None?)
  }

  lemma NextClose<E, F>(p: Protocol<E, F>, events: seq<E>, s: Stream<F>, c: Choice, messages: seq<string>)
    requires ClosesExplained(s, messages)
    ensures ClosesExplained(Step(p, events, s, c), messages + if c.Close? then [c.msg] else [])
  {
    StepRecords(p, events, s, c);
    var all := if c.Close? then [c.msg] else [];
    SublistNext(s.closes, messages, if s.close.None? then all else [], all);
  }

  /** A stream that was closed ended with the first close it was given, whatever came later. */
  lemma ClosedByFirstClose<E, F>(p: Protocol<E, F>, events: seq<E>, schedule: seq<Choice>, msg: string)
    requires Run(p, events, Init(), schedule).end == Some(ClosedWith(msg))
    ensures var s := Run(p, events, Init(), schedule);
            && Messages(schedule) != [] && Messages(schedule)[0] == msg && s.closes != [] && s.closes[0] == msg
            && exists n: nat :: n <= |s.out| && NoFinal(s.out[..n]) && s.out[n..] == Last(p.onClose(msg))
  {
    EveryRunKeepsInv(p, events, schedule);
    FirstCloseAccepted(p, events, schedule);
    var s := Run(p, events, Init(), schedule);
    var n: nat, k: nat, j: nat :| n <= |s.out| && Ended(p, events, s, s.out[..n], k, j);
    assert s.out[n..] == Last(p.onClose(msg));
  }

  // What is ready is acted on

  function Takes(n: nat): (schedule: seq<Choice>)
    ensures |schedule| == n
  {
    seq(n, _ => TakePush(true))
  }

  lemma {:induction false} TakesDrain<E, F>(p: Protocol<E, F>, events: seq<E>, s: Stream<F>)
    requires Inv(p, events, s) && s.end.None? && AllPushable(p, s.pushes)
    ensures var t := Run(p, events, s, Takes(|s.pushes|));
            t.end.None? && t.idx == s.idx && t.accepted == s.accepted == t.taken && Inv(p, events, t)
    decreases |s.pushes|
  {
    if s.pushes != [] {
      var c := TakePush(true);
      assert Takes(|s.pushes|)[0] == c && Takes(|s.pushes|)[1..] == Takes(|s.pushes| - 1);
      assert s.pushes[0] in s.pushes;
      StepKeepsInv(p, events, s, c);
      TakesDrain(p, events, Step(p, events, s, c));
    }
  }

  /** A running loop that takes pushes as long as any wait has written every push it accepted, in order. */
  lemma ReadyPushesWritten<E, F>(p: Protocol<E, F>, events: seq<E>, schedule: seq<Choice>)
    requires var s := Run(p, events, Init(), schedule); s.end.None? && AllPushable(p, s.pushes)
    ensures var s := Run(p, events, Init(), schedule);
            var t := Run(p, events, s, Takes(|s.pushes|));
            && t.end.None? && ConfiguredPart(t.out) == ConfiguredPart(s.out)
            && AllPushable(p, s.accepted) && PushedPart(t.out) == Delivered(p, s.accepted)
  {
    EveryRunKeepsInv(p, events, schedule);
    TakesDrain(p, events, Run(p, events, Init(), schedule));
  }

  /**
   A running loop that has been closed ends when it looks, with the first message;
   a client that leaves ends it too.
   */
  lemma ReadyCloseEnds<E, F>(p: Protocol<E, F>, events: seq<E>, schedule: seq<Choice>)
    requires Run(p, events, Init(), schedule).end.None?
    ensures Messages(schedule) != [] ==>
              Run(p, events, Init(), schedule + [TakeClose]).end == Some(ClosedWith(Messages(schedule)[0]))
    ensures Run(p, events, Init(), schedule + [Disconnect]).end == Some(Disconnected)
  {
    var s := Run(p, events, Init(), schedule);
    assert Running(p, events, s) by {
      EveryRunKeepsInv(p, events, schedule);
    }
    FirstCloseAccepted(p, events, schedule);
    assert s.close.Some? ==> s.closes == [s.close.value];
    RunAppend(p, events, Init<F>(), schedule, TakeClose);
    RunAppend(p, events, Init<F>(), schedule, Disconnect);
  }

  /** Where sends can fail, one that does ends the stream and writes nothing; where they cannot, nothing is lost. */
  lemma FailedSendEnds<E, F>(p: Protocol<E, F>, events: seq<E>, s: Stream<F>)
    requires s.end.None?
    ensures s.idx < |events| && p.onEvent(events[s.idx]).Continue? ==>
              var t := Step(p, events, s, TimerFires(false));
              if p.sendMayFail then t.end == Some(SendFailed) && t.out == s.out
              else t == Step(p, events, s, TimerFires(true))
    ensures s.pushes != [] && p.onPush(s.pushes[0]).Continue? ==>
              var t := Step(p, events, s, TakePush(false));
              if p.sendMayFail then t.end == Some(SendFailed) && t.out == s.out
              else t == Step(p, events, s, TakePush(true))
  {
  }

  /** Nothing is written after the end, and the reason for it stands. */
  lemma {:induction false} SilentAfterEnd<E, F>(p: Protocol<E, F>, events: seq<E>, s: Stream<F>, schedule: seq<Choice>)
    requires s.end.Some?
    ensures var t := Run(p, events, s, schedule); t.out == s.out && t.end == s.end
    decreases schedule
  {
    if schedule != [] {
      SilentAfterEnd(p, events, Step(p, events, s, schedule[0]), schedule[1..]);
    }
  }

  // Against the loop used when the stream is not kept open

  /** The first event that ends the stream, or the end of the list. */
  function FirstStop<E, F>(p: Protocol<E, F>, events: seq<E>, from: nat): (k: nat)
    requires from <= |events|
    ensures from <= k <= |events|
    ensures forall i | from <= i < k :: p.onEvent(events[i]).Continue?
    ensures k < |events| ==> p.onEvent(events[k]).Finish?
    decreases |events| - from
  {
    if from == |events| || p.onEvent(events[from]).Finish? then from else FirstStop(p, events, from + 1)
  }

  ghost function PlainOut<E, F>(p: Protocol<E, F>, events: seq<E>): seq<Emission<F>> {
    var k := FirstStop(p, events, 0);
    Scheduled(p, events, k) + if k < |events| then Last(p.onEvent(events[k]).last) else []
  }

  /** The first event that ends the stream or whose send fails, or the end of the list. */
  function FirstHalt<E, F>(p: Protocol<E, F>, events: seq<E>, sendOk: nat -> bool, from: nat): (k: nat)
    requires from <= |events|
    ensures from <= k <= |events|
    ensures forall i | from <= i < k :: p.onEvent(events[i]).Continue? && (p.sendMayFail ==> sendOk(i))
    ensures k < |events| ==> p.onEvent(events[k]).Finish? || (p.sendMayFail && !sendOk(k))
    decreases |events| - from
  {
    if from == |events| || p.onEvent(events[from]).Finish? || (p.sendMayFail && !sendOk(from)) then from
    else FirstHalt(p, events, sendOk, from + 1)
  }

  /** What the plain loop writes when the sends that `sendOk` denies fail. */
  ghost function PlainOutUpTo<E, F>(p: Protocol<E, F>, events: seq<E>, sendOk: nat -> bool): seq<Emission<F>> {
    var k := FirstHalt(p, events, sendOk, 0);
    Scheduled(p, events, k)
    + if k < |events| && p.onEvent(events[k]).Finish? then Last(p.onEvent(events[k]).last) else []
  }

  /** The plain loop: every event in order, stopping at one that ends the stream and at a failed send. */
  method PlainLoop<E, F>(p: Protocol<E, F>, events: seq<E>, sendOk: nat -> bool) returns (out: seq<Emission<F>>)
    ensures out == PlainOutUpTo(p, events, sendOk)
  {
    out := [];
    for i := 0 to |events|
      invariant FirstHalt(p, events, sendOk, 0) == FirstHalt(p, events, sendOk, i)
      invariant AllContinue(p, events, i) && out == Scheduled(p, events, i)
    {
      match p.onEvent(events[i]) {
        case Finish(last) => return out + Last(last);
        case Continue(f) =>
          if p.sendMayFail && !sendOk(i) {
            return;
          }
          out := out + [Configured(i, f)];
      }
    }
  }

  /** Failed sends only cut the plain output short, and without any it is whole. */
  lemma FailedSendCutsPlain<E, F>(p: Protocol<E, F>, events: seq<E>, sendOk: nat -> bool)
    ensures PlainOutUpTo(p, events, sendOk) <= PlainOut(p, events)
    ensures (forall i | 0 <= i < |events| :: sendOk(i)) ==> PlainOutUpTo(p, events, sendOk) == PlainOut(p, events)
  {
    var k, n := FirstHalt(p, events, sendOk, 0), FirstStop(p, events, 0);
    if k < n {
      ScheduledPrefix(p, events, k, n);
    }
  }

  lemma {:induction false} ScheduledPrefix<E, F>(p: Protocol<E, F>, events: seq<E>, k: nat, n: nat)
    requires k <= n && AllContinue(p, events, n)
    ensures Scheduled(p, events, k) <= Scheduled(p, events, n)
    decreases n - k
  {
    if k < n {
      ScheduledPrefix(p, events, k, n - 1);
    }
  }

  /** Whatever is pushed or closed in between, the configured frames are a prefix of the plain loop's. */
  lemma ConfiguredPrefixOfPlain<E, F>(p: Protocol<E, F>, events: seq<E>, schedule: seq<Choice>)
    ensures ConfiguredPart(Run(p, events, Init(), schedule).out) <= PlainOut(p, events)
  {
    EveryRunKeepsInv(p, events, schedule);
    InvPrefixOfPlain(p, events, Run(p, events, Init(), schedule));
  }

  lemma InvPrefixOfPlain<E, F>(p: Protocol<E, F>, events: seq<E>, s: Stream<F>)
    requires Inv(p, events, s)
    ensures ConfiguredPart(s.out) <= PlainOut(p, events)
  {
    if s.end.None? {
      ScheduledPrefixOfPlain(p, events, s.idx);
    } else {
      var n: nat, k: nat, j: nat :| n <= |s.out| && Ended(p, events, s, s.out[..n], k, j);
      EndedPart(p, events, s, n, k, j);
      ScheduledPrefixOfPlain(p, events, k);
    }
  }

  lemma ScheduledPrefixOfPlain<E, F>(p: Protocol<E, F>, events: seq<E>, k: nat)
    requires AllContinue(p, events, k)
    ensures Scheduled(p, events, k) <= PlainOut(p, events)
  {
    ScheduledPrefix(p, events, k, FirstStop(p, events, 0));
  }

  lemma EndedPart<E, F>(p: Protocol<E, F>, events: seq<E>, s: Stream<F>, n: nat, k: nat, j: nat)
    requires n <= |s.out| && Ended(p, events, s, s.out[..n], k, j)
    ensures ConfiguredPart(s.out) == Scheduled(p, events, k)
  {
    OneFinalAtMost(p, events, s, n, k);
    ConfiguredPartOfEnd(s.out, n);
  }

  lemma OneFinalAtMost<E, F>(p: Protocol<E, F>, events: seq<E>, s: Stream<F>, n: nat, k: nat)
    requires n <= |s.out| && EndExplained(p, events, s, s.out[..n], k)
    ensures n == |s.out| || (n == |s.out| - 1 && s.out[n].Final?)
  {
  }

  lemma ConfiguredPartOfEnd<F>(out: seq<Emission<F>>, n: nat)
    requires n == |out| || (n == |out| - 1 && out[n].Final?)
    ensures ConfiguredPart(out) == ConfiguredPart(out[..n])
  {
    assert out[..|out|] == out;
  }

  predicate Quiet(schedule: seq<Choice>) {
    forall c | c in schedule :: !c.Push? && !c.Close?
  }

  lemma {:induction false} QuietRunTakesNothing<E, F>(p: Protocol<E, F>, events: seq<E>, s: Stream<F>,
                                                      schedule: seq<Choice>)
    requires Quiet(schedule) && s.accepted == s.closes == []
    ensures var t := Run(p, events, s, schedule); t.accepted == t.closes == []
    decreases schedule
  {
    if schedule != [] {
      QuietRunTakesNothing(p, events, Step(p, events, s, schedule[0]), schedule[1..]);
    }
  }

  lemma {:induction false} OnlyConfigured<F>(out: seq<Emission<F>>)
    requires NoFinal(out) && PushedPart(out) == []
    ensures ConfiguredPart(out) == out
  {
    if out != [] {
      OnlyConfigured(out[..|out| - 1]);
      assert out == out[..|out| - 1] + [out[|out| - 1]];
    }
  }

  /** With no push and no close, everything written is a prefix of what the plain loop writes. */
  lemma QuietRunPrefixOfPlain<E, F>(p: Protocol<E, F>, events: seq<E>, schedule: seq<Choice>)
    requires Quiet(schedule)
    ensures Run(p, events, Init(), schedule).out <= PlainOut(p, events)
  {
    var s := Run(p, events, Init(), schedule);
    EveryRunKeepsInv(p, events, schedule);
    QuietRunTakesNothing(p, events, Init<F>(), schedule);
    assert s.taken == [];
    if s.end.None? {
      OnlyConfigured(s.out);
      ScheduledPrefixOfPlain(p, events, s.idx);
    } else {
      var n: nat, k: nat, j: nat :| n <= |s.out| && Ended(p, events, s, s.out[..n], k, j);
      QuietEndPrefixOfPlain(p, events, s, n, k, j);
    }
  }

  lemma QuietEndPrefixOfPlain<E, F>(p: Protocol<E, F>, events: seq<E>, s: Stream<F>, n: nat, k: nat, j: nat)
    requires s.taken == s.closes == [] && n <= |s.out| && Ended(p, events, s, s.out[..n], k, j)
    ensures s.out <= PlainOut(p, events)
  {
    OnlyConfigured(s.out[..n]);
    var stop := FirstStop(p, events, 0);
    ScheduledPrefix(p, events, k, stop);
    if s.end.value.EventStopped? {
      assert stop == k;
    } else {
      assert s.out == s.out[..n];
    }
  }

  /** And when every timer fires and every write succeeds, it is all of it. */
  lemma {:induction false} AllTimersWritePlain<E, F>(p: Protocol<E, F>, events: seq<E>, s: Stream<F>,
                                                     schedule: seq<Choice>)
    requires forall i | 0 <= i < |schedule| :: schedule[i] == TimerFires(true)
    requires s.idx + |schedule| == |events|
    requires s.end.None? && AllContinue(p, events, s.idx) && s.out == Scheduled(p, events, s.idx)
    ensures Run(p, events, s, schedule).out == PlainOut(p, events)
    decreases schedule
  {
    if schedule != [] {
      assert schedule[0] == TimerFires(true);
      var t := Step(p, events, s, schedule[0]);
      if t.end.Some? {
        SilentAfterEnd(p, events, t, schedule[1..]);
        assert FirstStop(p, events, 0) == s.idx;
      } else {
        AllTimersWritePlain(p, events, t, schedule[1..]);
      }
    } else {
      assert FirstStop(p, events, 0) == s.idx;
    }
  }
}
