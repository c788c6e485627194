/**
 The registry through which the management API reaches open streams.
 */
module StreamRegistry {
  import opened Options
  import opened KeepOpenStream

  datatype Conn<+F> = Conn(mockId: string, stream: Stream<F>)

  datatype PushError = NoSuchConnection(id: string) | NoConnectionsFor(mockId: string) | BufferFull(id: string)

  function Elements(ids: seq<string>): set<string> {
    set id | id in ids
  }

  predicate HasRoom<F>(c: Conn<F>) {
    |c.stream.pushes| < PUSH_QUEUE
  }

  /** The data is in the queue, behind what was there. */
  function WithPush<F>(c: Conn<F>, data: string): Conn<F> {
    c.(stream := c.stream.(pushes := c.stream.pushes + [data], accepted := c.stream.accepted + [data]))
  }

  /** The message is in the mailbox. */
  function WithClose<F>(c: Conn<F>, msg: string): Conn<F> {
    c.(stream := c.stream.(close := Some(msg), closes := c.stream.closes + [msg]))
  }

  /** `targets` with room each got `data`; no other connection changed. */
  predicate Offered<F(==)>(before: map<string, Conn<F>>, after: map<string, Conn<F>>, targets: set<string>,
                           data: string) {
    && after.Keys == before.Keys
    && forall id | id in before ::
         after[id] == if id in targets && HasRoom(before[id]) then WithPush(before[id], data) else before[id]
  }

  predicate OfferedClose<F(==)>(before: map<string, Conn<F>>, after: map<string, Conn<F>>, targets: set<string>,
                                msg: string) {
    && after.Keys == before.Keys
    && forall id | id in before ::
         after[id] == if id in targets && before[id].stream.close.None? then WithClose(before[id], msg) else before[id]
  }

  function Grown<F>(before: map<string, Conn<F>>, after: map<string, Conn<F>>): set<string>
    requires after.Keys == before.Keys
  {
    set id | id in before && |after[id].stream.pushes| > |before[id].stream.pushes|
  }

  function Serving<F>(conns: map<string, Conn<F>>, mockId: string): set<string> {
    set id | id in conns && conns[id].mockId == mockId
  }

  /** An explicit connection id wins over a mock id. */
  function Targets<F>(conns: map<string, Conn<F>>, connId: string, mockId: string): set<string> {
    if connId == "" then Serving(conns, mockId)
    else if connId in conns then {connId} else {}
  }

  lemma GrownAreTargetsWithRoom<F>(before: map<string, Conn<F>>, after: map<string, Conn<F>>, targets: set<string>,
                                   data: string)
    requires Offered(before, after, targets, data) && targets <= before.Keys
    ensures Grown(before, after) == set id | id in targets && HasRoom(before[id])
  {
  }

  /** One more target gets its offer. */
  lemma OfferOne<F>(before: map<string, Conn<F>>, mid: map<string, Conn<F>>, done: set<string>, id: string,
                    data: string)
    requires Offered(before, mid, done, data) && done <= before.Keys && id in before && id !in done
    ensures mid[id] == before[id] && id !in Grown(before, mid)
    ensures var after := mid[id := mid[id].(stream := StepPush(mid[id].stream, data))];
            && Offered(before, after, done + {id}, data)
            && Grown(before, after) == Grown(before, mid) + if HasRoom(before[id]) then {id} else {}
  {
    var after := mid[id := mid[id].(stream := StepPush(mid[id].stream, data))];
    GrownAreTargetsWithRoom(before, mid, done, data);
    GrownAreTargetsWithRoom(before, after, done + {id}, data);
  }

  lemma CloseOne<F>(before: map<string, Conn<F>>, mid: map<string, Conn<F>>, done: set<string>, id: string, msg: string)
    requires OfferedClose(before, mid, done, msg) && id in before && id !in done
    ensures var after := mid[id := mid[id].(stream := StepClose(mid[id].stream, msg))];
            OfferedClose(before, after, done + {id}, msg)
  {
  }

  lemma NextElement(ids: seq<string>, i: nat)
    requires i < |ids|
    requires forall a, b | 0 <= a < b < |ids| :: ids[a] != ids[b]
    ensures ids[i] !in Elements(ids[..i]) && Elements(ids[..i + 1]) == Elements(ids[..i]) + {ids[i]}
  {
    assert ids[..i + 1] == ids[..i] + [ids[i]];
  }

  class Registry<F(==)> {
    var conns: map<string, Conn<F>>

    constructor ()
      ensures conns == map[]
    {
      conns := map[];
    }

    /**
     From now on a push or close to this id reaches the new stream alone, one to
     its mock reaches it too, and one to another mock does not; the others stay.
     */
    method Register(id: string, mockId: string)
      modifies this
      ensures id != "" ==> forall m :: Targets(conns, id, m) == {id}
      ensures forall m :: Serving(conns, m) ==
                          if m == mockId then Serving(old(conns), m) + {id} else Serving(old(conns), m) - {id}
      ensures id in conns && HasRoom(conns[id]) && conns[id].stream == Init()
      ensures conns - {id} == old(conns) - {id}
    {
      conns := conns[id := Conn(mockId, Init())];
    }

    /** From now on nothing reaches this stream, and everything else reaches what it reached before. */
    method Unregister(id: string)
      modifies this
      ensures forall c, m :: Targets(conns, c, m) == Targets(old(conns), c, m) - {id}
      ensures forall other | other in conns :: other in old(conns) && conns[other] == old(conns)[other]
    {
      conns := conns - {id};
    }

    /** `byMock` walks the map in no particular order. */
    method ByMock(mockId: string) returns (out: seq<string>)
      ensures forall id :: id in out <==> id in Serving(conns, mockId)
      ensures forall a, b | 0 <= a < b < |out| :: out[a] != out[b]
    {
      out := [];
      var rest := conns.Keys;
      while rest != {}
        invariant rest <= conns.Keys
        invariant forall id :: id in out <==> id in Serving(conns, mockId) && id !in rest
        invariant forall a, b | 0 <= a < b < |out| :: out[a] != out[b]
        decreases rest
      {
        var id :| id in rest;
        rest := rest - {id};
        if conns[id].mockId == mockId {
          out := out + [id];
        }
      }
    }

    /**
     `Push`: the count is exactly the number of queues that grew, and there is an
     error exactly when there was no target or some target had no room, naming one.
     */
    method Push(connId: string, mockId: string, data: string) returns (reached: nat, err: Option<PushError>)
      modifies this
      ensures Offered(old(conns), conns, Targets(old(conns), connId, mockId), data)
      ensures reached == |Grown(old(conns), conns)|
      ensures err.None? <==>
                && Targets(old(conns), connId, mockId) != {}
                && forall id | id in Targets(old(conns), connId, mockId) :: HasRoom(old(conns)[id])
      ensures err.Some? ==> match err.value {
                case BufferFull(id) => id in Targets(old(conns), connId, mockId) && !HasRoom(old(conns)[id])
                case NoSuchConnection(id) => id == connId != "" && connId !in old(conns)
                case NoConnectionsFor(m) => connId == "" && m == mockId && Serving(old(conns), mockId) == {}
              }
    {
      if connId != "" {
        if connId !in conns {
          assert Grown(old(conns), conns) == {};
          return 0, Some(NoSuchConnection(connId));
        }
        var c := conns[connId];
        conns := conns[connId := c.(stream := StepPush(c.stream, data))];
        GrownAreTargetsWithRoom(old(conns), conns, {connId}, data);
        if |c.stream.pushes| >= PUSH_QUEUE {
          assert Grown(old(conns), conns) == {};
          return 0, Some(BufferFull(connId));
        }
        assert Grown(old(conns), conns) == {connId};
        return 1, None;
      }
      var targets := ByMock(mockId);
      if |targets| == 0 {
        assert Serving(old(conns), mockId) == {} by {
          assert forall id :: id !in targets;
        }
        assert Grown(old(conns), conns) == {};
        return 0, Some(NoConnectionsFor(mockId));
      }
      assert targets[0] in Serving(old(conns), mockId);
      reached, err := PushEach(targets, data);
      assert Elements(targets) == Serving(old(conns), mockId);
    }

    /** The loop of `Push` over its targets. */
    method PushEach(targets: seq<string>, data: string) returns (sent: nat, firstErr: Option<PushError>)
      requires forall id | id in targets :: id in conns
      requires forall a, b | 0 <= a < b < |targets| :: targets[a] != targets[b]
      modifies this
      ensures Offered(old(conns), conns, Elements(targets), data)
      ensures sent == |Grown(old(conns), conns)|
      ensures firstErr.None? <==> forall id | id in Elements(targets) :: HasRoom(old(conns)[id])
      ensures firstErr.Some? ==>
              exists id | id in Elements(targets) :: !HasRoom(old(conns)[id]) && firstErr == Some(BufferFull(id))
    {
      sent, firstErr := 0, None;
      assert Grown(conns, conns) == {};
      ghost var done: set<string> := {};
      for i := 0 to |targets|
        invariant done == Elements(targets[..i]) && done <= old(conns).Keys
        invariant Offered(old(conns), conns, done, data)
        invariant sent == |Grown(old(conns), conns)|
        invariant firstErr.None? <==> forall id | id in done :: HasRoom(old(conns)[id])
        invariant firstErr.Some? ==>
                  exists id | id in done :: !HasRoom(old(conns)[id]) && firstErr == Some(BufferFull(id))
      {
        var id := targets[i];
        var c := conns[id];
        NextElement(targets, i);
        OfferOne(old(conns), conns, done, id, data);
        conns := conns[id := c.(stream := StepPush(c.stream, data))];
        done := done + {id};
        if |c.stream.pushes| >= PUSH_QUEUE {
          if firstErr.None? {
            firstErr := Some(BufferFull(id));
          }
          continue;
        }
        sent := sent + 1;
      }
      assert targets[..|targets|] == targets;
    }

    /** `CloseConn`: every target gets the message or, with its mailbox full, drops it. */
    method CloseConn(connId: string, mockId: string, msg: string) returns (reached: nat, err: Option<PushError>)
      modifies this
      ensures OfferedClose(old(conns), conns, Targets(old(conns), connId, mockId), msg)
      ensures reached == |Targets(old(conns), connId, mockId)|
      ensures err.None? <==> reached > 0
    {
      if connId != "" {
        if connId !in conns {
          return 0, Some(NoSuchConnection(connId));
        }
        conns := conns[connId := conns[connId].(stream := StepClose(conns[connId].stream, msg))];
        return 1, None;
      }
      var targets := ByMock(mockId);
      ghost var all := Serving(conns, mockId);
      ghost var done: set<string> := {};
      for i := 0 to |targets|
        invariant conns.Keys == old(conns).Keys
        invariant all == Serving(old(conns), mockId)
        invariant done == Elements(targets[..i]) && |done| == i
        invariant OfferedClose(old(conns), conns, done, msg)
      {
        var id := targets[i];
        assert id in all;
        NextElement(targets, i);
        CloseOne(old(conns), conns, done, id, msg);
        conns := conns[id := conns[id].(stream := StepClose(conns[id].stream, msg))];
        done := done + {id};
      }
      assert targets[..|targets|] == targets;
      assert done == all;
      if |targets| == 0 {
        return 0, Some(NoConnectionsFor(mockId));
      }
      return |targets|, None;
    }
  }

  // Whole runs

  /** What a handler was given to serve. */
  datatype Job<!E, +F> = Job(protocol: Protocol<E, F>, events: seq<E>)

  /** One call on the registry, or one step of the loop that serves a connection. */
  datatype Op<!E, +F> =
    | Open(id: string, mockId: string, job: Job<E, F>)
    | Gone(id: string)
    | PushTo(connId: string, mockId: string, data: string)
    | CloseTo(connId: string, mockId: string, msg: string)
    | Loop(id: string, choice: Choice)

  /** The registry, and what each registered handler serves. */
  datatype World<!E, +F> = World(conns: map<string, Conn<F>>, jobs: map<string, Job<E, F>>)

  function AfterPush<F>(conns: map<string, Conn<F>>, targets: set<string>, data: string): map<string, Conn<F>> {
    map id | id in conns ::
      if id in targets then conns[id].(stream := StepPush(conns[id].stream, data)) else conns[id]
  }

  function AfterClose<F>(conns: map<string, Conn<F>>, targets: set<string>, msg: string): map<string, Conn<F>> {
    map id | id in conns ::
      if id in targets then conns[id].(stream := StepClose(conns[id].stream, msg)) else conns[id]
  }

  /** `Push` and `CloseConn` leave exactly these connections. */
  lemma OfferedIsAfter<F>(before: map<string, Conn<F>>, after: map<string, Conn<F>>, targets: set<string>, text: string)
    ensures Offered(before, after, targets, text) <==> after == AfterPush(before, targets, text)
    ensures OfferedClose(before, after, targets, text) <==> after == AfterClose(before, targets, text)
  {
  }

  function StepWorld<E, F>(w: World<E, F>, op: Op<E, F>): World<E, F> {
    match op
    case Open(id, mockId, job) => World(w.conns[id := Conn(mockId, Init())], w.jobs[id := job])
    case Gone(id) => World(w.conns - {id}, w.jobs - {id})
    case PushTo(connId, mockId, data) => w.(conns := AfterPush(w.conns, Targets(w.conns, connId, mockId), data))
    case CloseTo(connId, mockId, msg) => w.(conns := AfterClose(w.conns, Targets(w.conns, connId, mockId), msg))
    case Loop(id, choice) =>
      if id in w.conns && id in w.jobs then
        var stream := Step(w.jobs[id].protocol, w.jobs[id].events, w.conns[id].stream, choice);
        w.(conns := w.conns[id := w.conns[id].(stream := stream)])
      else w
  }

  /** The calls do to the connections what `Register`, `Unregister`, `Push` and `CloseConn` do. */
  lemma StepsAreCalls<E, F>(w: World<E, F>, op: Op<E, F>)
    ensures var after := StepWorld(w, op).conns;
            match op {
              case Open(id, mockId, _) => after == w.conns[id := Conn(mockId, Init())]
              case Gone(id) => after == w.conns - {id}
              case PushTo(connId, mockId, data) => Offered(w.conns, after, Targets(w.conns, connId, mockId), data)
              case CloseTo(connId, mockId, msg) => OfferedClose(w.conns, after, Targets(w.conns, connId, mockId), msg)
              case Loop(id, choice) =>
                id in w.conns && id in w.jobs ==>
                  var job, c := w.jobs[id], w.conns[id];
                  after == w.conns[id := Conn(c.mockId, Step(job.protocol, job.events, c.stream, choice))]
            }
  {
    match op {
      case PushTo(connId, mockId, data) =>
        OfferedIsAfter(w.conns, StepWorld(w, op).conns, Targets(w.conns, connId, mockId), data);
      case CloseTo(connId, mockId, msg) =>
        OfferedIsAfter(w.conns, StepWorld(w, op).conns, Targets(w.conns, connId, mockId), msg);
      case _ =>
    }
  }

  function RunWorld<E, F>(ops: seq<Op<E, F>>): World<E, F> {
    if ops == [] then World(map[], map[])
    else
      var n := |ops| - 1;
      StepWorld(RunWorld(ops[..n]), ops[n])
  }

  /** What connection `id` sees of a call made when the registry was `conns`. */
  function View<E, F>(conns: map<string, Conn<F>>, op: Op<E, F>, id: string): seq<Choice> {
    match op
    case PushTo(connId, mockId, data) => if id in Targets(conns, connId, mockId) then [Choice.Push(data)] else []
    case CloseTo(connId, mockId, msg) => if id in Targets(conns, connId, mockId) then [Choice.Close(msg)] else []
    case Loop(other, choice) => if other == id then [choice] else []
    case _ => []
  }

  /** What connection `id` saw since it was last registered. */
  function Schedule<E, F>(ops: seq<Op<E, F>>, id: string): seq<Choice> {
    if ops == [] then []
    else
      var n := |ops| - 1;
      if ops[n].Open? && ops[n].id == id then []
      else Schedule(ops[..n], id) + View(RunWorld(ops[..n]).conns, ops[n], id)
  }

  /** The stream of `id` is what its own loop makes of this schedule. */
  ghost predicate Runs<E, F>(w: World<E, F>, id: string, schedule: seq<Choice>) {
    && id in w.conns && id in w.jobs
    && w.conns[id].stream == Run(w.jobs[id].protocol, w.jobs[id].events, Init(), schedule)
  }

  lemma StepFollowsView<E, F>(w: World<E, F>, op: Op<E, F>, id: string, schedule: seq<Choice>)
    requires Runs(w, id, schedule) && !(op.Open? && op.id == id) && !(op.Gone? && op.id == id)
    ensures Runs(StepWorld(w, op), id, schedule + View(w.conns, op, id))
  {
    var view := View(w.conns, op, id);
    if view == [] {
      assert schedule + [] == schedule;
    } else {
      RunAppend(w.jobs[id].protocol, w.jobs[id].events, Init(), schedule, view[0]);
      assert view == [view[0]];
    }
  }

  /**
   Over any calls of the management API and any steps of the loops, every
   registered connection is in the state its own loop reaches, alone, on the
   pushes and closes that were addressed to it since it was registered.
   */
  lemma {:induction false} ConnectionsAreIndependent<E, F>(ops: seq<Op<E, F>>, id: string)
    requires id in RunWorld(ops).conns
    ensures Runs(RunWorld(ops), id, Schedule(ops, id))
  {
    var n := |ops| - 1;
    var before, op := RunWorld(ops[..n]), ops[n];
    if !(op.Open? && op.id == id) {
      assert id in before.conns;
      ConnectionsAreIndependent(ops[..n], id);
      StepFollowsView(before, op, id, Schedule(ops[..n], id));
    }
  }

  /** So whatever the registry is used for, every registered stream stays explained by its own events and pushes. */
  lemma EveryRunKeepsStreams<E, F>(ops: seq<Op<E, F>>, id: string)
    requires id in RunWorld(ops).conns
    ensures var w := RunWorld(ops); id in w.jobs && Inv(w.jobs[id].protocol, w.jobs[id].events, w.conns[id].stream)
  {
    ConnectionsAreIndependent(ops, id);
    var w := RunWorld(ops);
    EveryRunKeepsInv(w.jobs[id].protocol, w.jobs[id].events, Schedule(ops, id));
  }
}
