/**
 The request log and its blocking `WaitFor`. A `Log` call appends under the
 lock, snapshots the subscribers, and after unlocking offers the entry to each
 of their channels without blocking, so a full channel loses it.
 */
module CallLog {
  import opened History

  const CHANNEL := 64

  datatype Entry = Entry(id: string, matchedId: string)

  function Matching(entries: seq<Entry>, mockId: string): seq<Entry> {
    if entries == [] then []
    else
      var n := |entries| - 1;
      Matching(entries[..n], mockId) + if entries[n].matchedId == mockId then [entries[n]] else []
  }

  function Others(entries: seq<Entry>, mockId: string): seq<Entry> {
    if entries == [] then []
    else
      var n := |entries| - 1;
      Others(entries[..n], mockId) + if entries[n].matchedId == mockId then [] else [entries[n]]
  }

  /** `EntriesByMockID`. */
  method EntriesByMockId(entries: seq<Entry>, mockId: string) returns (out: seq<Entry>)
    ensures out == Matching(entries, mockId)
  {
    out := [];
    for i := 0 to |entries|
      invariant out == Matching(entries[..i], mockId)
    {
      assert entries[..i + 1][..i] == entries[..i];
      if entries[i].matchedId == mockId {
        out := out + [entries[i]];
      }
    }
    assert entries[..|entries|] == entries;
  }

  /** `ClearByMockID` compacts the slice within its own backing array. */
  method ClearByMockId(a: array<Entry>, n: nat, mockId: string) returns (kept: nat)
    requires n <= a.Length
    modifies a
    ensures kept <= n && a[..kept] == Others(old(a[..n]), mockId)
  {
    kept := 0;
    for i := 0 to n
      invariant kept <= i && a[..kept] == Others(old(a[..i]), mockId)
      invariant a[i..n] == old(a[i..n])
    {
      var e := a[i];
      assert e == old(a[i..n])[0] && old(a[..i + 1])[..i] == old(a[..i]);
      if e.matchedId != mockId {
        a[kept] := e;
        kept := kept + 1;
        assert a[..kept] == a[..kept - 1] + [e];
      }
    }
  }

  lemma {:induction false} ClearedHasNoMatch(entries: seq<Entry>, mockId: string, other: string)
    ensures Matching(Others(entries, mockId), other) == if other == mockId then [] else Matching(entries, other)
  {
    if entries != [] {
      var n := |entries| - 1;
      ClearedHasNoMatch(entries[..n], mockId, other);
      var rest := Others(entries[..n], mockId);
      if entries[n].matchedId != mockId {
        assert (rest + [entries[n]])[..|rest|] == rest;
      } else {
        assert Others(entries, mockId) == rest;
      }
    }
  }

  /** `out` lists, in order, exactly the entries at positions `at`: those that match the mock, or those that do not. */
  ghost predicate Selects(entries: seq<Entry>, mockId: string, matching: bool, out: seq<Entry>, at: seq<nat>) {
    && |at| == |out|
    && (forall j, k | 0 <= j < k < |at| :: at[j] < at[k])
    && (forall k | 0 <= k < |at| :: at[k] < |entries| && out[k] == entries[at[k]])
    && (forall i | 0 <= i < |entries| :: i in at <==> (entries[i].matchedId == mockId) == matching)
  }

  lemma SelectsNext(entries: seq<Entry>, mockId: string, matching: bool, out: seq<Entry>, at: seq<nat>, e: Entry)
    requires Selects(entries, mockId, matching, out, at)
    ensures if (e.matchedId == mockId) == matching
            then Selects(entries + [e], mockId, matching, out + [e], at + [|entries|])
            else Selects(entries + [e], mockId, matching, out, at)
  {
    assert forall i :: i in at ==> i < |entries|;
    assert forall i :: i in at + [|entries|] <==> i in at || i == |entries|;
  }

  /** The two filters keep exactly what they should, in order. */
  lemma {:induction false} FiltersSelect(entries: seq<Entry>, mockId: string) returns (matching: seq<nat>,
                                         others: seq<nat>)
    ensures Selects(entries, mockId, true, Matching(entries, mockId), matching)
    ensures Selects(entries, mockId, false, Others(entries, mockId), others)
  {
    matching, others := [], [];
    if entries != [] {
      var n := |entries| - 1;
      var e := entries[n];
      matching, others := FiltersSelect(entries[..n], mockId);
      assert entries == entries[..n] + [e];
      SelectsNext(entries[..n], mockId, true, Matching(entries[..n], mockId), matching, e);
      SelectsNext(entries[..n], mockId, false, Others(entries[..n], mockId), others, e);
      if e.matchedId == mockId {
        matching := matching + [n];
        assert Others(entries, mockId) == Others(entries[..n], mockId);
      } else {
        others := others + [n];
        assert Matching(entries, mockId) == Matching(entries[..n], mockId);
      }
    }
  }

  // The wait protocol: any number of loggers and waiters, in any interleaving

  datatype Phase = Checking | Blocked | Returned(entries: seq<Entry>) | Expired(entries: seq<Entry>)

  datatype Waiter = Waiter(mockId: string, want: int, channel: seq<Entry>, phase: Phase) {
    predicate Waiting() {
      phase.Checking? || phase.Blocked?
    }
  }

  /** A `Log` call past its unlock: the subscribers it has still to offer its entry to. */
  datatype Broadcast = Broadcast(entry: Entry, left: set<nat>)

  datatype State = State(entries: seq<Entry>, max: nat, waiters: map<nat, Waiter>, broadcasts: seq<Broadcast>)

  datatype Action =
    | Append(e: Entry)
    | Offer(call: nat, to: nat)
    | Subscribe(w: nat, mockId: string, want: int)
    | Check(w: nat)
    | Receive(w: nat)
    | Expire(w: nat)
    | ClearAll
    | ClearMock(mockId: string)

  function Subscribed(s: State): set<nat> {
    set w | w in s.waiters && s.waiters[w].Waiting()
  }

  function StepAppend(s: State, e: Entry): State {
    s.(entries := LastN(s.entries + [e], s.max), broadcasts := s.broadcasts + [Broadcast(e, Subscribed(s))])
  }

  /** The non-blocking send; a subscriber that has gone is skipped. */
  function StepOffer(s: State, call: nat, to: nat): State {
    if call >= |s.broadcasts| || to !in s.broadcasts[call].left then s
    else
      var b := s.broadcasts[call];
      var t := s.(broadcasts := s.broadcasts[call := b.(left := b.left - {to})]);
      if to !in s.waiters || |s.waiters[to].channel| >= CHANNEL then t
      else t.(waiters := s.waiters[to := s.waiters[to].(channel := s.waiters[to].channel + [b.entry])])
  }

  /** The locked read of the log that decides whether to return. */
  function StepCheck(s: State, w: nat): State
    requires w in s.waiters
  {
    var x := s.waiters[w];
    var found := Matching(s.entries, x.mockId);
    if !x.phase.Checking? then s
    else s.(waiters := s.waiters[w := x.(phase := if |found| >= x.want then Returned(found) else Blocked)])
  }

  function StepReceive(s: State, w: nat): State
    requires w in s.waiters
  {
    var x := s.waiters[w];
    if !x.phase.Blocked? || x.channel == [] then s
    else s.(waiters := s.waiters[w := x.(channel := x.channel[1..], phase := Checking)])
  }

  function Step(s: State, a: Action): State {
    match a
    case Append(e) => StepAppend(s, e)
    case Offer(call, to) => StepOffer(s, call, to)
    case Subscribe(w, mockId, want) =>
      if w in s.waiters then s else s.(waiters := s.waiters[w := Waiter(mockId, want, [], Checking)])
    case Check(w) => if w in s.waiters then StepCheck(s, w) else s
    case Receive(w) => if w in s.waiters then StepReceive(s, w) else s
    case Expire(w) =>
      if w in s.waiters && s.waiters[w].phase.Blocked? then
        var x := s.waiters[w];
        s.(waiters := s.waiters[w := x.(phase := Expired(Matching(s.entries, x.mockId)))])
      else s
    case ClearAll => s.(entries := [])
    case ClearMock(mockId) => s.(entries := Others(s.entries, mockId))
  }

  function Run(s: State, actions: seq<Action>): State
    decreases actions
  {
    if actions == [] then s else Run(Step(s, actions[0]), actions[1..])
  }

  function Start(size: int): State {
    State([], Capacity(size, 500), map[], [])
  }

  // No lost wake-up

  predicate InFlight(s: State, w: nat) {
    exists i :: 0 <= i < |s.broadcasts| && w in s.broadcasts[i].left
  }

  predicate Satisfied(s: State, w: nat)
    requires w in s.waiters
  {
    |Matching(s.entries, s.waiters[w].mockId)| >= s.waiters[w].want
  }

  /** A blocked waiter that could return has a wake-up in its channel or on its way. */
  predicate Awake(s: State, w: nat)
    requires w in s.waiters
  {
    s.waiters[w].phase.Blocked? && Satisfied(s, w) ==> s.waiters[w].channel != [] || InFlight(s, w)
  }

  /** A waiter that has returned carries entries of its own mock, and enough of them unless it ran out of time. */
  predicate ReturnedEnough(x: Waiter) {
    && (x.phase.Returned? ==> |x.phase.entries| >= x.want)
    && (x.phase.Returned? || x.phase.Expired? ==> forall e | e in x.phase.entries :: e.matchedId == x.mockId)
  }

  ghost predicate Inv(s: State) {
    forall w | w in s.waiters :: Awake(s, w) && ReturnedEnough(s.waiters[w])
  }

  lemma {:induction false} MatchingMatches(entries: seq<Entry>, mockId: string)
    ensures forall e | e in Matching(entries, mockId) :: e.matchedId == mockId
  {
    if entries != [] {
      MatchingMatches(entries[..|entries| - 1], mockId);
    }
  }

  lemma AppendKeepsInv(s: State, e: Entry)
    requires Inv(s)
    ensures Inv(StepAppend(s, e))
  {
    var t := StepAppend(s, e);
    forall w | w in t.waiters && t.waiters[w].phase.Blocked?
      ensures InFlight(t, w)
    {
      assert w in t.broadcasts[|s.broadcasts|].left;
    }
  }

  lemma OfferKeepsInv(s: State, call: nat, to: nat)
    requires Inv(s)
    ensures Inv(StepOffer(s, call, to))
  {
    var t := StepOffer(s, call, to);
    forall w | w in t.waiters
      ensures Awake(t, w)
    {
      assert Awake(s, w);
      if w != to && InFlight(s, w) {
        var i :| 0 <= i < |s.broadcasts| && w in s.broadcasts[i].left;
        assert w in t.broadcasts[i].left;
      }
    }
  }

  /** A step of one waiter leaves the others as they were. */
  lemma OtherWaitersKept(s: State, w: nat, x: Waiter)
    requires Inv(s) && ReturnedEnough(x)
    requires var t := s.(waiters := s.waiters[w := x]); Awake(t, w)
    ensures Inv(s.(waiters := s.waiters[w := x]))
  {
    var t := s.(waiters := s.waiters[w := x]);
    forall v | v in t.waiters
      ensures Awake(t, v)
    {
      if v != w {
        assert Awake(s, v);
        assert InFlight(t, v) <==> InFlight(s, v);
      }
    }
  }

  lemma ClearKeepsInv(s: State, entries: seq<Entry>)
    requires Inv(s)
    requires forall m :: |Matching(entries, m)| <= |Matching(s.entries, m)|
    ensures Inv(s.(entries := entries))
  {
    var t := s.(entries := entries);
    forall w | w in t.waiters
      ensures Awake(t, w)
    {
      assert Awake(s, w);
      assert InFlight(t, w) <==> InFlight(s, w);
    }
  }

  lemma StepKeepsInv(s: State, a: Action)
    requires Inv(s)
    ensures Inv(Step(s, a))
  {
    match a {
      case Append(e) => AppendKeepsInv(s, e);
      case Offer(call, to) => OfferKeepsInv(s, call, to);
      case Subscribe(w, mockId, want) =>
        if w !in s.waiters {
          OtherWaitersKept(s, w, Waiter(mockId, want, [], Checking));
        }
      case Check(w) =>
        if w in s.waiters && s.waiters[w].phase.Checking? {
          MatchingMatches(s.entries, s.waiters[w].mockId);
          OtherWaitersKept(s, w, StepCheck(s, w).waiters[w]);
        }
      case Receive(w) =>
        if w in s.waiters && s.waiters[w].phase.Blocked? && s.waiters[w].channel != [] {
          OtherWaitersKept(s, w, StepReceive(s, w).waiters[w]);
        }
      case Expire(w) =>
        if w in s.waiters && s.waiters[w].phase.Blocked? {
          MatchingMatches(s.entries, s.waiters[w].mockId);
          OtherWaitersKept(s, w, Step(s, a).waiters[w]);
        }
      case ClearAll => ClearKeepsInv(s, []);
      case ClearMock(mockId) =>
        forall m ensures |Matching(Others(s.entries, mockId), m)| <= |Matching(s.entries, m)| {
          ClearedHasNoMatch(s.entries, mockId, m);
        }
        ClearKeepsInv(s, Others(s.entries, mockId));
    }
  }

  lemma {:induction false} RunKeepsInv(s: State, actions: seq<Action>)
    requires Inv(s)
    ensures Inv(Run(s, actions))
    decreases actions
  {
    if actions != [] {
      StepKeepsInv(s, actions[0]);
      RunKeepsInv(Step(s, actions[0]), actions[1..]);
    }
  }

  /** No run leaves a waiter asleep with nothing on its way while the log holds what it waits for. */
  lemma NoLostWakeUp(size: int, actions: seq<Action>, w: nat)
    requires w in Run(Start(size), actions).waiters
    ensures var s := Run(Start(size), actions);
            s.waiters[w].phase.Blocked? && s.waiters[w].channel == [] && !InFlight(s, w) ==> !Satisfied(s, w)
  {
    RunKeepsInv(Start(size), actions);
    assert Awake(Run(Start(size), actions), w);
  }

  /** A successful return always carries at least the wanted number of matching entries. */
  lemma SuccessCarriesEnough(size: int, actions: seq<Action>, w: nat)
    requires w in Run(Start(size), actions).waiters
    ensures ReturnedEnough(Run(Start(size), actions).waiters[w])
  {
    RunKeepsInv(Start(size), actions);
  }

  lemma CheckReturns(s: State, w: nat)
    requires w in s.waiters && s.waiters[w].phase.Checking? && Satisfied(s, w)
    ensures Step(s, Check(w)).waiters[w].phase == Returned(Matching(s.entries, s.waiters[w].mockId))
  {
  }

  /** If its channel is empty `Log` call `i` sends to it; then it receives, looks, and returns what the log holds. */
  predicate ReturnsAfter(s: State, w: nat, i: nat)
    requires w in s.waiters
  {
    var s1 := if s.waiters[w].channel != [] then s else Step(s, Offer(i, w));
    var t := Step(Step(s1, Receive(w)), Check(w));
    w in t.waiters && t.waiters[w].phase == Returned(Matching(s.entries, s.waiters[w].mockId))
  }

  /**
   From any reachable state, a satisfied blocked waiter is at most one send, one
   receive and one check from returning.
   */
  lemma SatisfiedWaiterCanReturn(size: int, actions: seq<Action>, w: nat)
    requires var s := Run(Start(size), actions);
             w in s.waiters && s.waiters[w].phase.Blocked? && Satisfied(s, w)
    ensures var s := Run(Start(size), actions);
            exists i: nat :: ReturnsAfter(s, w, i)
  {
    var s := Run(Start(size), actions);
    RunKeepsInv(Start(size), actions);
    assert Awake(s, w);
    var i: nat := 0;
    if s.waiters[w].channel == [] {
      i :| 0 <= i < |s.broadcasts| && w in s.broadcasts[i].left;
    }
    var s1 := if s.waiters[w].channel != [] then s else Step(s, Offer(i, w));
    assert s1.waiters[w].channel != [] && s1.waiters[w].phase.Blocked?;
    CheckReturns(Step(s1, Receive(w)), w);
    assert ReturnsAfter(s, w, i);
  }

  // What the log holds after any run

  lemma {:induction false} RunAppend(s: State, actions: seq<Action>, a: Action)
    ensures Run(s, actions + [a]) == Step(Run(s, actions), a)
    decreases actions
  {
    if actions == [] {
      assert ([] + [a])[1..] == [];
    } else {
      RunAppend(Step(s, actions[0]), actions[1..], a);
      assert (actions + [a])[1..] == actions[1..] + [a];
    }
  }

  lemma LastStep(size: int, actions: seq<Action>)
    requires actions != []
    ensures var n := |actions| - 1; Run(Start(size), actions) == Step(Run(Start(size), actions[..n]), actions[n])
  {
    var n := |actions| - 1;
    assert actions == actions[..n] + [actions[n]];
    RunAppend(Start(size), actions[..n], actions[n]);
  }

  /** Every entry ever logged, in order. */
  function Logged(actions: seq<Action>): seq<Entry> {
    if actions == [] then []
    else
      var n := |actions| - 1;
      Logged(actions[..n]) + if actions[n].Append? then [actions[n].e] else []
  }

  /** The last of these actions clears entry `i`. */
  predicate LastClears(actions: seq<Action>, i: nat)
    requires i < |Logged(actions)|
  {
    var last := actions[|actions| - 1];
    last.ClearAll? || (last.ClearMock? && last.mockId == Logged(actions)[i].matchedId)
  }

  /** Entry `i` was cleared, with all others or with its mock, some time after it was logged. */
  predicate Cleared(actions: seq<Action>, i: nat)
    requires i < |Logged(actions)|
  {
    var before := actions[..|actions| - 1];
    i < |Logged(before)| && (Cleared(before, i) || LastClears(actions, i))
  }

  /** The entries from `i` up to `j` that were not cleared. */
  function Uncleared(actions: seq<Action>, i: nat, j: nat): seq<Entry>
    requires j <= |Logged(actions)|
    decreases j
  {
    if j <= i then []
    else Uncleared(actions, i, j - 1) + if Cleared(actions, j - 1) then [] else [Logged(actions)[j - 1]]
  }

  /** At some point more than `max` entries from `i` on had been logged and not cleared, so `i` had to go. */
  ghost predicate Evicted(actions: seq<Action>, max: nat, i: nat) {
    SomePrefix(actions, Crowding(max, i))
  }

  ghost predicate SomePrefix<T>(s: seq<T>, p: seq<T> -> bool) {
    exists q :: 0 <= q <= |s| && p(s[..q])
  }

  function Crowding(max: nat, i: nat): seq<Action> -> bool {
    (actions: seq<Action>) => Crowded(actions, max, i)
  }

  predicate Crowded(actions: seq<Action>, max: nat, i: nat) {
    i < |Logged(actions)| && |Uncleared(actions, i, |Logged(actions)|)| > max
  }

  /** The first `j` entries logged, less those cleared and those evicted. */
  ghost function Kept(actions: seq<Action>, max: nat, j: nat): seq<Entry>
    requires j <= |Logged(actions)|
    decreases j
  {
    if j == 0 then []
    else
      var kept := !Cleared(actions, j - 1) && !Evicted(actions, max, j - 1);
      Kept(actions, max, j - 1) + if kept then [Logged(actions)[j - 1]] else []
  }

  /** Everything before `h`, and nothing after it, was evicted; of the rest the log holds what was not cleared. */
  ghost predicate Horizon(actions: seq<Action>, max: nat, h: nat, entries: seq<Entry>) {
    && h <= |Logged(actions)|
    && entries == Uncleared(actions, h, |Logged(actions)|) && |entries| <= max
    && forall i: nat | i < |Logged(actions)| :: Evicted(actions, max, i) <==> i < h
  }

  lemma {:induction false} UnclearedSplit(actions: seq<Action>, i: nat, k: nat, j: nat)
    requires i <= k <= j <= |Logged(actions)|
    ensures Uncleared(actions, i, j) == Uncleared(actions, i, k) + Uncleared(actions, k, j)
    decreases j
  {
    if k < j {
      UnclearedSplit(actions, i, k, j - 1);
    }
  }

  /** The first entry from `h` on that was not cleared. */
  lemma {:induction false} FirstUncleared(actions: seq<Action>, h: nat) returns (f: nat)
    requires h <= |Logged(actions)| && Uncleared(actions, h, |Logged(actions)|) != []
    ensures h <= f < |Logged(actions)| && Uncleared(actions, h, f) == [] && !Cleared(actions, f)
    decreases |Logged(actions)| - h
  {
    var n := |Logged(actions)|;
    UnclearedSplit(actions, h, h + 1, n);
    assert Uncleared(actions, h, h) == [];
    if !Cleared(actions, h) {
      f := h;
    } else {
      f := FirstUncleared(actions, h + 1);
      UnclearedSplit(actions, h, h + 1, f);
    }
  }

  /** Evictions of a longer run: those so far, and those of its last moment. */
  lemma EvictedNext(actions: seq<Action>, max: nat, i: nat)
    requires actions != []
    ensures Evicted(actions, max, i) <==> Evicted(actions[..|actions| - 1], max, i) || Crowded(actions, max, i)
  {
    SomePrefixNext(actions, Crowding(max, i));
  }

  lemma SomePrefixNext<T>(s: seq<T>, p: seq<T> -> bool)
    requires s != []
    ensures SomePrefix(s, p) <==> SomePrefix(s[..|s| - 1], p) || p(s)
  {
    var before := s[..|s| - 1];
    assert s[..|s|] == s;
    assert forall q | 0 <= q < |s| :: before[..q] == s[..q];
    if p(s) {
      assert p(s[..|s|]);
    }
    if SomePrefix(before, p) {
      var q :| 0 <= q <= |before| && p(before[..q]);
      assert p(s[..q]);
    }
    if SomePrefix(s, p) && !p(s) {
      var q :| 0 <= q <= |s| && p(s[..q]);
      assert p(before[..q]);
    }
  }

  lemma NotYetLogged(actions: seq<Action>, max: nat, i: nat)
    requires i >= |Logged(actions)|
    ensures !Evicted(actions, max, i)
  {
    forall q | 0 <= q <= |actions| ensures !Crowding(max, i)(actions[..q]) {
      LoggedGrows(actions, q);
    }
  }

  lemma {:induction false} LoggedGrows(actions: seq<Action>, q: nat)
    requires q <= |actions|
    ensures |Logged(actions[..q])| <= |Logged(actions)|
    decreases actions
  {
    if q == |actions| {
      assert actions[..q] == actions;
    } else {
      var before := actions[..|actions| - 1];
      assert before[..q] == actions[..q];
      LoggedGrows(before, q);
    }
  }

  // An append

  lemma SameLogged(actions: seq<Action>, before: seq<Action>)
    requires actions != [] && before == actions[..|actions| - 1] && !actions[|actions| - 1].Append?
    ensures Logged(actions) == Logged(before)
  {
    assert Logged(before) + [] == Logged(before);
  }

  lemma UnclearedStep(actions: seq<Action>, i: nat, j: nat)
    requires i < j <= |Logged(actions)|
    ensures Uncleared(actions, i, j) ==
            if Cleared(actions, j - 1) then Uncleared(actions, i, j - 1)
            else Uncleared(actions, i, j - 1) + [Logged(actions)[j - 1]]
  {
    assert Uncleared(actions, i, j - 1) + [] == Uncleared(actions, i, j - 1);
  }

  lemma {:induction false} UnclearedSame(actions: seq<Action>, before: seq<Action>, i: nat, j: nat)
    requires actions != [] && before == actions[..|actions| - 1] && j <= |Logged(before)|
    requires !actions[|actions| - 1].ClearAll? && !actions[|actions| - 1].ClearMock?
    ensures Uncleared(actions, i, j) == Uncleared(before, i, j)
    decreases j
  {
    if j > i {
      UnclearedSame(actions, before, i, j - 1);
    }
  }

  lemma UnclearedAppend(actions: seq<Action>, before: seq<Action>, e: Entry, i: nat)
    requires actions == before + [Append(e)] && i <= |Logged(before)|
    ensures |Logged(actions)| == |Logged(before)| + 1
    ensures Uncleared(actions, i, |Logged(actions)|) == Uncleared(before, i, |Logged(before)|) + [e]
  {
    assert actions[..|actions| - 1] == before;
    UnclearedSame(actions, before, i, |Logged(before)|);
  }

  /** In a full log the next entry to go is the first that was not cleared. */
  lemma NextToGo(before: seq<Action>, h: nat, entries: seq<Entry>) returns (f: nat)
    requires h <= |Logged(before)| && entries == Uncleared(before, h, |Logged(before)|) && entries != []
    ensures h <= f < |Logged(before)| && Uncleared(before, h, f) == []
    ensures Uncleared(before, f + 1, |Logged(before)|) == entries[1..]
  {
    var n := |Logged(before)|;
    f := FirstUncleared(before, h);
    UnclearedSplit(before, h, f, n);
    UnclearedSplit(before, f, f + 1, n);
    assert Uncleared(before, f, f) == [];
    assert entries == [Logged(before)[f]] + Uncleared(before, f + 1, n);
  }

  lemma AppendMovesHorizon(actions: seq<Action>, before: seq<Action>, e: Entry, max: nat, h: nat, entries: seq<Entry>)
    returns (h2: nat)
    requires actions == before + [Append(e)] && Horizon(before, max, h, entries) && max > 0
    ensures Horizon(actions, max, h2, LastN(entries + [e], max))
  {
    h2 := h;
    if |entries| == max {
      var f := NextToGo(before, h, entries);
      h2 := f + 1;
    }
    UnclearedAppend(actions, before, e, h2);
    assert LastN(entries + [e], max) == Uncleared(before, h2, |Logged(before)|) + [e];
    forall i: nat | i < |Logged(actions)| ensures Evicted(actions, max, i) <==> i < h2 {
      AppendEvicts(actions, before, e, max, h, entries, h2, i);
    }
  }

  lemma AppendEvicts(actions: seq<Action>, before: seq<Action>, e: Entry, max: nat, h: nat, entries: seq<Entry>,
                     h2: nat, i: nat)
    requires actions == before + [Append(e)] && Horizon(before, max, h, entries) && max > 0
    requires h <= h2 <= |Logged(before)| && i < |Logged(actions)|
    requires if |entries| < max then h2 == h
             else h2 > h && Uncleared(before, h, h2 - 1) == [] && |Uncleared(before, h2, |Logged(before)|)| == max - 1
    ensures Evicted(actions, max, i) <==> i < h2
  {
    var n := |Logged(before)|;
    assert actions[..|actions| - 1] == before;
    EvictedNext(actions, max, i);
    UnclearedAppend(actions, before, e, i);
    if i == n {
      NotYetLogged(before, max, i);
      assert Uncleared(before, n, n) == [];
    } else if i < h {
      assert Evicted(before, max, i);
    } else if i < h2 {
      UnclearedSplit(before, h, i, n);
      UnclearedSplit(before, h, i, h2 - 1);
    } else {
      UnclearedSplit(before, h2, i, n);
    }
  }

  // A clear

  function AfterClear(left: seq<Entry>, clear: Action): (r: seq<Entry>)
    requires clear.ClearAll? || clear.ClearMock?
  {
    if clear.ClearAll? then [] else Others(left, clear.mockId)
  }

  lemma AfterClearAppend(left: seq<Entry>, e: Entry, clear: Action)
    requires clear.ClearAll? || clear.ClearMock?
    ensures AfterClear(left + [e], clear) ==
            if clear.ClearAll? || e.matchedId == clear.mockId then AfterClear(left, clear)
            else AfterClear(left, clear) + [e]
  {
    assert (left + [e])[..|left|] == left;
    assert clear.ClearMock? ==> Others(left, clear.mockId) + [] == Others(left, clear.mockId);
  }

  lemma {:induction false} UnclearedAfterClear(actions: seq<Action>, before: seq<Action>, i: nat, j: nat)
    requires actions != [] && before == actions[..|actions| - 1] && j <= |Logged(before)|
    requires actions[|actions| - 1].ClearAll? || actions[|actions| - 1].ClearMock?
    ensures Logged(actions) == Logged(before)
    ensures Uncleared(actions, i, j) == AfterClear(Uncleared(before, i, j), actions[|actions| - 1])
    decreases j
  {
    SameLogged(actions, before);
    if j > i {
      UnclearedAfterClear(actions, before, i, j - 1);
      UnclearedStep(actions, i, j);
      UnclearedStep(before, i, j);
      AfterClearAppend(Uncleared(before, i, j - 1), Logged(before)[j - 1], actions[|actions| - 1]);
    }
  }

  lemma ClearCrowdsNothing(actions: seq<Action>, before: seq<Action>, max: nat, i: nat)
    requires actions != [] && before == actions[..|actions| - 1] && !actions[|actions| - 1].Append?
    ensures Crowded(actions, max, i) ==> Evicted(before, max, i)
  {
    if Crowded(actions, max, i) {
      var n, last := |Logged(before)|, actions[|actions| - 1];
      SameLogged(actions, before);
      if last.ClearAll? || last.ClearMock? {
        UnclearedAfterClear(actions, before, i, n);
        if last.ClearMock? {
          OthersShorter(Uncleared(before, i, n), last.mockId);
        }
      } else {
        UnclearedSame(actions, before, i, n);
      }
      assert before[..|before|] == before && Crowding(max, i)(before);
    }
  }

  /** Only an append can evict. */
  lemma HorizonStays(actions: seq<Action>, before: seq<Action>, max: nat, h: nat, entries: seq<Entry>)
    requires actions != [] && before == actions[..|actions| - 1] && Horizon(before, max, h, entries)
    requires !actions[|actions| - 1].Append?
    ensures Logged(actions) == Logged(before)
    ensures forall i: nat | i < |Logged(actions)| :: Evicted(actions, max, i) <==> i < h
  {
    SameLogged(actions, before);
    forall i: nat | i < |Logged(actions)| ensures Evicted(actions, max, i) <==> i < h {
      EvictedNext(actions, max, i);
      ClearCrowdsNothing(actions, before, max, i);
    }
  }

  lemma ClearKeepsHorizon(actions: seq<Action>, before: seq<Action>, max: nat, h: nat, entries: seq<Entry>)
    requires actions != [] && before == actions[..|actions| - 1] && Horizon(before, max, h, entries)
    requires actions[|actions| - 1].ClearAll? || actions[|actions| - 1].ClearMock?
    ensures Horizon(actions, max, h, AfterClear(entries, actions[|actions| - 1]))
  {
    HorizonStays(actions, before, max, h, entries);
    UnclearedAfterClear(actions, before, h, |Logged(before)|);
    if actions[|actions| - 1].ClearMock? {
      OthersShorter(entries, actions[|actions| - 1].mockId);
    }
  }

  lemma IdleKeepsHorizon(actions: seq<Action>, before: seq<Action>, max: nat, h: nat, entries: seq<Entry>)
    requires actions != [] && before == actions[..|actions| - 1] && Horizon(before, max, h, entries)
    requires var last := actions[|actions| - 1]; !last.Append? && !last.ClearAll? && !last.ClearMock?
    ensures Horizon(actions, max, h, entries)
  {
    HorizonStays(actions, before, max, h, entries);
    UnclearedSame(actions, before, h, |Logged(before)|);
  }

  lemma StepEntries(s: State, a: Action)
    ensures Step(s, a).max == s.max
    ensures Step(s, a).entries == match a {
              case Append(e) => LastN(s.entries + [e], s.max)
              case ClearAll => []
              case ClearMock(mockId) => Others(s.entries, mockId)
              case _ => s.entries
            }
  {
  }

  lemma {:induction false} RunHasHorizon(size: int, actions: seq<Action>) returns (h: nat)
    ensures var s := Run(Start(size), actions); s.max == Capacity(size, 500) && Horizon(actions, s.max, h, s.entries)
  {
    h := 0;
    if actions == [] {
      assert Logged(actions) == [];
    } else {
      var n := |actions| - 1;
      var before, last := actions[..n], actions[n];
      h := RunHasHorizon(size, before);
      var s := Run(Start(size), before);
      LastStep(size, actions);
      StepEntries(s, last);
      assert actions == before + [last];
      if last.Append? {
        h := AppendMovesHorizon(actions, before, last.e, s.max, h, s.entries);
      } else if last.ClearAll? || last.ClearMock? {
        ClearKeepsHorizon(actions, before, s.max, h, s.entries);
      } else {
        IdleKeepsHorizon(actions, before, s.max, h, s.entries);
      }
    }
  }

  lemma {:induction false} KeptBehindHorizon(actions: seq<Action>, max: nat, h: nat, entries: seq<Entry>, j: nat)
    requires Horizon(actions, max, h, entries) && j <= |Logged(actions)|
    ensures Kept(actions, max, j) == Uncleared(actions, h, j)
    decreases j
  {
    if j > 0 {
      KeptBehindHorizon(actions, max, h, entries, j - 1);
    }
  }

  /**
   After any run the log holds, in order, exactly the entries logged that were
   neither cleared nor evicted.
   */
  lemma LogHolds(size: int, actions: seq<Action>)
    ensures Run(Start(size), actions).entries == Kept(actions, Capacity(size, 500), |Logged(actions)|)
  {
    var h := RunHasHorizon(size, actions);
    var s := Run(Start(size), actions);
    KeptBehindHorizon(actions, s.max, h, s.entries, |Logged(actions)|);
  }

  // Without clears of single mocks it is the most recent entries

  /** The entries logged since the last `ClearAll`. */
  function SinceClear(actions: seq<Action>): seq<Entry> {
    if actions == [] then []
    else
      var n := |actions| - 1;
      match actions[n]
      case Append(e) => SinceClear(actions[..n]) + [e]
      case ClearAll => []
      case _ => SinceClear(actions[..n])
  }

  lemma {:induction false} LogHoldsMostRecent(size: int, actions: seq<Action>)
    requires forall i | 0 <= i < |actions| :: !actions[i].ClearMock?
    ensures var s := Run(Start(size), actions);
            s.max == Capacity(size, 500) && s.entries == LastN(SinceClear(actions), s.max)
  {
    if actions != [] {
      var n := |actions| - 1;
      LogHoldsMostRecent(size, actions[..n]);
      LastStep(size, actions);
      StepEntries(Run(Start(size), actions[..n]), actions[n]);
      if actions[n].Append? {
        TrimKeepsLast(SinceClear(actions[..n]), actions[n].e, Capacity(size, 500));
      }
    }
  }

  // So waiters do get what they wait for

  /** A waiter that looks, or runs out of time, gets what the log holds for its mock. */
  lemma WaiterGetsLog(size: int, actions: seq<Action>, w: nat)
    requires w in Run(Start(size), actions).waiters
    ensures var x := Run(Start(size), actions).waiters[w];
            var found := Matching(Kept(actions, Capacity(size, 500), |Logged(actions)|), x.mockId);
            && (x.phase.Checking? ==>
                  Run(Start(size), actions + [Check(w)]).waiters ==
                  Run(Start(size), actions).waiters[w :=
                    x.(phase := if |found| >= x.want then Returned(found) else Blocked)])
            && (x.phase.Blocked? ==>
                  Run(Start(size), actions + [Expire(w)]).waiters ==
                  Run(Start(size), actions).waiters[w := x.(phase := Expired(found))])
  {
    LogHolds(size, actions);
    RunAppend(Start(size), actions, Check(w));
    RunAppend(Start(size), actions, Expire(w));
  }

  /** A new waiter starts by looking. */
  lemma SubscriberLooks(size: int, actions: seq<Action>, w: nat, mockId: string, want: int)
    requires w !in Run(Start(size), actions).waiters
    ensures var t := Run(Start(size), actions + [Subscribe(w, mockId, want)]);
            w in t.waiters && t.waiters[w] == Waiter(mockId, want, [], Checking)
  {
    RunAppend(Start(size), actions, Subscribe(w, mockId, want));
  }

  lemma {:induction false} MatchingAppend(a: seq<Entry>, e: Entry, mockId: string)
    ensures Matching(a + [e], mockId) == Matching(a, mockId) + if e.matchedId == mockId then [e] else []
  {
    assert (a + [e])[..|a|] == a;
  }

  /** While everything logged fits and the mock is not cleared, the log holds every entry logged for it. */
  lemma {:induction false} AllMatchesHeld(size: int, actions: seq<Action>, mockId: string)
    requires |Logged(actions)| <= Capacity(size, 500)
    requires ClearAll !in actions && ClearMock(mockId) !in actions
    ensures var s := Run(Start(size), actions);
            && s.max == Capacity(size, 500) && |s.entries| <= |Logged(actions)|
            && Matching(s.entries, mockId) == Matching(Logged(actions), mockId)
  {
    if actions != [] {
      var n := |actions| - 1;
      AllMatchesHeld(size, actions[..n], mockId);
      LastStep(size, actions);
      var s, last := Run(Start(size), actions[..n]), actions[n];
      StepEntries(s, last);
      assert last in actions;
      if last.Append? {
        MatchingAppend(s.entries, last.e, mockId);
        MatchingAppend(Logged(actions[..n]), last.e, mockId);
      } else {
        SameLogged(actions, actions[..n]);
        if last.ClearMock? {
          assert last.mockId != mockId;
          ClearedHasNoMatch(s.entries, last.mockId, mockId);
          OthersShorter(s.entries, last.mockId);
        }
      }
    }
  }

  lemma {:induction false} OthersShorter(entries: seq<Entry>, mockId: string)
    ensures |Others(entries, mockId)| <= |entries|
  {
    if entries != [] {
      OthersShorter(entries[..|entries| - 1], mockId);
    }
  }

  /** So then a waiter that looks once enough entries for its mock were logged returns all of them. */
  lemma EnoughLoggedReturns(size: int, actions: seq<Action>, w: nat)
    requires w in Run(Start(size), actions).waiters && Run(Start(size), actions).waiters[w].phase.Checking?
    requires var x := Run(Start(size), actions).waiters[w];
             && |Logged(actions)| <= Capacity(size, 500)
             && ClearAll !in actions && ClearMock(x.mockId) !in actions
             && |Matching(Logged(actions), x.mockId)| >= x.want
    ensures var t := Run(Start(size), actions + [Check(w)]);
            && w in t.waiters
            && t.waiters[w].phase ==
               Returned(Matching(Logged(actions), Run(Start(size), actions).waiters[w].mockId))
  {
    AllMatchesHeld(size, actions, Run(Start(size), actions).waiters[w].mockId);
    RunAppend(Start(size), actions, Check(w));
  }
}
