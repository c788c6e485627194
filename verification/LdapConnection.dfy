/**
 LDAP sessions: the loop over the packets of a connection, from what a client
 sends to what the server sees of it.
 */
module LdapConnection {
  import opened Basics
  import opened Bytes
  import opened Ber
  import opened LdapReader
  import opened LdapRequests

  /** One turn of the connection loop: the packet it read and what it made of it, or the end of the process. */
  datatype Seen = Seen(packet: bytes, envelope: Envelope) | Crash

  /** What a turn does once it has read an operation's tag and content. */
  type Answering = (byte, bytes) -> Next

  /** One message seen and, unless it ended the connection, what came after it. */
  function Turned(x: Seen, next: Next, rest: seq<Seen>): seq<Seen> {
    match next
    case Leave => [x]
    case Die => [x, Crash]
    case GoOn => [x] + rest
  }

  /**
   The turns of the connection loop, which returns after an unbind. A request may
   also take the process down after it was read, when its contents are walked.
   */
  function Session(input: bytes, cuts: set<nat>, pos: nat, answer: Answering): seq<Seen>
    requires pos <= |input|
    decreases |input| - pos
  {
    match ReadPacket(input, cuts, pos)
    case Failed => []
    case Panicked => [Crash]
    case Packet(octets, next) =>
      var e := Parse(octets);
      if e.Panics? then [Crash]
      else Turned(Seen(octets, e), answer(e.tag, e.content), Session(input, cuts, next, answer))
  }

  function Answers(hasUsers: bool): Answering {
    (tag: byte, content: bytes) => Answer(tag, content, hasUsers)
  }

  /** The loop of `handleConn`, up to the answers it writes. */
  method HandleConn(conn: Conn, hasUsers: bool) returns (seen: seq<Seen>)
    requires conn.Valid()
    modifies conn
    ensures seen == Session(conn.input, conn.cuts, old(conn.pos), Answers(hasUsers))
  {
    seen := [];
    ghost var all := Session(conn.input, conn.cuts, conn.pos, Answers(hasUsers));
    while true
      invariant conn.Valid()
      invariant seen + Session(conn.input, conn.cuts, conn.pos, Answers(hasUsers)) == all
      decreases |conn.input| - conn.pos
    {
      ghost var before := seen;
      var turn, more := Turn(conn, hasUsers);
      seen := seen + turn;
      if !more {
        assert turn + [] == turn;
        return;
      }
      AppendAssociative(before, turn, Session(conn.input, conn.cuts, conn.pos, Answers(hasUsers)));
    }
  }

  /** One turn: what it adds to what was seen, and whether the loop goes on. */
  method Turn(conn: Conn, hasUsers: bool) returns (turn: seq<Seen>, more: bool)
    requires conn.Valid()
    modifies conn
    ensures conn.Valid()
    ensures more ==> conn.pos > old(conn.pos)
    ensures Session(conn.input, conn.cuts, old(conn.pos), Answers(hasUsers)) ==
            turn + if more then Session(conn.input, conn.cuts, conn.pos, Answers(hasUsers)) else []
  {
    var r := conn.ReadBerPacket();
    if r.Failed? {
      return [], false;
    }
    if r.Panicked? {
      return [Crash], false;
    }
    var e := Parse(r.octets);
    if e.Panics? {
      return [Crash], false;
    }
    var next := Dispatch(e, hasUsers);
    if next.Die? {
      return [Seen(r.octets, e), Crash], false;
    }
    return [Seen(r.octets, e)], next.GoOn?;
  }

  /** The `switch` over operations. */
  method Dispatch(e: Envelope, hasUsers: bool) returns (next: Next)
    requires e.Envelope?
    ensures next == Answer(e.tag, e.content, hasUsers)
  {
    if e.tag == BIND {
      if !hasUsers {
        return GoOn;
      }
      var bind := BindRequest(e.content);
      return if bind.BindPanics? then Die else GoOn;
    }
    if e.tag == UNBIND {
      return Leave;
    }
    if e.tag == SEARCH {
      var search := ParseSearchRequest(e.content);
      return if search.SearchPanics? then Die else GoOn;
    }
    return GoOn;
  }

  function BuildAll(ms: seq<Message>): bytes {
    if ms == [] then [] else ms[0].Build() + BuildAll(ms[1..])
  }

  predicate AllFit(ms: seq<Message>) {
    forall m | m in ms :: m.Valid() && m.Fits()
  }

  function SeenOf(m: Message): Seen {
    Seen(m.Build(), Envelope(m.id, m.tag, m.content))
  }

  function AnswerTo(m: Message, answer: Answering): Next {
    answer(m.tag, m.content)
  }

  /** Every message up to the first that ends the connection, whole, and the crash if it is that kind of end. */
  function SeenAll(ms: seq<Message>, answer: Answering): seq<Seen> {
    if ms == [] then [] else Turned(SeenOf(ms[0]), AnswerTo(ms[0], answer), SeenAll(ms[1..], answer))
  }

  /** Every message up to the first that ends the connection is undivided. */
  predicate AllUndivided(cuts: set<nat>, pos: nat, ms: seq<Message>, answer: Answering)
    decreases ms
  {
    ms == [] ||
    (Undivided(cuts, pos, ms[0]) &&
     (AnswerTo(ms[0], answer).GoOn? ==> AllUndivided(cuts, pos + |ms[0].Build()|, ms[1..], answer)))
  }

  lemma TurnOnPacket(input: bytes, cuts: set<nat>, pos: nat, x: Seen, next: nat, answer: Answering)
    requires pos <= |input| && ReadsAs(input, cuts, pos, x, next)
    ensures Session(input, cuts, pos, answer) ==
            Turned(x, answer(x.envelope.tag, x.envelope.content), Session(input, cuts, next, answer))
  {
  }

  /** At `pos` the loop reads a packet and decodes it as in `x`. */
  predicate ReadsAs(input: bytes, cuts: set<nat>, pos: nat, x: Seen, next: nat)
    requires pos <= |input|
  {
    && x.Seen? && x.envelope.Envelope?
    && ReadPacket(input, cuts, pos) == Packet(x.packet, next) && Parse(x.packet) == x.envelope
  }

  lemma UndividedReads(input: bytes, cuts: set<nat>, pos: nat, m: Message)
    requires m.Valid() && m.Fits() && At(input, pos, m) && Undivided(cuts, pos, m)
    ensures ReadsAs(input, cuts, pos, SeenOf(m), pos + |m.Build()|)
  {
    assert ReadPacket(input, cuts, pos) == Packet(m.Build(), pos + |m.Build()|) by {
      MessageReadIffUndivided(input, cuts, pos, m);
    }
    ParseRoundTrip(m);
  }

  /** When the packet read at `pos` is not that of `x`, the session does not begin with `x`. */
  lemma OtherPacketOtherTurn(input: bytes, cuts: set<nat>, pos: nat, x: Seen, answer: Answering)
    requires pos <= |input| && x.Seen?
    requires ReadPacket(input, cuts, pos).Packet? ==> ReadPacket(input, cuts, pos).octets != x.packet
    ensures var seen := Session(input, cuts, pos, answer); seen == [] || seen[0] != x
  {
  }

  lemma DividedTurn(input: bytes, cuts: set<nat>, pos: nat, m: Message, x: Seen, answer: Answering)
    requires m.Valid() && m.Fits() && At(input, pos, m) && !Undivided(cuts, pos, m) && x == SeenOf(m)
    ensures var seen := Session(input, cuts, pos, answer); seen == [] || seen[0] != x
  {
    MisreadPacketDiffers(input, cuts, pos, m);
    OtherPacketOtherTurn(input, cuts, pos, x, answer);
  }

  /** What the loop does with a message that comes undivided. */
  lemma UndividedTurn(input: bytes, cuts: set<nat>, pos: nat, m: Message, x: Seen, next: nat, answer: Answering)
    requires m.Valid() && m.Fits() && At(input, pos, m) && Undivided(cuts, pos, m)
    requires x == SeenOf(m) && next == pos + |m.Build()|
    ensures Session(input, cuts, pos, answer) == Turned(x, AnswerTo(m, answer), Session(input, cuts, next, answer))
  {
    UndividedReads(input, cuts, pos, m);
    TurnOnPacket(input, cuts, pos, x, next, answer);
  }

  /** The turns from a message on begin with `x` as they should if it came undivided, and with something else if not. */
  predicate TurnFits(seen: seq<Seen>, x: Seen, next: Next, undivided: bool, rest: seq<Seen>) {
    if undivided then seen == Turned(x, next, rest) else seen == [] || seen[0] != x
  }

  /** The first turn tells whether a message came undivided. */
  lemma MessageTurn(input: bytes, cuts: set<nat>, pos: nat, m: Message, x: Seen, next: nat, answer: Answering)
    requires m.Valid() && m.Fits() && At(input, pos, m)
    requires x == SeenOf(m) && next == pos + |m.Build()|
    ensures TurnFits(Session(input, cuts, pos, answer), x, AnswerTo(m, answer), Undivided(cuts, pos, m),
                     Session(input, cuts, next, answer))
  {
    if Undivided(cuts, pos, m) {
      UndividedTurn(input, cuts, pos, m, x, next, answer);
    } else {
      DividedTurn(input, cuts, pos, m, x, answer);
    }
  }

  function SessionFrom(input: bytes, cuts: set<nat>, answer: Answering): nat -> seq<Seen> {
    (pos: nat) => if pos <= |input| then Session(input, cuts, pos, answer) else []
  }

  /** `ok` holds of every message where it stands, when messages take up `len` octets and the first is at `pos`. */
  ghost predicate AtEach(len: Message -> nat, ok: (nat, Message) -> bool, pos: nat, ms: seq<Message>)
    decreases ms
  {
    ms == [] || (ok(pos, ms[0]) && AtEach(len, ok, pos + len(ms[0]), ms[1..]))
  }

  function EndOf(len: Message -> nat, pos: nat, ms: seq<Message>): nat
    decreases ms
  {
    if ms == [] then pos else EndOf(len, pos + len(ms[0]), ms[1..])
  }

  lemma {:induction false} AtEachImplies(len: Message -> nat, a: (nat, Message) -> bool, b: (nat, Message) -> bool,
                                         pos: nat, ms: seq<Message>)
    requires AtEach(len, a, pos, ms) && forall q, m | m in ms && a(q, m) :: b(q, m)
    ensures AtEach(len, b, pos, ms)
    decreases ms
  {
    if ms != [] {
      assert forall m | m in ms[1..] :: m in ms;
      AtEachImplies(len, a, b, pos + len(ms[0]), ms[1..]);
    }
  }

  function Length(): Message -> nat {
    (m: Message) => |m.Build()|
  }

  function Stands(input: bytes): (nat, Message) -> bool {
    (pos: nat, m: Message) => At(input, pos, m)
  }

  lemma {:induction false} BuiltStands(input: bytes, pos: nat, ms: seq<Message>)
    requires pos <= |input| && input[pos..] == BuildAll(ms)
    ensures AtEach(Length(), Stands(input), pos, ms) && EndOf(Length(), pos, ms) == |input|
    decreases ms
  {
    if ms == [] {
      assert |input[pos..]| == 0;
    } else {
      var next := pos + Length()(ms[0]);
      FirstStands(input, pos, ms[0], next, BuildAll(ms[1..]));
      BuiltStands(input, next, ms[1..]);
    }
  }

  lemma FirstStands(input: bytes, pos: nat, m: Message, next: nat, rest: bytes)
    requires pos <= |input| && input[pos..] == m.Build() + rest && next == pos + Length()(m)
    ensures Stands(input)(pos, m) && next <= |input| && input[next..] == rest
  {
    FrontOfRest(input, pos, m.Build(), rest);
  }

  /** From `m` at `pos`, `session` goes on as the segments let it. */
  function FitsAt(session: nat -> seq<Seen>, cuts: set<nat>, answer: Answering): (nat, Message) -> bool {
    (pos: nat, m: Message) =>
      TurnFits(session(pos), SeenOf(m), AnswerTo(m, answer), Undivided(cuts, pos, m), session(pos + |m.Build()|))
  }

  /** It does so from every message, and it ends with the last. */
  ghost predicate Follows(session: nat -> seq<Seen>, cuts: set<nat>, pos: nat, ms: seq<Message>, answer: Answering) {
    AtEach(Length(), FitsAt(session, cuts, answer), pos, ms) && session(EndOf(Length(), pos, ms)) == []
  }

  lemma SessionFitsAt(input: bytes, cuts: set<nat>, pos: nat, m: Message, answer: Answering)
    requires m.Valid() && m.Fits() && At(input, pos, m)
    ensures FitsAt(SessionFrom(input, cuts, answer), cuts, answer)(pos, m)
  {
    var x, next := SeenOf(m), pos + |m.Build()|;
    MessageTurn(input, cuts, pos, m, x, next, answer);
    FitsByTurn(SessionFrom(input, cuts, answer), cuts, pos, m, x, next, answer, Session(input, cuts, pos, answer),
               Session(input, cuts, next, answer));
  }

  lemma FitsByTurn(session: nat -> seq<Seen>, cuts: set<nat>, pos: nat, m: Message, x: Seen, next: nat,
                   answer: Answering, seen: seq<Seen>, rest: seq<Seen>)
    requires session(pos) == seen && session(next) == rest && x == SeenOf(m) && next == pos + |m.Build()|
    requires TurnFits(seen, x, AnswerTo(m, answer), Undivided(cuts, pos, m), rest)
    ensures FitsAt(session, cuts, answer)(pos, m)
  {
  }

  lemma SessionFollows(input: bytes, cuts: set<nat>, pos: nat, ms: seq<Message>, answer: Answering)
    requires pos <= |input| && input[pos..] == BuildAll(ms) && AllFit(ms)
    ensures Follows(SessionFrom(input, cuts, answer), cuts, pos, ms, answer)
  {
    var ok := FitsAt(SessionFrom(input, cuts, answer), cuts, answer);
    BuiltStands(input, pos, ms);
    forall q: nat, m | m in ms && Stands(input)(q, m) ensures ok(q, m) {
      SessionFitsAt(input, cuts, q, m, answer);
    }
    assert Session(input, cuts, |input|, answer) == [];
    AtEachImplies(Length(), Stands(input), ok, pos, ms);
  }

  lemma FollowsStep(session: nat -> seq<Seen>, cuts: set<nat>, pos: nat, ms: seq<Message>, answer: Answering, next: nat)
    requires Follows(session, cuts, pos, ms, answer) && ms != [] && next == pos + |ms[0].Build()|
    ensures TurnFits(session(pos), SeenOf(ms[0]), AnswerTo(ms[0], answer), Undivided(cuts, pos, ms[0]), session(next))
    ensures Follows(session, cuts, next, ms[1..], answer)
  {
  }

  lemma {:induction false} FollowedIffUndivided(session: nat -> seq<Seen>, cuts: set<nat>, pos: nat, ms: seq<Message>,
                                                answer: Answering)
    requires Follows(session, cuts, pos, ms, answer)
    ensures session(pos) == SeenAll(ms, answer) <==> AllUndivided(cuts, pos, ms, answer)
    decreases ms
  {
    if ms != [] {
      var next := pos + |ms[0].Build()|;
      FollowsStep(session, cuts, pos, ms, answer, next);
      FollowedIffUndivided(session, cuts, next, ms[1..], answer);
      TurnIff(session(pos), SeenOf(ms[0]), AnswerTo(ms[0], answer), Undivided(cuts, pos, ms[0]), session(next),
              SeenAll(ms[1..], answer));
    }
  }

  lemma TurnIff(seen: seq<Seen>, x: Seen, next: Next, undivided: bool, rest: seq<Seen>, wanted: seq<Seen>)
    requires TurnFits(seen, x, next, undivided, rest)
    ensures seen == Turned(x, next, wanted) <==> undivided && (next.GoOn? ==> rest == wanted)
  {
    HeadsCancel(x, rest, wanted);
  }

  /**
   Any run of messages that fit is seen exactly as sent, up to the first that ends
   the connection, if and only if the segments leave it undivided so far.
   */
  lemma SessionIffUndivided(input: bytes, cuts: set<nat>, pos: nat, ms: seq<Message>, answer: Answering)
    requires pos <= |input| && input[pos..] == BuildAll(ms) && AllFit(ms)
    ensures Session(input, cuts, pos, answer) == SeenAll(ms, answer) <==> AllUndivided(cuts, pos, ms, answer)
  {
    SessionFollows(input, cuts, pos, ms, answer);
    FollowedIffUndivided(SessionFrom(input, cuts, answer), cuts, pos, ms, answer);
  }

  function Whole(ms: seq<Message>): (r: seq<Seen>)
    ensures |r| == |ms| && Crash !in r
  {
    if ms == [] then [] else [SeenOf(ms[0])] + Whole(ms[1..])
  }

  /** No message takes the server down, and none but the last unbinds. */
  predicate AllAnswered(ms: seq<Message>, answer: Answering) {
    forall i | 0 <= i < |ms| :: AnswerTo(ms[i], answer) != Die && (AnswerTo(ms[i], answer) == Leave ==> i == |ms| - 1)
  }

  lemma AnsweredCons(ms: seq<Message>, answer: Answering)
    requires ms != []
    ensures var next := AnswerTo(ms[0], answer);
            AllAnswered(ms, answer) <==>
            !next.Die? && (next.GoOn? ==> AllAnswered(ms[1..], answer)) && (next.Leave? ==> |ms| == 1)
  {
    assert forall i | 0 <= i < |ms| - 1 :: ms[1..][i] == ms[i + 1];
    if AnswerTo(ms[0], answer).GoOn? && AllAnswered(ms[1..], answer) {
      forall i | 0 <= i < |ms|
        ensures AnswerTo(ms[i], answer) != Die && (AnswerTo(ms[i], answer) == Leave ==> i == |ms| - 1)
      {
        if i > 0 {
          assert ms[i] == ms[1..][i - 1];
        }
      }
    }
  }

  lemma WholeTurnIff(seen: seq<Seen>, x: Seen, next: Next, undivided: bool, rest: seq<Seen>, whole: seq<Seen>)
    requires TurnFits(seen, x, next, undivided, rest) && Crash !in whole
    ensures seen == [x] + whole <==>
            undivided && !next.Die? && (next.GoOn? ==> rest == whole) && (next.Leave? ==> whole == [])
  {
    HeadsCancel(x, rest, whole);
    if next.Die? {
      assert [x, Crash][1] == Crash && (whole != [] ==> ([x] + whole)[1] == whole[0]);
    } else if next.Leave? {
      assert |[x] + whole| == 1 + |whole|;
    }
  }

  lemma {:induction false} FollowedWholeIff(session: nat -> seq<Seen>, cuts: set<nat>, pos: nat, ms: seq<Message>,
                                            answer: Answering)
    requires Follows(session, cuts, pos, ms, answer)
    ensures session(pos) == Whole(ms) <==> AllAnswered(ms, answer) && AllUndivided(cuts, pos, ms, answer)
    decreases ms
  {
    if ms != [] {
      var next := pos + |ms[0].Build()|;
      FollowsStep(session, cuts, pos, ms, answer, next);
      AnsweredCons(ms, answer);
      FollowedWholeIff(session, cuts, next, ms[1..], answer);
      WholeTurnIff(session(pos), SeenOf(ms[0]), AnswerTo(ms[0], answer), Undivided(cuts, pos, ms[0]), session(next),
                   Whole(ms[1..]));
    }
  }

  /**
   So all the messages are seen, whole and in order, and nothing else happens,
   exactly when none of them ends the connection early and the segments leave
   them undivided.
   */
  lemma AllSeenIff(input: bytes, cuts: set<nat>, pos: nat, ms: seq<Message>, answer: Answering)
    requires pos <= |input| && input[pos..] == BuildAll(ms) && AllFit(ms)
    ensures Session(input, cuts, pos, answer) == Whole(ms) <==>
            AllAnswered(ms, answer) && AllUndivided(cuts, pos, ms, answer)
  {
    SessionFollows(input, cuts, pos, ms, answer);
    FollowedWholeIff(SessionFrom(input, cuts, answer), cuts, pos, ms, answer);
  }

  /** A search or, with users configured, a bind that holds a bad length where the server looks. */
  ghost predicate TakesServerDown(m: Message, hasUsers: bool) {
    || (m.tag == SEARCH && BadAmong(m.content, SEARCH_VALUES))
    || (m.tag == BIND && hasUsers && BadAmong(m.content, BIND_VALUES))
  }

  /** The same for the server's own answers, told by what the messages hold. */
  lemma ServerSeesAllIff(input: bytes, cuts: set<nat>, pos: nat, ms: seq<Message>, hasUsers: bool)
    requires pos <= |input| && input[pos..] == BuildAll(ms) && AllFit(ms)
    ensures Session(input, cuts, pos, Answers(hasUsers)) == Whole(ms) <==>
            && (forall m | m in ms :: !TakesServerDown(m, hasUsers))
            && (forall i | 0 <= i < |ms| - 1 :: ms[i].tag != UNBIND)
            && AllUndivided(cuts, pos, ms, Answers(hasUsers))
  {
    AllSeenIff(input, cuts, pos, ms, Answers(hasUsers));
    forall i | 0 <= i < |ms|
      ensures AnswerTo(ms[i], Answers(hasUsers)) == Die <==> TakesServerDown(ms[i], hasUsers)
      ensures AnswerTo(ms[i], Answers(hasUsers)) == Leave <==> ms[i].tag == UNBIND
    {
      DiesIff(ms[i].tag, ms[i].content, hasUsers);
    }
  }

  // A request that is read and decoded as sent, and takes the server down

  lemma BadValueAmong(tag: byte, n: nat)
    requires n > 0
    ensures BadAmong(BadValue(tag), n)
  {
    BadValueIsBad(tag);
    assert BadAt(BadValue(tag), 0);
  }

  lemma BadRequestFits(m: Message)
    requires m.id == 1 && |m.content| == 10
    ensures m.Valid() && m.Fits()
  {
    IdOctets(m);
  }

  lemma BadAnswers(hasUsers: bool)
    ensures Answer(SEARCH, BadValue(0x04), hasUsers) == Die
    ensures Answer(BIND, BadValue(0x02), hasUsers) == if hasUsers then Die else GoOn
  {
    BadValueAmong(0x04, SEARCH_VALUES);
    DiesIff(SEARCH, BadValue(0x04), hasUsers);
    BadValueAmong(0x02, BIND_VALUES);
    DiesIff(BIND, BadValue(0x02), hasUsers);
  }

  lemma FirstTurn(input: bytes, m: Message, x: Seen, next: Next, answer: Answering)
    requires m.id == 1 && |m.content| == 10 && m.Build() <= input && x == SeenOf(m) && next == answer(m.tag, m.content)
    ensures Session(input, {}, 0, answer) == Turned(x, next, Session(input, {}, |m.Build()|, answer))
  {
    BadRequestFits(m);
    UndividedTurn(input, {}, 0, m, x, |m.Build()|, answer);
  }

  /** The octets of a short message with id 1. */
  lemma ShortBuild(tag: byte, content: bytes)
    requires |content| < 0x70
    ensures Message(1, tag, content).Build() == [0x30, |content| + 5, 0x02, 1, 1, tag, |content|] + content
  {
    assert EncodedInt(1) == [1];
    assert BerTLV(0x02, [1]) == [0x02, 1, 1];
  }

  /** Whatever is sent after these octets, and with or without users, they are the last thing the server sees. */
  lemma SearchTakesServerDown(rest: bytes, hasUsers: bool)
    ensures var input := [0x30, 0x0F, 0x02, 1, 1, SEARCH, 0x0A] + BadValue(0x04) + rest;
            Session(input, {}, 0, Answers(hasUsers)) == [SeenOf(Message(1, SEARCH, BadValue(0x04))), Crash]
  {
    var m := Message(1, SEARCH, BadValue(0x04));
    ShortBuild(SEARCH, BadValue(0x04));
    BadAnswers(hasUsers);
    FirstTurn(m.Build() + rest, m, SeenOf(m), Die, Answers(hasUsers));
  }

  /** Such a bind takes it down exactly when users are configured. */
  lemma BindTakesServerDownIffUsers(rest: bytes, hasUsers: bool)
    ensures var m := Message(1, BIND, BadValue(0x02));
            var input := m.Build() + rest;
            Session(input, {}, 0, Answers(hasUsers)) ==
            [SeenOf(m)] + if hasUsers then [Crash] else Session(input, {}, |m.Build()|, Answers(hasUsers))
  {
    var m := Message(1, BIND, BadValue(0x02));
    BadAnswers(hasUsers);
    FirstTurn(m.Build() + rest, m, SeenOf(m), if hasUsers then Die else GoOn, Answers(hasUsers));
  }

  lemma HeadsCancel<T>(x: T, a: seq<T>, b: seq<T>)
    ensures [x] + a == [x] + b <==> a == b
  {
    assert ([x] + a)[1..] == a && ([x] + b)[1..] == b;
  }

  function Envelopes(seen: seq<Seen>): (r: seq<Envelope>)
    ensures |r| == |seen|
  {
    seq(|seen|, i requires 0 <= i < |seen| => if seen[i].Crash? then Panics else seen[i].envelope)
  }

  /** A message decodes to itself even in one segment only when its body is under 65536 octets. */
  lemma DecodesIffFits(m: Message, rest: bytes)
    requires m.Valid()
    ensures var r := ReadPacket(m.Build() + rest, {}, 0);
            r.Packet? && Parse(r.octets) == Envelope(m.id, m.tag, m.content) <==> m.Fits()
  {
    var input := m.Build() + rest;
    assert input[0..0 + |m.Build()|] == m.Build();
    if m.Fits() {
      MessageReadIffUndivided(input, {}, 0, m);
      ParseRoundTrip(m);
    } else {
      LongMessageRead(input, {}, 0, m);
      var r := ReadPacket(input, {}, 0);
      if r.Packet? {
        OversizedLosesContent(m, r.octets);
      }
    }
  }

  lemma OversizedLosesContent(m: Message, octets: bytes)
    requires m.Valid() && !m.Fits()
    requires |octets| == 4 + |m.Body()| % 0x1_0000 && octets[1] == 0x82
    ensures Parse(octets).Envelope? ==> |Parse(octets).content| < |m.content|
  {
    IdOctets(m);
    assert octets[1..][0] == 0x82;
    assert |m.Body()| % 0x1_0000 <= |m.Body()| - 0x1_0000;
  }

  // What the envelopes alone show

  lemma {:induction false} LeadingOctet(v: nat)
    requires v > 0
    ensures |Octets(v)| >= 1 && Octets(v)[0] >= 1
  {
    if v >= 256 {
      LeadingOctet(v / 256);
    }
  }

  lemma {:induction false} LeadingWeight(s: bytes)
    requires |s| >= 1
    ensures Number(s) >= s[0] as int * Pow256(|s| - 1)
  {
    if |s| == 1 {
      assert s[..0] == [];
    } else {
      var front := s[..|s| - 1];
      LeadingWeight(front);
      assert front[0] == s[0];
      assert Pow256(|s| - 1) == 256 * Pow256(|s| - 2);
      assert s[0] as int * (256 * Pow256(|s| - 2)) == 256 * (s[0] as int * Pow256(|s| - 2));
    }
  }

  /** The only id that equals its own octet count followed by its own first octet. */
  lemma IdOfShiftedOctets(m: Message)
    requires m.Valid()
    ensures var s := EncodedInt(m.id);
            m.id == |s| * 256 + s[0] ==> |s| == 2 && s[0] == 2 && s[1] == 2
  {
    var s := EncodedInt(m.id);
    IdOctets(m);
    IntRoundTrip(m.id);
    if |s| == 1 {
      assert s[..0] == [];
    } else if |s| == 2 {
      TwoOctets(s[0], s[1]);
      assert s == [s[0], s[1]];
    } else {
      LeadingOctet(m.id);
      ThreeOctetsAreLarge(s);
    }
  }

  lemma ThreeOctetsAreLarge(s: bytes)
    requires |s| >= 3 && s[0] >= 1
    ensures Number(s) >= 0x1_0000
  {
    LeadingWeight(s);
    PowMonotone(2, |s| - 1);
    assert Pow256(2) == 0x1_0000;
    TimesAtLeast(s[0] as int, Pow256(|s| - 1));
  }

  lemma TimesAtLeast(a: nat, p: nat)
    requires a >= 1
    ensures a * p >= p
  {
    assert a * p == (a - 1) * p + p;
  }

  /** The first octets of a body: the id's tag, its octet count, its octets, then the operation's tag. */
  lemma BodyOctets(m: Message)
    requires m.Valid()
    ensures var s, body := EncodedInt(m.id), m.Body();
            && |body| == 2 + |s| + 1 + |BerLen(|m.content|)| + |m.content|
            && 1 <= |s| <= 8 && body[0] == 0x02 && body[1] == |s|
            && body[2..2 + |s|] == s && body[2 + |s|] == m.tag
  {
    IdOctets(m);
  }

  /** With a body shifted right by one octet, the parser does not find the message. */
  lemma ShiftedBodyMisparses(content: bytes, m: Message, e: Envelope)
    requires m.Valid() && m.tag != 0 && |m.Body()| >= 0x100 && e == Envelope(m.id, m.tag, m.content)
    requires |content| >= 0x100 && content[1..] <= m.Body()
    ensures ParseContent(content) != e
  {
    var s, body := EncodedInt(m.id), m.Body();
    BodyOctets(m);
    assert forall i | 1 <= i < |content| :: content[i] == content[1..][i - 1] == body[i - 1];
    assert s[0] == body[2..2 + |s|][0] == body[2];
    assert content[1..][0] == 0x02;
    assert content[2..4] == [|s| as byte, s[0]];
    assert ReadTLV(content) == Tlv(content[0], [|s| as byte, s[0]], 4);
    if content[0] == 0x02 {
      TwoOctets(|s|, s[0]);
      IdOfShiftedOctets(m);
      if m.id == |s| * 256 + s[0] {
        assert s[1] == body[2..4][1] == body[3];
        SecondValueTooShort(content[4..], m);
      }
    }
  }

  lemma SecondValueTooShort(rest: bytes, m: Message)
    requires |rest| >= 2 && rest[0] == 0x02 && rest[1] == m.tag && |m.content| > 2
    ensures ReadTLV(rest).Tlv? ==> ReadTLV(rest).tag != m.tag || |ReadTLV(rest).content| < |m.content|
  {
    assert rest[1..][0] == m.tag;
  }

  lemma SplitHeaderMisdecodes(input: bytes, cuts: set<nat>, pos: nat, m: Message)
    requires m.Valid() && At(input, pos, m) && pos + 1 in cuts
    ensures ReadPacket(input, cuts, pos).Packet? && Parse(ReadPacket(input, cuts, pos).octets) == Envelope(0, 0, [])
  {
    SplitHeaderMisreads(input, cuts, pos, m);
    var packet: bytes := [0x30, 0];
    assert packet[1..][0] == 0 && packet[2..] == [];
  }

  /** The contents of a packet misread across its length octets: the body, shifted right by one octet. */
  lemma ShiftedBody(input: bytes, pos: nat, m: Message, n: nat)
    requires At(input, pos, m) && 0x100 <= |m.Body()| && 0 < n <= |m.Body()|
    ensures pos + 3 + n <= |input| && input[pos + 3..pos + 3 + n][1..] <= m.Body()
  {
    LongHeader(input, pos, m);
    SliceOfSlice(input, pos + 3, pos + 3 + n, 1, n);
    SliceOfSlice(input, pos + 4, pos + 4 + |m.Body()|, 0, n - 1);
    assert input[pos + 3..pos + 3 + n][1..n] == m.Body()[0..n - 1];
  }

  lemma ParseLong(hi: byte, content: bytes)
    ensures Parse([0x30, 0x82, hi, 0] + content) == ParseContent(content)
  {
    var packet := [0x30, 0x82, hi, 0] + content;
    assert packet[1..][0] == 0x82 && packet[4..] == content;
  }

  lemma ParseOfLongPacket(input: bytes, pos: nat, hi: byte, n: nat)
    requires pos <= |input| && ReadBody(input, pos, [0x30, 0x82, hi, 0], n).Packet?
    ensures Parse(ReadBody(input, pos, [0x30, 0x82, hi, 0], n).octets) == ParseContent(input[pos..pos + n])
  {
    ParseLong(hi, input[pos..pos + n]);
  }

  lemma SplitLengthOctets(input: bytes, cuts: set<nat>, pos: nat, m: Message)
    requires m.Valid() && m.Fits() && At(input, pos, m)
    requires pos + 1 !in cuts && |m.Body()| >= 0x100 && pos + 3 in cuts
    ensures |m.Body()| >= input[pos + 2] as int * 256 >= 0x100
    ensures ReadPacket(input, cuts, pos) ==
            ReadBody(input, pos + 3, [0x30, 0x82, input[pos + 2], 0], input[pos + 2] as int * 256)
  {
    SplitLengthMisreads(input, cuts, pos, m);
    assert input[pos + 2] == |m.Body()| / 256 % 256 by {
      LongHeader(input, pos, m);
    }
    HighOctet(|m.Body()|);
  }

  lemma HighOctet(n: nat)
    requires 0x100 <= n < 0x1_0000
    ensures n >= n / 256 % 256 * 256 >= 0x100
  {
  }

  lemma SplitLengthMisdecodes(input: bytes, cuts: set<nat>, pos: nat, m: Message)
    requires m.Valid() && m.Fits() && m.tag != 0 && At(input, pos, m)
    requires pos + 1 !in cuts && |m.Body()| >= 0x100 && pos + 3 in cuts
    ensures var r := ReadPacket(input, cuts, pos);
            r.Packet? ==> Parse(r.octets) != Envelope(m.id, m.tag, m.content)
  {
    SplitLengthOctets(input, cuts, pos, m);
    var n := input[pos + 2] as int * 256;
    ShiftedBody(input, pos, m, n);
    var content, e := input[pos + 3..pos + 3 + n], Envelope(m.id, m.tag, m.content);
    ShiftedBodyMisparses(content, m, e);
    MisparsedPacket(input, pos + 3, input[pos + 2], n, content, e);
  }

  lemma MisparsedPacket(input: bytes, pos: nat, hi: byte, n: nat, content: bytes, e: Envelope)
    requires pos + n <= |input| && content == input[pos..pos + n] && ParseContent(content) != e
    ensures var r := ReadBody(input, pos, [0x30, 0x82, hi, 0], n); r.Packet? ==> Parse(r.octets) != e
  {
    if ReadBody(input, pos, [0x30, 0x82, hi, 0], n).Packet? {
      ParseOfLongPacket(input, pos, hi, n);
    }
  }

  /** A divided message with a real operation tag is not even decoded to the same envelope. */
  lemma DividedMisdecodes(input: bytes, cuts: set<nat>, pos: nat, m: Message)
    requires m.Valid() && m.Fits() && m.tag != 0 && At(input, pos, m) && !Undivided(cuts, pos, m)
    ensures var r := ReadPacket(input, cuts, pos);
            r.Packet? ==> Parse(r.octets) != Envelope(m.id, m.tag, m.content)
  {
    if pos + 1 in cuts {
      SplitHeaderMisdecodes(input, cuts, pos, m);
    } else {
      SplitLengthMisdecodes(input, cuts, pos, m);
    }
  }

  /** When the packet read at `pos` does not decode to `e`, the session does not begin with `e`. */
  lemma OtherEnvelopeOtherTurn(input: bytes, cuts: set<nat>, pos: nat, e: Envelope, answer: Answering)
    requires pos <= |input| && e.Envelope?
    requires ReadPacket(input, cuts, pos).Packet? ==> Parse(ReadPacket(input, cuts, pos).octets) != e
    ensures NotFirst(Session(input, cuts, pos, answer), e)
  {
  }

  predicate NotFirst(seen: seq<Seen>, e: Envelope) {
    seen == [] || Envelopes(seen)[0] != e
  }

  lemma DividedEnvelope(input: bytes, cuts: set<nat>, pos: nat, m: Message, e: Envelope, answer: Answering)
    requires m.Valid() && m.Fits() && m.tag != 0 && At(input, pos, m) && !Undivided(cuts, pos, m)
    requires e == Envelope(m.id, m.tag, m.content)
    ensures NotFirst(Session(input, cuts, pos, answer), e)
  {
    DividedMisdecodes(input, cuts, pos, m);
    OtherEnvelopeOtherTurn(input, cuts, pos, e, answer);
  }

  /** A message that comes divided at `pos` is not what is decoded next. */
  function MisdecodesAt(session: nat -> seq<Seen>, cuts: set<nat>): (nat, Message) -> bool {
    (pos: nat, m: Message) => Undivided(cuts, pos, m) || NotFirst(session(pos), SeenOf(m).envelope)
  }

  lemma SessionMisdecodes(input: bytes, cuts: set<nat>, pos: nat, ms: seq<Message>, answer: Answering)
    requires pos <= |input| && input[pos..] == BuildAll(ms) && AllFit(ms) && forall m | m in ms :: m.tag != 0
    ensures AtEach(Length(), MisdecodesAt(SessionFrom(input, cuts, answer), cuts), pos, ms)
  {
    var ok := MisdecodesAt(SessionFrom(input, cuts, answer), cuts);
    BuiltStands(input, pos, ms);
    forall q: nat, m | m in ms && Stands(input)(q, m) ensures ok(q, m) {
      if !Undivided(cuts, q, m) {
        DividedEnvelope(input, cuts, q, m, SeenOf(m).envelope, answer);
      }
    }
    AtEachImplies(Length(), Stands(input), ok, pos, ms);
  }

  lemma EnvelopesCons(x: Seen, rest: seq<Seen>)
    requires x.Seen?
    ensures Envelopes([x] + rest) == [x.envelope] + Envelopes(rest)
  {
  }

  lemma EnvelopesTurnIff(seen: seq<Seen>, x: Seen, next: Next, undivided: bool, rest: seq<Seen>, wanted: seq<Seen>)
    requires x.Seen? && TurnFits(seen, x, next, undivided, rest) && (!undivided ==> NotFirst(seen, x.envelope))
    ensures Envelopes(seen) == Envelopes(Turned(x, next, wanted)) <==>
            undivided && (next.GoOn? ==> Envelopes(rest) == Envelopes(wanted))
  {
    EnvelopesCons(x, rest);
    EnvelopesCons(x, wanted);
    HeadsCancel(x.envelope, Envelopes(rest), Envelopes(wanted));
    if !undivided {
      assert Envelopes(Turned(x, next, wanted))[0] == x.envelope;
    }
  }

  lemma {:induction false} FollowedEnvelopesIff(session: nat -> seq<Seen>, cuts: set<nat>, pos: nat, ms: seq<Message>,
                                                answer: Answering)
    requires Follows(session, cuts, pos, ms, answer) && AtEach(Length(), MisdecodesAt(session, cuts), pos, ms)
    ensures Envelopes(session(pos)) == Envelopes(SeenAll(ms, answer)) <==> AllUndivided(cuts, pos, ms, answer)
    decreases ms
  {
    if ms != [] {
      var next := pos + |ms[0].Build()|;
      FollowsStep(session, cuts, pos, ms, answer, next);
      FollowedEnvelopesIff(session, cuts, next, ms[1..], answer);
      EnvelopesTurnIff(session(pos), SeenOf(ms[0]), AnswerTo(ms[0], answer), Undivided(cuts, pos, ms[0]),
                       session(next), SeenAll(ms[1..], answer));
    }
  }

  /** With real operation tags, the decoded list alone tells whether the session was undivided. */
  lemma EnvelopesIffUndivided(input: bytes, cuts: set<nat>, pos: nat, ms: seq<Message>, answer: Answering)
    requires pos <= |input| && input[pos..] == BuildAll(ms) && AllFit(ms)
    requires forall m | m in ms :: m.tag != 0
    ensures Envelopes(Session(input, cuts, pos, answer)) == Envelopes(SeenAll(ms, answer)) <==>
            AllUndivided(cuts, pos, ms, answer)
  {
    SessionFollows(input, cuts, pos, ms, answer);
    SessionMisdecodes(input, cuts, pos, ms, answer);
    FollowedEnvelopesIff(SessionFrom(input, cuts, answer), cuts, pos, ms, answer);
  }
}
