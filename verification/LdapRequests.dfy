/**
 The two requests the LDAP server looks into: a bind (section 4.2 of RFC 4511)
 and a search (section 4.5.1). Both are walked value by value, and a value with
 a bad length panics the walk.
 */
module LdapRequests {
  import opened Options
  import opened Bytes
  import opened Ber

  /** What is left behind `k` values; nothing when reading one of them panics. */
  function Skip(b: bytes, k: nat): Option<bytes>
    decreases k
  {
    if k == 0 then Some(b)
    else
      match ReadTLV(b)
      case Overrun => None
      case Tlv(_, _, consumed) => Skip(b[consumed..], k - 1)
  }

  /** A walk gets as far as value `k`, and that value has a bad length. */
  predicate BadAt(b: bytes, k: nat) {
    Skip(b, k).Some? && BadLength(Skip(b, k).value)
  }

  ghost predicate BadAmong(b: bytes, n: nat) {
    exists k: nat :: k < n && BadAt(b, k)
  }

  lemma {:induction false} SkipMore(b: bytes, j: nat, k: nat)
    ensures Skip(b, j + k) == match Skip(b, j) case Some(rest) => Skip(rest, k) case None => None
    decreases j
  {
    if j > 0 && ReadTLV(b).Tlv? {
      SkipMore(b[ReadTLV(b).consumed..], j - 1, k);
    }
  }

  lemma SkipFirst(b: bytes, k: nat)
    ensures Skip(b, k + 1).None? <==> ReadTLV(b).Overrun? || Skip(b[ReadTLV(b).consumed..], k).None?
  {
  }

  lemma SkipLast(b: bytes, n: nat)
    ensures Skip(b, n + 1).None? <==> Skip(b, n).None? || BadAt(b, n)
  {
    SkipMore(b, n, 1);
    if Skip(b, n).Some? {
      var rest := Skip(b, n).value;
      SkipFirst(rest, 0);
      OverrunIffBadLength(rest);
    }
  }

  /** A walk over `n` values panics exactly when one it gets to has a bad length. */
  lemma {:induction false} WalkPanicsIff(b: bytes, n: nat)
    ensures Skip(b, n).None? <==> BadAmong(b, n)
    decreases n
  {
    if n > 0 {
      WalkPanicsIff(b, n - 1);
      SkipLast(b, n - 1);
      if BadAmong(b, n) && !BadAt(b, n - 1) {
        var k: nat :| k < n && BadAt(b, k);
        assert k < n - 1;
      }
    }
  }

  // Search requests

  datatype Search = Search(baseDn: bytes, filter: bytes) | SearchPanics

  const SEARCH_VALUES := 7

  /** The base object, and the filter written out again behind five values that are skipped. */
  function SearchRequest(content: bytes): Search {
    match ReadTLV(content)
    case Overrun => SearchPanics
    case Tlv(_, base, next) =>
      match Skip(content[next..], 5)
      case None => SearchPanics
      case Some(rest) =>
        match ReadTLV(rest)
        case Overrun => SearchPanics
        case Tlv(tag, filter, _) => Search(base, BerTLV(tag, filter))
  }

  /** `parseSearchRequest`. */
  method ParseSearchRequest(content: bytes) returns (r: Search)
    ensures r == SearchRequest(content)
  {
    var base := ReadTLV(content);
    if base.Overrun? {
      return SearchPanics;
    }
    var rest := content[base.consumed..];
    for i := 0 to 5
      invariant Skip(content[base.consumed..], 5) == Skip(rest, 5 - i)
    {
      var v := ReadTLV(rest);
      if v.Overrun? {
        return SearchPanics;
      }
      rest := rest[v.consumed..];
    }
    var filter := ReadTLV(rest);
    if filter.Overrun? {
      return SearchPanics;
    }
    return Search(base.content, BerTLV(filter.tag, filter.content));
  }

  /** A search request panics the server exactly when one of its first seven values is reached with a bad length. */
  lemma SearchPanicsIff(content: bytes)
    ensures SearchRequest(content).SearchPanics? <==> BadAmong(content, SEARCH_VALUES)
  {
    WalkPanicsIff(content, 7);
    SkipFirst(content, 6);
    if ReadTLV(content).Tlv? {
      var rest := content[ReadTLV(content).consumed..];
      SkipMore(rest, 5, 1);
      if Skip(rest, 5).Some? {
        SkipFirst(Skip(rest, 5).value, 0);
      }
    }
  }

  // Bind requests

  datatype Bind = Bind(name: bytes, password: bytes, simple: bool) | BindPanics

  const BIND_VALUES := 3

  const SIMPLE: byte := 0x80

  function Credentials(name: bytes, b: bytes): Bind {
    match ReadTLV(b)
    case Overrun => BindPanics
    case Tlv(tag, secret, _) => if tag == SIMPLE then Bind(name, secret, true) else Bind(name, [], false)
  }

  function NameAndCredentials(b: bytes): Bind {
    match ReadTLV(b)
    case Overrun => BindPanics
    case Tlv(_, name, next) => Credentials(name, b[next..])
  }

  /** `parseBindRequest`: a version, a name, and credentials that count only for simple authentication. */
  function BindRequest(content: bytes): Bind {
    match ReadTLV(content)
    case Overrun => BindPanics
    case Tlv(_, _, next) => NameAndCredentials(content[next..])
  }

  /** A bind request panics the server exactly when one of its first three values is reached with a bad length. */
  lemma BindPanicsIff(content: bytes)
    ensures BindRequest(content).BindPanics? <==> BadAmong(content, BIND_VALUES)
  {
    WalkPanicsIff(content, 3);
    SkipFirst(content, 2);
    if ReadTLV(content).Tlv? {
      var rest := content[ReadTLV(content).consumed..];
      SkipFirst(rest, 1);
      if ReadTLV(rest).Tlv? {
        SkipFirst(rest[ReadTLV(rest).consumed..], 0);
      }
    }
  }

  // What a client writes is what the server finds

  datatype Value = Value(tag: byte, content: bytes)

  function Encode(vs: seq<Value>): bytes {
    if vs == [] then [] else BerTLV(vs[0].tag, vs[0].content) + Encode(vs[1..])
  }

  predicate Short(vs: seq<Value>) {
    forall v | v in vs :: |v.content| < 0x1_0000
  }

  /** Reading a value off `b` gives `v` and leaves `rest`. */
  predicate Starts(b: bytes, v: Value, rest: bytes) {
    ReadTLV(b).Tlv? && ReadTLV(b).tag == v.tag && ReadTLV(b).content == v.content && b[ReadTLV(b).consumed..] == rest
  }

  lemma FirstEncoded(v: Value, rest: bytes)
    requires |v.content| < 0x1_0000
    ensures Starts(BerTLV(v.tag, v.content) + rest, v, rest)
  {
    TlvRoundTrip(v.tag, v.content, rest);
  }

  lemma NextValue(vs: seq<Value>)
    requires vs != [] && Short(vs)
    ensures Starts(Encode(vs), vs[0], Encode(vs[1..]))
  {
    FirstEncoded(vs[0], Encode(vs[1..]));
  }

  lemma SkipStarted(b: bytes, v: Value, rest: bytes, k: nat)
    requires Starts(b, v, rest) && k > 0
    ensures Skip(b, k) == Skip(rest, k - 1)
  {
  }

  /** What is left of `vs` as they are read one by one. */
  ghost predicate Chain(rests: seq<bytes>, vs: seq<Value>) {
    |rests| == |vs| + 1 && forall i | 0 <= i < |vs| :: Starts(rests[i], vs[i], rests[i + 1])
  }

  lemma {:induction false} SkipChain(rests: seq<bytes>, vs: seq<Value>, from: nat, k: nat)
    requires Chain(rests, vs) && from + k <= |vs|
    ensures Skip(rests[from], k) == Some(rests[from + k])
    decreases k
  {
    if k > 0 {
      SkipStarted(rests[from], vs[from], rests[from + 1], k);
      SkipChain(rests, vs, from + 1, k - 1);
    }
  }

  ghost function Rests(vs: seq<Value>): seq<bytes> {
    seq(|vs| + 1, i requires 0 <= i <= |vs| => Encode(vs[i..]))
  }

  lemma EncodedChain(vs: seq<Value>)
    requires Short(vs)
    ensures Chain(Rests(vs), vs) && Rests(vs)[0] == Encode(vs) && Rests(vs)[|vs|] == []
  {
    assert vs[0..] == vs && vs[|vs|..] == [];
    forall i | 0 <= i < |vs| ensures Starts(Rests(vs)[i], vs[i], Rests(vs)[i + 1]) {
      NextValue(vs[i..]);
      assert vs[i..][1..] == vs[i + 1..];
    }
  }

  lemma SearchFound(content: bytes, base: Value, rest: bytes, last: bytes, filter: Value, behind: bytes)
    requires Starts(content, base, rest) && Skip(rest, 5) == Some(last) && Starts(last, filter, behind)
    ensures SearchRequest(content) == Search(base.content, BerTLV(filter.tag, filter.content))
  {
  }

  /** The server finds the base and the very octets of the filter that a client wrote as seven values. */
  lemma SearchRoundTrip(vs: seq<Value>)
    requires |vs| >= SEARCH_VALUES && Short(vs)
    ensures SearchRequest(Encode(vs)) == Search(vs[0].content, BerTLV(vs[6].tag, vs[6].content))
  {
    var rests := Rests(vs);
    EncodedChain(vs);
    SkipChain(rests, vs, 1, 5);
    SearchFound(rests[0], vs[0], rests[1], rests[6], vs[6], rests[7]);
  }

  lemma BindFound(content: bytes, version: Value, rest: bytes, name: Value, last: bytes, secret: Value, behind: bytes)
    requires Starts(content, version, rest) && Starts(rest, name, last) && Starts(last, secret, behind)
    ensures BindRequest(content) ==
            Bind(name.content, if secret.tag == SIMPLE then secret.content else [], secret.tag == SIMPLE)
  {
  }

  /** The server finds the name, and the password exactly when authentication is simple. */
  lemma BindRoundTrip(vs: seq<Value>)
    requires |vs| >= BIND_VALUES && Short(vs)
    ensures BindRequest(Encode(vs)) ==
            Bind(vs[1].content, if vs[2].tag == SIMPLE then vs[2].content else [], vs[2].tag == SIMPLE)
  {
    var rests := Rests(vs);
    EncodedChain(vs);
    BindFound(rests[0], vs[0], rests[1], vs[1], rests[2], vs[2], rests[3]);
  }

  // What becomes of the connection

  datatype Next = GoOn | Leave | Die

  const BIND: byte := 0x60
  const SEARCH: byte := 0x63
  const UNBIND: byte := 0x42

  /** After a request: binds are looked into only when users are configured. */
  function Answer(tag: byte, content: bytes, hasUsers: bool): Next {
    if tag == UNBIND then Leave
    else if tag == SEARCH && SearchRequest(content).SearchPanics? then Die
    else if tag == BIND && hasUsers && BindRequest(content).BindPanics? then Die
    else GoOn
  }

  /** Which requests take the server down. */
  lemma DiesIff(tag: byte, content: bytes, hasUsers: bool)
    ensures Answer(tag, content, hasUsers) == Die <==>
            || (tag == SEARCH && BadAmong(content, SEARCH_VALUES))
            || (tag == BIND && hasUsers && BadAmong(content, BIND_VALUES))
  {
    SearchPanicsIff(content);
    BindPanicsIff(content);
  }

  /** No request that a client wrote as values of writable lengths takes the server down. */
  lemma EncodedRequestsAreSafe(tag: byte, vs: seq<Value>, hasUsers: bool)
    requires Short(vs)
    ensures Answer(tag, Encode(vs), hasUsers) != Die
  {
    if Answer(tag, Encode(vs), hasUsers) == Die {
      DiesIff(tag, Encode(vs), hasUsers);
      var k: nat :| BadAt(Encode(vs), k);
      NoneBadEncoded(vs, k);
    }
  }

  lemma NoneBadEncoded(vs: seq<Value>, k: nat)
    requires Short(vs)
    ensures !BadAt(Encode(vs), k)
  {
    EncodedChain(vs);
    NoneBadInChain(Rests(vs), vs, k);
  }

  lemma NoneBadInChain(rests: seq<bytes>, vs: seq<Value>, k: nat)
    requires Chain(rests, vs) && rests[|vs|] == []
    ensures !BadAt(rests[0], k)
  {
    if k < |vs| {
      SkipChain(rests, vs, 0, k);
      assert Starts(rests[k], vs[k], rests[k + 1]);
      OverrunIffBadLength(rests[k]);
    } else {
      SkipChain(rests, vs, 0, |vs|);
      SkipMore(rests[0], |vs|, k - |vs|);
      SkipNothing(k - |vs|);
    }
  }

  lemma {:induction false} SkipNothing(k: nat)
    ensures Skip([], k) == Some([])
    decreases k
  {
    if k > 0 {
      SkipNothing(k - 1);
      assert ReadTLV([]) == Tlv(0, [], 0);
    }
  }
}
