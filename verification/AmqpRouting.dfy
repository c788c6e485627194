/**
 Exchange-to-queue routing of the AMQP server: the backtracking topic matcher
 and the walk over the configured bindings.
 */
module AmqpRouting {
  import opened Text

  type Words = seq<string>

  // What section 3.1.3.3 of AMQP 0-9-1 says a topic pattern accepts, stated
  // without any matching algorithm: the key's words are cut into one run per
  // pattern word.

  predicate WordAccepts(p: string, run: Words) {
    p == "#" || (|run| == 1 && (p == "*" || run[0] == p))
  }

  function Flatten(runs: seq<Words>): Words {
    if runs == [] then [] else runs[0] + Flatten(runs[1..])
  }

  ghost predicate Assigns(pattern: Words, runs: seq<Words>, key: Words) {
    && |runs| == |pattern|
    && Flatten(runs) == key
    && forall i | 0 <= i < |pattern| :: WordAccepts(pattern[i], runs[i])
  }

  ghost predicate Accepts(pattern: Words, key: Words) {
    exists runs :: Assigns(pattern, runs, key)
  }

  lemma AcceptsEmpty(key: Words)
    ensures Accepts([], key) <==> key == []
  {
    assert key == [] ==> Assigns([], [], key);
  }

  /** The first pattern word takes some prefix of the key, the others the rest. */
  lemma AcceptsFirst(pattern: Words, key: Words)
    requires pattern != []
    ensures Accepts(pattern, key) <==>
            exists i :: 0 <= i <= |key| && WordAccepts(pattern[0], key[..i]) && Accepts(pattern[1..], key[i..])
  {
    if Accepts(pattern, key) {
      var runs :| Assigns(pattern, runs, key);
      var i := |runs[0]|;
      assert key[..i] == runs[0] && key[i..] == Flatten(runs[1..]);
      assert Assigns(pattern[1..], runs[1..], key[i..]);
    }
    if i :| 0 <= i <= |key| && WordAccepts(pattern[0], key[..i]) && Accepts(pattern[1..], key[i..]) {
      var rest :| Assigns(pattern[1..], rest, key[i..]);
      var runs := [key[..i]] + rest;
      assert runs[1..] == rest;
      assert Assigns(pattern, runs, key);
    }
  }

  /** `topicMatchSegments` decides exactly that. */
  method TopicMatchSegments(pattern: Words, key: Words) returns (ok: bool)
    ensures ok <==> Accepts(pattern, key)
    decreases |pattern|
  {
    if |pattern| == 0 {
      AcceptsEmpty(key);
      return |key| == 0;
    }
    AcceptsFirst(pattern, key);
    if pattern[0] == "#" {
      if |pattern| == 1 {
        AcceptsEmpty([]);
        assert WordAccepts(pattern[0], key[..|key|]) && key[|key|..] == [] && pattern[1..] == [];
        return true;
      }
      var i := 0;
      while i <= |key|
        invariant 0 <= i <= |key| + 1
        invariant forall j | 0 <= j < i :: !Accepts(pattern[1..], key[j..])
      {
        var rest := TopicMatchSegments(pattern[1..], key[i..]);
        if rest {
          assert WordAccepts(pattern[0], key[..i]);
          return true;
        }
        i := i + 1;
      }
      return false;
    } else if pattern[0] == "*" {
      if |key| == 0 {
        return false;
      }
      ok := TopicMatchSegments(pattern[1..], key[1..]);
      assert ok ==> WordAccepts(pattern[0], key[..1]);
    } else {
      if |key| == 0 || key[0] != pattern[0] {
        return false;
      }
      ok := TopicMatchSegments(pattern[1..], key[1..]);
      assert ok ==> WordAccepts(pattern[0], key[..1]);
    }
  }

  // Laws of the accepted language

  lemma {:induction false} FlattenAppend(a: seq<Words>, b: seq<Words>)
    ensures Flatten(a + b) == Flatten(a) + Flatten(b)
  {
    if a == [] {
      assert a + b == b;
    } else {
      assert (a + b)[1..] == a[1..] + b;
      FlattenAppend(a[1..], b);
    }
  }

  lemma AcceptsJoin(p: Words, q: Words, key: Words, i: nat)
    requires i <= |key| && Accepts(p, key[..i]) && Accepts(q, key[i..])
    ensures Accepts(p + q, key)
  {
    var a :| Assigns(p, a, key[..i]);
    var b :| Assigns(q, b, key[i..]);
    FlattenAppend(a, b);
    assert key[..i] + key[i..] == key;
    assert Assigns(p + q, a + b, key);
  }

  lemma AcceptsSplit(p: Words, q: Words, key: Words) returns (i: nat)
    requires Accepts(p + q, key)
    ensures i <= |key| && Accepts(p, key[..i]) && Accepts(q, key[i..])
  {
    var runs :| Assigns(p + q, runs, key);
    var a, b := runs[..|p|], runs[|p|..];
    assert a + b == runs;
    FlattenAppend(a, b);
    i := |Flatten(a)|;
    assert key[..i] == Flatten(a) && key[i..] == Flatten(b);
    assert Assigns(p, a, key[..i]) by {
      assert forall k | 0 <= k < |p| :: p[k] == (p + q)[k] && a[k] == runs[k];
    }
    assert Assigns(q, b, key[i..]) by {
      assert forall k | 0 <= k < |q| :: q[k] == (p + q)[|p| + k] && b[k] == runs[|p| + k];
    }
  }

  /** A pattern in two halves accepts a key exactly when the key has two halves to match. */
  lemma AcceptsConcat(p: Words, q: Words, key: Words)
    ensures Accepts(p + q, key) <==>
            exists i :: 0 <= i <= |key| && Accepts(p, key[..i]) && Accepts(q, key[i..])
  {
    if Accepts(p + q, key) {
      var i := AcceptsSplit(p, q, key);
    }
    if i :| 0 <= i <= |key| && Accepts(p, key[..i]) && Accepts(q, key[i..]) {
      AcceptsJoin(p, q, key, i);
    }
  }

  lemma AcceptsHash(key: Words)
    ensures Accepts(["#"], key)
  {
    assert Flatten([key][1..]) == [];
    assert Assigns(["#"], [key], key);
  }

  lemma AcceptsHashHash(key: Words)
    ensures Accepts(["#", "#"], key)
  {
    AcceptsHash(key);
    AcceptsHash([]);
    AcceptsConcat(["#"], ["#"], key);
    assert ["#"] + ["#"] == ["#", "#"] && key[..|key|] == key && key[|key|..] == [];
  }

  /** Wherever it stands in a pattern, `#.#` accepts what `#` accepts. */
  lemma HashHashIsHash(before: Words, after: Words, key: Words)
    ensures Accepts(before + ["#", "#"] + after, key) <==> Accepts(before + ["#"] + after, key)
  {
    forall i | 0 <= i <= |key|
      ensures Accepts(before + ["#", "#"], key[..i]) <==> Accepts(before + ["#"], key[..i])
    {
      var k := key[..i];
      AcceptsConcat(before, ["#", "#"], k);
      AcceptsConcat(before, ["#"], k);
      forall j | 0 <= j <= |k| ensures Accepts(["#"], k[j..]) && Accepts(["#", "#"], k[j..]) {
        AcceptsHash(k[j..]);
        AcceptsHashHash(k[j..]);
      }
    }
    AcceptsConcat(before + ["#", "#"], after, key);
    AcceptsConcat(before + ["#"], after, key);
  }

  /** A pattern without wildcards accepts itself and nothing else. */
  lemma {:induction false} LiteralAcceptsItself(pattern: Words, key: Words)
    requires "#" !in pattern && "*" !in pattern
    ensures Accepts(pattern, key) <==> pattern == key
    decreases |pattern|
  {
    if pattern == [] {
      AcceptsEmpty(key);
    } else {
      AcceptsFirst(pattern, key);
      assert pattern == [pattern[0]] + pattern[1..];
      if key != [] {
        assert key == [key[0]] + key[1..];
        LiteralAcceptsItself(pattern[1..], key[1..]);
        assert WordAccepts(pattern[0], key[..1]) <==> key[0] == pattern[0];
      }
    }
  }

  /** `amqpTopicMatches` on dotted strings. */
  ghost predicate TopicMatches(pattern: string, key: string) {
    Accepts(Split(pattern, '.'), Split(key, '.'))
  }

  /** A dotted pattern with no wildcard word routes like a direct exchange. */
  lemma LiteralTopicIsEquality(pattern: string, key: string)
    requires "#" !in Split(pattern, '.') && "*" !in Split(pattern, '.')
    ensures TopicMatches(pattern, key) <==> pattern == key
  {
    LiteralAcceptsItself(Split(pattern, '.'), Split(key, '.'));
    if Split(pattern, '.') == Split(key, '.') {
      SplitInjective(pattern, key, '.');
    }
  }

  // Bindings

  datatype Exchange = Exchange(name: string, kind: string)
  datatype Binding = Binding(exchange: string, queue: string, pattern: string)

  /** The declared type of the first exchange with this name; "direct" when unset. */
  method ExchangeType(exchanges: seq<Exchange>, name: string) returns (kind: string)
    ensures kind == DeclaredType(exchanges, name)
  {
    for i := 0 to |exchanges|
      invariant DeclaredType(exchanges, name) == DeclaredType(exchanges[i..], name)
    {
      assert exchanges[i..][1..] == exchanges[i + 1..];
      if exchanges[i].name == name {
        return if exchanges[i].kind == "" then "direct" else exchanges[i].kind;
      }
    }
    return "direct";
  }

  function DeclaredType(exchanges: seq<Exchange>, name: string): string {
    if exchanges == [] then "direct"
    else if exchanges[0].name == name then
      if exchanges[0].kind == "" then "direct" else exchanges[0].kind
    else DeclaredType(exchanges[1..], name)
  }

  ghost predicate BindingMatches(kind: string, pattern: string, key: string) {
    || kind == "fanout"
    || pattern == ""
    || (if kind == "topic" then TopicMatches(pattern, key) else pattern == key)
  }

  method DecideBinding(kind: string, pattern: string, key: string) returns (ok: bool)
    ensures ok <==> BindingMatches(kind, pattern, key)
  {
    if kind == "fanout" {
      return true;
    } else if pattern == "" {
      return true;
    } else if kind == "topic" {
      ok := TopicMatchSegments(Split(pattern, '.'), Split(key, '.'));
    } else {
      return pattern == key;
    }
  }

  /** Binding `i` routes a publish of `key` to `exchange`. */
  ghost predicate Bound(exchanges: seq<Exchange>, bindings: seq<Binding>, exchange: string, key: string, i: int)
    requires 0 <= i < |bindings|
  {
    bindings[i].exchange == exchange
    && BindingMatches(DeclaredType(exchanges, exchange), bindings[i].pattern, key)
  }

  /** `i` is the first binding that routes to its own queue. */
  ghost predicate FirstBound(exchanges: seq<Exchange>, bindings: seq<Binding>, exchange: string, key: string, i: int)
    requires 0 <= i < |bindings|
  {
    && Bound(exchanges, bindings, exchange, key, i)
    && forall j | 0 <= j < i && bindings[j].queue == bindings[i].queue ::
         !Bound(exchanges, bindings, exchange, key, j)
  }

  /** `queues` is what the first-routing bindings among the first `n`, listed by `from`, name. */
  ghost predicate RoutedBy(exchanges: seq<Exchange>, bindings: seq<Binding>, exchange: string, key: string,
                           n: nat, queues: seq<string>, from: seq<nat>)
    requires n <= |bindings|
  {
    && |from| == |queues|
    && (forall a | 0 <= a < |from| ::
          && from[a] < n && FirstBound(exchanges, bindings, exchange, key, from[a])
          && bindings[from[a]].queue == queues[a])
    && (forall a, b | 0 <= a < b < |from| :: from[a] < from[b])
    && (forall i | 0 <= i < n && FirstBound(exchanges, bindings, exchange, key, i) :: i in from)
  }

  /** `routeToQueues`: the queues of the first-routing bindings, in binding order. */
  method RouteToQueues(exchanges: seq<Exchange>, bindings: seq<Binding>, exchange: string, key: string)
    returns (queues: seq<string>)
    ensures exists from :: RoutedBy(exchanges, bindings, exchange, key, |bindings|, queues, from)
  {
    var kind := ExchangeType(exchanges, exchange);
    var seen: set<string> := {};
    queues := [];
    ghost var from: seq<nat> := [];
    for i := 0 to |bindings|
      invariant RoutedBy(exchanges, bindings, exchange, key, i, queues, from)
      invariant forall q :: q in seen <==>
                  exists j :: 0 <= j < i && bindings[j].queue == q && Bound(exchanges, bindings, exchange, key, j)
    {
      var b := bindings[i];
      if b.exchange != exchange {
        continue;
      }
      var ok := DecideBinding(kind, b.pattern, key);
      if !ok {
        continue;
      }
      if b.queue in seen {
        continue;
      }
      seen := seen + {b.queue};
      queues := queues + [b.queue];
      from := from + [i];
    }
  }

  /** So no queue is listed twice, and a queue is listed exactly when some binding routes to it. */
  lemma RoutedExactlyOnce(exchanges: seq<Exchange>, bindings: seq<Binding>, exchange: string, key: string,
                          queues: seq<string>, from: seq<nat>)
    requires RoutedBy(exchanges, bindings, exchange, key, |bindings|, queues, from)
    ensures forall a, b | 0 <= a < b < |queues| :: queues[a] != queues[b]
    ensures forall q :: q in queues <==>
              exists i :: 0 <= i < |bindings| && bindings[i].queue == q && Bound(exchanges, bindings, exchange, key, i)
  {
    forall q, i | 0 <= i < |bindings| && bindings[i].queue == q && Bound(exchanges, bindings, exchange, key, i)
      ensures q in queues
    {
      var f := FindFirst(exchanges, bindings, exchange, key, i);
      assert f in from;
      var a :| 0 <= a < |from| && from[a] == f;
      assert queues[a] == q;
    }
  }

  lemma {:induction false} FindFirst(exchanges: seq<Exchange>, bindings: seq<Binding>, exchange: string,
                                     key: string, i: int)
    returns (f: int)
    requires 0 <= i < |bindings| && Bound(exchanges, bindings, exchange, key, i)
    ensures 0 <= f <= i && bindings[f].queue == bindings[i].queue && FirstBound(exchanges, bindings, exchange, key, f)
  {
    if j :| 0 <= j < i && bindings[j].queue == bindings[i].queue && Bound(exchanges, bindings, exchange, key, j) {
      f := FindFirst(exchanges, bindings, exchange, key, j);
    } else {
      f := i;
    }
  }
}
