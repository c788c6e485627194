/**
 Choosing the mock for an HTTP request, and explaining why none was chosen.
 The two walk the same eleven checks in separate code.
 */
module HttpMatching {
  import opened Options

  type Table = map<string, string>

  datatype Mock = Mock(
    id: string, method_: string, path: string, pathRegex: string, headers: Table, query: Table, body: string,
    bodyJson: Table, bodyForm: Table, bodyMultipart: Table, bodyXml: Table, state: Option<(string, string)>,
    auth: Option<string>)

  /** The individual matchers, already applied to the request and to one snapshot of the state store. */
  datatype Matchers = Matchers(
    method_: string -> bool, path: string -> bool, pathRegex: string -> bool, headers: Table -> bool,
    query: Table -> bool, body: string -> bool, bodyJson: Table -> bool, bodyForm: Table -> bool,
    bodyMultipart: Table -> bool, bodyXml: Table -> bool,
    state: Option<(string, string)> -> bool, auth: string -> bool)

  const CHECKS := 11
  const TOP := 3

  /** The `i`th check; a section the mock leaves empty passes. */
  predicate Check(c: Matchers, m: Mock, i: nat) {
    match i
    case 0 => c.method_(m.method_)
    case 1 => if m.pathRegex != "" then c.pathRegex(m.pathRegex) else c.path(m.path)
    case 2 => c.headers(m.headers)
    case 3 => c.query(m.query)
    case 4 => m.body == "" || c.body(m.body)
    case 5 => m.bodyJson == map[] || c.bodyJson(m.bodyJson)
    case 6 => m.bodyForm == map[] || c.bodyForm(m.bodyForm)
    case 7 => m.bodyMultipart == map[] || c.bodyMultipart(m.bodyMultipart)
    case 8 => m.bodyXml == map[] || c.bodyXml(m.bodyXml)
    case 9 => c.state(m.state)
    case 10 => m.auth.None? || c.auth(m.auth.value)
    case _ => true
  }

  ghost predicate PassesAll(c: Matchers, m: Mock) {
    forall i | 0 <= i < CHECKS :: Check(c, m, i)
  }

  /** The sections a mock has, each against its part of the request. */
  lemma PassesAllIff(c: Matchers, m: Mock)
    ensures PassesAll(c, m) <==>
            && c.method_(m.method_)
            && (m.pathRegex != "" ==> c.pathRegex(m.pathRegex)) && (m.pathRegex == "" ==> c.path(m.path))
            && c.headers(m.headers) && c.query(m.query)
            && (m.body != "" ==> c.body(m.body)) && (m.bodyJson != map[] ==> c.bodyJson(m.bodyJson))
            && (m.bodyForm != map[] ==> c.bodyForm(m.bodyForm))
            && (m.bodyMultipart != map[] ==> c.bodyMultipart(m.bodyMultipart))
            && (m.bodyXml != map[] ==> c.bodyXml(m.bodyXml))
            && c.state(m.state) && (m.auth.Some? ==> c.auth(m.auth.value))
  {
    if PassesAll(c, m) {
      assert Check(c, m, 0) && Check(c, m, 1) && Check(c, m, 2) && Check(c, m, 3) && Check(c, m, 4) && Check(c, m, 5);
      assert Check(c, m, 6) && Check(c, m, 7) && Check(c, m, 8) && Check(c, m, 9) && Check(c, m, 10);
    }
  }

  /** `d` checks pass and then one fails, or all pass. */
  ghost predicate StopsAt(c: Matchers, m: Mock, d: nat) {
    && d <= CHECKS
    && (forall i | 0 <= i < d :: Check(c, m, i))
    && (d < CHECKS ==> !Check(c, m, d))
  }

  /** The test of one mock in `HTTPMatch`. */
  method Accepts(c: Matchers, m: Mock) returns (ok: bool)
    ensures ok <==> PassesAll(c, m)
  {
    if !c.method_(m.method_) {
      assert !Check(c, m, 0);
      return false;
    }
    if m.pathRegex != "" {
      if !c.pathRegex(m.pathRegex) {
        assert !Check(c, m, 1);
        return false;
      }
    } else if !c.path(m.path) {
      assert !Check(c, m, 1);
      return false;
    }
    if !c.headers(m.headers) {
      assert !Check(c, m, 2);
      return false;
    }
    if !c.query(m.query) {
      assert !Check(c, m, 3);
      return false;
    }
    if m.body != "" && !c.body(m.body) {
      assert !Check(c, m, 4);
      return false;
    }
    if m.bodyJson != map[] && !c.bodyJson(m.bodyJson) {
      assert !Check(c, m, 5);
      return false;
    }
    if m.bodyForm != map[] && !c.bodyForm(m.bodyForm) {
      assert !Check(c, m, 6);
      return false;
    }
    if m.bodyMultipart != map[] && !c.bodyMultipart(m.bodyMultipart) {
      assert !Check(c, m, 7);
      return false;
    }
    if m.bodyXml != map[] && !c.bodyXml(m.bodyXml) {
      assert !Check(c, m, 8);
      return false;
    }
    if !c.state(m.state) {
      assert !Check(c, m, 9);
      return false;
    }
    if m.auth.Some? && !c.auth(m.auth.value) {
      assert !Check(c, m, 10);
      return false;
    }
    return true;
  }

  /** The first mock that passes everything. */
  ghost predicate FirstMatch(c: Matchers, mocks: seq<Mock>, r: Option<nat>) {
    match r
    case Some(k) => k < |mocks| && PassesAll(c, mocks[k]) && forall j | 0 <= j < k :: !PassesAll(c, mocks[j])
    case None => forall j | 0 <= j < |mocks| :: !PassesAll(c, mocks[j])
  }

  /** `HTTPMatch`, up to rendering the response. */
  method HttpMatch(c: Matchers, mocks: seq<Mock>) returns (r: Option<nat>)
    ensures FirstMatch(c, mocks, r)
  {
    for k := 0 to |mocks|
      invariant forall j | 0 <= j < k :: !PassesAll(c, mocks[j])
    {
      var ok := Accepts(c, mocks[k]);
      if ok {
        return Some(k);
      }
    }
    return None;
  }

  /** The `evaluate` block of `HTTPDiagnose`. */
  method Evaluate(c: Matchers, m: Mock) returns (depth: nat)
    ensures StopsAt(c, m, depth)
  {
    depth := 0;
    if !c.method_(m.method_) { return; }
    depth := depth + 1;
    var pathMatched;
    if m.pathRegex != "" {
      pathMatched := c.pathRegex(m.pathRegex);
    } else {
      pathMatched := c.path(m.path);
    }
    if !pathMatched { return; }
    depth := depth + 1;
    if !c.headers(m.headers) { return; }
    depth := depth + 1;
    if !c.query(m.query) { return; }
    depth := depth + 1;
    if m.body != "" && !c.body(m.body) { return; }
    depth := depth + 1;
    if m.bodyJson != map[] && !c.bodyJson(m.bodyJson) { return; }
    depth := depth + 1;
    if m.bodyForm != map[] && !c.bodyForm(m.bodyForm) { return; }
    depth := depth + 1;
    if m.bodyMultipart != map[] && !c.bodyMultipart(m.bodyMultipart) { return; }
    depth := depth + 1;
    if m.bodyXml != map[] && !c.bodyXml(m.bodyXml) { return; }
    depth := depth + 1;
    if !c.state(m.state) { return; }
    depth := depth + 1;
    if m.auth.Some? && !c.auth(m.auth.value) { return; }
    depth := depth + 1;
  }

  /** A mock's position in the configuration and how far it got. */
  datatype Candidate = Candidate(index: nat, depth: nat)

  /** Closer first, and configuration order between equals. */
  predicate Before(a: Candidate, b: Candidate) {
    a.depth > b.depth || (a.depth == b.depth && a.index < b.index)
  }

  ghost predicate Ranked(list: seq<Candidate>) {
    forall a, b | 0 <= a < b < |list| :: Before(list[a], list[b])
  }

  ghost predicate Lists(list: seq<Candidate>, k: int) {
    exists x :: x in list && x.index == k
  }

  /** The list holds each of the first `n` mocks with its depth. */
  ghost predicate Covers(c: Matchers, mocks: seq<Mock>, list: seq<Candidate>, n: nat)
    requires n <= |mocks|
  {
    && (forall x | x in list :: x.index < n && StopsAt(c, mocks[x.index], x.depth))
    && (forall k | 0 <= k < n :: Lists(list, k))
  }

  /** One step of the stable sort: after everything at least as close. */
  method InsertStable(list: seq<Candidate>, x: Candidate) returns (out: seq<Candidate>)
    requires Ranked(list) && forall y | y in list :: y.index < x.index
    ensures Ranked(out)
    ensures |out| == |list| + 1 && forall y :: y in out <==> y == x || y in list
  {
    var p := |list|;
    while p > 0 && list[p - 1].depth < x.depth
      invariant 0 <= p <= |list|
      invariant forall q | p <= q < |list| :: list[q].depth < x.depth
    {
      p := p - 1;
    }
    out := list[..p] + [x] + list[p..];
    assert list == list[..p] + list[p..];
    RankedInsert(list, x, p);
  }

  lemma RankedInsert(list: seq<Candidate>, x: Candidate, p: nat)
    requires p <= |list| && Ranked(list)
    requires forall y | y in list :: y.index < x.index
    requires forall q | p <= q < |list| :: list[q].depth < x.depth
    requires p > 0 ==> list[p - 1].depth >= x.depth
    ensures Ranked(list[..p] + [x] + list[p..])
  {
    forall a | 0 <= a < p ensures Before(list[a], x) {
      assert list[a] in list;
      assert a < p - 1 ==> Before(list[a], list[p - 1]);
    }
  }

  datatype NearMiss = NearMiss(mockId: string, reason: string)

  /**
   `HTTPDiagnose`: the closest three mocks, or all of fewer, each with its reason.
   `explain` words the check a mock stopped at; `ranking` lists every mock.
   */
  method Diagnose(c: Matchers, mocks: seq<Mock>, explain: (Mock, nat) -> string)
    returns (out: seq<NearMiss>, ghost ranking: seq<Candidate>)
    ensures Ranked(ranking) && Covers(c, mocks, ranking, |mocks|) && |ranking| == |mocks|
    ensures |out| == if |mocks| < TOP then |mocks| else TOP
    ensures forall k | 0 <= k < |out| ::
              && ranking[k].index < |mocks|
              && var m := mocks[ranking[k].index];
              && out[k] == NearMiss(m.id, explain(m, ranking[k].depth)) && StopsAt(c, m, ranking[k].depth)
  {
    var candidates: seq<Candidate> := [];
    for k := 0 to |mocks|
      invariant |candidates| == k && Ranked(candidates) && Covers(c, mocks, candidates, k)
    {
      var depth := Evaluate(c, mocks[k]);
      ghost var former := candidates;
      candidates := InsertStable(candidates, Candidate(k, depth));
      assert Candidate(k, depth) in candidates;
      forall j | 0 <= j < k ensures Lists(candidates, j) {
        assert Lists(former, j);
      }
    }
    forall k | 0 <= k < |candidates| ensures candidates[k].index < |mocks| {
      assert candidates[k] in candidates;
    }
    out := Report(mocks, if |candidates| > TOP then candidates[..TOP] else candidates, explain);
    ranking := candidates;
    forall k | 0 <= k < |out| ensures StopsAt(c, mocks[ranking[k].index], ranking[k].depth) {
      assert ranking[k] in ranking;
    }
  }

  method Report(mocks: seq<Mock>, top: seq<Candidate>, explain: (Mock, nat) -> string) returns (out: seq<NearMiss>)
    requires forall k | 0 <= k < |top| :: top[k].index < |mocks|
    ensures |out| == |top|
    ensures forall k | 0 <= k < |top| ::
              out[k] == NearMiss(mocks[top[k].index].id, explain(mocks[top[k].index], top[k].depth))
  {
    out := [];
    for k := 0 to |top|
      invariant |out| == k
      invariant forall j | 0 <= j < k ::
                  out[j] == NearMiss(mocks[top[j].index].id, explain(mocks[top[j].index], top[j].depth))
    {
      var m := mocks[top[k].index];
      out := out + [NearMiss(m.id, explain(m, top[k].depth))];
    }
  }

  /**
   On the same snapshot the two agree: a match is listed first with all eleven
   checks passed, and without a match nothing listed passed them all.
   */
  lemma MatchIsTopOfDiagnosis(c: Matchers, mocks: seq<Mock>, r: Option<nat>, list: seq<Candidate>)
    requires FirstMatch(c, mocks, r)
    requires Ranked(list) && Covers(c, mocks, list, |mocks|)
    ensures r.Some? ==> list != [] && list[0] == Candidate(r.value, CHECKS)
    ensures r.None? <==> forall x | x in list :: x.depth < CHECKS
  {
    forall x | x in list ensures x.depth == CHECKS <==> PassesAll(c, mocks[x.index]) {
      DepthElevenIsPass(c, mocks[x.index], x.depth);
    }
    if r.Some? {
      assert Lists(list, r.value);
      var x :| x in list && x.index == r.value;
      var p :| 0 <= p < |list| && list[p] == x;
      assert x.depth == CHECKS;
      assert list[0] in list;
      assert p > 0 ==> Before(list[0], list[p]);
    }
  }

  lemma DepthElevenIsPass(c: Matchers, m: Mock, d: nat)
    requires StopsAt(c, m, d)
    ensures d == CHECKS <==> PassesAll(c, m)
  {
  }

  /** A mock that is not among the first three got no further than any that is, and as far only if configured later. */
  lemma NoneOmittedIsCloser(c: Matchers, mocks: seq<Mock>, ranking: seq<Candidate>, a: nat, j: nat, d: nat)
    requires Ranked(ranking) && Covers(c, mocks, ranking, |mocks|)
    requires a < TOP && a < |ranking| && j < |mocks| && StopsAt(c, mocks[j], d)
    requires forall k | 0 <= k < TOP && k < |ranking| :: ranking[k].index != j
    ensures Before(ranking[a], Candidate(j, d))
  {
    assert Lists(ranking, j);
    var x :| x in ranking && x.index == j;
    var b :| 0 <= b < |ranking| && ranking[b] == x;
    assert StopsAt(c, mocks[j], x.depth);
    assert b >= TOP;
    assert Before(ranking[a], ranking[b]);
  }
}
