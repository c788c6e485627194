/**
 Layering of configuration files: mocks of an included file override those with
 the same id and are appended otherwise.
 */
module MergeById {
  import opened Basics
  import opened Options

  /** The index of the last entry with this id, or the length of the list. */
  function LastIndex<T>(list: seq<T>, idOf: T -> string, id: string): (i: nat)
    ensures i <= |list|
    ensures i < |list| ==> idOf(list[i]) == id
    ensures forall j | i < j < |list| :: idOf(list[j]) != id
    ensures i == |list| ==> forall j | 0 <= j < |list| :: idOf(list[j]) != id
  {
    if list == [] then 0
    else
      var n := |list| - 1;
      if idOf(list[n]) == id then n
      else
        var i := LastIndex(list[..n], idOf, id);
        if i == n then |list| else i
  }

  predicate HasId<T>(list: seq<T>, idOf: T -> string, id: string) {
    exists i :: 0 <= i < |list| && idOf(list[i]) == id
  }

  /** Replace the last entry with this id, else append. */
  function Upsert<T>(list: seq<T>, idOf: T -> string, m: T): seq<T> {
    var i := LastIndex(list, idOf, idOf(m));
    if i < |list| then list[i := m] else list + [m]
  }

  function Merge<T>(base: seq<T>, included: seq<T>, idOf: T -> string): seq<T>
    decreases included
  {
    if included == [] then base
    else
      var n := |included| - 1;
      Upsert(Merge(base, included[..n], idOf), idOf, included[n])
  }

  /** `index` finds the last entry of each id. */
  ghost predicate Indexes<T>(index: map<string, nat>, list: seq<T>, idOf: T -> string) {
    && (forall i | 0 <= i < |list| :: idOf(list[i]) in index)
    && forall id | id in index :: index[id] < |list| && index[id] == LastIndex(list, idOf, id)
  }

  lemma LastIndexOfAppend<T>(list: seq<T>, idOf: T -> string, m: T, id: string)
    ensures LastIndex(list + [m], idOf, id) ==
            if idOf(m) == id then |list|
            else if LastIndex(list, idOf, id) == |list| then |list| + 1
            else LastIndex(list, idOf, id)
  {
    assert (list + [m])[..|list|] == list;
  }

  lemma LastIndexOfReplace<T>(list: seq<T>, idOf: T -> string, i: nat, m: T, id: string)
    requires i < |list| && idOf(list[i]) == idOf(m)
    ensures LastIndex(list[i := m], idOf, id) == LastIndex(list, idOf, id)
  {
    SameIds(list, list[i := m], idOf, id);
  }

  lemma SameIds<T>(a: seq<T>, b: seq<T>, idOf: T -> string, id: string)
    requires |a| == |b| && forall i | 0 <= i < |a| :: idOf(a[i]) == idOf(b[i])
    ensures LastIndex(a, idOf, id) == LastIndex(b, idOf, id)
  {
    var i, j := LastIndex(a, idOf, id), LastIndex(b, idOf, id);
    assert i < |a| ==> idOf(b[i]) == id;
    assert j < |b| ==> idOf(a[j]) == id;
  }

  /** `mergeByID`, with its index from id to position. */
  method MergeByID<T>(base: seq<T>, included: seq<T>, idOf: T -> string) returns (result: seq<T>)
    ensures result == Merge(base, included, idOf)
  {
    if |included| == 0 {
      return base;
    }
    var index: map<string, nat> := map[];
    result := base;
    for i := 0 to |base|
      invariant Indexes(index, base[..i], idOf)
    {
      assert base[..i + 1] == base[..i] + [base[i]];
      forall id | id in index || id == idOf(base[i]) {
        LastIndexOfAppend(base[..i], idOf, base[i], id);
      }
      index := index[idOf(base[i]) := i];
    }
    assert base[..|base|] == base;
    for i := 0 to |included|
      invariant result == Merge(base, included[..i], idOf)
      invariant Indexes(index, result, idOf)
    {
      var m := included[i];
      var id := idOf(m);
      assert included[..i + 1][..i] == included[..i];
      if id in index {
        KeepIndex(index, result, idOf, m);
        result := result[index[id] := m];
      } else {
        GrowIndex(index, result, idOf, m);
        index := index[id := |result|];
        result := result + [m];
      }
    }
    assert included[..|included|] == included;
  }

  lemma KeepIndex<T>(index: map<string, nat>, list: seq<T>, idOf: T -> string, m: T)
    requires Indexes(index, list, idOf) && idOf(m) in index
    ensures list[index[idOf(m)] := m] == Upsert(list, idOf, m)
    ensures Indexes(index, list[index[idOf(m)] := m], idOf)
  {
    forall id | id in index {
      LastIndexOfReplace(list, idOf, index[idOf(m)], m, id);
    }
  }

  lemma GrowIndex<T>(index: map<string, nat>, list: seq<T>, idOf: T -> string, m: T)
    requires Indexes(index, list, idOf) && idOf(m) !in index
    ensures list + [m] == Upsert(list, idOf, m)
    ensures Indexes(index[idOf(m) := |list|], list + [m], idOf)
  {
    assert LastIndex(list, idOf, idOf(m)) == |list|;
    forall id | id in index || id == idOf(m) {
      LastIndexOfAppend(list, idOf, m, id);
    }
  }

  // Laws of layering

  function Ids<T>(list: seq<T>, idOf: T -> string): seq<string> {
    seq(|list|, i requires 0 <= i < |list| => idOf(list[i]))
  }

  predicate Distinct(ids: seq<string>) {
    forall i, j | 0 <= i < j < |ids| :: ids[i] != ids[j]
  }

  lemma UpsertKeepsIds<T>(list: seq<T>, idOf: T -> string, m: T)
    ensures Ids(Upsert(list, idOf, m), idOf) == Ids(list, idOf) + if HasId(list, idOf, idOf(m)) then [] else [idOf(m)]
  {
    var i := LastIndex(list, idOf, idOf(m));
    if HasId(list, idOf, idOf(m)) {
      assert i < |list|;
    }
  }

  /** Merging keeps the base ids in their order and only ever appends to them; distinct ids stay distinct. */
  lemma {:induction false} MergeKeepsOrder<T>(base: seq<T>, included: seq<T>, idOf: T -> string)
    ensures Ids(base, idOf) <= Ids(Merge(base, included, idOf), idOf)
    ensures Distinct(Ids(base, idOf)) ==> Distinct(Ids(Merge(base, included, idOf), idOf))
    decreases included
  {
    if included != [] {
      var n := |included| - 1;
      var before := Merge(base, included[..n], idOf);
      MergeKeepsOrder(base, included[..n], idOf);
      UpsertKeepsIds(before, idOf, included[n]);
      if !HasId(before, idOf, idOf(included[n])) {
        assert forall i | 0 <= i < |before| :: Ids(before, idOf)[i] == idOf(before[i]) != idOf(included[n]);
      }
    }
  }

  /** A second entry with the same id overrides the first. */
  lemma UpsertTwice<T>(list: seq<T>, idOf: T -> string, x: T, m: T)
    requires idOf(x) == idOf(m)
    ensures Upsert(Upsert(list, idOf, x), idOf, m) == Upsert(list, idOf, m)
  {
    var i := LastIndex(list, idOf, idOf(m));
    if i < |list| {
      LastIndexOfReplace(list, idOf, i, x, idOf(m));
    } else {
      LastIndexOfAppend(list, idOf, x, idOf(m));
    }
  }

  /** Overriding a present entry commutes with layering an entry of another id. */
  lemma UpsertsCommute<T>(list: seq<T>, idOf: T -> string, y: T, m: T)
    requires idOf(y) != idOf(m) && LastIndex(list, idOf, idOf(m)) < |list|
    ensures Upsert(Upsert(list, idOf, y), idOf, m) == Upsert(Upsert(list, idOf, m), idOf, y)
  {
    var i, j := LastIndex(list, idOf, idOf(m)), LastIndex(list, idOf, idOf(y));
    assert LastIndex(list[i := m], idOf, idOf(y)) == j by {
      LastIndexOfReplace(list, idOf, i, m, idOf(y));
    }
    if j < |list| {
      assert LastIndex(list[j := y], idOf, idOf(m)) == i by {
        LastIndexOfReplace(list, idOf, j, y, idOf(m));
      }
      assert i != j;
      UpdatesCommute(list, i, m, j, y);
    } else {
      assert LastIndex(list + [y], idOf, idOf(m)) == i by {
        LastIndexOfAppend(list, idOf, y, idOf(m));
      }
      UpdateOfAppend(list, i, m, y);
    }
  }

  lemma UpdatesCommute<T>(list: seq<T>, i: nat, m: T, j: nat, y: T)
    requires i < |list| && j < |list| && i != j
    ensures list[i := m][j := y] == list[j := y][i := m]
  {
  }

  lemma UpdateOfAppend<T>(list: seq<T>, i: nat, m: T, y: T)
    requires i < |list|
    ensures (list + [y])[i := m] == list[i := m] + [y]
  {
  }

  lemma UpsertHas<T>(list: seq<T>, idOf: T -> string, m: T, id: string)
    requires id == idOf(m) || LastIndex(list, idOf, id) < |list|
    ensures LastIndex(Upsert(list, idOf, m), idOf, id) < |Upsert(list, idOf, m)|
  {
    var i := LastIndex(list, idOf, idOf(m));
    if i < |list| {
      LastIndexOfReplace(list, idOf, i, m, id);
    } else {
      LastIndexOfAppend(list, idOf, m, id);
    }
  }

  lemma MergeSnoc<T>(base: seq<T>, included: seq<T>, m: T, idOf: T -> string)
    ensures Merge(base, included + [m], idOf) == Upsert(Merge(base, included, idOf), idOf, m)
  {
    assert (included + [m])[..|included|] == included;
  }

  /** Overriding at position `i` of the included list is overriding after merging it. */
  lemma {:induction false} OverrideInside<T>(base: seq<T>, included: seq<T>, i: nat, m: T, idOf: T -> string)
    requires i < |included| && idOf(included[i]) == idOf(m)
    requires forall j | i < j < |included| :: idOf(included[j]) != idOf(m)
    ensures Merge(base, included[i := m], idOf) == Upsert(Merge(base, included, idOf), idOf, m)
    ensures LastIndex(Merge(base, included, idOf), idOf, idOf(m)) < |Merge(base, included, idOf)|
    decreases included
  {
    var n := |included| - 1;
    var front, y := included[..n], included[n];
    var before := Merge(base, front, idOf);
    if i == n {
      assert included[i := m] == front + [m];
      MergeSnoc(base, front, m, idOf);
      UpsertTwice(before, idOf, y, m);
      UpsertHas(before, idOf, y, idOf(m));
    } else {
      OverrideInside(base, front, i, m, idOf);
      assert included[i := m] == front[i := m] + [y];
      MergeSnoc(base, front[i := m], y, idOf);
      UpsertsCommute(before, idOf, y, m);
      UpsertHas(before, idOf, y, idOf(m));
    }
  }

  lemma MergeOfUpsert<T>(a: seq<T>, b: seq<T>, m: T, idOf: T -> string)
    ensures Merge(a, Upsert(b, idOf, m), idOf) == Upsert(Merge(a, b, idOf), idOf, m)
  {
    var i := LastIndex(b, idOf, idOf(m));
    if i < |b| {
      OverrideInside(a, b, i, m, idOf);
    } else {
      MergeSnoc(a, b, m, idOf);
    }
  }

  /** Merging files one by one is merging them together first, for lists with repeated ids too. */
  lemma {:induction false} MergeAssociative<T>(a: seq<T>, b: seq<T>, c: seq<T>, idOf: T -> string)
    ensures Merge(Merge(a, b, idOf), c, idOf) == Merge(a, Merge(b, c, idOf), idOf)
    decreases c
  {
    if c != [] {
      var n := |c| - 1;
      MergeAssociative(a, b, c[..n], idOf);
      MergeOfUpsert(a, Merge(b, c[..n], idOf), c[n], idOf);
    }
  }

  // Whole files

  /**
   A protocol section: its settings, its lists that are merged by id (mocks,
   rules, traps, files, mailboxes) and its lists that are only appended to
   (services, users, exchanges, bindings), each list under its own name.
   */
  datatype Section<T, S> = Section(settings: S, merged: map<string, seq<T>>, appended: map<string, seq<string>>)

  /** A configuration file: its scenarios and the sections of the protocols it configures. */
  datatype Config<T, S> = Config(scenarios: seq<string>, sections: map<string, Section<T, S>>)

  /** A list a section does not have is empty. */
  function List<V>(lists: map<string, seq<V>>, name: string): seq<V> {
    if name in lists then lists[name] else []
  }

  function MergeSection<T, S>(base: Section<T, S>, inc: Section<T, S>, idOf: T -> string): Section<T, S> {
    Section(base.settings, MergeLists(base.merged, inc.merged, idOf), AppendLists(base.appended, inc.appended))
  }

  function MergeLists<T>(a: map<string, seq<T>>, b: map<string, seq<T>>, idOf: T -> string): map<string, seq<T>> {
    map l | l in a.Keys + b.Keys :: Merge(List(a, l), List(b, l), idOf)
  }

  function AppendLists(a: map<string, seq<string>>, b: map<string, seq<string>>): map<string, seq<string>> {
    map l | l in a.Keys + b.Keys :: List(a, l) + List(b, l)
  }

  lemma SameLists<V>(x: map<string, seq<V>>, y: map<string, seq<V>>)
    requires x.Keys == y.Keys && forall l | l in x :: List(x, l) == List(y, l)
    ensures x == y
  {
    assert forall l | l in x :: x[l] == List(x, l) == List(y, l) == y[l];
  }

  lemma MergedList<T>(a: map<string, seq<T>>, b: map<string, seq<T>>, idOf: T -> string, l: string)
    ensures List(MergeLists(a, b, idOf), l) == Merge(List(a, l), List(b, l), idOf)
  {
  }

  lemma MergedListAssociative<T>(a: map<string, seq<T>>, b: map<string, seq<T>>, c: map<string, seq<T>>,
                                 idOf: T -> string, l: string)
    ensures List(MergeLists(MergeLists(a, b, idOf), c, idOf), l) == List(MergeLists(a, MergeLists(b, c, idOf), idOf), l)
  {
    var p, q, r := List(a, l), List(b, l), List(c, l);
    calc {
      List(MergeLists(MergeLists(a, b, idOf), c, idOf), l);
      { MergedList(MergeLists(a, b, idOf), c, idOf, l); MergedList(a, b, idOf, l); }
      Merge(Merge(p, q, idOf), r, idOf);
      { MergeAssociative(p, q, r, idOf); }
      Merge(p, Merge(q, r, idOf), idOf);
      { MergedList(b, c, idOf, l); MergedList(a, MergeLists(b, c, idOf), idOf, l); }
      List(MergeLists(a, MergeLists(b, c, idOf), idOf), l);
    }
  }

  lemma MergeListsAssociative<T>(a: map<string, seq<T>>, b: map<string, seq<T>>, c: map<string, seq<T>>,
                                 idOf: T -> string)
    ensures MergeLists(MergeLists(a, b, idOf), c, idOf) == MergeLists(a, MergeLists(b, c, idOf), idOf)
  {
    var x, y := MergeLists(MergeLists(a, b, idOf), c, idOf), MergeLists(a, MergeLists(b, c, idOf), idOf);
    assert x.Keys == y.Keys;
    forall l | l in x ensures List(x, l) == List(y, l) {
      MergedListAssociative(a, b, c, idOf, l);
    }
    SameLists(x, y);
  }

  lemma AppendedList(a: map<string, seq<string>>, b: map<string, seq<string>>, l: string)
    ensures List(AppendLists(a, b), l) == List(a, l) + List(b, l)
  {
  }

  lemma AppendListsAssociative(a: map<string, seq<string>>, b: map<string, seq<string>>, c: map<string, seq<string>>)
    ensures AppendLists(AppendLists(a, b), c) == AppendLists(a, AppendLists(b, c))
  {
    var x, y := AppendLists(AppendLists(a, b), c), AppendLists(a, AppendLists(b, c));
    assert x.Keys == y.Keys;
    forall l | l in x ensures List(x, l) == List(y, l) {
      AppendedList(a, b, l);
      AppendedList(b, c, l);
      AppendAssociative(List(a, l), List(b, l), List(c, l));
    }
    SameLists(x, y);
  }

  /** `mergeIncludedConfig`: a section only one file has is taken over as it is. */
  function MergeConfig<T, S>(base: Config<T, S>, inc: Config<T, S>, idOf: T -> string): Config<T, S> {
    Config(base.scenarios + inc.scenarios,
           map p | p in base.sections.Keys + inc.sections.Keys ::
             if p !in inc.sections then base.sections[p]
             else if p !in base.sections then inc.sections[p]
             else MergeSection(base.sections[p], inc.sections[p], idOf))
  }

  lemma MergeSectionAssociative<T, S>(a: Section<T, S>, b: Section<T, S>, c: Section<T, S>, idOf: T -> string)
    ensures MergeSection(MergeSection(a, b, idOf), c, idOf) == MergeSection(a, MergeSection(b, c, idOf), idOf)
  {
    MergeListsAssociative(a.merged, b.merged, c.merged, idOf);
    AppendListsAssociative(a.appended, b.appended, c.appended);
  }

  lemma MergeConfigAssociative<T, S>(a: Config<T, S>, b: Config<T, S>, c: Config<T, S>, idOf: T -> string)
    ensures MergeConfig(MergeConfig(a, b, idOf), c, idOf) == MergeConfig(a, MergeConfig(b, c, idOf), idOf)
  {
    var x, y := MergeConfig(MergeConfig(a, b, idOf), c, idOf), MergeConfig(a, MergeConfig(b, c, idOf), idOf);
    AppendAssociative(a.scenarios, b.scenarios, c.scenarios);
    forall p | p in x.sections ensures x.sections[p] == y.sections[p] {
      if p in a.sections && p in b.sections && p in c.sections {
        MergeSectionAssociative(a.sections[p], b.sections[p], c.sections[p], idOf);
      }
    }
    assert x.sections == y.sections;
  }

  function MergeAll<T, S>(base: Config<T, S>, files: seq<Config<T, S>>, idOf: T -> string): Config<T, S>
    decreases files
  {
    if files == [] then base else MergeAll(MergeConfig(base, files[0], idOf), files[1..], idOf)
  }

  /**
   Folding any list of included files into the main one is folding them into each
   other and merging the outcome once.
   */
  lemma {:induction false} IncludesTogether<T, S>(base: Config<T, S>, first: Config<T, S>, rest: seq<Config<T, S>>,
                                                  idOf: T -> string)
    ensures MergeAll(MergeConfig(base, first, idOf), rest, idOf) == MergeConfig(base, MergeAll(first, rest, idOf), idOf)
    decreases rest
  {
    if rest != [] {
      MergeConfigAssociative(base, first, rest[0], idOf);
      IncludesTogether(base, MergeConfig(first, rest[0], idOf), rest[1..], idOf);
    }
  }

  // Who owns a section

  function AllScenarios<T, S>(files: seq<Config<T, S>>): seq<string> {
    if files == [] then [] else files[0].scenarios + AllScenarios(files[1..])
  }

  lemma {:induction false} ScenariosAccumulate<T, S>(base: Config<T, S>, files: seq<Config<T, S>>, idOf: T -> string)
    ensures MergeAll(base, files, idOf).scenarios == base.scenarios + AllScenarios(files)
    decreases files
  {
    if files != [] {
      ScenariosAccumulate(MergeConfig(base, files[0], idOf), files[1..], idOf);
      AppendAssociative(base.scenarios, files[0].scenarios, AllScenarios(files[1..]));
    }
  }

  /** The section of protocol `p` in the first file that has one. */
  function Owner<T, S>(files: seq<Config<T, S>>, p: string): Option<Section<T, S>> {
    if files == [] then None
    else if p in files[0].sections then Some(files[0].sections[p])
    else Owner(files[1..], p)
  }

  /** `r` has the settings of `s`, and each of its lists starts with the entries of `s`, by id or as they are. */
  ghost predicate Extends<T, S>(s: Section<T, S>, r: Section<T, S>, idOf: T -> string) {
    && r.settings == s.settings
    && (forall l :: Ids(List(s.merged, l), idOf) <= Ids(List(r.merged, l), idOf))
    && (forall l :: List(s.appended, l) <= List(r.appended, l))
  }

  lemma MergeExtends<T, S>(s: Section<T, S>, inc: Section<T, S>, idOf: T -> string)
    ensures Extends(s, MergeSection(s, inc, idOf), idOf)
  {
    forall l
      ensures Ids(List(s.merged, l), idOf) <= Ids(List(MergeSection(s, inc, idOf).merged, l), idOf)
      ensures List(s.appended, l) <= List(MergeSection(s, inc, idOf).appended, l)
    {
      MergedList(s.merged, inc.merged, idOf, l);
      AppendedList(s.appended, inc.appended, l);
      MergeKeepsOrder(List(s.merged, l), List(inc.merged, l), idOf);
    }
  }

  /**
   Whichever file first has a section, main or included, owns its settings and the
   order of its entries; no other file can take them over.
   */
  lemma {:induction false} FirstFileOwnsSection<T, S>(base: Config<T, S>, files: seq<Config<T, S>>,
                                                      idOf: T -> string, p: string)
    ensures var owner, r := Owner([base] + files, p), MergeAll(base, files, idOf).sections;
            && (p in r <==> owner.Some?)
            && (p in r ==> Extends(owner.value, r[p], idOf))
    decreases files
  {
    assert ([base] + files)[1..] == files;
    if files != [] {
      var next, rest := MergeConfig(base, files[0], idOf), files[1..];
      assert ([next] + rest)[1..] == rest;
      FirstFileOwnsSection(next, rest, idOf, p);
      if p in base.sections && p in files[0].sections {
        MergeExtends(base.sections[p], files[0].sections[p], idOf);
      }
    }
  }

  // What becomes of every list, over all files

  function Concat<V>(lists: seq<seq<V>>): seq<V> {
    if lists == [] then [] else lists[0] + Concat(lists[1..])
  }

  /** List `l` of protocol `p`, merged by id, in each of the files that have the protocol. */
  function MergedOf<T, S>(files: seq<Config<T, S>>, p: string, l: string): seq<seq<T>> {
    if files == [] then []
    else
      (if p in files[0].sections then [List(files[0].sections[p].merged, l)] else []) + MergedOf(files[1..], p, l)
  }

  function AppendedOf<T, S>(files: seq<Config<T, S>>, p: string, l: string): seq<seq<string>> {
    if files == [] then []
    else
      (if p in files[0].sections then [List(files[0].sections[p].appended, l)] else []) + AppendedOf(files[1..], p, l)
  }

  lemma NextFile<T, S>(files: seq<Config<T, S>>, p: string, l: string)
    requires files != []
    ensures var rest := files[1..];
            if p in files[0].sections then
              && MergedOf(files, p, l) == [List(files[0].sections[p].merged, l)] + MergedOf(rest, p, l)
              && AppendedOf(files, p, l) == [List(files[0].sections[p].appended, l)] + AppendedOf(rest, p, l)
            else MergedOf(files, p, l) == MergedOf(rest, p, l) && AppendedOf(files, p, l) == AppendedOf(rest, p, l)
  {
    assert [] + MergedOf(files[1..], p, l) == MergedOf(files[1..], p, l);
    assert [] + AppendedOf(files[1..], p, l) == AppendedOf(files[1..], p, l);
  }

  /** Merging list after list is merging everything that comes after the first in one go. */
  lemma {:induction false} MergeAppend<T>(a: seq<T>, b: seq<T>, c: seq<T>, idOf: T -> string)
    ensures Merge(Merge(a, b, idOf), c, idOf) == Merge(a, b + c, idOf)
    decreases c
  {
    if c == [] {
      assert b + c == b;
    } else {
      var n := |c| - 1;
      MergeAppend(a, b, c[..n], idOf);
      assert (b + c)[..|b| + n] == b + c[..n];
    }
  }

  /** The lists of one protocol after merging `r` with what the files still to come hold of it. */
  lemma {:induction false} MergeAllLists<T, S>(base: Config<T, S>, files: seq<Config<T, S>>, idOf: T -> string,
                                               p: string, l: string)
    requires p in base.sections
    ensures var r := MergeAll(base, files, idOf).sections;
            && p in r
            && List(r[p].merged, l) == Merge(List(base.sections[p].merged, l), Concat(MergedOf(files, p, l)), idOf)
            && List(r[p].appended, l) == List(base.sections[p].appended, l) + Concat(AppendedOf(files, p, l))
    decreases files
  {
    if files != [] {
      var next, rest := MergeConfig(base, files[0], idOf), files[1..];
      MergeAllLists(next, rest, idOf, p, l);
      NextFile(files, p, l);
      if p in files[0].sections {
        var x, y := base.sections[p], files[0].sections[p];
        MergedList(x.merged, y.merged, idOf, l);
        AppendedList(x.appended, y.appended, l);
        MergeAppend(List(x.merged, l), List(y.merged, l), Concat(MergedOf(rest, p, l)), idOf);
        AppendAssociative(List(x.appended, l), List(y.appended, l), Concat(AppendedOf(rest, p, l)));
        ConcatCons(List(y.merged, l), MergedOf(rest, p, l));
        ConcatCons(List(y.appended, l), AppendedOf(rest, p, l));
      }
    }
  }

  lemma ConcatCons<V>(first: seq<V>, rest: seq<seq<V>>)
    ensures Concat([first] + rest) == first + Concat(rest)
  {
    assert ([first] + rest)[1..] == rest;
  }

  /**
   Over the main file and all included ones, in order: a list merged by id is the
   first file's list with the entries of all others merged into it, and an
   appended list is all of them in a row.
   */
  lemma {:induction false} EveryFileContributes<T, S>(base: Config<T, S>, files: seq<Config<T, S>>, idOf: T -> string,
                                                      p: string, l: string)
    requires p in MergeAll(base, files, idOf).sections
    ensures var r := MergeAll(base, files, idOf).sections[p];
            var merged, appended := MergedOf([base] + files, p, l), AppendedOf([base] + files, p, l);
            && merged != [] && List(r.merged, l) == Merge(merged[0], Concat(merged[1..]), idOf)
            && List(r.appended, l) == Concat(appended)
    decreases files
  {
    assert ([base] + files)[1..] == files;
    NextFile([base] + files, p, l);
    if p in base.sections {
      MergeAllLists(base, files, idOf, p, l);
      FirstAndRest(List(base.sections[p].merged, l), MergedOf(files, p, l));
      ConcatCons(List(base.sections[p].appended, l), AppendedOf(files, p, l));
    } else if files != [] {
      var next, rest := MergeConfig(base, files[0], idOf), files[1..];
      EveryFileContributes(next, rest, idOf, p, l);
      SameSection(base, files[0], rest, idOf, p, l);
      assert files == [files[0]] + rest;
    }
  }

  lemma FirstAndRest<V>(first: V, rest: seq<V>)
    ensures ([first] + rest)[0] == first && ([first] + rest)[1..] == rest
  {
  }

  /** Merging a file into one without the section leaves it as it is in the file. */
  lemma SameSection<T, S>(base: Config<T, S>, file: Config<T, S>, rest: seq<Config<T, S>>, idOf: T -> string,
                          p: string, l: string)
    requires p !in base.sections
    ensures var next := MergeConfig(base, file, idOf);
            && MergedOf([next] + rest, p, l) == MergedOf([file] + rest, p, l)
            && AppendedOf([next] + rest, p, l) == AppendedOf([file] + rest, p, l)
  {
    var next := MergeConfig(base, file, idOf);
    FirstAndRest(next, rest);
    FirstAndRest(file, rest);
    NextFile([next] + rest, p, l);
    NextFile([file] + rest, p, l);
  }

  // And of every entry

  /** The last entry with this id, if there is one. */
  function Find<T>(list: seq<T>, idOf: T -> string, id: string): Option<T> {
    var i := LastIndex(list, idOf, id);
    if i < |list| then Some(list[i]) else None
  }

  lemma FindLast<T>(list: seq<T>, idOf: T -> string, m: T, id: string)
    ensures Find(list + [m], idOf, id) == if idOf(m) == id then Some(m) else Find(list, idOf, id)
  {
    LastIndexOfAppend(list, idOf, m, id);
  }

  lemma UpsertFinds<T>(list: seq<T>, idOf: T -> string, m: T, id: string)
    ensures Find(Upsert(list, idOf, m), idOf, id) == if idOf(m) == id then Some(m) else Find(list, idOf, id)
  {
    var i := LastIndex(list, idOf, idOf(m));
    if i < |list| {
      LastIndexOfReplace(list, idOf, i, m, id);
    } else {
      FindLast(list, idOf, m, id);
    }
  }

  /** Under every id the merged list has the last entry of the included list, or else that of the base. */
  lemma {:induction false} LastEntryWins<T>(base: seq<T>, included: seq<T>, idOf: T -> string, id: string)
    ensures Find(Merge(base, included, idOf), idOf, id) ==
            if Find(included, idOf, id).Some? then Find(included, idOf, id) else Find(base, idOf, id)
    decreases included
  {
    if included != [] {
      var n := |included| - 1;
      LastEntryWins(base, included[..n], idOf, id);
      UpsertFinds(Merge(base, included[..n], idOf), idOf, included[n], id);
      assert included == included[..n] + [included[n]];
      FindLast(included[..n], idOf, included[n], id);
    }
  }

  /** So a mock of any file is there under its id, in the form the last file to mention it gives it. */
  lemma LastFileWins<T, S>(base: Config<T, S>, files: seq<Config<T, S>>, idOf: T -> string, p: string, l: string,
                           id: string)
    requires p in MergeAll(base, files, idOf).sections
    ensures Find(List(MergeAll(base, files, idOf).sections[p].merged, l), idOf, id) ==
            Find(Concat(MergedOf([base] + files, p, l)), idOf, id)
  {
    EveryFileContributes(base, files, idOf, p, l);
    var merged := MergedOf([base] + files, p, l);
    LastEntryWins(merged[0], Concat(merged[1..]), idOf, id);
    FindInAppend(merged[0], Concat(merged[1..]), idOf, id);
  }

  lemma {:induction false} FindInAppend<T>(a: seq<T>, b: seq<T>, idOf: T -> string, id: string)
    ensures Find(a + b, idOf, id) == if Find(b, idOf, id).Some? then Find(b, idOf, id) else Find(a, idOf, id)
    decreases b
  {
    if b == [] {
      assert a + b == a;
    } else {
      var n := |b| - 1;
      FindInAppend(a, b[..n], idOf, id);
      assert a + b == (a + b[..n]) + [b[n]] && b == b[..n] + [b[n]];
      FindLast(a + b[..n], idOf, b[n], id);
      FindLast(b[..n], idOf, b[n], id);
    }
  }

  /** Those of `ids` that are not known yet, each where it first comes. */
  function Fresh(known: seq<string>, ids: seq<string>): seq<string> {
    if ids == [] then []
    else
      var n := |ids| - 1;
      var before := Fresh(known, ids[..n]);
      before + if ids[n] in known || ids[n] in before then [] else [ids[n]]
  }

  /** The ids of a merged list: those of the base, and behind them each new one where it first comes. */
  lemma {:induction false} MergedIds<T>(base: seq<T>, included: seq<T>, idOf: T -> string)
    ensures Ids(Merge(base, included, idOf), idOf) == Ids(base, idOf) + Fresh(Ids(base, idOf), Ids(included, idOf))
    decreases included
  {
    if included != [] {
      var n := |included| - 1;
      var before, m := Merge(base, included[..n], idOf), included[n];
      MergedIds(base, included[..n], idOf);
      UpsertKeepsIds(before, idOf, m);
      assert Ids(included, idOf)[..n] == Ids(included[..n], idOf);
      IdsHold(before, idOf, idOf(m));
    }
  }

  lemma IdsHold<T>(list: seq<T>, idOf: T -> string, id: string)
    ensures HasId(list, idOf, id) <==> id in Ids(list, idOf)
  {
    if HasId(list, idOf, id) {
      var i :| 0 <= i < |list| && idOf(list[i]) == id;
      assert Ids(list, idOf)[i] == id;
    }
  }

  /** Where the entries of the base stood, they stand: replaced only if last of their id and mentioned again. */
  lemma {:induction false} BaseEntriesStay<T>(base: seq<T>, included: seq<T>, idOf: T -> string, i: nat)
    requires i < |base|
    ensures var r := Merge(base, included, idOf);
            && i < |r|
            && r[i] == if i == LastIndex(base, idOf, idOf(base[i])) && Find(included, idOf, idOf(base[i])).Some?
                       then Find(included, idOf, idOf(base[i])).value else base[i]
    decreases included
  {
    if included != [] {
      var n, id := |included| - 1, idOf(base[i]);
      var m, before := included[n], Merge(base, included[..n], idOf);
      BaseEntriesStay(base, included[..n], idOf, i);
      MergeKeepsOrder(base, included[..n], idOf);
      assert included == included[..n] + [m];
      FindLast(included[..n], idOf, m, id);
      LastOfBase(base, included[..n], idOf, i);
    }
  }

  /** The last base entry of an id stays the last of that id. */
  lemma {:induction false} LastOfBase<T>(base: seq<T>, included: seq<T>, idOf: T -> string, i: nat)
    requires i < |base|
    ensures LastIndex(Merge(base, included, idOf), idOf, idOf(base[i])) == LastIndex(base, idOf, idOf(base[i]))
    decreases included
  {
    if included != [] {
      var n, id := |included| - 1, idOf(base[i]);
      var m, before := included[n], Merge(base, included[..n], idOf);
      LastOfBase(base, included[..n], idOf, i);
      MergeKeepsOrder(base, included[..n], idOf);
      var k := LastIndex(before, idOf, idOf(m));
      if k < |before| {
        LastIndexOfReplace(before, idOf, k, m, id);
      } else {
        assert idOf(m) != id;
        LastIndexOfAppend(before, idOf, m, id);
      }
    }
  }
}
