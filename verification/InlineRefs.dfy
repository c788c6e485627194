/**
 Inlining of `$ref` objects in a parsed specification. The document may refer
 to itself in cycles, so the inliner counts how deep it has gone and puts an
 empty object where it stops.
 */
module InlineRefs {
  import opened Options
  import opened JsonPointer

  const MAX_DEPTH := 12

  const Empty := Obj(map[])

  predicate IsRef(node: Doc) {
    node.Obj? && "$ref" in node.fields && node.fields["$ref"].Str?
  }

  function Target(root: Doc, node: Doc): Option<Doc>
    requires IsRef(node)
  {
    Pointee(root, node.fields["$ref"].text)
  }

  function Inline(root: Doc, node: Doc, depth: nat): Doc
    decreases MAX_DEPTH + 1 - depth
  {
    if depth > MAX_DEPTH then Empty
    else if IsRef(node) then
      match Target(root, node)
      case Some(t) => Inline(root, t, depth + 1)
      case None => Empty
    else
      match node
      case Obj(fields) => Obj(map k | k in fields :: Inline(root, fields[k], depth + 1))
      case Arr(items) => Arr(seq(|items|, i requires 0 <= i < |items| => Inline(root, items[i], depth + 1)))
      case _ => node
  }

  /** The inliner warns about reference `w`: it meets it and cannot resolve it. */
  ghost predicate Warns(root: Doc, node: Doc, depth: nat, w: string)
    decreases MAX_DEPTH + 1 - depth
  {
    if depth > MAX_DEPTH then false
    else if IsRef(node) then
      match Target(root, node)
      case Some(t) => Warns(root, t, depth + 1, w)
      case None => w == node.fields["$ref"].text
    else
      match node
      case Obj(fields) => exists k :: k in fields && Warns(root, fields[k], depth + 1, w)
      case Arr(items) => exists i :: 0 <= i < |items| && Warns(root, items[i], depth + 1, w)
      case _ => false
  }

  /** `inlineRefs`, filling its output maps and slices entry by entry; a warning is recorded by its reference. */
  method InlineDoc(root: Doc, node: Doc, depth: nat) returns (out: Doc, warnings: seq<string>)
    ensures out == Inline(root, node, depth)
    ensures forall w :: w in warnings <==> Warns(root, node, depth, w)
    decreases MAX_DEPTH + 1 - depth, 1
  {
    if depth > MAX_DEPTH {
      return Empty, [];
    }
    if IsRef(node) {
      var ref := node.fields["$ref"].text;
      var target := ResolvePointer(root, ref);
      if target.None? {
        return Empty, [ref];
      }
      out, warnings := InlineDoc(root, target.value, depth + 1);
      return;
    }
    match node {
      case Obj(fields) => out, warnings := InlineFields(root, fields, depth);
      case Arr(items) => out, warnings := InlineItems(root, items, depth);
      case _ => return node, [];
    }
  }

  method InlineFields(root: Doc, fields: map<string, Doc>, depth: nat) returns (out: Doc, warnings: seq<string>)
    requires depth <= MAX_DEPTH && !IsRef(Obj(fields))
    ensures out == Inline(root, Obj(fields), depth)
    ensures forall w :: w in warnings <==> Warns(root, Obj(fields), depth, w)
    decreases MAX_DEPTH + 1 - depth, 0
  {
    var done: map<string, Doc>, rest := map[], fields.Keys;
    warnings := [];
    while rest != {}
      invariant rest <= fields.Keys && done.Keys == fields.Keys - rest
      invariant forall k | k in done :: done[k] == Inline(root, fields[k], depth + 1)
      invariant forall w :: w in warnings <==> exists k :: k in done && Warns(root, fields[k], depth + 1, w)
      decreases rest
    {
      var k :| k in rest;
      var v, more := InlineDoc(root, fields[k], depth + 1);
      done := done[k := v];
      rest := rest - {k};
      warnings := warnings + more;
    }
    assert done == Inline(root, Obj(fields), depth).fields;
    out := Obj(done);
  }

  method InlineItems(root: Doc, items: seq<Doc>, depth: nat) returns (out: Doc, warnings: seq<string>)
    requires depth <= MAX_DEPTH
    ensures out == Inline(root, Arr(items), depth)
    ensures forall w :: w in warnings <==> Warns(root, Arr(items), depth, w)
    decreases MAX_DEPTH + 1 - depth, 0
  {
    var done := [];
    warnings := [];
    for i := 0 to |items|
      invariant |done| == i
      invariant forall j | 0 <= j < i :: done[j] == Inline(root, items[j], depth + 1)
      invariant forall w :: w in warnings <==> exists j :: 0 <= j < i && Warns(root, items[j], depth + 1, w)
    {
      var v, more := InlineDoc(root, items[i], depth + 1);
      done := done + [v];
      warnings := warnings + more;
    }
    out := Arr(done);
  }

  // Size of the result

  predicate HeightAtMost(doc: Doc, n: nat)
    decreases n
  {
    match doc
    case Obj(fields) => forall k | k in fields :: n > 0 && HeightAtMost(fields[k], n - 1)
    case Arr(items) => forall i | 0 <= i < |items| :: n > 0 && HeightAtMost(items[i], n - 1)
    case _ => true
  }

  lemma {:induction false} HeightMonotone(doc: Doc, n: nat)
    requires HeightAtMost(doc, n)
    ensures HeightAtMost(doc, n + 1)
    decreases n
  {
    match doc {
      case Obj(fields) =>
        forall k | k in fields ensures HeightAtMost(fields[k], n) { HeightMonotone(fields[k], n - 1); }
      case Arr(items) =>
        forall i | 0 <= i < |items| ensures HeightAtMost(items[i], n) { HeightMonotone(items[i], n - 1); }
      case _ =>
    }
  }

  /** However the document refers to itself, the result is at most thirteen levels high. */
  lemma {:induction false} InlineHeight(root: Doc, node: Doc, depth: nat)
    requires depth <= MAX_DEPTH + 1
    ensures HeightAtMost(Inline(root, node, depth), MAX_DEPTH + 1 - depth)
    decreases MAX_DEPTH + 1 - depth, 1
  {
    if depth <= MAX_DEPTH {
      if IsRef(node) {
        if Target(root, node).Some? {
          var t := Target(root, node).value;
          InlineHeight(root, t, depth + 1);
          HeightMonotone(Inline(root, t, depth + 1), MAX_DEPTH - depth);
        }
      } else if node.Obj? {
        FieldsHeight(root, node, depth);
      } else if node.Arr? {
        ItemsHeight(root, node, depth);
      }
    }
  }

  lemma {:induction false} FieldsHeight(root: Doc, node: Doc, depth: nat)
    requires depth <= MAX_DEPTH && !IsRef(node) && node.Obj?
    ensures HeightAtMost(Inline(root, node, depth), MAX_DEPTH + 1 - depth)
    decreases MAX_DEPTH + 1 - depth, 0
  {
    var out := Inline(root, node, depth);
    forall k | k in out.fields ensures HeightAtMost(out.fields[k], MAX_DEPTH - depth) {
      InlineHeight(root, node.fields[k], depth + 1);
    }
  }

  lemma {:induction false} ItemsHeight(root: Doc, node: Doc, depth: nat)
    requires depth <= MAX_DEPTH && node.Arr?
    ensures HeightAtMost(Inline(root, node, depth), MAX_DEPTH + 1 - depth)
    decreases MAX_DEPTH + 1 - depth, 0
  {
    var out := Inline(root, node, depth);
    forall i | 0 <= i < |out.items| ensures HeightAtMost(out.items[i], MAX_DEPTH - depth) {
      InlineHeight(root, node.items[i], depth + 1);
    }
  }

  // No reference is left

  predicate NoRefKey(doc: Doc) {
    match doc
    case Obj(fields) => "$ref" !in fields && forall k | k in fields :: NoRefKey(fields[k])
    case Arr(items) => forall i | 0 <= i < |items| :: NoRefKey(items[i])
    case _ => true
  }

  predicate RefsAreStrings(doc: Doc) {
    match doc
    case Obj(fields) =>
      ("$ref" in fields ==> fields["$ref"].Str?) && forall k | k in fields :: RefsAreStrings(fields[k])
    case Arr(items) => forall i | 0 <= i < |items| :: RefsAreStrings(items[i])
    case _ => true
  }

  lemma {:induction false} StringRefsInside(doc: Doc, path: seq<Hop>)
    requires RefsAreStrings(doc) && HasPath(doc, path)
    ensures RefsAreStrings(NodeAt(doc, path))
    decreases path
  {
    if path != [] {
      match path[0] {
        case Key(k) => StringRefsInside(doc.fields[k], path[1..]);
        case Index(i) => StringRefsInside(doc.items[i], path[1..]);
      }
    }
  }

  lemma {:induction false} InlineLeavesNoRef(root: Doc, node: Doc, depth: nat)
    requires RefsAreStrings(root) && RefsAreStrings(node)
    ensures NoRefKey(Inline(root, node, depth))
    decreases MAX_DEPTH + 1 - depth
  {
    if depth <= MAX_DEPTH {
      if IsRef(node) {
        match Target(root, node) {
          case Some(t) =>
            PointeeIsInside(root, node.fields["$ref"].text);
            var path :| HasPath(root, path) && NodeAt(root, path) == t;
            StringRefsInside(root, path);
            InlineLeavesNoRef(root, t, depth + 1);
          case None =>
        }
      } else {
        match node {
          case Obj(fields) =>
            forall k | k in fields { InlineLeavesNoRef(root, fields[k], depth + 1); }
          case Arr(items) =>
            forall i | 0 <= i < |items| { InlineLeavesNoRef(root, items[i], depth + 1); }
          case _ =>
        }
      }
    }
  }

  /** A document with a reference that is no string has a node whose inlining keeps it. */
  lemma {:induction false} OddRefSurvives(doc: Doc) returns (path: seq<Hop>)
    requires !RefsAreStrings(doc)
    ensures HasPath(doc, path)
    ensures var n := NodeAt(doc, path); n.Obj? && "$ref" in n.fields && !n.fields["$ref"].Str?
    decreases doc
  {
    if doc.Obj? && "$ref" in doc.fields && !doc.fields["$ref"].Str? {
      path := [];
    } else if doc.Obj? {
      var k :| k in doc.fields && !RefsAreStrings(doc.fields[k]);
      var rest := OddRefSurvives(doc.fields[k]);
      path := [Key(k)] + rest;
      assert path[1..] == rest;
    } else {
      var i: nat :| i < |doc.items| && !RefsAreStrings(doc.items[i]);
      var rest := OddRefSurvives(doc.items[i]);
      path := [Index(i)] + rest;
      assert path[1..] == rest;
    }
  }

  /** Inlining clears every node of a document of `$ref` keys exactly when all its `$ref` values are strings. */
  lemma NoRefLeftIffAllStrings(root: Doc)
    ensures RefsAreStrings(root) <==>
            forall path | HasPath(root, path) :: NoRefKey(Inline(root, NodeAt(root, path), 0))
  {
    if RefsAreStrings(root) {
      forall path | HasPath(root, path) ensures NoRefKey(Inline(root, NodeAt(root, path), 0)) {
        StringRefsInside(root, path);
        InlineLeavesNoRef(root, NodeAt(root, path), 0);
      }
    } else {
      var path := OddRefSurvives(root);
      assert "$ref" in Inline(root, NodeAt(root, path), 0).fields;
    }
  }

  // Against the unbounded meaning

  /** `out` is `node` with every reference followed all the way, in a derivation at most `n` steps high. */
  ghost predicate UnfoldsWithin(root: Doc, node: Doc, out: Doc, n: nat)
    decreases n
  {
    if IsRef(node) then
      match Target(root, node)
      case Some(t) => n > 0 && UnfoldsWithin(root, t, out, n - 1)
      case None => out == Empty
    else
      match node
      case Obj(fields) =>
        && out.Obj? && out.fields.Keys == fields.Keys
        && forall k | k in fields :: n > 0 && UnfoldsWithin(root, fields[k], out.fields[k], n - 1)
      case Arr(items) =>
        && out.Arr? && |out.items| == |items|
        && forall i | 0 <= i < |items| :: n > 0 && UnfoldsWithin(root, items[i], out.items[i], n - 1)
      case _ => out == node
  }

  ghost predicate Unfolds(root: Doc, node: Doc, out: Doc) {
    exists n: nat :: UnfoldsWithin(root, node, out, n)
  }

  lemma {:induction false} UnfoldingUnique(root: Doc, node: Doc, a: Doc, m: nat, b: Doc, n: nat)
    requires UnfoldsWithin(root, node, a, m) && UnfoldsWithin(root, node, b, n)
    ensures a == b
    decreases m
  {
    if IsRef(node) {
      match Target(root, node) {
        case Some(t) => UnfoldingUnique(root, t, a, m - 1, b, n - 1);
        case None =>
      }
    } else {
      match node {
        case Obj(fields) =>
          forall k | k in fields ensures a.fields[k] == b.fields[k] {
            UnfoldingUnique(root, fields[k], a.fields[k], m - 1, b.fields[k], n - 1);
          }
          assert a.fields == b.fields;
        case Arr(items) =>
          forall i | 0 <= i < |items| ensures a.items[i] == b.items[i] {
            UnfoldingUnique(root, items[i], a.items[i], m - 1, b.items[i], n - 1);
          }
          assert a.items == b.items;
        case _ =>
      }
    }
  }

  /** Everything met below the depth limit unfolds to an empty object, which is what the inliner puts there. */
  ghost predicate CutsHarmless(root: Doc, node: Doc, depth: nat)
    decreases MAX_DEPTH + 1 - depth
  {
    if depth > MAX_DEPTH then Unfolds(root, node, Empty)
    else if IsRef(node) then
      match Target(root, node)
      case Some(t) => CutsHarmless(root, t, depth + 1)
      case None => true
    else
      match node
      case Obj(fields) => forall k | k in fields :: CutsHarmless(root, fields[k], depth + 1)
      case Arr(items) => forall i | 0 <= i < |items| :: CutsHarmless(root, items[i], depth + 1)
      case _ => true
  }

  /** Whenever a node has an unfolding at all, inlining gives it exactly when its cuts are harmless. */
  lemma {:induction false} InlineIsUnfoldingIffCutsHarmless(root: Doc, node: Doc, out: Doc, n: nat, depth: nat)
    requires UnfoldsWithin(root, node, out, n)
    ensures Inline(root, node, depth) == out <==> CutsHarmless(root, node, depth)
    decreases n, 1
  {
    if depth > MAX_DEPTH {
      if Unfolds(root, node, Empty) {
        var m: nat :| UnfoldsWithin(root, node, Empty, m);
        UnfoldingUnique(root, node, out, n, Empty, m);
      }
    } else if IsRef(node) {
      match Target(root, node) {
        case Some(t) => InlineIsUnfoldingIffCutsHarmless(root, t, out, n - 1, depth + 1);
        case None =>
      }
    } else {
      match node {
        case Obj(fields) => ObjectIff(root, node, out, n, depth);
        case Arr(items) => ArrayIff(root, node, out, n, depth);
        case _ =>
      }
    }
  }

  lemma {:induction false} ObjectIff(root: Doc, node: Doc, out: Doc, n: nat, depth: nat)
    requires UnfoldsWithin(root, node, out, n) && depth <= MAX_DEPTH && !IsRef(node) && node.Obj?
    ensures Inline(root, node, depth) == out <==> CutsHarmless(root, node, depth)
    decreases n, 0
  {
    forall k | k in node.fields
      ensures Inline(root, node.fields[k], depth + 1) == out.fields[k] <==>
              CutsHarmless(root, node.fields[k], depth + 1)
    {
      InlineIsUnfoldingIffCutsHarmless(root, node.fields[k], out.fields[k], n - 1, depth + 1);
    }
    ObjectCuts(root, node, out, depth);
  }

  lemma {:induction false} ArrayIff(root: Doc, node: Doc, out: Doc, n: nat, depth: nat)
    requires UnfoldsWithin(root, node, out, n) && depth <= MAX_DEPTH && node.Arr?
    ensures Inline(root, node, depth) == out <==> CutsHarmless(root, node, depth)
    decreases n, 0
  {
    forall i | 0 <= i < |node.items|
      ensures Inline(root, node.items[i], depth + 1) == out.items[i] <==> CutsHarmless(root, node.items[i], depth + 1)
    {
      InlineIsUnfoldingIffCutsHarmless(root, node.items[i], out.items[i], n - 1, depth + 1);
    }
    ArrayCuts(root, node, out, depth);
  }

  lemma {:induction false} FittingCutsHarmless(root: Doc, node: Doc, out: Doc, n: nat, depth: nat)
    requires UnfoldsWithin(root, node, out, n) && depth + n <= MAX_DEPTH
    ensures CutsHarmless(root, node, depth)
    decreases n, 1
  {
    if IsRef(node) {
      if Target(root, node).Some? {
        FittingCutsHarmless(root, Target(root, node).value, out, n - 1, depth + 1);
      }
    } else if node.Obj? {
      FittingFieldsHarmless(root, node, out, n, depth);
    } else if node.Arr? {
      FittingItemsHarmless(root, node, out, n, depth);
    }
  }

  lemma {:induction false} FittingFieldsHarmless(root: Doc, node: Doc, out: Doc, n: nat, depth: nat)
    requires UnfoldsWithin(root, node, out, n) && depth + n <= MAX_DEPTH && !IsRef(node) && node.Obj?
    ensures CutsHarmless(root, node, depth)
    decreases n, 0
  {
    forall k | k in node.fields ensures CutsHarmless(root, node.fields[k], depth + 1) {
      FittingCutsHarmless(root, node.fields[k], out.fields[k], n - 1, depth + 1);
    }
  }

  lemma {:induction false} FittingItemsHarmless(root: Doc, node: Doc, out: Doc, n: nat, depth: nat)
    requires UnfoldsWithin(root, node, out, n) && depth + n <= MAX_DEPTH && node.Arr?
    ensures CutsHarmless(root, node, depth)
    decreases n, 0
  {
    forall i | 0 <= i < |node.items| ensures CutsHarmless(root, node.items[i], depth + 1) {
      FittingCutsHarmless(root, node.items[i], out.items[i], n - 1, depth + 1);
    }
  }

  /** When the unfolding fits the depth limit, inlining gives exactly it. */
  lemma InlineIsUnfolding(root: Doc, node: Doc, out: Doc, n: nat, depth: nat)
    requires UnfoldsWithin(root, node, out, n) && depth + n <= MAX_DEPTH
    ensures Inline(root, node, depth) == out
  {
    FittingCutsHarmless(root, node, out, n, depth);
    InlineIsUnfoldingIffCutsHarmless(root, node, out, n, depth);
  }

  lemma ObjectCuts(root: Doc, node: Doc, out: Doc, depth: nat)
    requires depth <= MAX_DEPTH && !IsRef(node) && node.Obj? && out.Obj? && out.fields.Keys == node.fields.Keys
    requires forall k | k in node.fields ::
               Inline(root, node.fields[k], depth + 1) == out.fields[k] <==>
                 CutsHarmless(root, node.fields[k], depth + 1)
    ensures Inline(root, node, depth) == out <==> CutsHarmless(root, node, depth)
  {
    var r := Inline(root, node, depth);
    if CutsHarmless(root, node, depth) {
      assert r.fields == out.fields;
    } else {
      var k :| k in node.fields && !CutsHarmless(root, node.fields[k], depth + 1);
      assert r.fields[k] != out.fields[k];
    }
  }

  lemma ArrayCuts(root: Doc, node: Doc, out: Doc, depth: nat)
    requires depth <= MAX_DEPTH && node.Arr? && out.Arr? && |out.items| == |node.items|
    requires forall i | 0 <= i < |node.items| ::
               Inline(root, node.items[i], depth + 1) == out.items[i] <==> CutsHarmless(root, node.items[i], depth + 1)
    ensures Inline(root, node, depth) == out <==> CutsHarmless(root, node, depth)
  {
    var r := Inline(root, node, depth);
    if CutsHarmless(root, node, depth) {
      assert r.items == out.items;
    } else {
      var i :| 0 <= i < |node.items| && !CutsHarmless(root, node.items[i], depth + 1);
      assert r.items[i] != out.items[i];
    }
  }

  // Cycles

  /** One step of unfolding: from a reference to its target, from a container to a part. */
  ghost predicate Leads(root: Doc, a: Doc, b: Doc) {
    if IsRef(a) then Target(root, a) == Some(b)
    else
      match a
      case Obj(fields) => exists k :: k in fields && fields[k] == b
      case Arr(items) => b in items
      case _ => false
  }

  /** There are `n` steps to take from `node`. */
  ghost predicate Walk(root: Doc, node: Doc, n: nat)
    decreases n
  {
    n == 0 || exists b :: Leads(root, node, b) && Walk(root, b, n - 1)
  }

  /** `n` steps lead from `a` to `b`. */
  ghost predicate Reaches(root: Doc, a: Doc, b: Doc, n: nat)
    decreases n
  {
    if n == 0 then a == b else exists c :: Leads(root, a, c) && Reaches(root, c, b, n - 1)
  }

  /** `node` unfolded for `n` steps. */
  ghost function UnfoldFor(root: Doc, node: Doc, n: nat): Doc
    decreases n
  {
    if IsRef(node) then
      match Target(root, node)
      case Some(t) => if n == 0 then Empty else UnfoldFor(root, t, n - 1)
      case None => Empty
    else
      match node
      case Obj(fields) => Obj(map k | k in fields :: if n == 0 then Empty else UnfoldFor(root, fields[k], n - 1))
      case Arr(items) =>
        Arr(seq(|items|, i requires 0 <= i < |items| => if n == 0 then Empty else UnfoldFor(root, items[i], n - 1)))
      case _ => node
  }

  lemma {:induction false} UnfoldedNodesStop(root: Doc, node: Doc, out: Doc, n: nat)
    requires UnfoldsWithin(root, node, out, n)
    ensures !Walk(root, node, n + 1)
    decreases n
  {
    forall b | Leads(root, node, b) ensures !Walk(root, b, n) {
      if IsRef(node) {
        UnfoldedNodesStop(root, b, out, n - 1);
      } else if node.Obj? {
        var k :| k in node.fields && node.fields[k] == b;
        UnfoldedNodesStop(root, b, out.fields[k], n - 1);
      } else {
        var i :| 0 <= i < |node.items| && node.items[i] == b;
        UnfoldedNodesStop(root, b, out.items[i], n - 1);
      }
    }
  }

  lemma {:induction false} StoppedNodesUnfold(root: Doc, node: Doc, n: nat)
    requires !Walk(root, node, n + 1)
    ensures UnfoldsWithin(root, node, UnfoldFor(root, node, n), n)
    decreases n
  {
    forall b | Leads(root, node, b) ensures n > 0 && UnfoldsWithin(root, b, UnfoldFor(root, b, n - 1), n - 1) {
      assert !Walk(root, b, n);
      StoppedNodesUnfold(root, b, n - 1);
    }
    if IsRef(node) {
      assert Target(root, node).Some? ==> Leads(root, node, Target(root, node).value);
    } else {
      match node {
        case Obj(fields) =>
          assert forall k | k in fields :: Leads(root, node, fields[k]);
        case Arr(items) =>
          assert forall i | 0 <= i < |items| :: Leads(root, node, items[i]);
        case _ =>
      }
    }
  }

  ghost predicate Unfoldable(root: Doc, node: Doc, n: nat) {
    exists out :: UnfoldsWithin(root, node, out, n)
  }

  /** A node has an unfolding of height `n` exactly when no walk from it takes more than `n` steps. */
  lemma UnfoldableIffWalksEnd(root: Doc, node: Doc, n: nat)
    ensures Unfoldable(root, node, n) <==> !Walk(root, node, n + 1)
  {
    if Unfoldable(root, node, n) {
      var out :| UnfoldsWithin(root, node, out, n);
      UnfoldedNodesStop(root, node, out, n);
    }
    if !Walk(root, node, n + 1) {
      StoppedNodesUnfold(root, node, n);
    }
  }

  lemma {:induction false} WalkThrough(root: Doc, a: Doc, b: Doc, n: nat, m: nat)
    requires Reaches(root, a, b, n) && Walk(root, b, m)
    ensures Walk(root, a, n + m)
    decreases n
  {
    if n > 0 {
      var c :| Leads(root, a, c) && Reaches(root, c, b, n - 1);
      WalkThrough(root, c, b, n - 1, m);
    }
  }

  lemma {:induction false} WalkShorter(root: Doc, node: Doc, n: nat, m: nat)
    requires Walk(root, node, n) && m <= n
    ensures Walk(root, node, m)
    decreases n
  {
    if m > 0 {
      var b :| Leads(root, node, b) && Walk(root, b, n - 1);
      WalkShorter(root, b, n - 1, m - 1);
    }
  }

  lemma {:induction false} CycleWalksOn(root: Doc, node: Doc, n: nat, m: nat)
    requires n > 0 && Reaches(root, node, node, n)
    ensures Walk(root, node, m)
    decreases m
  {
    if m > 0 {
      CycleWalksOn(root, node, n, m - 1);
      WalkThrough(root, node, node, n, m - 1);
      WalkShorter(root, node, n + m - 1, m);
    }
  }

  /** A node from which references and parts lead into a cycle, of whatever length, has no unfolding. */
  lemma CyclesHaveNoUnfolding(root: Doc, node: Doc, knot: Doc, d: nat, n: nat, out: Doc)
    requires Reaches(root, node, knot, d) && n > 0 && Reaches(root, knot, knot, n)
    ensures !Unfolds(root, node, out)
  {
    forall h: nat ensures !UnfoldsWithin(root, node, out, h) {
      WalksIntoCycle(root, node, knot, d, n, h + 1);
      if UnfoldsWithin(root, node, out, h) {
        UnfoldedNodesStop(root, node, out, h);
      }
    }
  }

  lemma WalksIntoCycle(root: Doc, node: Doc, knot: Doc, d: nat, n: nat, m: nat)
    requires Reaches(root, node, knot, d) && n > 0 && Reaches(root, knot, knot, n)
    ensures Walk(root, node, m)
  {
    CycleWalksOn(root, knot, n, m);
    WalkThrough(root, node, knot, d, m);
    WalkShorter(root, node, d + m, m);
  }

  // A document has finitely many nodes, so endless walks come back to one

  /** The nodes of a document, itself included. */
  ghost function Nodes(doc: Doc): set<Doc> {
    match doc
    case Obj(fields) => {doc} + set k, n | k in fields && n in Nodes(fields[k]) :: n
    case Arr(items) => {doc} + set i, n | 0 <= i < |items| && n in Nodes(items[i]) :: n
    case _ => {doc}
  }

  /** A part of a node is a node too. */
  lemma {:induction false} PartsAreNodes(doc: Doc, a: Doc, b: Doc)
    requires a in Nodes(doc)
    requires (a.Obj? && exists k :: k in a.fields && a.fields[k] == b) || (a.Arr? && b in a.items)
    ensures b in Nodes(doc)
    decreases doc
  {
    if a == doc {
      assert b in Nodes(b);
    } else if doc.Obj? {
      var k :| k in doc.fields && a in Nodes(doc.fields[k]);
      PartsAreNodes(doc.fields[k], a, b);
    } else {
      var i :| 0 <= i < |doc.items| && a in Nodes(doc.items[i]);
      PartsAreNodes(doc.items[i], a, b);
    }
  }

  lemma {:induction false} PathsLeadToNodes(doc: Doc, path: seq<Hop>)
    requires HasPath(doc, path)
    ensures NodeAt(doc, path) in Nodes(doc)
    decreases path
  {
    if path != [] {
      match path[0] {
        case Key(k) => PathsLeadToNodes(doc.fields[k], path[1..]);
        case Index(i) => PathsLeadToNodes(doc.items[i], path[1..]);
      }
    }
  }

  /** Everything one may meet from `node` on. */
  ghost function Field(root: Doc, node: Doc): set<Doc> {
    Nodes(node) + Nodes(root)
  }

  lemma StepStaysInField(root: Doc, node: Doc, a: Doc, b: Doc)
    requires a in Field(root, node) && Leads(root, a, b)
    ensures b in Field(root, node)
  {
    if IsRef(a) {
      PointeeIsInside(root, a.fields["$ref"].text);
      var path :| HasPath(root, path) && NodeAt(root, path) == b;
      PathsLeadToNodes(root, path);
    } else if a in Nodes(node) {
      PartsAreNodes(node, a, b);
    } else {
      PartsAreNodes(root, a, b);
    }
  }

  /** `p` lists the nodes of a walk. */
  ghost predicate Trail(root: Doc, p: seq<Doc>) {
    p != [] && forall i | 0 <= i < |p| - 1 :: Leads(root, p[i], p[i + 1])
  }

  lemma {:induction false} WalkLeavesTrail(root: Doc, node: Doc, n: nat) returns (p: seq<Doc>)
    requires Walk(root, node, n)
    ensures Trail(root, p) && |p| == n + 1 && p[0] == node
    decreases n
  {
    p := [node];
    if n > 0 {
      var b :| Leads(root, node, b) && Walk(root, b, n - 1);
      var rest := WalkLeavesTrail(root, b, n - 1);
      p := [node] + rest;
      forall i | 0 <= i < |p| - 1 ensures Leads(root, p[i], p[i + 1]) {
        assert p[i + 1] == rest[i];
      }
    }
  }

  lemma {:induction false} TrailStaysInField(root: Doc, node: Doc, p: seq<Doc>, i: nat)
    requires Trail(root, p) && p[0] == node && i < |p|
    ensures p[i] in Field(root, node)
    decreases i
  {
    if i > 0 {
      TrailStaysInField(root, node, p, i - 1);
      StepStaysInField(root, node, p[i - 1], p[i]);
    }
  }

  lemma {:induction false} TrailReaches(root: Doc, p: seq<Doc>, i: nat, j: nat)
    requires Trail(root, p) && i <= j < |p|
    ensures Reaches(root, p[i], p[j], j - i)
    decreases j - i
  {
    if i < j {
      TrailReaches(root, p, i + 1, j);
    }
  }

  lemma {:induction false} DistinctFit(p: seq<Doc>, nodes: set<Doc>)
    requires forall i | 0 <= i < |p| :: p[i] in nodes
    requires forall i, j | 0 <= i < j < |p| :: p[i] != p[j]
    ensures |p| <= |nodes|
    decreases p
  {
    if p != [] {
      var n := |p| - 1;
      DistinctFit(p[..n], nodes - {p[n]});
    }
  }

  /** References and parts lead from `node` into a cycle. */
  ghost predicate Cyclic(root: Doc, node: Doc) {
    exists knot, d: nat, n: nat :: Knot(root, node, knot, d, n)
  }

  ghost predicate Knot(root: Doc, node: Doc, knot: Doc, d: nat, n: nat) {
    n > 0 && Reaches(root, node, knot, d) && Reaches(root, knot, knot, n)
  }

  lemma LongWalkIsCyclic(root: Doc, node: Doc, n: nat)
    requires Walk(root, node, n) && n >= |Field(root, node)|
    ensures Cyclic(root, node)
  {
    var p := WalkLeavesTrail(root, node, n);
    forall i | 0 <= i < |p| ensures p[i] in Field(root, node) {
      TrailStaysInField(root, node, p, i);
    }
    if forall i, j | 0 <= i < j < |p| :: p[i] != p[j] {
      DistinctFit(p, Field(root, node));
    }
    var i, j :| 0 <= i < j < |p| && p[i] == p[j];
    TrailReaches(root, p, 0, i);
    TrailReaches(root, p, i, j);
    assert Knot(root, node, p[i], i, j - i);
  }

  /** A node has an unfolding exactly when no cycle can be reached from it. */
  lemma UnfoldsIffAcyclic(root: Doc, node: Doc)
    ensures (exists out :: Unfolds(root, node, out)) <==> !Cyclic(root, node)
  {
    if Cyclic(root, node) {
      var knot, d: nat, n: nat :| Knot(root, node, knot, d, n);
      forall out ensures !Unfolds(root, node, out) {
        CyclesHaveNoUnfolding(root, node, knot, d, n, out);
      }
    } else {
      var n := |Field(root, node)|;
      UnfoldableIffWalksEnd(root, node, n);
      if Walk(root, node, n + 1) {
        LongWalkIsCyclic(root, node, n + 1);
      }
      var out :| UnfoldsWithin(root, node, out, n);
      assert Unfolds(root, node, out);
    }
  }

  /** `n` references in a row, each to the next. */
  ghost predicate RefChain(root: Doc, node: Doc, n: nat)
    decreases n
  {
    n == 0 || (IsRef(node) && Target(root, node).Some? && RefChain(root, Target(root, node).value, n - 1))
  }

  /** References that lead only to references past the limit, as those of a cycle do, end as an empty object. */
  lemma {:induction false} EndlessReferencesAreEmpty(root: Doc, node: Doc, depth: nat)
    requires depth <= MAX_DEPTH + 1 && RefChain(root, node, MAX_DEPTH + 1 - depth)
    ensures Inline(root, node, depth) == Empty
    decreases MAX_DEPTH + 1 - depth
  {
    if depth <= MAX_DEPTH {
      EndlessReferencesAreEmpty(root, Target(root, node).value, depth + 1);
    }
  }

  // Warnings

  /** A dangling reference `w` stands at most `n` steps from `node`. */
  ghost predicate DanglesWithin(root: Doc, node: Doc, w: string, n: int) {
    exists m, d: nat :: d <= n && Reaches(root, node, m, d) && Dangling(root, m, w)
  }

  predicate Dangling(root: Doc, m: Doc, w: string) {
    IsRef(m) && m.fields["$ref"].text == w && Pointee(root, w).None?
  }

  lemma DanglesThrough(root: Doc, a: Doc, b: Doc, w: string, n: int)
    requires Leads(root, a, b) && DanglesWithin(root, b, w, n - 1)
    ensures DanglesWithin(root, a, w, n)
  {
    var m, d: nat :| d <= n - 1 && Reaches(root, b, m, d) && Dangling(root, m, w);
    assert Reaches(root, a, m, d + 1);
  }

  lemma {:induction false} WarningsDangle(root: Doc, node: Doc, depth: nat, w: string)
    requires Warns(root, node, depth, w)
    ensures DanglesWithin(root, node, w, MAX_DEPTH - depth)
    decreases MAX_DEPTH + 1 - depth
  {
    if IsRef(node) {
      match Target(root, node) {
        case None =>
          assert Reaches(root, node, node, 0) && Dangling(root, node, w);
        case Some(t) =>
          WarningsDangle(root, t, depth + 1, w);
          DanglesThrough(root, node, t, w, MAX_DEPTH - depth);
      }
    } else if node.Obj? {
      var k :| k in node.fields && Warns(root, node.fields[k], depth + 1, w);
      WarningsDangle(root, node.fields[k], depth + 1, w);
      DanglesThrough(root, node, node.fields[k], w, MAX_DEPTH - depth);
    } else {
      var i :| 0 <= i < |node.items| && Warns(root, node.items[i], depth + 1, w);
      WarningsDangle(root, node.items[i], depth + 1, w);
      DanglesThrough(root, node, node.items[i], w, MAX_DEPTH - depth);
    }
  }

  lemma WarnsThrough(root: Doc, a: Doc, b: Doc, depth: nat, w: string)
    requires depth <= MAX_DEPTH && Leads(root, a, b) && Warns(root, b, depth + 1, w)
    ensures Warns(root, a, depth, w)
  {
    if !IsRef(a) && a.Arr? {
      var i :| 0 <= i < |a.items| && a.items[i] == b;
      assert Warns(root, a.items[i], depth + 1, w);
    }
  }

  lemma {:induction false} DanglingIsWarned(root: Doc, node: Doc, depth: nat, w: string, m: Doc, d: nat)
    requires Reaches(root, node, m, d) && Dangling(root, m, w) && depth + d <= MAX_DEPTH
    ensures Warns(root, node, depth, w)
    decreases d
  {
    if d == 0 {
      DanglingWarns(root, node, depth, w);
    } else {
      var c :| Leads(root, node, c) && Reaches(root, c, m, d - 1);
      DanglingIsWarned(root, c, depth + 1, w, m, d - 1);
      WarnsThrough(root, node, c, depth, w);
    }
  }

  lemma DanglingWarns(root: Doc, node: Doc, depth: nat, w: string)
    requires Dangling(root, node, w) && depth <= MAX_DEPTH
    ensures Warns(root, node, depth, w)
  {
  }

  /** The inliner warns about exactly the references that dangle within the depth limit. */
  lemma WarnedIffDangling(root: Doc, node: Doc, depth: nat, w: string)
    ensures Warns(root, node, depth, w) <==> DanglesWithin(root, node, w, MAX_DEPTH - depth)
  {
    if Warns(root, node, depth, w) {
      WarningsDangle(root, node, depth, w);
    }
    if DanglesWithin(root, node, w, MAX_DEPTH - depth) {
      var m, d: nat :| d <= MAX_DEPTH - depth && Reaches(root, node, m, d) && Dangling(root, m, w);
      DanglingIsWarned(root, node, depth, w, m, d);
    }
  }
}
