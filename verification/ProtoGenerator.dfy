/**
 Mock generation from a `.proto` file: fresh mock ids, and example responses
 for message types that may contain each other in cycles.
 */
module ProtoGenerator {
  import opened Options
  import opened Text
  import opened JsonPointer
  import opened InlineRefs

  // Fresh ids

  function FirstChoice(base: string): string {
    if base == "" then "mock" else base
  }

  function Numbered(base: string, n: nat): string {
    base + "-" + Decimal(n)
  }

  lemma NumberedInjective(base: string, m: nat, n: nat)
    requires Numbered(base, m) == Numbered(base, n)
    ensures m == n
  {
    assert Numbered(base, m)[|base| + 1..] == Decimal(m);
    assert Numbered(base, n)[|base| + 1..] == Decimal(n);
    DecimalRoundTrip(m);
    DecimalRoundTrip(n);
  }

  predicate AllTaken(used: set<string>, base: string, n: int) {
    forall k: nat | 2 <= k < n :: Numbered(base, k) in used
  }

  /** The first free one of: the name itself, then the name with 2, 3, ... appended. */
  ghost predicate FirstFree(used: set<string>, base: string, id: string) {
    && id !in used
    && (id == FirstChoice(base) ||
        (FirstChoice(base) in used &&
         exists n: nat :: n >= 2 && id == Numbered(base, n) && AllTaken(used, base, n)))
  }

  class IdSource {
    var used: set<string>

    constructor ()
      ensures used == {}
    {
      used := {};
    }

    /** `uniqueID`. It ends because no more numbered ids can be taken than there are used ones. */
    method UniqueId(base: string) returns (id: string)
      modifies this
      ensures FirstFree(old(used), base, id)
      ensures used == old(used) + {id}
    {
      id := FirstChoice(base);
      var n := 2;
      while id in used
        invariant used == old(used) && n >= 2
        invariant if n == 2 then id == FirstChoice(base) else id == Numbered(base, n - 1) && FirstChoice(base) in used
        invariant AllTaken(used, base, n - 1)
        decreases |used| + 2 - n
      {
        Pigeonhole(used, base, n);
        id := Numbered(base, n);
        n := n + 1;
      }
      used := used + {id};
    }
  }

  /** Since the numbered names differ, no more of them can be taken than there are names taken. */
  lemma {:induction false} Pigeonhole(used: set<string>, base: string, n: nat)
    requires n >= 2 && AllTaken(used, base, n)
    ensures n - 2 <= |used|
    decreases n
  {
    if n > 2 {
      var last := Numbered(base, n - 1);
      forall k: nat | 2 <= k < n - 1 ensures Numbered(base, k) != last {
        if Numbered(base, k) == last {
          NumberedInjective(base, k, n - 1);
        }
      }
      Pigeonhole(used - {last}, base, n - 1);
    }
  }

  /** All ids handed out over a run are distinct, whatever names come in. */
  method HandOut(bases: seq<string>) returns (ids: seq<string>)
    ensures |ids| == |bases|
    ensures forall i, j | 0 <= i < j < |ids| :: ids[i] != ids[j]
  {
    var source := new IdSource();
    ids := [];
    for i := 0 to |bases|
      invariant fresh(source) && |ids| == i
      invariant forall id :: id in ids <==> id in source.used
      invariant forall a, b | 0 <= a < b < |ids| :: ids[a] != ids[b]
    {
      var id := source.UniqueId(bases[i]);
      assert id !in ids;
      ids := ids + [id];
    }
  }

  // Example responses

  const MAX_MESSAGE_DEPTH := 8

  datatype Kind = MessageKind(name: string) | ScalarKind(example: Doc)

  datatype Shape = Single | Repeated | MapOf

  datatype Oneof = Oneof(name: string, synthetic: bool)

  datatype Field = Field(kind: Kind, shape: Shape, oneof: Option<Oneof>) {
    /** A member of a oneof the author wrote, not of one made up for `optional`. */
    predicate InOneof(name: string) {
      oneof.Some? && !oneof.value.synthetic && oneof.value.name == name
    }

    predicate Free() {
      oneof.None? || oneof.value.synthetic
    }
  }

  type Fields = map<string, Field>

  /** The message types of a file, and the fixed examples of well-known types. */
  datatype Schema = Schema(messages: map<string, Fields>, wellKnown: map<string, Doc>) {
    function FieldsOf(name: string): Fields {
      if name in messages then messages[name] else map[]
    }
  }

  /** A field appears in the example if it is free, or the least-named of its oneof. */
  ghost predicate Representative(fields: Fields, n: string) {
    && n in fields
    && (fields[n].Free() ||
        forall other | other in fields && fields[other].InOneof(fields[n].oneof.value.name) ::
          other == n || Less(n, other))
  }

  ghost function Representatives(fields: Fields): set<string> {
    set n | n in fields && Representative(fields, n)
  }

  ghost function BuildField(schema: Schema, f: Field, depth: nat): Doc
    decreases Budget(depth), 2
  {
    match f.shape
    case MapOf => Obj(map["key1" := BuildKind(schema, f.kind, depth + 1)])
    case Repeated => Arr([BuildKind(schema, f.kind, depth)])
    case Single => BuildKind(schema, f.kind, depth)
  }

  function Budget(depth: nat): nat {
    if depth > MAX_MESSAGE_DEPTH then 0 else MAX_MESSAGE_DEPTH + 1 - depth
  }

  ghost function BuildKind(schema: Schema, kind: Kind, depth: nat): Doc
    decreases Budget(depth), 1
  {
    match kind
    case MessageKind(name) => BuildMessage(schema, name, depth)
    case ScalarKind(example) => example
  }

  ghost function BuildMessage(schema: Schema, name: string, depth: nat): Doc
    decreases Budget(depth), 0
  {
    if depth > MAX_MESSAGE_DEPTH then Empty
    else if name in schema.wellKnown then schema.wellKnown[name]
    else BuildFields(schema, schema.FieldsOf(name), depth + 1)
  }

  ghost function BuildFields(schema: Schema, fields: Fields, depth: nat): Doc
    decreases Budget(depth), 3
  {
    Obj(map n | n in Representatives(fields) :: BuildField(schema, fields[n], depth))
  }

  /** The sorted walk of `buildMessageFieldsExample`, remembering the oneofs it has met. */
  method ChooseFields(fields: Fields) returns (chosen: set<string>)
    ensures chosen == Representatives(fields)
  {
    var seen: set<string>, rest := {}, fields.Keys;
    chosen := {};
    while rest != {}
      invariant rest <= fields.Keys
      invariant forall a, b | a in fields.Keys - rest && b in rest :: Less(a, b)
      invariant forall name :: name in seen <==> exists n :: n in fields.Keys - rest && fields[n].InOneof(name)
      invariant chosen == set n | n in fields.Keys - rest && Representative(fields, n)
      decreases rest
    {
      var n := Least(rest);
      ghost var walked := fields.Keys - rest;
      rest := rest - {n};
      assert fields.Keys - rest == walked + {n};
      var f := fields[n];
      if f.Free() {
        chosen := chosen + {n};
      } else if f.oneof.value.name in seen {
        assert !Representative(fields, n) by {
          var first :| first in walked && fields[first].InOneof(f.oneof.value.name);
          LessAsymmetric(first, n);
        }
      } else {
        seen := seen + {f.oneof.value.name};
        chosen := chosen + {n};
      }
    }
  }

  ghost predicate IsLeast(names: set<string>, least: string) {
    least in names && forall n | n in names :: n == least || Less(least, n)
  }

  /** The next name in sorted order. */
  method Least(names: set<string>) returns (least: string)
    requires names != {}
    ensures IsLeast(names, least)
  {
    least :| least in names;
    var rest := names - {least};
    while rest != {}
      invariant rest <= names && IsLeast(names - rest, least)
      decreases rest
    {
      var n :| n in rest;
      LessTotal(n, least);
      if Less(n, least) {
        BelowLeast(names - rest, n, least);
        least := n;
      }
      rest := rest - {n};
    }
  }

  lemma {:induction false} LeastExists(names: set<string>)
    requires names != {}
    ensures exists least :: IsLeast(names, least)
  {
    var x :| x in names;
    if names == {x} {
      assert IsLeast(names, x);
    } else {
      var others := names - {x};
      LeastExists(others);
      var y :| IsLeast(others, y);
      LessTotal(x, y);
      if Less(x, y) {
        BelowLeast(others, x, y);
        assert IsLeast(names, x);
      } else {
        assert IsLeast(names, y);
      }
    }
  }

  lemma BelowLeast(names: set<string>, x: string, least: string)
    requires IsLeast(names, least) && Less(x, least)
    ensures forall n | n in names :: Less(x, n)
  {
    forall n | n in names ensures Less(x, n) {
      if n != least {
        LessTransitive(x, least, n);
      }
    }
  }

  /** Exactly one field of every oneof that has any, and every free field, is in the example. */
  lemma OneFieldPerOneof(fields: Fields, name: string)
    requires exists n :: n in fields && fields[n].InOneof(name)
    ensures exists n :: n in Representatives(fields) && fields[n].InOneof(name)
    ensures forall a, b | a in Representatives(fields) && b in Representatives(fields)
                && fields[a].InOneof(name) && fields[b].InOneof(name) :: a == b
    ensures forall n | n in fields && fields[n].Free() :: n in Representatives(fields)
  {
    var members := set n | n in fields && fields[n].InOneof(name);
    var some :| some in fields && fields[some].InOneof(name);
    assert some in members;
    LeastExists(members);
    var least :| IsLeast(members, least);
    assert least in Representatives(fields);
    forall a, b | a in Representatives(fields) && b in Representatives(fields)
                && fields[a].InOneof(name) && fields[b].InOneof(name)
      ensures a == b
    {
      if a != b {
        LessAsymmetric(a, b);
      }
    }
  }

  // What an example looks like, told by its own structure

  /** A map has one key, a repeated field one element, any other field is the value itself. */
  ghost predicate FieldShown(schema: Schema, f: Field, doc: Doc, depth: nat)
    decreases doc, 2
  {
    match f.shape
    case MapOf =>
      doc.Obj? && doc.fields.Keys == {"key1"} && KindShown(schema, f.kind, doc.fields["key1"], depth + 1)
    case Repeated => doc.Arr? && |doc.items| == 1 && KindShown(schema, f.kind, doc.items[0], depth)
    case Single => KindShown(schema, f.kind, doc, depth)
  }

  ghost predicate KindShown(schema: Schema, kind: Kind, doc: Doc, depth: nat)
    decreases doc, 1
  {
    match kind
    case ScalarKind(example) => doc == example
    case MessageKind(name) =>
      if depth > MAX_MESSAGE_DEPTH then doc == Empty
      else if name in schema.wellKnown then doc == schema.wellKnown[name]
      else FieldsShown(schema, schema.FieldsOf(name), doc, depth + 1)
  }

  /** An object with exactly the chosen fields. */
  ghost predicate FieldsShown(schema: Schema, fields: Fields, doc: Doc, depth: nat)
    decreases doc, 0
  {
    && doc.Obj? && doc.fields.Keys == Representatives(fields)
    && forall n | n in doc.fields :: n in fields && FieldShown(schema, fields[n], doc.fields[n], depth)
  }

  /** The example of a message shows exactly its chosen fields, each in its shape, down to the depth limit. */
  lemma {:induction false} ExampleShowsFields(schema: Schema, fields: Fields, depth: nat)
    ensures FieldsShown(schema, fields, BuildFields(schema, fields, depth), depth)
    decreases Budget(depth), 3
  {
    var doc := BuildFields(schema, fields, depth);
    forall n | n in doc.fields ensures n in fields && FieldShown(schema, fields[n], doc.fields[n], depth) {
      FieldExampleShown(schema, fields[n], depth);
    }
  }

  lemma {:induction false} FieldExampleShown(schema: Schema, f: Field, depth: nat)
    ensures FieldShown(schema, f, BuildField(schema, f, depth), depth)
    decreases Budget(depth), 2
  {
    match f.shape {
      case MapOf => KindExampleShown(schema, f.kind, depth + 1);
      case Repeated => KindExampleShown(schema, f.kind, depth);
      case Single => KindExampleShown(schema, f.kind, depth);
    }
  }

  lemma {:induction false} KindExampleShown(schema: Schema, kind: Kind, depth: nat)
    ensures KindShown(schema, kind, BuildKind(schema, kind, depth), depth)
    decreases Budget(depth), 1
  {
    if kind.MessageKind? && depth <= MAX_MESSAGE_DEPTH && kind.name !in schema.wellKnown {
      ExampleShowsFields(schema, schema.FieldsOf(kind.name), depth + 1);
    }
  }

  predicate FlatKind(kind: Kind) {
    kind.ScalarKind? ==> HeightAtMost(kind.example, 0)
  }

  predicate FlatFields(fields: Fields) {
    forall n | n in fields :: FlatKind(fields[n].kind)
  }

  /** Scalars and well-known types have examples without parts. */
  predicate FlatExamples(schema: Schema) {
    && (forall name | name in schema.wellKnown :: HeightAtMost(schema.wellKnown[name], 0))
    && forall name | name in schema.messages :: FlatFields(schema.messages[name])
  }

  lemma {:induction false} HeightUpTo(doc: Doc, n: nat, m: nat)
    requires HeightAtMost(doc, n) && n <= m
    ensures HeightAtMost(doc, m)
    decreases m
  {
    if n < m {
      HeightUpTo(doc, n, m - 1);
      HeightMonotone(doc, m - 1);
    }
  }

  lemma {:induction false} MessageHeight(schema: Schema, name: string, depth: nat, n: nat)
    requires FlatExamples(schema) && n >= 2 * Budget(depth)
    ensures HeightAtMost(BuildMessage(schema, name, depth), n)
    decreases Budget(depth), 0
  {
    if depth <= MAX_MESSAGE_DEPTH {
      if name in schema.wellKnown {
        var doc := schema.wellKnown[name];
        assert BuildMessage(schema, name, depth) == doc && HeightAtMost(doc, 0);
        HeightUpTo(doc, 0, n);
      } else {
        ExampleHeight(schema, name, depth + 1, n);
      }
    }
  }

  lemma {:induction false} KindHeight(schema: Schema, kind: Kind, depth: nat, n: nat)
    requires FlatExamples(schema) && FlatKind(kind)
    requires n >= 2 * Budget(depth)
    ensures HeightAtMost(BuildKind(schema, kind, depth), n)
    decreases Budget(depth), 1
  {
    match kind {
      case MessageKind(name) => MessageHeight(schema, name, depth, n);
      case ScalarKind(example) => HeightUpTo(example, 0, n);
    }
  }

  lemma {:induction false} FieldHeight(schema: Schema, f: Field, depth: nat, n: nat)
    requires FlatExamples(schema) && FlatKind(f.kind)
    requires n >= 2 * Budget(depth) + 1
    ensures HeightAtMost(BuildField(schema, f, depth), n)
    decreases Budget(depth), 2
  {
    match f.shape {
      case MapOf => KindHeight(schema, f.kind, depth + 1, n - 1);
      case Repeated => KindHeight(schema, f.kind, depth, n - 1);
      case Single => KindHeight(schema, f.kind, depth, n);
    }
  }

  /** However message types contain each other, the example for one is at most twenty levels high. */
  lemma {:induction false} ExampleHeight(schema: Schema, name: string, depth: nat, n: nat)
    requires FlatExamples(schema) && n >= 2 * Budget(depth) + 2
    ensures HeightAtMost(BuildFields(schema, schema.FieldsOf(name), depth), n)
    decreases Budget(depth), 3
  {
    var fields := schema.FieldsOf(name);
    assert FlatFields(fields);
    forall k | k in Representatives(fields) {
      FieldHeight(schema, fields[k], depth, n - 1);
    }
  }
}
