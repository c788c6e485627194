/**
 Parsed documents and local JSON Pointer references (section 4 of RFC 6901).
 */
module JsonPointer {
  import opened Options
  import opened Text

  datatype Doc =
    | Obj(fields: map<string, Doc>)
    | Arr(items: seq<Doc>)
    | Str(text: string)
    | Scalar(raw: string)

  // Escaping

  /** `strings.ReplaceAll` of the two characters `a`, `b` by `c`. */
  function ReplacePair(s: string, a: char, b: char, c: char): string {
    if |s| < 2 then s
    else if s[0] == a && s[1] == b then [c] + ReplacePair(s[2..], a, b, c)
    else [s[0]] + ReplacePair(s[1..], a, b, c)
  }

  /** The order of the two passes matters: `~01` must become `~1`. */
  function Unescape(token: string): string {
    ReplacePair(ReplacePair(token, '~', '1', '/'), '~', '0', '~')
  }

  function Escape(key: string): string {
    if key == [] then []
    else (if key[0] == '~' then "~0" else if key[0] == '/' then "~1" else [key[0]]) + Escape(key[1..])
  }

  /** A key with only its tildes escaped. */
  function TildesEscaped(key: string): string {
    if key == [] then [] else (if key[0] == '~' then "~0" else [key[0]]) + TildesEscaped(key[1..])
  }

  lemma {:induction false} FirstPass(key: string)
    ensures ReplacePair(Escape(key), '~', '1', '/') == TildesEscaped(key)
  {
    if key != [] {
      FirstPass(key[1..]);
      var e, rest := Escape(key), Escape(key[1..]);
      if key[0] == '~' {
        assert e[1..] == "0" + rest && e[1..][1..] == rest;
        assert ReplacePair(e[1..], '~', '1', '/') == "0" + ReplacePair(rest, '~', '1', '/');
      } else if key[0] == '/' {
        assert e[2..] == rest;
      } else {
        assert e[1..] == rest;
      }
    }
  }

  lemma {:induction false} SecondPass(key: string)
    ensures ReplacePair(TildesEscaped(key), '~', '0', '~') == key
  {
    if key != [] {
      SecondPass(key[1..]);
      var e, rest := TildesEscaped(key), TildesEscaped(key[1..]);
      if key[0] == '~' {
        assert e[2..] == rest;
      } else {
        assert e[1..] == rest;
      }
    }
  }

  lemma UnescapeOfEscape(key: string)
    ensures Unescape(Escape(key)) == key
  {
    FirstPass(key);
    SecondPass(key);
  }

  lemma {:induction false} EscapeHasNoSlash(key: string)
    ensures '/' !in Escape(key)
  {
    if key != [] {
      EscapeHasNoSlash(key[1..]);
    }
  }

  lemma {:induction false} ReplaceNothing(s: string, b: char, c: char)
    requires '~' !in s
    ensures ReplacePair(s, '~', b, c) == s
  {
    if |s| >= 2 {
      ReplaceNothing(s[1..], b, c);
    }
  }

  // Array indexes

  predicate AllDigits(s: string) {
    s != [] && forall c | c in s :: IsDigit(c)
  }

  /** `strconv.Atoi`; a number too big for it is out of range of any array anyway. */
  function Atoi(s: string): Option<int> {
    if AllDigits(s) then Some(DecimalValue(s))
    else if s != [] && s[0] == '+' && AllDigits(s[1..]) then Some(DecimalValue(s[1..]))
    else if s != [] && s[0] == '-' && AllDigits(s[1..]) then Some(-(DecimalValue(s[1..]) as int))
    else None
  }

  // Resolution

  function Child(cur: Doc, key: string): Option<Doc> {
    match cur
    case Obj(fields) => if key in fields then Some(fields[key]) else None
    case Arr(items) =>
      (match Atoi(key)
       case Some(i) => if 0 <= i < |items| then Some(items[i]) else None
       case None => None)
    case _ => None
  }

  function Descend(cur: Doc, tokens: seq<string>): Option<Doc>
    decreases tokens
  {
    if tokens == [] then Some(cur)
    else
      match Child(cur, Unescape(tokens[0]))
      case Some(next) => Descend(next, tokens[1..])
      case None => None
  }

  function Tokens(ref: string): seq<string>
    requires "#/" <= ref
  {
    Split(ref[2..], '/')
  }

  /** What a reference points to; a reference to another file or URL points to nothing. */
  function Pointee(root: Doc, ref: string): Option<Doc> {
    if "#/" <= ref then Descend(root, Tokens(ref)) else None
  }

  // Paths

  datatype Hop = Key(key: string) | Index(index: nat)

  predicate HasPath(doc: Doc, path: seq<Hop>)
    decreases path
  {
    path == [] ||
    (match path[0]
     case Key(k) => doc.Obj? && k in doc.fields && HasPath(doc.fields[k], path[1..])
     case Index(i) => doc.Arr? && i < |doc.items| && HasPath(doc.items[i], path[1..]))
  }

  function NodeAt(doc: Doc, path: seq<Hop>): Doc
    requires HasPath(doc, path)
    decreases path
  {
    if path == [] then doc
    else
      match path[0]
      case Key(k) => NodeAt(doc.fields[k], path[1..])
      case Index(i) => NodeAt(doc.items[i], path[1..])
  }

  function TokenOf(hop: Hop): string {
    match hop
    case Key(k) => Escape(k)
    case Index(i) => Decimal(i)
  }

  function TokensOf(path: seq<Hop>): (tokens: seq<string>)
    ensures |tokens| == |path|
  {
    if path == [] then [] else [TokenOf(path[0])] + TokensOf(path[1..])
  }

  function PointerOf(path: seq<Hop>): string
    requires path != []
  {
    "#/" + Join(TokensOf(path), '/')
  }

  lemma TokenHasNoSlash(hop: Hop)
    ensures '/' !in TokenOf(hop)
  {
    match hop {
      case Key(k) => EscapeHasNoSlash(k);
      case Index(i) => assert !IsDigit('/');
    }
  }

  lemma {:induction false} TokensHaveNoSlash(path: seq<Hop>)
    ensures forall t | t in TokensOf(path) :: '/' !in t
  {
    if path != [] {
      TokenHasNoSlash(path[0]);
      TokensHaveNoSlash(path[1..]);
    }
  }

  lemma IndexToken(i: nat)
    ensures Atoi(Unescape(Decimal(i))) == Some(i)
  {
    assert !IsDigit('~');
    ReplaceNothing(Decimal(i), '1', '/');
    ReplaceNothing(Decimal(i), '0', '~');
    DecimalRoundTrip(i);
  }

  lemma {:induction false} DescendFollowsPath(doc: Doc, path: seq<Hop>)
    requires HasPath(doc, path)
    ensures Descend(doc, TokensOf(path)) == Some(NodeAt(doc, path))
    decreases path
  {
    if path != [] {
      assert TokensOf(path)[1..] == TokensOf(path[1..]);
      match path[0] {
        case Key(k) =>
          UnescapeOfEscape(k);
          DescendFollowsPath(doc.fields[k], path[1..]);
        case Index(i) =>
          IndexToken(i);
          DescendFollowsPath(doc.items[i], path[1..]);
      }
    }
  }

  /** The pointer written for a path resolves to exactly the node at that path. */
  lemma PointerFindsNode(root: Doc, path: seq<Hop>)
    requires path != [] && HasPath(root, path)
    ensures Pointee(root, PointerOf(path)) == Some(NodeAt(root, path))
  {
    var ref := PointerOf(path);
    assert ref[2..] == Join(TokensOf(path), '/');
    TokensHaveNoSlash(path);
    SplitOfJoin(TokensOf(path), '/');
    DescendFollowsPath(root, path);
  }

  // What a reference means, told without walking the document

  /** The hop a token asks for: a key, or an index if that is what it reads as. */
  predicate Reads(token: string, hop: Hop) {
    match hop
    case Key(k) => k == Unescape(token)
    case Index(i) => Atoi(Unescape(token)) == Some(i)
  }

  /** The node at the end of a path whose hops are what the tokens ask for. */
  ghost predicate Spelled(doc: Doc, tokens: seq<string>, path: seq<Hop>, n: Doc) {
    && |path| == |tokens| && (forall i | 0 <= i < |tokens| :: Reads(tokens[i], path[i]))
    && HasPath(doc, path) && NodeAt(doc, path) == n
  }

  ghost predicate Denotes(root: Doc, ref: string, n: Doc) {
    "#/" <= ref && exists path :: Spelled(root, Tokens(ref), path, n)
  }

  lemma {:induction false} DescendSpelled(doc: Doc, tokens: seq<string>, n: Doc) returns (path: seq<Hop>)
    requires Descend(doc, tokens) == Some(n)
    ensures Spelled(doc, tokens, path, n)
    decreases tokens
  {
    path := [];
    if tokens != [] {
      var key := Unescape(tokens[0]);
      var next := Child(doc, key).value;
      var hop := if doc.Obj? then Key(key) else Index(Atoi(key).value);
      var rest := DescendSpelled(next, tokens[1..], n);
      path := [hop] + rest;
      assert path[1..] == rest;
      forall i | 0 <= i < |tokens| ensures Reads(tokens[i], path[i]) {
        if i > 0 {
          assert tokens[i] == tokens[1..][i - 1] && path[i] == rest[i - 1];
        }
      }
    }
  }

  lemma {:induction false} SpelledDescends(doc: Doc, tokens: seq<string>, path: seq<Hop>, n: Doc)
    requires Spelled(doc, tokens, path, n)
    ensures Descend(doc, tokens) == Some(n)
    decreases tokens
  {
    if tokens != [] {
      var next := match path[0] case Key(k) => doc.fields[k] case Index(i) => doc.items[i];
      assert Reads(tokens[0], path[0]);
      forall i | 0 <= i < |tokens[1..]| ensures Reads(tokens[1..][i], path[1..][i]) {
        assert Reads(tokens[i + 1], path[i + 1]);
      }
      assert HasPath(next, path[1..]);
      SpelledDescends(next, tokens[1..], path[1..], n);
    }
  }

  /** A reference resolves to a node exactly when its tokens lead there, and to nothing otherwise. */
  lemma DenotesIffPointee(root: Doc, ref: string)
    ensures forall n :: Pointee(root, ref) == Some(n) <==> Denotes(root, ref, n)
  {
    forall n ensures Pointee(root, ref) == Some(n) <==> Denotes(root, ref, n) {
      if Pointee(root, ref) == Some(n) {
        var path := DescendSpelled(root, Tokens(ref), n);
      }
      if Denotes(root, ref, n) {
        var path :| Spelled(root, Tokens(ref), path, n);
        SpelledDescends(root, Tokens(ref), path, n);
      }
    }
  }

  /** The same for a reference written out of its tokens. */
  lemma WrittenDenotes(root: Doc, tokens: seq<string>, n: Doc)
    requires tokens != [] && forall t | t in tokens :: '/' !in t
    ensures Pointee(root, "#/" + Join(tokens, '/')) == Some(n) <==> exists path :: Spelled(root, tokens, path, n)
  {
    var ref := "#/" + Join(tokens, '/');
    assert ref[2..] == Join(tokens, '/');
    SplitOfJoin(tokens, '/');
    DenotesIffPointee(root, ref);
  }

  /** `resolvePointer`. */
  method ResolvePointer(root: Doc, ref: string) returns (r: Option<Doc>)
    ensures r == Pointee(root, ref)
    ensures forall n :: r == Some(n) <==> Denotes(root, ref, n)
  {
    DenotesIffPointee(root, ref);
    if !("#/" <= ref) {
      return None;
    }
    var tokens, cur := Tokens(ref), root;
    for i := 0 to |tokens|
      invariant Descend(cur, tokens[i..]) == Descend(root, tokens)
    {
      assert tokens[i..][1..] == tokens[i + 1..];
      var next := Child(cur, Unescape(tokens[i]));
      if next.None? {
        return None;
      }
      cur := next.value;
    }
    return Some(cur);
  }

  ghost predicate Contains(root: Doc, node: Doc) {
    exists path :: HasPath(root, path) && NodeAt(root, path) == node
  }

  lemma ContainsSelf(doc: Doc)
    ensures Contains(doc, doc)
  {
    assert HasPath(doc, []) && NodeAt(doc, []) == doc;
  }

  lemma ContainsThroughChild(doc: Doc, hop: Hop, child: Doc, node: Doc)
    requires HasPath(doc, [hop]) && NodeAt(doc, [hop]) == child && Contains(child, node)
    ensures Contains(doc, node)
  {
    var path :| HasPath(child, path) && NodeAt(child, path) == node;
    var longer := [hop] + path;
    assert longer[1..] == path && [hop][1..] == [];
    assert HasPath(doc, longer) && NodeAt(doc, longer) == node;
  }

  lemma OneHop(doc: Doc, hop: Hop)
    ensures hop.Key? && doc.Obj? && hop.key in doc.fields ==>
              HasPath(doc, [hop]) && NodeAt(doc, [hop]) == doc.fields[hop.key]
    ensures hop.Index? && doc.Arr? && hop.index < |doc.items| ==>
              HasPath(doc, [hop]) && NodeAt(doc, [hop]) == doc.items[hop.index]
  {
    assert [hop][1..] == [];
    match hop {
      case Key(k) =>
        if doc.Obj? && k in doc.fields {
          assert NodeAt(doc.fields[k], []) == doc.fields[k];
        }
      case Index(i) =>
        if doc.Arr? && i < |doc.items| {
          assert NodeAt(doc.items[i], []) == doc.items[i];
        }
    }
  }

  lemma {:induction false} DescendStaysInside(doc: Doc, tokens: seq<string>)
    requires Descend(doc, tokens).Some?
    ensures Contains(doc, Descend(doc, tokens).value)
    decreases tokens
  {
    if tokens == [] {
      ContainsSelf(doc);
    } else {
      var key := Unescape(tokens[0]);
      var next := Child(doc, key).value;
      DescendStaysInside(next, tokens[1..]);
      var hop := if doc.Obj? then Key(key) else Index(Atoi(key).value);
      OneHop(doc, hop);
      ContainsThroughChild(doc, hop, next, Descend(doc, tokens).value);
    }
  }

  /** Whatever a reference resolves to is a node of the document. */
  lemma PointeeIsInside(root: Doc, ref: string)
    requires Pointee(root, ref).Some?
    ensures Contains(root, Pointee(root, ref).value)
  {
    DescendStaysInside(root, Tokens(ref));
  }
}
