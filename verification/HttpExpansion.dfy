/**
 Expansion of directory mocks, and the check that an expansion does not collide
 with another mock.
 */
module HttpExpansion {
  import opened Options

  datatype Body = Inline(text: string) | File(path: string) | Dir(path: string)

  datatype Mock = Mock(id: string, verb: string, path: string, body: Body)

  /** A mock of the expanded list, and whether a directory expansion made it. */
  datatype Entry = Entry(mock: Mock, generated: bool)

  datatype Outcome = Expanded(mocks: seq<Mock>) | Unreadable(id: string) | Conflict(id: string, owner: string)

  function Generated(children: seq<Mock>): (r: seq<Entry>)
    ensures |r| == |children|
  {
    seq(|children|, i requires 0 <= i < |children| => Entry(children[i], true))
  }

  /** What stands in the place of one mock; `expandDir` and `resolve` reach the file system and may fail. */
  function Place(m: Mock, expandDir: Mock -> Option<seq<Mock>>, resolve: Mock -> Option<Mock>): Option<seq<Entry>> {
    if m.body.Dir? then
      match expandDir(m)
      case Some(children) => Some(Generated(children))
      case None => None
    else
      match resolve(m)
      case Some(resolved) => Some([Entry(resolved, false)])
      case None => None
  }

  predicate AllReadable(mocks: seq<Mock>, expandDir: Mock -> Option<seq<Mock>>, resolve: Mock -> Option<Mock>) {
    forall m | m in mocks :: Place(m, expandDir, resolve).Some?
  }

  /** Every mock replaced in its own place. */
  function InPlace(mocks: seq<Mock>, expandDir: Mock -> Option<seq<Mock>>, resolve: Mock -> Option<Mock>): seq<Entry>
    requires AllReadable(mocks, expandDir, resolve)
  {
    if mocks == [] then []
    else
      var n := |mocks| - 1;
      assert mocks[n] in mocks;
      InPlace(mocks[..n], expandDir, resolve) + Place(mocks[n], expandDir, resolve).value
  }

  function Mocks(entries: seq<Entry>): (r: seq<Mock>)
    ensures |r| == |entries|
  {
    seq(|entries|, i requires 0 <= i < |entries| => entries[i].mock)
  }

  function Joined(verb: string, path: string): string {
    verb + " " + path
  }

  function Key(m: Mock, upper: string -> string): string {
    Joined(upper(m.verb), m.path)
  }

  // The key joins method and path with a space

  /** One method, with a space behind it, begins the other. */
  predicate Ambiguous(u: string, v: string) {
    u + " " <= v || v + " " <= u
  }

  lemma ShorterBegins(u: string, p: string, v: string, q: string)
    requires Joined(u, p) == Joined(v, q) && |u| < |v|
    ensures u + " " <= v
  {
    var s := Joined(u, p);
    assert s[..|u| + 1] == u + " " && s[..|v|] == v;
  }

  lemma JoinedApart(u: string, p: string, v: string, q: string)
    requires Joined(u, p) == Joined(v, q)
    ensures Ambiguous(u, v) || (u == v && p == q)
  {
    if |u| < |v| {
      ShorterBegins(u, p, v, q);
    } else if |v| < |u| {
      ShorterBegins(v, q, u, p);
    } else {
      var s := Joined(u, p);
      assert s[..|u|] == u == v && s[|u| + 1..] == p == q;
    }
  }

  lemma SpaceInside(u: string, v: string)
    requires u + " " <= v
    ensures ' ' in v
  {
    assert (u + " ")[|u|] == ' ' && v[|u|] == ' ';
  }

  /** Two different methods can be given paths that make one key exactly when one, with a space, begins the other. */
  lemma KeysClashIffAmbiguous(u: string, v: string)
    ensures (exists p, q :: Joined(u, p) == Joined(v, q) && (u != v || p != q)) <==> Ambiguous(u, v)
  {
    if u + " " <= v {
      var t := v[|u| + 1..];
      assert v == u + " " + t;
      assert Joined(u, t + " ") == Joined(v, "");
    } else if v + " " <= u {
      var t := u[|v| + 1..];
      assert u == v + " " + t;
      assert Joined(u, "") == Joined(v, t + " ");
    } else {
      forall p, q | Joined(u, p) == Joined(v, q) ensures u == v && p == q {
        JoinedApart(u, p, v, q);
      }
    }
  }

  /** So unless a method holds a space, entries have one key exactly when they have one method and one path. */
  lemma KeyIsMethodAndPath(a: Mock, b: Mock, upper: string -> string)
    requires ' ' !in upper(a.verb) && ' ' !in upper(b.verb)
    ensures Key(a, upper) == Key(b, upper) <==> upper(a.verb) == upper(b.verb) && a.path == b.path
  {
    var u, v := upper(a.verb), upper(b.verb);
    if u + " " <= v {
      SpaceInside(u, v);
    }
    if v + " " <= u {
      SpaceInside(v, u);
    }
    if Key(a, upper) == Key(b, upper) {
      JoinedApart(u, a.path, v, b.path);
    }
  }

  /** Two entries answer the same method and path and at least one was generated. */
  predicate Collide(entries: seq<Entry>, upper: string -> string, i: int, j: int)
    requires 0 <= i < |entries| && 0 <= j < |entries|
  {
    Key(entries[i].mock, upper) == Key(entries[j].mock, upper) && (entries[i].generated || entries[j].generated)
  }

  ghost predicate SomeCollide(entries: seq<Entry>, upper: string -> string) {
    exists i, j :: 0 <= i < j < |entries| && Collide(entries, upper, i, j)
  }

  /** `seen` holds the first of the first `n` entries for each of their keys. */
  ghost predicate FirstOwners(entries: seq<Entry>, upper: string -> string, seen: map<string, nat>, n: nat)
    requires n <= |entries|
  {
    && (forall i | 0 <= i < n :: Key(entries[i].mock, upper) in seen)
    && (forall key | key in seen :: seen[key] < n && IsFirst(entries, upper, key, seen[key]))
  }

  ghost predicate IsFirst(entries: seq<Entry>, upper: string -> string, key: string, i: nat) {
    && i < |entries| && Key(entries[i].mock, upper) == key
    && forall k | 0 <= k < i :: Key(entries[k].mock, upper) != key
  }

  ghost predicate NoneCollide(entries: seq<Entry>, upper: string -> string, n: nat)
    requires n <= |entries|
  {
    forall i, j | 0 <= i < j < n :: !Collide(entries, upper, i, j)
  }

  lemma NewOwner(entries: seq<Entry>, upper: string -> string, seen: map<string, nat>, j: nat)
    requires j < |entries| && FirstOwners(entries, upper, seen, j) && NoneCollide(entries, upper, j)
    requires Key(entries[j].mock, upper) !in seen
    ensures FirstOwners(entries, upper, seen[Key(entries[j].mock, upper) := j], j + 1)
    ensures NoneCollide(entries, upper, j + 1)
  {
  }

  /** An earlier generated entry with the owner's key would already have collided with the owner. */
  lemma OwnerSpeaksForAll(entries: seq<Entry>, upper: string -> string, owner: nat, j: nat)
    requires owner < j < |entries| && !entries[owner].generated && !entries[j].generated
    requires Key(entries[owner].mock, upper) == Key(entries[j].mock, upper)
    requires NoneCollide(entries, upper, j)
    ensures NoneCollide(entries, upper, j + 1)
  {
    forall i | 0 <= i < j ensures !Collide(entries, upper, i, j) {
      if i < owner {
        assert !Collide(entries, upper, i, owner);
      } else if owner < i {
        assert !Collide(entries, upper, owner, i);
      }
    }
  }

  /** The check remembers only the first owner of each method and path, and still misses no collision. */
  method FindConflict(entries: seq<Entry>, upper: string -> string) returns (found: Option<(nat, nat)>)
    ensures found.Some? <==> SomeCollide(entries, upper)
    ensures found.Some? ==>
              && found.value.0 < found.value.1 < |entries|
              && Collide(entries, upper, found.value.0, found.value.1)
              && IsFirst(entries, upper, Key(entries[found.value.1].mock, upper), found.value.0)
              && NoneCollide(entries, upper, found.value.1)
  {
    var seen: map<string, nat> := map[];
    for j := 0 to |entries|
      invariant FirstOwners(entries, upper, seen, j) && NoneCollide(entries, upper, j)
    {
      var key := Key(entries[j].mock, upper);
      if key in seen {
        var owner := seen[key];
        if entries[owner].generated || entries[j].generated {
          assert Collide(entries, upper, owner, j);
          return Some((owner, j));
        }
        OwnerSpeaksForAll(entries, upper, owner, j);
      } else {
        NewOwner(entries, upper, seen, j);
        seen := seen[key := j];
      }
    }
    return None;
  }

  /** The ids of two entries that collide, the later first. */
  ghost predicate Names(entries: seq<Entry>, upper: string -> string, id: string, owner: string) {
    exists i, j :: 0 <= i < j < |entries| && Collide(entries, upper, i, j) && entries[j].mock.id == id
      && entries[i].mock.id == owner
  }

  /** Mock `i` is the first whose files cannot be read, and `id` is its id. */
  ghost predicate FirstUnreadable(mocks: seq<Mock>, expandDir: Mock -> Option<seq<Mock>>, resolve: Mock -> Option<Mock>,
                                  i: nat, id: string) {
    && i < |mocks| && AllReadable(mocks[..i], expandDir, resolve)
    && (if mocks[i].body.Dir? then expandDir(mocks[i]).None? else resolve(mocks[i]).None?)
    && mocks[i].id == id
  }

  /** `ExpandHTTPMocks`. */
  method ExpandHttpMocks(mocks: seq<Mock>, expandDir: Mock -> Option<seq<Mock>>, resolve: Mock -> Option<Mock>,
                         upper: string -> string)
    returns (r: Outcome)
    ensures r.Unreadable? <==> !AllReadable(mocks, expandDir, resolve)
    ensures AllReadable(mocks, expandDir, resolve) ==>
              var entries := InPlace(mocks, expandDir, resolve);
              && (r.Conflict? <==> SomeCollide(entries, upper))
              && (r.Expanded? <==> Accepted(mocks, expandDir, resolve, upper))
              && (r.Expanded? ==> r.mocks == Mocks(entries))
              && (r.Conflict? ==> Names(entries, upper, r.id, r.owner))
    ensures r.Unreadable? ==> exists i :: 0 <= i < |mocks| && FirstUnreadable(mocks, expandDir, resolve, i, r.id)
  {
    var out: seq<Mock>, generated: seq<bool> := [], [];
    ghost var entries: seq<Entry> := [];
    for i := 0 to |mocks|
      invariant AllReadable(mocks[..i], expandDir, resolve)
      invariant entries == InPlace(mocks[..i], expandDir, resolve)
      invariant |out| == |generated| == |entries|
      invariant forall k | 0 <= k < |out| :: entries[k] == Entry(out[k], generated[k])
    {
      var m := mocks[i];
      ghost var place := Place(m, expandDir, resolve);
      assert mocks[..i + 1] == mocks[..i] + [m] && mocks[..i + 1][..i] == mocks[..i];
      if m.body.Dir? {
        var children := expandDir(m);
        if children.None? {
          assert m in mocks && FirstUnreadable(mocks, expandDir, resolve, i, m.id);
          return Unreadable(m.id);
        }
        out := out + children.value;
        generated := generated + seq(|children.value|, _ => true);
      } else {
        var resolved := resolve(m);
        if resolved.None? {
          assert m in mocks && FirstUnreadable(mocks, expandDir, resolve, i, m.id);
          return Unreadable(m.id);
        }
        out := out + [resolved.value];
        generated := generated + [false];
      }
      entries := entries + place.value;
    }
    assert mocks[..|mocks|] == mocks;
    var all := seq(|out|, k requires 0 <= k < |out| && |generated| == |out| => Entry(out[k], generated[k]));
    assert all == entries;
    var conflict := FindConflict(all, upper);
    if conflict.Some? {
      return Conflict(out[conflict.value.1].id, out[conflict.value.0].id);
    }
    assert out == Mocks(entries);
    return Expanded(out);
  }

  // Where everything stands in the expanded list

  /** How many entries stand in the place of one mock. */
  function Width(m: Mock, expandDir: Mock -> Option<seq<Mock>>): nat {
    if !m.body.Dir? then 1 else match expandDir(m) case Some(children) => |children| case None => 0
  }

  /** How many entries stand before the place of mock `i`. */
  function Offset(mocks: seq<Mock>, expandDir: Mock -> Option<seq<Mock>>, i: nat): nat
    requires i <= |mocks|
    decreases i
  {
    if i == 0 then 0 else Offset(mocks, expandDir, i - 1) + Width(mocks[i - 1], expandDir)
  }

  lemma {:induction false} OffsetOfPrefix(mocks: seq<Mock>, expandDir: Mock -> Option<seq<Mock>>, n: nat, i: nat)
    requires i <= n <= |mocks|
    ensures Offset(mocks[..n], expandDir, i) == Offset(mocks, expandDir, i)
    decreases i
  {
    if i > 0 {
      OffsetOfPrefix(mocks, expandDir, n, i - 1);
    }
  }

  /** The `j`th entry in the place of one mock: the `j`th file of its directory, or the mock itself. */
  ghost predicate StandsFor(e: Entry, m: Mock, j: nat, expandDir: Mock -> Option<seq<Mock>>,
                            resolve: Mock -> Option<Mock>) {
    if m.body.Dir? then
      expandDir(m).Some? && j < |expandDir(m).value| && e == Entry(expandDir(m).value[j], true)
    else
      resolve(m).Some? && e == Entry(resolve(m).value, false)
  }

  /** Every directory's files stand in their order where the directory stood, every other mock where it stood. */
  lemma {:induction false} ExpandedInPlace(mocks: seq<Mock>, expandDir: Mock -> Option<seq<Mock>>,
                                           resolve: Mock -> Option<Mock>)
    requires AllReadable(mocks, expandDir, resolve)
    ensures var entries := InPlace(mocks, expandDir, resolve);
            && |entries| == Offset(mocks, expandDir, |mocks|)
            && forall i, j | 0 <= i < |mocks| && 0 <= j < Width(mocks[i], expandDir) ::
                 Placed(entries, mocks, expandDir, resolve, i, j)
    decreases mocks
  {
    if mocks != [] {
      var n := |mocks| - 1;
      var before, m := mocks[..n], mocks[n];
      assert m in mocks;
      ExpandedInPlace(before, expandDir, resolve);
      OffsetOfPrefix(mocks, expandDir, n, n);
      var front, back := InPlace(before, expandDir, resolve), Place(m, expandDir, resolve).value;
      forall i, j | 0 <= i < |mocks| && 0 <= j < Width(mocks[i], expandDir)
        ensures Placed(front + back, mocks, expandDir, resolve, i, j)
      {
        if i < n {
          assert Placed(front, before, expandDir, resolve, i, j);
          StillPlaced(front, back, mocks, expandDir, resolve, n, i, j);
        }
      }
    }
  }

  lemma StillPlaced(front: seq<Entry>, back: seq<Entry>, mocks: seq<Mock>, expandDir: Mock -> Option<seq<Mock>>,
                    resolve: Mock -> Option<Mock>, n: nat, i: nat, j: nat)
    requires i < n <= |mocks| && Placed(front, mocks[..n], expandDir, resolve, i, j)
    ensures Placed(front + back, mocks, expandDir, resolve, i, j)
  {
    OffsetOfPrefix(mocks, expandDir, n, i);
  }

  ghost predicate Placed(entries: seq<Entry>, mocks: seq<Mock>, expandDir: Mock -> Option<seq<Mock>>,
                         resolve: Mock -> Option<Mock>, i: nat, j: nat)
    requires i < |mocks|
  {
    var k := Offset(mocks, expandDir, i) + j;
    k < |entries| && StandsFor(entries[k], mocks[i], j, expandDir, resolve)
  }

  // What the check lets through

  /** The list is returned, not refused. */
  ghost predicate Accepted(mocks: seq<Mock>, expandDir: Mock -> Option<seq<Mock>>, resolve: Mock -> Option<Mock>,
                           upper: string -> string) {
    AllReadable(mocks, expandDir, resolve) && !SomeCollide(InPlace(mocks, expandDir, resolve), upper)
  }

  predicate SameKey(entries: seq<Entry>, upper: string -> string, i: int, j: int)
    requires 0 <= i < |entries| && 0 <= j < |entries|
  {
    Key(entries[i].mock, upper) == Key(entries[j].mock, upper)
  }

  /** Some two entries answer the same method and path. */
  ghost predicate HasDuplicate(entries: seq<Entry>, upper: string -> string) {
    exists i, j :: 0 <= i < j < |entries| && SameKey(entries, upper, i, j)
  }

  /** Some two hand-written entries do. */
  ghost predicate HandWrittenDuplicate(entries: seq<Entry>, upper: string -> string) {
    exists i, j :: 0 <= i < j < |entries| && SameKey(entries, upper, i, j) && !entries[i].generated
      && !entries[j].generated
  }

  /** Entries with one method and path are all hand-written. */
  ghost predicate SharersHandWritten(entries: seq<Entry>, upper: string -> string) {
    forall i, j | 0 <= i < j < |entries| :: SameKey(entries, upper, i, j) ==>
      !entries[i].generated && !entries[j].generated
  }

  /** A readable list is accepted exactly when any two entries with one method and path are both hand-written. */
  lemma AcceptedIffSharersHandWritten(mocks: seq<Mock>, expandDir: Mock -> Option<seq<Mock>>,
                                      resolve: Mock -> Option<Mock>, upper: string -> string)
    requires AllReadable(mocks, expandDir, resolve)
    ensures Accepted(mocks, expandDir, resolve, upper) <==>
            SharersHandWritten(InPlace(mocks, expandDir, resolve), upper)
  {
    var entries := InPlace(mocks, expandDir, resolve);
    if SharersHandWritten(entries, upper) {
      forall i, j | 0 <= i < j < |entries| ensures !Collide(entries, upper, i, j) {
        assert SameKey(entries, upper, i, j) ==> !entries[i].generated && !entries[j].generated;
      }
    } else {
      var i, j :| 0 <= i < j < |entries| && SameKey(entries, upper, i, j)
          && (entries[i].generated || entries[j].generated);
      assert Collide(entries, upper, i, j);
    }
  }

  /**
   So the stated rule, that no two mocks share a method and path, is broken on
   exactly the lists with a hand-written pair and no collision.
   */
  lemma DuplicateAcceptedIff(mocks: seq<Mock>, expandDir: Mock -> Option<seq<Mock>>, resolve: Mock -> Option<Mock>,
                             upper: string -> string)
    requires AllReadable(mocks, expandDir, resolve)
    ensures var entries := InPlace(mocks, expandDir, resolve);
            Accepted(mocks, expandDir, resolve, upper) && HasDuplicate(entries, upper) <==>
            HandWrittenDuplicate(entries, upper) && !SomeCollide(entries, upper)
  {
    var entries := InPlace(mocks, expandDir, resolve);
    AcceptedIffSharersHandWritten(mocks, expandDir, resolve, upper);
    if SharersHandWritten(entries, upper) && HasDuplicate(entries, upper) {
      var i, j :| 0 <= i < j < |entries| && SameKey(entries, upper, i, j);
      assert SameKey(entries, upper, i, j) && !entries[i].generated && !entries[j].generated;
      assert HandWrittenDuplicate(entries, upper);
    }
    if HandWrittenDuplicate(entries, upper) {
      var i, j :| 0 <= i < j < |entries| && SameKey(entries, upper, i, j) && !entries[i].generated
          && !entries[j].generated;
      assert HasDuplicate(entries, upper);
    }
  }

  function NoDirectories(m: Mock): Option<seq<Mock>> {
    None
  }

  function AsWritten(m: Mock): Option<Mock> {
    Some(m)
  }

  function UpperGet(s: string): string {
    if s == "get" then "GET" else s
  }

  /** Two hand-written mocks for `GET /orders`, accepted. */
  lemma SharedPathAccepted()
    ensures var mocks := [Mock("empty", "GET", "/orders", Inline("[]")), Mock("full", "get", "/orders", Inline("[1]"))];
            && Accepted(mocks, NoDirectories, AsWritten, UpperGet)
            && Key(mocks[0], UpperGet) == Key(mocks[1], UpperGet)
  {
    var a, b := Mock("empty", "GET", "/orders", Inline("[]")), Mock("full", "get", "/orders", Inline("[1]"));
    var mocks := [a, b];
    assert mocks[..1] == [a] && [a][..0] == [];
    assert InPlace([a], NoDirectories, AsWritten) == [Entry(a, false)];
    assert InPlace(mocks, NoDirectories, AsWritten) == [Entry(a, false), Entry(b, false)];
  }

  function HandWritten(entries: seq<Entry>): seq<Mock> {
    if entries == [] then []
    else
      var n := |entries| - 1;
      HandWritten(entries[..n]) + if entries[n].generated then [] else [entries[n].mock]
  }

  function ResolvedPlain(mocks: seq<Mock>, resolve: Mock -> Option<Mock>): seq<Mock> {
    if mocks == [] then []
    else
      var n := |mocks| - 1;
      ResolvedPlain(mocks[..n], resolve)
      + if mocks[n].body.Dir? || resolve(mocks[n]).None? then [] else [resolve(mocks[n]).value]
  }

  lemma {:induction false} HandWrittenAppend(a: seq<Entry>, b: seq<Entry>)
    ensures HandWritten(a + b) == HandWritten(a) + HandWritten(b)
    decreases b
  {
    if b == [] {
      assert a + b == a;
    } else {
      var n := |b| - 1;
      assert (a + b)[..|a| + n] == a + b[..n];
      HandWrittenAppend(a, b[..n]);
    }
  }

  lemma {:induction false} GeneratedAreNotHandWritten(children: seq<Mock>)
    ensures HandWritten(Generated(children)) == []
  {
    if children != [] {
      var n := |children| - 1;
      assert Generated(children)[..n] == Generated(children[..n]);
      GeneratedAreNotHandWritten(children[..n]);
    }
  }

  /** The mocks that are not directories keep their order in the expanded list. */
  lemma {:induction false} PlainMocksKeepOrder(mocks: seq<Mock>, expandDir: Mock -> Option<seq<Mock>>,
                                               resolve: Mock -> Option<Mock>)
    requires AllReadable(mocks, expandDir, resolve)
    ensures HandWritten(InPlace(mocks, expandDir, resolve)) == ResolvedPlain(mocks, resolve)
  {
    if mocks != [] {
      var n := |mocks| - 1;
      var m := mocks[n];
      assert m in mocks;
      PlainMocksKeepOrder(mocks[..n], expandDir, resolve);
      HandWrittenAppend(InPlace(mocks[..n], expandDir, resolve), Place(m, expandDir, resolve).value);
      if m.body.Dir? {
        GeneratedAreNotHandWritten(expandDir(m).value);
      } else {
        assert HandWritten([Entry(resolve(m).value, false)]) == [resolve(m).value];
      }
    }
  }
}
