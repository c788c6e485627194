/**
 Small facts shared by several modules.
 */
module Basics {

  function Min(a: int, b: int): int {
    if a < b then a else b
  }

  lemma AppendAssociative<T>(a: seq<T>, b: seq<T>, c: seq<T>)
    ensures (a + b) + c == a + (b + c)
  {
  }

  lemma SliceOfSlice<T>(s: seq<T>, a: nat, b: nat, i: nat, j: nat)
    requires a <= b <= |s| && i <= j <= b - a
    ensures s[a..b][i..j] == s[a + i..a + j]
  {
    var l, r := s[a..b][i..j], s[a + i..a + j];
    forall k | 0 <= k < |l| ensures l[k] == r[k] {
      assert l[k] == s[a..b][i + k];
    }
  }

  /** `a` is `b` with some entries left out. */
  predicate Sublist<T(==)>(a: seq<T>, b: seq<T>)
    decreases b
  {
    if a == [] then true
    else if b == [] then false
    else
      var m, n := |a| - 1, |b| - 1;
      (a[m] == b[n] && Sublist(a[..m], b[..n])) || Sublist(a, b[..n])
  }

  lemma SublistAppend<T>(a: seq<T>, b: seq<T>, x: T)
    requires Sublist(a, b)
    ensures Sublist(a, b + [x]) && Sublist(a + [x], b + [x])
  {
    assert (b + [x])[..|b|] == b && (a + [x])[..|a|] == a;
  }
}
