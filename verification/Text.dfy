/**
 Strings as the Go standard library treats them: byte-wise order, splitting on
 a separator, and decimal numerals.
 */
module Text {

  /** Go's `<` on strings. */
  predicate Less(a: string, b: string) {
    if b == [] then false
    else if a == [] then true
    else a[0] < b[0] || (a[0] == b[0] && Less(a[1..], b[1..]))
  }

  lemma {:induction false} LessTotal(a: string, b: string)
    ensures Less(a, b) || a == b || Less(b, a)
  {
    if a != [] && b != [] && a[0] == b[0] {
      LessTotal(a[1..], b[1..]);
      assert a == [a[0]] + a[1..] && b == [b[0]] + b[1..];
    }
  }

  lemma {:induction false} LessAsymmetric(a: string, b: string)
    requires Less(a, b)
    ensures a != b && !Less(b, a)
  {
    if a != [] && a[0] == b[0] {
      LessAsymmetric(a[1..], b[1..]);
    }
  }

  lemma {:induction false} LessTransitive(a: string, b: string, c: string)
    requires Less(a, b) && Less(b, c)
    ensures Less(a, c)
  {
    if a != [] && a[0] == b[0] && b[0] == c[0] {
      LessTransitive(a[1..], b[1..], c[1..]);
    }
  }

  /** The strings agree up to `k`, where the first ends, or has the smaller character. */
  ghost predicate SmallerAt(a: string, b: string, k: nat) {
    && k <= |a| && k < |b| && a[..k] == b[..k]
    && (k == |a| || a[k] < b[k])
  }

  /** One string comes before another exactly when it ends, or has the smaller character, where they first differ. */
  lemma {:induction false} LessIff(a: string, b: string)
    ensures Less(a, b) <==> exists k: nat :: SmallerAt(a, b, k)
  {
    if a == [] || b == [] {
      assert b != [] ==> SmallerAt(a, b, 0);
    } else if a[0] != b[0] {
      assert a[0] < b[0] ==> SmallerAt(a, b, 0);
      assert forall k: nat | SmallerAt(a, b, k) :: k > 0 ==> a[..k][0] == b[..k][0];
    } else {
      LessIff(a[1..], b[1..]);
      if Less(a, b) {
        var k: nat :| SmallerAt(a[1..], b[1..], k);
        assert a[..k + 1] == [a[0]] + a[1..][..k] && b[..k + 1] == [b[0]] + b[1..][..k];
        assert SmallerAt(a, b, k + 1);
      }
      if k: nat :| SmallerAt(a, b, k) {
        assert k > 0;
        assert a[1..][..k - 1] == a[..k][1..] && b[1..][..k - 1] == b[..k][1..];
        assert SmallerAt(a[1..], b[1..], k - 1);
      }
    }
  }

  /** `strings.Split(s, sep)` for a one-character separator. */
  function Split(s: string, sep: char): (parts: seq<string>)
    ensures |parts| >= 1
    ensures forall p | p in parts :: sep !in p
  {
    if s == [] then [[]]
    else
      var rest := Split(s[1..], sep);
      if s[0] == sep then [[]] + rest else [[s[0]] + rest[0]] + rest[1..]
  }

  function Join(parts: seq<string>, sep: char): string
    requires |parts| >= 1
  {
    if |parts| == 1 then parts[0] else parts[0] + [sep] + Join(parts[1..], sep)
  }

  lemma {:induction false} JoinOfSplit(s: string, sep: char)
    ensures Join(Split(s, sep), sep) == s
  {
    if s != [] {
      JoinOfSplit(s[1..], sep);
      var rest := Split(s[1..], sep);
      if s[0] == sep {
        assert ([[]] + rest)[1..] == rest;
        assert Join(Split(s, sep), sep) == [] + [sep] + Join(rest, sep);
      } else {
        var parts := [[s[0]] + rest[0]] + rest[1..];
        assert parts[1..] == rest[1..];
        assert Join(parts, sep) == [s[0]] + Join(rest, sep);
      }
    }
  }

  lemma {:induction false} SplitOfJoin(parts: seq<string>, sep: char)
    requires |parts| >= 1
    requires forall p | p in parts :: sep !in p
    ensures Split(Join(parts, sep), sep) == parts
    decreases |parts|, |parts[0]|
  {
    var first, joined := parts[0], Join(parts, sep);
    if |parts| == 1 && first == [] {
    } else if first == [] {
      SplitOfJoin(parts[1..], sep);
      assert joined[1..] == Join(parts[1..], sep);
      assert [[]] + parts[1..] == parts;
    } else {
      var shorter := parts[0 := first[1..]];
      assert parts[1..] == shorter[1..];
      assert joined == [first[0]] + Join(shorter, sep);
      assert forall i | 0 <= i < |shorter| :: sep !in shorter[i] by {
        assert forall i | 0 < i < |shorter| :: shorter[i] == parts[i] && parts[i] in parts;
        assert first in parts;
      }
      SplitOfJoin(shorter, sep);
      assert joined[1..] == Join(shorter, sep) && joined[0] == first[0];
      assert first[0] != sep by { assert first in parts && first[0] in first; }
      assert [first[0]] + first[1..] == first;
      assert [first] + parts[1..] == parts;
    }
  }

  /** Different strings split differently. */
  lemma SplitInjective(a: string, b: string, sep: char)
    requires Split(a, sep) == Split(b, sep)
    ensures a == b
  {
    JoinOfSplit(a, sep);
    JoinOfSplit(b, sep);
  }

  // Decimal numerals

  predicate IsDigit(c: char) {
    '0' <= c <= '9'
  }

  function DigitValue(c: char): (d: nat)
    requires IsDigit(c)
    ensures d < 10
  {
    (c - '0') as nat
  }

  /** `strconv.Itoa` and `%d` on a non-negative number. */
  function Decimal(n: nat): (s: string)
    ensures s != [] && forall c | c in s :: IsDigit(c)
  {
    if n < 10 then ['0' + n as char] else Decimal(n / 10) + ['0' + (n % 10) as char]
  }

  function DecimalValue(s: string): nat
    requires forall c | c in s :: IsDigit(c)
  {
    if s == [] then 0 else DecimalValue(s[..|s| - 1]) * 10 + DigitValue(s[|s| - 1])
  }

  lemma {:induction false} DecimalRoundTrip(n: nat)
    ensures DecimalValue(Decimal(n)) == n
  {
    if n < 10 {
      assert Decimal(n)[..0] == [];
    } else {
      DecimalRoundTrip(n / 10);
      assert Decimal(n)[..|Decimal(n)| - 1] == Decimal(n / 10);
    }
  }
}
