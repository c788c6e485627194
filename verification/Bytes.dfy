/**
 Octets and big-endian numbers.
 */
module Bytes {
  type byte = x: int | 0 <= x < 256

  type bytes = seq<byte>

  function Pow256(k: nat): (p: nat)
    ensures p >= 1
  {
    if k == 0 then 1 else 256 * Pow256(k - 1)
  }

  /** The low `width` octets of `n`, most significant first. */
  function BigEndian(n: nat, width: nat): (s: bytes)
    ensures |s| == width
  {
    if width == 0 then [] else BigEndian(n / 256, width - 1) + [n % 256]
  }

  function Number(s: bytes): nat {
    if s == [] then 0 else Number(s[..|s| - 1]) * 256 + s[|s| - 1]
  }

  lemma {:induction false} NumberOfBigEndian(n: nat, width: nat)
    requires n < Pow256(width)
    ensures Number(BigEndian(n, width)) == n
  {
    if width > 0 {
      NumberOfBigEndian(n / 256, width - 1);
      assert BigEndian(n, width)[..width - 1] == BigEndian(n / 256, width - 1);
    }
  }

  lemma {:induction false} NumberBound(s: bytes)
    ensures Number(s) < Pow256(|s|)
  {
    if s != [] {
      NumberBound(s[..|s| - 1]);
    }
  }

  /** Octets are the big-endian form of their number. */
  lemma {:induction false} BigEndianOfNumber(s: bytes)
    ensures BigEndian(Number(s), |s|) == s
  {
    if s != [] {
      var front, last := s[..|s| - 1], s[|s| - 1];
      BigEndianOfNumber(front);
      LastOctet(Number(front), last);
      assert s == front + [last];
    }
  }

  lemma LastOctet(n: nat, b: byte)
    ensures (n * 256 + b) / 256 == n && (n * 256 + b) % 256 == b
  {
  }

  /** Two-, four- and eight-octet fields. */
  lemma FieldBounds()
    ensures Pow256(1) == 0x100
    ensures Pow256(2) == 0x1_0000
    ensures Pow256(4) == 0x1_0000_0000
    ensures Pow256(8) == 0x1_0000_0000_0000_0000
  {
    assert Pow256(3) == 0x100_0000;
    assert Pow256(6) == 0x1_0000_0000_0000;
  }

  function Concat(parts: seq<bytes>): bytes {
    if parts == [] then [] else parts[0] + Concat(parts[1..])
  }
}
