/**
 The LDAP server's BER codec: length octets (section 8.1.3 of X.690), tagged
 values, and the message envelope (section 4.1.1 of RFC 4511).
 */
module Ber {
  import opened Basics
  import opened Bytes

  /** `berLen`: beyond two octets the length is truncated. */
  function BerLen(n: nat): (s: bytes)
    ensures 1 <= |s| <= 3
  {
    if n < 0x80 then [n]
    else if n < 0x100 then [0x81, n]
    else [0x82, n / 256 % 256, n % 256]
  }

  function BerTLV(tag: byte, content: bytes): bytes {
    [tag] + BerLen(|content|) + content
  }

  // Go's `int` is a signed 64-bit number

  const MAX_INT := 0x7FFF_FFFF_FFFF_FFFF

  function Wrap(n: int): (w: int)
    ensures -MAX_INT - 1 <= w <= MAX_INT
    ensures -MAX_INT - 1 <= n <= MAX_INT ==> w == n
  {
    (n + 0x8000_0000_0000_0000) % 0x1_0000_0000_0000_0000 - 0x8000_0000_0000_0000
  }

  /** `length<<8 | b` may be wrapped at every step or once at the end. */
  lemma WrapShift(n: int, b: byte)
    ensures Wrap(Wrap(n) * 256 + b) == Wrap(n * 256 + b)
  {
    var k := (n + 0x8000_0000_0000_0000) / 0x1_0000_0000_0000_0000;
    assert Wrap(n) == n - k * 0x1_0000_0000_0000_0000;
    WrapMultiple(n * 256 + b, 256 * k);
  }

  lemma WrapMultiple(n: int, k: int)
    ensures Wrap(n - k * 0x1_0000_0000_0000_0000) == Wrap(n)
  {
  }

  /** The length a definite-form length field declares, as far as an `int` holds it, and the size of the field. */
  function DeclaredLength(b: bytes): (int, nat) {
    if |b| == 0 then (0, 0)
    else if b[0] < 0x80 then (b[0], 1)
    else
      var n := b[0] - 0x80;
      (Wrap(Number(b[1..1 + Min(n, |b| - 1)])), 1 + n)
  }

  /** `tlvLength`. */
  method TlvLength(b: bytes) returns (length: int, hdr: nat)
    ensures (length, hdr) == DeclaredLength(b)
  {
    if |b| == 0 {
      return 0, 0;
    }
    if b[0] < 0x80 {
      return b[0], 1;
    }
    var n := b[0] - 0x80;
    length := 0;
    var i := 0;
    while i < n && i + 1 < |b|
      invariant 0 <= i <= Min(n, |b| - 1)
      invariant length == Wrap(Number(b[1..1 + i]))
    {
      assert b[1..2 + i][..i] == b[1..1 + i];
      WrapShift(Number(b[1..1 + i]), b[i + 1]);
      length := Wrap(length * 256 + b[i + 1]);
      i := i + 1;
    }
    hdr := 1 + n;
  }

  /** `Overrun` is the run-time panic of a slice whose end lies before its start. */
  datatype TlvResult = Tlv(tag: byte, content: bytes, consumed: nat) | Overrun

  /**
   `readTLV`: unless it panics it consumes no more octets than there are, and its
   content is the run that ends where it stopped.
   */
  function ReadTLV(b: bytes): (r: TlvResult)
    ensures r.Tlv? ==> r.consumed <= |b|
    ensures r.Tlv? ==> |r.content| <= r.consumed && r.content == b[r.consumed - |r.content|..r.consumed]
    ensures r.Tlv? && |b| >= 2 ==> 2 <= r.consumed && r.tag == b[0]
  {
    if |b| < 2 then Tlv(0, [], |b|)
    else
      var (length, hdr) := DeclaredLength(b[1..]);
      var start := 1 + hdr;
      if start > |b| then Tlv(b[0], [], |b|)
      else
        var end := Min(Wrap(start + length), |b|);
        if end < start then Overrun else Tlv(b[0], b[start..end], end)
  }

  /** With a complete length field and no bad length, the content is the declared octets or as many as there are. */
  lemma TlvTakes(b: bytes)
    requires |b| >= 2 && !BadLength(b)
    ensures var (length, hdr) := DeclaredLength(b[1..]);
            1 + hdr <= |b| ==>
              && length >= 0
              && ReadTLV(b) == Tlv(b[0], b[1 + hdr..Min(1 + hdr + length, |b|)], Min(1 + hdr + length, |b|))
  {
  }

  /** The length field is all there, and declares a length that is negative or does not fit behind it. */
  predicate BadLength(b: bytes) {
    && |b| >= 2
    && var (length, hdr) := DeclaredLength(b[1..]);
    && 1 + hdr <= |b|
    && (length < 0 || 1 + hdr + length > MAX_INT)
  }

  /** `readTLV` panics on exactly these inputs. */
  lemma OverrunIffBadLength(b: bytes)
    ensures ReadTLV(b) == Overrun <==> BadLength(b)
  {
    if |b| >= 2 {
      var (length, hdr) := DeclaredLength(b[1..]);
      if 1 + hdr + length > MAX_INT && length >= 0 {
        assert Wrap(1 + hdr + length) < 0;
      }
    }
  }

  /** The number of octets of a length field after its first. */
  function LengthOctets(b: bytes): nat {
    if |b| < 2 || b[1] < 0x80 then 0 else b[1] - 0x80
  }

  /** So it takes eight length octets to make it panic. */
  lemma SevenLengthOctetsAreSafe(b: bytes)
    requires LengthOctets(b) <= 7
    ensures ReadTLV(b).Tlv?
  {
    OverrunIffBadLength(b);
    if |b| >= 2 && b[1] >= 0x80 {
      var s := b[1..][1..1 + Min(b[1] - 0x80, |b| - 2)];
      NumberBound(s);
      PowMonotone(|s|, 7);
      PowSeven();
    }
  }

  lemma PowSeven()
    ensures Pow256(7) == 0x100_0000_0000_0000
  {
    assert Pow256(3) == 0x100_0000;
    assert Pow256(5) == 0x100_0000_0000;
  }

  lemma {:induction false} PowMonotone(j: nat, k: nat)
    requires j <= k
    ensures Pow256(j) <= Pow256(k)
    decreases k - j
  {
    if j < k {
      PowMonotone(j + 1, k);
    }
  }

  /** A written length reads back modulo 65536. */
  lemma LengthRoundTrip(n: nat, rest: bytes)
    ensures DeclaredLength(BerLen(n) + rest) == (n % 0x1_0000, |BerLen(n)|)
  {
    var b := BerLen(n) + rest;
    if n >= 0x100 {
      var s := b[1..3];
      assert s[..1][..0] == [] && s[..1] == [s[0]];
      assert Number(s[..1]) == s[0];
      assert Number(s) == s[0] as int * 256 + s[1];
      assert n % 0x1_0000 == n / 256 % 256 * 256 + n % 256;
    } else if n >= 0x80 {
      assert b[1..2] == [n] && [n as byte][..0] == [];
      assert Number(b[1..2]) == n;
    }
  }

  lemma ReadDeclared(b: bytes, length: nat, hdr: nat)
    requires |b| >= 2 && DeclaredLength(b[1..]) == (length, hdr) && 1 + hdr + length <= |b|
             && length < 0x1_0000 && hdr < 4
    ensures ReadTLV(b) == Tlv(b[0], b[1 + hdr..1 + hdr + length], 1 + hdr + length)
  {
  }

  /** So a value reads back, leaving what follows, exactly when its length fits two octets. */
  lemma TlvRoundTrip(tag: byte, content: bytes, rest: bytes)
    ensures ReadTLV(BerTLV(tag, content) + rest) == Tlv(tag, content, |BerTLV(tag, content)|) <==> |content| < 0x1_0000
  {
    var b := BerTLV(tag, content) + rest;
    var len, n := BerLen(|content|), |content| % 0x1_0000;
    assert b[1..] == len + (content + rest);
    LengthRoundTrip(|content|, content + rest);
    ReadDeclared(b, n, |len|);
    if |content| < 0x1_0000 {
      assert b[1 + |len|..1 + |len| + n] == content;
    }
  }

  // Integers

  function Octets(v: nat): (s: bytes) {
    if v == 0 then [] else Octets(v / 256) + [v % 256]
  }

  /** `encodeInt`, which gives a negative number no octets. */
  method EncodeInt(v: int) returns (out: bytes)
    ensures out == EncodedInt(v)
  {
    if v == 0 {
      return [0];
    }
    out := [];
    var rest := v;
    while rest > 0
      invariant v > 0 ==> rest >= 0 && Octets(v) == Octets(rest) + out
      invariant v < 0 ==> rest == v && out == []
    {
      out := [rest % 256] + out;
      rest := rest / 256;
    }
  }

  function EncodedInt(v: int): bytes {
    if v == 0 then [0] else if v < 0 then [] else Octets(v)
  }

  lemma {:induction false} IntRoundTrip(v: nat)
    ensures Number(EncodedInt(v)) == v
  {
    if v > 0 {
      NumberOfOctets(v);
    } else {
      assert [0][..0] == [];
    }
  }

  lemma {:induction false} NumberOfOctets(v: nat)
    ensures Number(Octets(v)) == v
  {
    if v > 0 {
      NumberOfOctets(v / 256);
      assert Octets(v)[..|Octets(v)| - 1] == Octets(v / 256);
    }
  }

  lemma {:induction false} OctetsBound(v: nat, k: nat)
    requires v < Pow256(k)
    ensures |Octets(v)| <= k
  {
    if v > 0 {
      OctetsBound(v / 256, k - 1);
    }
  }

  // Messages

  datatype Message = Message(id: int, tag: byte, content: bytes) {
    predicate Valid() {
      0 <= id < 0x8000_0000_0000_0000
    }

    function Body(): bytes {
      BerTLV(0x02, EncodedInt(id)) + BerTLV(tag, content)
    }

    /** The body length fits the two length octets `berLen` can write. */
    predicate Fits() {
      |Body()| < 0x1_0000
    }

    /** `buildLDAPMessage`. */
    function Build(): bytes {
      BerTLV(0x30, Body())
    }
  }

  /** `Panics` is a slice out of range. */
  datatype Envelope = Envelope(id: int, tag: byte, content: bytes) | Panics

  /** `parseLDAPEnvelope`. */
  function Parse(packet: bytes): Envelope {
    if |packet| == 0 then Panics
    else
      var (_, hdr) := DeclaredLength(packet[1..]);
      if 1 + hdr > |packet| then Panics else ParseContent(packet[1 + hdr..])
  }

  /** The message id and the operation inside the envelope. */
  function ParseContent(content: bytes): Envelope {
    match ReadTLV(content)
    case Overrun => Panics
    case Tlv(tag, id, next) =>
      if tag != 0x02 then Envelope(0, 0, [])
      else
        match ReadTLV(content[next..])
        case Overrun => Panics
        case Tlv(opTag, op, _) => Envelope(Wrap(Number(id)), opTag, op)
  }

  lemma IdOctets(m: Message)
    requires m.Valid()
    ensures 1 <= |EncodedInt(m.id)| <= 8
  {
    FieldBounds();
    OctetsBound(m.id, 8);
  }

  /** A message that fits parses back into itself. */
  lemma ParseRoundTrip(m: Message)
    requires m.Valid() && m.Fits()
    ensures Parse(m.Build()) == Envelope(m.id, m.tag, m.content)
  {
    var packet, body := m.Build(), m.Body();
    var id, op := BerTLV(0x02, EncodedInt(m.id)), BerTLV(m.tag, m.content);
    assert packet[1..] == BerLen(|body|) + body;
    LengthRoundTrip(|body|, body);
    assert packet[1 + |BerLen(|body|)|..] == body;
    IdOctets(m);
    TlvRoundTrip(0x02, EncodedInt(m.id), op);
    assert body[|id|..] == op;
    IntRoundTrip(m.id);
    TlvRoundTrip(m.tag, m.content, []);
    assert op + [] == op;
  }
}
