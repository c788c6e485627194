/**
 Reading LDAP packets off a connection. The packet reader asks for the two
 header octets, and for any further length octets, with single `Read` calls; a
 single `Read` stops where the segment it started in stops. `cuts` are the
 offsets at which the network happened to cut the client's octets into segments.
 */
module LdapReader {
  import opened Basics
  import opened Bytes
  import opened Ber

  const MAX_PACKET := 10 * 1024 * 1024

  /** How many octets one `Read` into a buffer of `n` returns. */
  function ReadCount(cuts: set<nat>, total: nat, pos: nat, n: nat): (k: nat)
    requires pos <= total
    ensures k <= n && pos + k <= total
    ensures n > 0 && pos < total ==> k >= 1
    decreases n
  {
    if n == 0 || pos == total then 0
    else if pos + 1 in cuts then 1
    else 1 + ReadCount(cuts, total, pos + 1, n - 1)
  }

  /** A buffer of `n` zeros after a `Read` that returned `k` octets. */
  function Filled(input: bytes, pos: nat, k: nat, n: nat): (b: bytes)
    requires pos + k <= |input| && k <= n
    ensures |b| == n
  {
    input[pos..pos + k] + seq(n - k, _ => 0)
  }

  /** `Panicked` is the run-time panic of allocating a buffer of negative size. */
  datatype PacketResult = Packet(octets: bytes, next: nat) | Failed | Panicked

  function ReadBody(input: bytes, pos: nat, head: bytes, length: int): PacketResult
    requires pos <= |input|
  {
    if length > MAX_PACKET then Failed
    else if length < 0 then Panicked
    else if pos + length > |input| then Failed
    else Packet(head + input[pos..pos + length], pos + length)
  }

  /** What follows once the two header octets are in. */
  function ReadRest(input: bytes, cuts: set<nat>, pos: nat, head: bytes): (r: PacketResult)
    requires pos <= |input| && |head| == 2
    ensures r.Packet? ==> pos <= r.next <= |input|
  {
    if head[1] < 0x80 then ReadBody(input, pos, head, head[1])
    else
      var extra := head[1] - 0x80;
      if extra > 0 && pos == |input| then Failed
      else
        var j := ReadCount(cuts, |input|, pos, extra);
        var buf := Filled(input, pos, j, extra);
        ReadBody(input, pos + j, head + buf, Wrap(Number(buf)))
  }

  function ReadPacket(input: bytes, cuts: set<nat>, pos: nat): (r: PacketResult)
    requires pos <= |input|
    ensures r.Packet? ==> pos < r.next <= |input|
  {
    if pos == |input| then Failed
    else
      var k := ReadCount(cuts, |input|, pos, 2);
      ReadRest(input, cuts, pos + k, Filled(input, pos, k, 2))
  }

  /** The loop that shifts the length octets together. */
  method Accumulate(buf: bytes) returns (length: int)
    ensures length == Wrap(Number(buf))
  {
    length := 0;
    for i := 0 to |buf|
      invariant length == Wrap(Number(buf[..i]))
    {
      assert buf[..i + 1][..i] == buf[..i];
      WrapShift(Number(buf[..i]), buf[i]);
      length := Wrap(length * 256 + buf[i]);
    }
    assert buf[..|buf|] == buf;
  }

  class Conn {
    const input: bytes
    const cuts: set<nat>
    var pos: nat

    ghost predicate Valid()
      reads this
    {
      pos <= |input|
    }

    constructor (input: bytes, cuts: set<nat>)
      ensures Valid() && this.input == input && this.cuts == cuts && pos == 0
    {
      this.input, this.cuts, pos := input, cuts, 0;
    }

    /** One `Read`; it fails only at the end of the input. */
    method Read(n: nat) returns (buf: bytes, ok: bool)
      requires Valid()
      modifies this
      ensures Valid()
      ensures ok <==> n == 0 || old(pos) < |input|
      ensures pos == old(pos) + ReadCount(cuts, |input|, old(pos), n)
      ensures buf == Filled(input, old(pos), pos - old(pos), n)
    {
      var k := ReadCount(cuts, |input|, pos, n);
      buf, ok := Filled(input, pos, k, n), n == 0 || pos < |input|;
      pos := pos + k;
    }

    /** `io.ReadFull`. */
    method ReadFull(n: nat) returns (buf: bytes, ok: bool)
      requires Valid()
      modifies this
      ensures Valid()
      ensures ok <==> old(pos) + n <= |input|
      ensures ok ==> pos == old(pos) + n && buf == input[old(pos)..pos]
    {
      if pos + n > |input| {
        buf, ok, pos := input[pos..], false, |input|;
      } else {
        buf, ok := input[pos..pos + n], true;
        pos := pos + n;
      }
    }

    /** `readBERPacket`; where it returns a packet the connection stands behind it. */
    method ReadBerPacket() returns (r: PacketResult)
      requires Valid()
      modifies this
      ensures Valid()
      ensures r == ReadPacket(input, cuts, old(pos))
      ensures r.Packet? ==> pos == r.next
    {
      var head, got := Read(2);
      if !got {
        return Failed;
      }
      r := FinishHeader(head);
    }

    /** The remaining length octets. */
    method FinishHeader(head: bytes) returns (r: PacketResult)
      requires Valid() && |head| == 2
      modifies this
      ensures Valid()
      ensures r == ReadRest(input, cuts, old(pos), head)
      ensures r.Packet? ==> pos == r.next
    {
      if head[1] < 0x80 {
        r := FinishPacket(head, head[1]);
        return;
      }
      var buf, more := Read(head[1] - 0x80);
      if !more {
        return Failed;
      }
      var length := Accumulate(buf);
      r := FinishPacket(head + buf, length);
    }

    /** The size check and the body. */
    method FinishPacket(head: bytes, length: int) returns (r: PacketResult)
      requires Valid()
      modifies this
      ensures Valid()
      ensures r == ReadBody(input, old(pos), head, length)
      ensures r.Packet? ==> pos == r.next
    {
      if length > MAX_PACKET {
        return Failed;
      }
      if length < 0 {
        return Panicked;
      }
      var body, full := ReadFull(length);
      if !full {
        return Failed;
      }
      return Packet(head + body, pos);
    }
  }

  // When the server panics

  /** The length octets that one `Read` gets, if the header announces any and any are to come. */
  function ExtraOctets(input: bytes, cuts: set<nat>, pos: nat): bytes
    requires pos <= |input|
  {
    var k := ReadCount(cuts, |input|, pos, 2);
    var head := Filled(input, pos, k, 2);
    if head[1] < 0x80 || pos + k == |input| then []
    else Filled(input, pos + k, ReadCount(cuts, |input|, pos + k, head[1] - 0x80), head[1] - 0x80)
  }

  /** The reader panics exactly when its length octets make a negative `int`. */
  lemma ReaderPanicsIff(input: bytes, cuts: set<nat>, pos: nat)
    requires pos <= |input|
    ensures ReadPacket(input, cuts, pos) == Panicked <==> Wrap(Number(ExtraOctets(input, cuts, pos))) < 0
    ensures |ExtraOctets(input, cuts, pos)| <= 7 ==> ReadPacket(input, cuts, pos) != Panicked
  {
    var extra := ExtraOctets(input, cuts, pos);
    NumberBound(extra);
    if |extra| <= 7 {
      PowMonotone(|extra|, 7);
      PowSeven();
    }
  }

  /** A header as read: its octets, the length they declare, and how much it took off the connection. */
  datatype HeaderResult = Header(head: bytes, length: int, taken: nat) | NoHeader

  function HeaderAt(input: bytes, cuts: set<nat>, pos: nat): (r: HeaderResult)
    requires pos <= |input|
    ensures r.Header? ==> pos + r.taken <= |input|
  {
    var k := ReadCount(cuts, |input|, pos, 2);
    var head := Filled(input, pos, k, 2);
    if k == 0 then NoHeader
    else if head[1] < 0x80 then Header(head, head[1], k)
    else
      var extra := head[1] - 0x80;
      var j := ReadCount(cuts, |input|, pos + k, extra);
      var buf := Filled(input, pos + k, j, extra);
      if j == 0 < extra then NoHeader else Header(head + buf, Wrap(Number(buf)), k + j)
  }

  lemma PacketHasHeader(input: bytes, cuts: set<nat>, pos: nat)
    requires pos <= |input|
    ensures var h := HeaderAt(input, cuts, pos);
            ReadPacket(input, cuts, pos) ==
            if h.NoHeader? then Failed else ReadBody(input, pos + h.taken, h.head, h.length)
  {
  }

  /** A packet is read exactly when a header is there and announces at most 10 MiB that are there too. */
  lemma PacketReadIff(input: bytes, cuts: set<nat>, pos: nat)
    requires pos <= |input|
    ensures var r, h := ReadPacket(input, cuts, pos), HeaderAt(input, cuts, pos);
            && (r.Packet? <==> h.Header? && 0 <= h.length <= 10 * 1024 * 1024 && pos + h.taken + h.length <= |input|)
            && (r.Packet? ==>
                  var start, end := pos + h.taken, pos + h.taken + h.length;
                  r == Packet(h.head + input[start..end], end))
  {
    PacketHasHeader(input, cuts, pos);
  }

  /** What `parseLDAPEnvelope` looks at: the octets after the length field. */
  function Contents(packet: bytes): bytes
    requires |packet| >= 2
  {
    var hdr := 1 + DeclaredLength(packet[1..]).1;
    if hdr > |packet| then [] else packet[hdr..]
  }

  /** A packet that was read panics the parser exactly when one of the two values in it has a bad length. */
  lemma ParserPanicsIff(input: bytes, cuts: set<nat>, pos: nat)
    requires pos <= |input| && ReadPacket(input, cuts, pos).Packet?
    ensures var packet := ReadPacket(input, cuts, pos).octets;
            && |packet| >= 2
            && var id := Contents(packet);
            && (Parse(packet) == Panics <==>
                BadLength(id) || (ReadTLV(id).Tlv? && ReadTLV(id).tag == 0x02 && BadLength(id[ReadTLV(id).consumed..])))
  {
    ReadPacketComplete(input, cuts, pos);
    ParsePanicsIff(ReadPacket(input, cuts, pos).octets);
  }

  /** A packet that was read has all the length octets it announces. */
  lemma ReadPacketComplete(input: bytes, cuts: set<nat>, pos: nat)
    requires pos <= |input| && ReadPacket(input, cuts, pos).Packet?
    ensures var packet := ReadPacket(input, cuts, pos).octets;
            |packet| >= 2 && 1 + DeclaredLength(packet[1..]).1 <= |packet|
  {
    var packet := ReadPacket(input, cuts, pos).octets;
    var head := Filled(input, pos, ReadCount(cuts, |input|, pos, 2), 2);
    assert packet[0] == head[0] && packet[1] == head[1] && packet[1..][0] == head[1];
  }

  lemma ParsePanicsIff(packet: bytes)
    requires |packet| >= 2 && 1 + DeclaredLength(packet[1..]).1 <= |packet|
    ensures var id := Contents(packet);
            Parse(packet) == Panics <==>
            BadLength(id) || (ReadTLV(id).Tlv? && ReadTLV(id).tag == 0x02 && BadLength(id[ReadTLV(id).consumed..]))
  {
    var id := Contents(packet);
    assert Parse(packet) == ParseContent(id);
    OverrunIffBadLength(id);
    if ReadTLV(id).Tlv? {
      OverrunIffBadLength(id[ReadTLV(id).consumed..]);
    }
  }

  /** Two values with at most seven length octets each are always parsed. */
  lemma ShortLengthsParse(input: bytes, cuts: set<nat>, pos: nat)
    requires pos <= |input| && ReadPacket(input, cuts, pos).Packet?
    requires var packet := ReadPacket(input, cuts, pos).octets;
             && |packet| >= 2
             && var id := Contents(packet);
             && LengthOctets(id) <= 7
             && (ReadTLV(id).Tlv? ==> LengthOctets(id[ReadTLV(id).consumed..]) <= 7)
    ensures Parse(ReadPacket(input, cuts, pos).octets) != Panics
  {
    var id := Contents(ReadPacket(input, cuts, pos).octets);
    ParserPanicsIff(input, cuts, pos);
    SevenLengthOctetsAreSafe(id);
    OverrunIffBadLength(id);
    SevenLengthOctetsAreSafe(id[ReadTLV(id).consumed..]);
    OverrunIffBadLength(id[ReadTLV(id).consumed..]);
  }

  /** Eight length octets of which only the top bit is set. */
  const TopBit: bytes := [0x80, 0, 0, 0, 0, 0, 0, 0]

  lemma TopBitIsNegative()
    ensures Number(TopBit) == 0x8000_0000_0000_0000 && Wrap(Number(TopBit)) < 0
  {
    assert TopBit[..7] == [0x80, 0, 0, 0, 0, 0, 0] && TopBit[..7][..6] == [0x80, 0, 0, 0, 0, 0];
    assert TopBit[..7][..6][..5] == [0x80, 0, 0, 0, 0] && TopBit[..7][..6][..5][..4] == [0x80, 0, 0, 0];
    var four: bytes := [0x80, 0, 0, 0];
    assert four[..3] == [0x80, 0, 0] && four[..3][..2] == [0x80, 0] && four[..3][..2][..1] == [0x80];
    assert [0x80 as byte][..0] == [];
    assert Number([0x80]) == 0x80;
    assert Number([0x80, 0]) == 0x8000;
    assert Number([0x80, 0, 0]) == 0x80_0000;
    assert Number(four) == 0x8000_0000;
    assert Number([0x80, 0, 0, 0, 0]) == 0x80_0000_0000;
    assert Number([0x80, 0, 0, 0, 0, 0]) == 0x8000_0000_0000;
    assert Number([0x80, 0, 0, 0, 0, 0, 0]) == 0x80_0000_0000_0000;
  }

  /** A value that declares a length of -2^63. */
  function BadValue(tag: byte): bytes {
    [tag, 0x88] + TopBit
  }

  lemma BadValueIsBad(tag: byte)
    ensures BadLength(BadValue(tag)) && ReadTLV(BadValue(tag)) == Overrun
  {
    var b := BadValue(tag);
    assert b[1..] == [0x88] + TopBit && ([0x88] + TopBit)[1..9] == TopBit;
    TopBitIsNegative();
    OverrunIffBadLength(b);
  }

  /** Twelve octets, read whole, that make the parser panic. */
  lemma TwelveOctetsPanicTheParser()
    ensures var input := [0x30, 0x0A, 0x02, 0x88] + TopBit;
            ReadPacket(input, {}, 0) == Packet(input, 12) && Parse(input) == Panics
  {
    var input := [0x30, 0x0A, 0x02, 0x88] + TopBit;
    ReadTwo(input, {}, 0);
    assert [0x30, 0x0A] + input[2..12] == input;
    assert input[2..] == BadValue(0x02);
    BadValueIsBad(0x02);
    ParseShort(input);
  }

  lemma ParseShort(packet: bytes)
    requires |packet| >= 2 && packet[1] < 0x80
    ensures Parse(packet) == ParseContent(packet[2..])
  {
    assert packet[1..][0] == packet[1];
  }

  /** Ten octets that make the reader itself panic. */
  lemma TenOctetsPanicTheReader()
    ensures ReadPacket([0x30, 0x88] + TopBit, {}, 0) == Panicked
  {
    var input := [0x30, 0x88] + TopBit;
    TopBitIsNegative();
    ReadTwo(input, {}, 0);
    ReadAllOf(|input|, 2, 8);
    assert Filled(input, 2, 8, 8) == TopBit;
  }

  lemma {:induction false} ReadAllOf(total: nat, pos: nat, n: nat)
    requires pos + n <= total
    ensures ReadCount({}, total, pos, n) == n
    decreases n
  {
    if n > 0 {
      ReadAllOf(total, pos + 1, n - 1);
    }
  }

  // Where segments may be cut

  /** The octets of `m` stand at `pos`. */
  predicate At(input: bytes, pos: nat, m: Message) {
    pos + |m.Build()| <= |input| && input[pos..pos + |m.Build()|] == m.Build()
  }

  /** No segment ends inside the two header octets, nor inside the two octets of a long length. */
  predicate Undivided(cuts: set<nat>, pos: nat, m: Message) {
    pos + 1 !in cuts && (|m.Body()| >= 0x100 ==> pos + 3 !in cuts)
  }

  lemma BodyStart(m: Message)
    requires m.Valid()
    ensures |m.Body()| >= 5 && m.Body()[0] == 0x02
  {
    IdOctets(m);
  }

  /** Cutting a known front off what is left of the input. */
  lemma FrontOfRest(input: bytes, pos: nat, front: bytes, rest: bytes)
    requires pos <= |input| && input[pos..] == front + rest
    ensures pos + |front| <= |input|
    ensures input[pos..pos + |front|] == front && input[pos + |front|..] == rest
  {
    var left := input[pos..];
    assert left[..|front|] == front && left[|front|..] == rest;
    SliceOfSlice(input, pos, |input|, 0, |front|);
    SliceOfSlice(input, pos, |input|, |front|, |left|);
  }

  /** The octets of a message, one by one up to its body. */
  lemma MessageOctets(input: bytes, pos: nat, m: Message)
    requires At(input, pos, m)
    ensures var n := |m.Body()|; var l := |BerLen(n)|;
            && |m.Build()| == 1 + l + n
            && input[pos] == 0x30
            && input[pos + 1..pos + 1 + l] == BerLen(n)
            && input[pos + 1 + l..pos + 1 + l + n] == m.Body()
  {
    var w := m.Build();
    var l := |BerLen(|m.Body()|)|;
    assert input[pos] == input[pos..pos + |w|][0];
    SliceOfSlice(input, pos, pos + |w|, 1, 1 + l);
    SliceOfSlice(input, pos, pos + |w|, 1 + l, |w|);
    assert w[1..1 + l] == BerLen(|m.Body()|);
    assert w[1 + l..|w|] == m.Body();
  }

  lemma ReadTwo(input: bytes, cuts: set<nat>, pos: nat)
    requires pos + 2 <= |input|
    ensures pos + 1 !in cuts ==>
              ReadCount(cuts, |input|, pos, 2) == 2 && Filled(input, pos, 2, 2) == [input[pos], input[pos + 1]]
    ensures pos + 1 in cuts ==>
              ReadCount(cuts, |input|, pos, 2) == 1 && Filled(input, pos, 1, 2) == [input[pos], 0]
  {
    if pos + 1 !in cuts {
      var after := ReadCount(cuts, |input|, pos + 1, 1);
      assert after == 1;
    }
  }

  lemma SplitHeaderMisreads(input: bytes, cuts: set<nat>, pos: nat, m: Message)
    requires m.Valid() && At(input, pos, m) && pos + 1 in cuts
    ensures ReadPacket(input, cuts, pos) == Packet([0x30, 0], pos + 1)
  {
    MessageOctets(input, pos, m);
    BodyStart(m);
    ReadTwo(input, cuts, pos);
    assert input[pos + 1..pos + 1] == [];
  }

  /** The header and the length octets of a message with a long length. */
  lemma LongHeader(input: bytes, pos: nat, m: Message)
    requires At(input, pos, m) && |m.Body()| >= 0x100
    ensures input[pos + 1] == 0x82
    ensures input[pos + 2] == |m.Body()| / 256 % 256 && input[pos + 3] == |m.Body()| % 256
    ensures input[pos + 4..pos + 4 + |m.Body()|] == m.Body()
    ensures |m.Build()| == 4 + |m.Body()|
  {
    MessageOctets(input, pos, m);
    var len := input[pos + 1..pos + 4];
    assert len[0] == input[pos + 1] && len[1] == input[pos + 2] && len[2] == input[pos + 3];
  }

  lemma TwoOctets(a: byte, b: byte)
    ensures Number([a, b]) == a as int * 256 + b
  {
    assert [a, b][..1] == [a] && [a][..0] == [];
    assert Number([a]) == a;
  }

  lemma LowOctets(n: nat)
    ensures Number([n / 256 % 256, n % 256]) == n % 0x1_0000
  {
    TwoOctets(n / 256 % 256, n % 256);
  }

  lemma SplitLengthRead(input: bytes, cuts: set<nat>, pos: nat)
    requires pos + 4 <= |input| && input[pos] == 0x30 && input[pos + 1] == 0x82
    requires pos + 1 !in cuts && pos + 3 in cuts
    ensures ReadPacket(input, cuts, pos) ==
            ReadBody(input, pos + 3, [0x30, 0x82, input[pos + 2], 0], input[pos + 2] as int * 256)
  {
    ReadTwo(input, cuts, pos);
    ReadTwo(input, cuts, pos + 2);
    var buf: bytes := [input[pos + 2], 0];
    TwoOctets(input[pos + 2], 0);
    assert [0x30, 0x82] + buf == [0x30, 0x82, input[pos + 2], 0];
  }

  lemma SplitLengthMisreads(input: bytes, cuts: set<nat>, pos: nat, m: Message)
    requires m.Valid() && At(input, pos, m) && pos + 1 !in cuts && |m.Body()| >= 0x100 && pos + 3 in cuts
    ensures var r := ReadPacket(input, cuts, pos);
            && r == ReadBody(input, pos + 3, [0x30, 0x82, input[pos + 2], 0], input[pos + 2] as int * 256)
            && (r.Packet? ==> r.octets != m.Build())
  {
    LongHeader(input, pos, m);
    assert input[pos] == 0x30 by { MessageOctets(input, pos, m); }
    SplitLengthRead(input, cuts, pos);
    SplitBodyDiffers(input, pos, m);
  }

  lemma SplitBodyDiffers(input: bytes, pos: nat, m: Message)
    requires m.Valid() && At(input, pos, m) && |m.Body()| >= 0x100
    ensures var r := ReadBody(input, pos + 3, [0x30, 0x82, input[pos + 2], 0], input[pos + 2] as int * 256);
            r.Packet? ==> r.octets != m.Build()
  {
    var r := ReadBody(input, pos + 3, [0x30, 0x82, input[pos + 2], 0], input[pos + 2] as int * 256);
    LongHeader(input, pos, m);
    BodyStart(m);
    LongBuild(m);
    assert m.Build()[3] == input[pos + 3] && m.Build()[4] == 0x02;
    if r.Packet? && |r.octets| > 4 {
      assert r.octets[3] == 0 && r.octets[4] == input[pos + 3];
    }
  }

  lemma TinyMessageRead(input: bytes, cuts: set<nat>, pos: nat, m: Message)
    requires m.Valid() && At(input, pos, m) && pos + 1 !in cuts && |m.Body()| < 0x80
    ensures ReadPacket(input, cuts, pos) == Packet(m.Build(), pos + |m.Build()|)
  {
    var n := |m.Body()|;
    MessageOctets(input, pos, m);
    ReadTwo(input, cuts, pos);
    assert input[pos + 1..pos + 2][0] == input[pos + 1];
    assert [0x30 as byte, n] + m.Body() == m.Build();
  }

  lemma ShortMessageRead(input: bytes, cuts: set<nat>, pos: nat, m: Message)
    requires m.Valid() && At(input, pos, m) && pos + 1 !in cuts && 0x80 <= |m.Body()| < 0x100
    ensures ReadPacket(input, cuts, pos) == Packet(m.Build(), pos + |m.Build()|)
  {
    var n := |m.Body()|;
    MessageOctets(input, pos, m);
    ReadTwo(input, cuts, pos);
    var len := input[pos + 1..pos + 3];
    assert len[0] == input[pos + 1] && len[1] == input[pos + 2];
    assert ReadCount(cuts, |input|, pos + 2, 1) == 1;
    assert Filled(input, pos + 2, 1, 1) == [n];
    assert Number([n as byte]) == n by {
      assert [n as byte][..0] == [];
    }
    assert [0x30, 0x81] + [n as byte] + m.Body() == m.Build();
  }

  lemma LongMessageRead(input: bytes, cuts: set<nat>, pos: nat, m: Message)
    requires m.Valid() && At(input, pos, m) && pos + 1 !in cuts && |m.Body()| >= 0x100 && pos + 3 !in cuts
    ensures ReadPacket(input, cuts, pos) ==
            ReadBody(input, pos + 4, [0x30, 0x82, |m.Body()| / 256 % 256, |m.Body()| % 256], |m.Body()| % 0x1_0000)
  {
    var n := |m.Body()|;
    MessageOctets(input, pos, m);
    LongHeader(input, pos, m);
    ReadTwo(input, cuts, pos);
    ReadTwo(input, cuts, pos + 2);
    LowOctets(n);
    var hi: byte, lo: byte := n / 256 % 256, n % 256;
    assert [0x30, 0x82] + [hi, lo] == [0x30, 0x82, hi, lo];
  }

  lemma UndividedLongRead(input: bytes, cuts: set<nat>, pos: nat, m: Message)
    requires m.Valid() && m.Fits() && At(input, pos, m) && |m.Body()| >= 0x100 && Undivided(cuts, pos, m)
    ensures ReadPacket(input, cuts, pos) == Packet(m.Build(), pos + |m.Build()|)
  {
    LongMessageRead(input, cuts, pos, m);
    WholeBody(input, pos, m, |m.Body()|, [0x30, 0x82, |m.Body()| / 256 % 256, |m.Body()| % 256]);
  }

  lemma WholeBody(input: bytes, pos: nat, m: Message, n: nat, head: bytes)
    requires m.Fits() && At(input, pos, m) && n == |m.Body()| >= 0x100
    requires head == [0x30, 0x82, n / 256 % 256, n % 256]
    ensures pos + 4 <= |input|
    ensures ReadBody(input, pos + 4, head, n % 0x1_0000) == Packet(m.Build(), pos + |m.Build()|)
  {
    LongHeader(input, pos, m);
    LongBuild(m);
  }

  /** A message that fits is read whole exactly when the segments leave its header and length octets undivided. */
  lemma MessageReadIffUndivided(input: bytes, cuts: set<nat>, pos: nat, m: Message)
    requires m.Valid() && m.Fits() && At(input, pos, m)
    ensures ReadPacket(input, cuts, pos) == Packet(m.Build(), pos + |m.Build()|) <==> Undivided(cuts, pos, m)
  {
    if !Undivided(cuts, pos, m) {
      MisreadPacketDiffers(input, cuts, pos, m);
    } else if |m.Body()| < 0x80 {
      TinyMessageRead(input, cuts, pos, m);
    } else if |m.Body()| < 0x100 {
      ShortMessageRead(input, cuts, pos, m);
    } else {
      UndividedLongRead(input, cuts, pos, m);
    }
  }

  /** A divided message that fits never comes out as itself. */
  lemma MisreadPacketDiffers(input: bytes, cuts: set<nat>, pos: nat, m: Message)
    requires m.Valid() && m.Fits() && At(input, pos, m) && !Undivided(cuts, pos, m)
    ensures var r := ReadPacket(input, cuts, pos); r.Packet? ==> r.octets != m.Build()
  {
    BodyStart(m);
    if pos + 1 in cuts {
      SplitHeaderMisreads(input, cuts, pos, m);
    } else {
      SplitLengthMisreads(input, cuts, pos, m);
    }
  }

  lemma LongBuild(m: Message)
    requires |m.Body()| >= 0x100
    ensures m.Build() == [0x30, 0x82, |m.Body()| / 256 % 256, |m.Body()| % 256] + m.Body()
  {
  }
}
