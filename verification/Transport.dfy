/** MTProto transport packets: the encodings a client may use, and the length
    rule by which the proxy recognises one packet at the head of a stream. */
module Transport {
  import opened Octets

  const PROTO_ABRIDGED := 0xEFEFEFEF
  const PROTO_INTERMEDIATE := 0xEEEEEEEE
  const PROTO_PADDED_INTERMEDIATE := 0xDDDDDDDD

  /** A packet as a client writes it.  `ack` is the quick-acknowledgement bit. */
  datatype Packet =
    | AbridgedShort(ack: bool, payload: Bytes)
    | AbridgedLong(ack: bool, payload: Bytes)
    | Intermediate(ack: bool, payload: Bytes)

  predicate WellFormed(proto: int, p: Packet) {
    && p.payload != []
    && (p.Intermediate? ==> proto in {PROTO_INTERMEDIATE, PROTO_PADDED_INTERMEDIATE} && |p.payload| < 0x8000_0000)
    && (!p.Intermediate? ==> proto == PROTO_ABRIDGED && |p.payload| % 4 == 0)
    && (p.AbridgedShort? ==> |p.payload| / 4 < 0x7F)
    && (p.AbridgedLong? ==> |p.payload| / 4 < 0x100_0000)
  }

  /** First byte of a long abridged header. */
  function LongMarker(ack: bool): byte {
    var marker: byte := if ack then 0xFF else 0x7F;
    marker
  }

  /** Header and payload; a length too big for its header field is cut to it. */
  function Encode(p: Packet): Bytes {
    match p
    case AbridgedShort(ack, d) => [|d| / 4 % 0x80 + if ack then 0x80 else 0] + d
    case AbridgedLong(ack, d) => [LongMarker(ack)] + Le(|d| / 4, 3) + d
    case Intermediate(ack, d) => Le(|d| + if ack then 0x8000_0000 else 0, 4) + d
  }

  /** The stream of a list of packets. */
  function EncodeAll(ps: seq<Packet>): Bytes {
    if ps == [] then [] else Encode(ps[0]) + EncodeAll(ps[1..])
  }

  /** Length of the abridged packet at the head of `plain`: None while undecidable
      or incomplete, 0 for a header announcing an empty packet. */
  function NextAbridgedLen(plain: Bytes): Option<nat>
    requires plain != []
  {
    var first: int := plain[0];
    if first in {0x7F, 0xFF} then
      if |plain| < 4 then None
      else Complete(plain, 4, FromLe(plain[1..4]) * 4)
    else
      Complete(plain, 1, first % 0x80 * 4)
  }

  function NextIntermediateLen(plain: Bytes): Option<nat> {
    if |plain| < 4 then None
    else Complete(plain, 4, FromLe(plain[..4]) % 0x8000_0000)
  }

  function Complete(plain: Bytes, headerLen: nat, payloadLen: nat): Option<nat> {
    if payloadLen <= 0 then Some(0)
    else if |plain| < headerLen + payloadLen then None
    else Some(headerLen + payloadLen)
  }

  function NextPacketLen(proto: int, plain: Bytes): Option<nat> {
    if |plain| <= 0 then None
    else if proto == PROTO_ABRIDGED then NextAbridgedLen(plain)
    else if proto in {PROTO_INTERMEDIATE, PROTO_PADDED_INTERMEDIATE} then NextIntermediateLen(plain)
    else Some(0)
  }

  /** The length rule on the bytes of an abridged header: one byte of length in words, or,
      after 0x7f or 0xff, three bytes of it, the lowest first. */
  lemma AbridgedRule(plain: Bytes)
    requires plain != []
    ensures plain[0] in {0x7F, 0xFF} && |plain| < 4 ==> NextPacketLen(0xEFEFEFEF, plain) == None
    ensures plain[0] in {0x7F, 0xFF} && |plain| >= 4 ==>
              var n: nat := plain[1] as int + 256 * plain[2] as int + 0x1_0000 * plain[3] as int;
              NextPacketLen(0xEFEFEFEF, plain)
              == if n == 0 then Some(0) else if 4 + 4 * n <= |plain| then Some(4 + 4 * n) else None
    ensures plain[0] !in {0x7F, 0xFF} ==>
              var n: nat := if plain[0] < 0x80 then plain[0] else plain[0] - 0x80;
              NextPacketLen(0xEFEFEFEF, plain)
              == if n == 0 then Some(0) else if 1 + 4 * n <= |plain| then Some(1 + 4 * n) else None
  {
    if |plain| >= 4 {
      LittleEndian(plain[1..4]);
    }
  }

  /** And on an intermediate header: four bytes, the lowest first, the highest bit aside. */
  lemma IntermediateRule(proto: int, plain: Bytes)
    requires proto in {0xEEEEEEEE, 0xDDDDDDDD}
    ensures |plain| < 4 ==> NextPacketLen(proto, plain) == None
    ensures |plain| >= 4 ==>
              var top: nat := if plain[3] < 0x80 then plain[3] else plain[3] - 0x80;
              var n: nat := plain[0] as int + 256 * plain[1] as int + 0x1_0000 * plain[2] as int + 0x100_0000 * top;
              NextPacketLen(proto, plain)
              == if n == 0 then Some(0) else if 4 + n <= |plain| then Some(4 + n) else None
  {
    hide FromLe;
    if |plain| >= 4 {
      LittleEndian(plain[..4]);
      WithoutTopBit(plain[0] as int + 256 * plain[1] as int + 0x1_0000 * plain[2] as int, plain[3]);
    }
  }

  lemma WithoutTopBit(low: nat, top: byte)
    requires low < 0x100_0000
    ensures (low + 0x100_0000 * top as int) % 0x8000_0000
            == low + 0x100_0000 * if top < 0x80 then top as int else top as int - 0x80
  {
  }

  lemma OtherRule(proto: int, plain: Bytes)
    requires proto !in {0xEFEFEFEF, 0xEEEEEEEE, 0xDDDDDDDD}
    ensures NextPacketLen(proto, plain) == if plain == [] then None else Some(0)
  {
  }

  /** The bytes of each kind of packet. */
  lemma ShortBytes(ack: bool, d: Bytes)
    requires |d| % 4 == 0 && |d| < 508
    ensures Encode(AbridgedShort(ack, d)) == [|d| / 4 + if ack then 0x80 else 0] + d
  {
  }

  lemma LongBytes(ack: bool, d: Bytes)
    requires |d| % 4 == 0 && |d| < 0x400_0000
    ensures var n, marker: byte := |d| / 4, if ack then 0xFF else 0x7F;
            Encode(AbridgedLong(ack, d)) == [marker, n % 256, n / 256 % 256, n / 0x1_0000] + d
  {
    hide Le;
    var n := |d| / 4;
    LittleEndianBytes(n);
    TopByte(n, 0x1_0000);
    assert [LongMarker(ack)] + [n % 256, n / 256 % 256, n / 0x1_0000 % 256]
           == [LongMarker(ack), n % 256, n / 256 % 256, n / 0x1_0000];
  }

  lemma IntermediateBytes(ack: bool, d: Bytes)
    requires |d| < 0x8000_0000
    ensures var n := |d|;
            Encode(Intermediate(ack, d))
            == [n % 256, n / 256 % 256, n / 0x1_0000 % 256, n / 0x100_0000 + if ack then 0x80 else 0] + d
  {
    hide Le;
    var n := |d|;
    var v := n + if ack then 0x8000_0000 else 0;
    LittleEndianBytes(v);
    if ack {
      HighBit(n);
    }
    TopByte(v, 0x100_0000);
  }

  /** The highest of 32 bits only shows in the last byte. */
  lemma HighBit(n: nat)
    ensures var v := n + 0x8000_0000;
            && v % 256 == n % 256 && v / 256 % 256 == n / 256 % 256 && v / 0x1_0000 % 256 == n / 0x1_0000 % 256
            && v / 0x100_0000 == n / 0x100_0000 + 0x80
  {
    Unit(n, 256, 0x80_0000);
    Unit(n, 0x1_0000, 0x8000);
    Unit(n, 0x100_0000, 0x80);
    SameRest(n, 0x80_0000);
    SameRest(n / 256, 0x8000);
    SameRest(n / 0x1_0000, 0x80);
  }

  lemma Unit(n: nat, unit: nat, count: nat)
    requires unit in {256, 0x1_0000, 0x100_0000} && unit * count == 0x8000_0000
    ensures (n + 0x8000_0000) / unit == n / unit + count
  {
  }

  lemma SameRest(n: nat, count: nat)
    ensures (n + 256 * count) % 256 == n % 256
  {
  }

  lemma TopByte(n: nat, unit: nat)
    requires unit in {0x1_0000, 0x100_0000} && n < 256 * unit
    ensures n / unit % 256 == n / unit < 256
  {
  }

  /** Which packets a transport carries. */
  lemma PacketsOfTransport(p: Packet)
    ensures WellFormed(0xEFEFEFEF, p) <==>
            |p.payload| % 4 == 0 && (|| (p.AbridgedShort? && 0 < |p.payload| < 508)
                                     || (p.AbridgedLong? && 0 < |p.payload| < 0x400_0000))
    ensures WellFormed(0xEEEEEEEE, p) <==> p.Intermediate? && 0 < |p.payload| < 0x8000_0000
    ensures WellFormed(0xDDDDDDDD, p) <==> p.Intermediate? && 0 < |p.payload| < 0x8000_0000
  {
  }

  /** More bytes never change a verdict already reached. */
  lemma NextPacketLenMonotone(proto: int, plain: Bytes, more: Bytes)
    requires NextPacketLen(proto, plain).Some?
    ensures NextPacketLen(proto, plain + more) == NextPacketLen(proto, plain)
  {
    if |plain| >= 4 {
      assert (plain + more)[..4] == plain[..4] && (plain + more)[1..4] == plain[1..4];
    }
  }

  lemma NextPacketLenBounds(proto: int, plain: Bytes)
    ensures NextPacketLen(proto, plain).Some? ==> NextPacketLen(proto, plain).value <= |plain|
    ensures NextPacketLen(proto, plain) == None ==> |plain| < 0x8000_0004
  {
    Pow256Values();
    if |plain| >= 4 {
      FromLeRoundTrip(plain[1..4]);
      FromLeRoundTrip(plain[..4]);
    }
  }

  ghost predicate IsPacket(proto: int, plain: Bytes) {
    exists p: Packet :: WellFormed(proto, p) && Encode(p) == plain
  }

  lemma IntermediateHead(proto: int, plain: Bytes, n: nat)
    requires proto in {PROTO_INTERMEDIATE, PROTO_PADDED_INTERMEDIATE}
    requires NextIntermediateLen(plain) == Some(n) && 0 < n
    ensures n <= |plain| && IsPacket(proto, plain[..n])
  {
    var d, v := plain[4..n], FromLe(plain[..4]);
    Pow256Values();
    FromLeRoundTrip(plain[..4]);
    var p := Intermediate(v >= 0x8000_0000, d);
    assert |d| + (if p.ack then 0x8000_0000 else 0) == v;
    assert Encode(p) == plain[..4] + d == plain[..n];
    assert WellFormed(proto, p);
  }

  lemma AbridgedLongHead(plain: Bytes, n: nat)
    requires plain != [] && plain[0] in {0x7F, 0xFF}
    requires NextAbridgedLen(plain) == Some(n) && 0 < n
    ensures n <= |plain| && IsPacket(PROTO_ABRIDGED, plain[..n])
  {
    var d := plain[4..n];
    Pow256Values();
    FromLeRoundTrip(plain[1..4]);
    var p := AbridgedLong(plain[0] == 0xFF, d);
    assert |d| == FromLe(plain[1..4]) * 4;
    assert Encode(p) == [plain[0]] + plain[1..4] + d == plain[..n];
    assert WellFormed(PROTO_ABRIDGED, p);
  }

  lemma AbridgedShortHead(plain: Bytes, n: nat)
    requires plain != [] && plain[0] !in {0x7F, 0xFF}
    requires NextAbridgedLen(plain) == Some(n) && 0 < n
    ensures n <= |plain| && IsPacket(PROTO_ABRIDGED, plain[..n])
  {
    var d := plain[1..n];
    var first: int := plain[0];
    var p := AbridgedShort(first >= 0x80, d);
    assert |d| == first % 0x80 * 4;
    assert Encode(p) == [plain[0]] + d == plain[..n];
    assert WellFormed(PROTO_ABRIDGED, p);
  }

  /** What the length rule accepts as a packet is exactly a packet. */
  lemma RecognisedIsPacket(proto: int, plain: Bytes)
    requires NextPacketLen(proto, plain).Some? && NextPacketLen(proto, plain).value > 0
    ensures NextPacketLen(proto, plain).value <= |plain|
    ensures IsPacket(proto, plain[..NextPacketLen(proto, plain).value])
  {
    var n := NextPacketLen(proto, plain).value;
    if proto != PROTO_ABRIDGED {
      IntermediateHead(proto, plain, n);
    } else if plain[0] in {0x7F, 0xFF} {
      AbridgedLongHead(plain, n);
    } else {
      AbridgedShortHead(plain, n);
    }
  }

  lemma LongIsRecognised(p: Packet, rest: Bytes)
    requires WellFormed(PROTO_ABRIDGED, p) && p.AbridgedLong?
    ensures NextAbridgedLen(Encode(p) + rest) == Some(|Encode(p)|)
  {
    var s := Encode(p) + rest;
    Pow256Values();
    LeRoundTrip(|p.payload| / 4, 3);
    assert s[1..4] == Le(|p.payload| / 4, 3);
    assert FromLe(s[1..4]) * 4 == |p.payload|;
  }

  lemma LowBits(n: nat, high: bool)
    requires n < 0x8000_0000
    ensures (n + if high then 0x8000_0000 else 0) % 0x8000_0000 == n
  {
  }

  lemma IntermediateIsRecognised(proto: int, p: Packet, rest: Bytes)
    requires WellFormed(proto, p) && p.Intermediate?
    ensures NextIntermediateLen(Encode(p) + rest) == Some(|Encode(p)|)
  {
    hide Le, FromLe, Pow256;
    var s := Encode(p) + rest;
    var v := |p.payload| + if p.ack then 0x8000_0000 else 0;
    Pow256Values();
    LeRoundTrip(v, 4);
    assert s[..4] == Le(v, 4) && |Encode(p)| == 4 + |p.payload|;
    LowBits(|p.payload|, p.ack);
  }

  /** And every packet is recognised, whatever follows it. */
  lemma PacketIsRecognised(proto: int, p: Packet, rest: Bytes)
    requires WellFormed(proto, p)
    ensures NextPacketLen(proto, Encode(p) + rest) == Some(|Encode(p)|)
    ensures |Encode(p)| > 0
  {
    if p.Intermediate? {
      IntermediateIsRecognised(proto, p, rest);
    } else if p.AbridgedLong? {
      LongIsRecognised(p, rest);
    } else {
      assert (Encode(p) + rest)[0] == |p.payload| / 4 + if p.ack then 0x80 else 0;
    }
  }
}
