/** The other end of the WebSocket, reading by the letter of RFC 6455: every bit of the
    header counts, and messages are put together from their fragments. */
module StrictPeer {
  import opened Octets
  import opened WsCodec
  import opened Endpoint

  // ---------------------------------------------------------------- frames (section 5.2)

  datatype WireFrame = WireFrame(fin: bool, opcode: nat, payload: Bytes)

  datatype Header = Header(fin: bool, opcode: nat, length: nat, size: nat)

  /** The header of a client's frame: reserved bits zero, a mask announced, the shortest of
      the three length forms. */
  function ReadHeader(wire: Bytes): Option<Header> {
    if |wire| < 2 || wire[0] / 0x10 % 8 != 0 || wire[1] < 0x80 then None
    else
      var fin, opcode, short := wire[0] >= 0x80, wire[0] % 0x10, wire[1] - 0x80;
      if short < 126 then Some(Header(fin, opcode, short, 2))
      else if short == 126 then
        if |wire| < 4 then None
        else
          var n: nat := 256 * wire[2] as int + wire[3] as int;
          if n < 126 then None else Some(Header(fin, opcode, n, 4))
      else if |wire| < 10 then None
      else
        var n := FromBe(wire[2..10]);
        if n < 0x1_0000 then None else Some(Header(fin, opcode, n, 10))
  }

  /** One frame, its payload unmasked byte by byte (section 5.3). */
  function ReadWireFrame(wire: Bytes): (r: Option<(WireFrame, Bytes)>)
    ensures r.Some? ==> |r.value.1| < |wire|
  {
    match ReadHeader(wire)
    case None => None
    case Some(h) =>
      if |wire| < h.size + 4 + h.length then None
      else
        Some((WireFrame(h.fin, h.opcode, Unmasked(wire, h.size, h.length)), wire[h.size + 4 + h.length..]))
  }

  /** The payload behind a key at `at`. */
  function Unmasked(wire: Bytes, at: nat, length: nat): (r: Bytes)
    requires at + 4 + length <= |wire|
    ensures |r| == length
  {
    seq(length, i requires 0 <= i < length => XorByte(wire[at + 4 + i], wire[at + i % 4]))
  }

  function WireFrames(wire: Bytes): Option<seq<WireFrame>>
    decreases |wire|
  {
    if wire == [] then Some([])
    else
      match ReadWireFrame(wire)
      case None => None
      case Some((f, rest)) =>
        match WireFrames(rest)
        case None => None
        case Some(fs) => Some([f] + fs)
  }

  // ---------------------------------------------------------------- messages (section 5.4)

  /** The messages of a frame list; `open` is what a message in fragments has so far. */
  function Assemble(fs: seq<WireFrame>, open: Option<Bytes>): Option<seq<Bytes>>
    decreases |fs|
  {
    if fs == [] then
      if open == None then Some([]) else None
    else
      var f := fs[0];
      if f.opcode in {0x8, 0x9, 0xA} then
        if f.fin then Assemble(fs[1..], open) else None
      else if (f.opcode in {0x1, 0x2} && open == None) || (f.opcode == 0x0 && open.Some?) then
        var message := (if open.Some? then open.value else []) + f.payload;
        if !f.fin then Assemble(fs[1..], Some(message))
        else
          match Assemble(fs[1..], None)
          case None => None
          case Some(more) => Some([message] + more)
      else None
  }

  /** What a strict reader gets from a whole stream; nothing if any rule is broken. */
  function StrictMessages(wire: Bytes): Option<seq<Bytes>> {
    match WireFrames(wire)
    case None => None
    case Some(fs) => Assemble(fs, None)
  }

  // ---------------------------------------------------------------- what the proxy writes

  lemma HeaderIsStrict(opcode: nat, length: nat, rest: Bytes)
    requires opcode < 16 && length < MAX_PAYLOAD
    ensures var head := WsCodec.Header(opcode, true, length);
            ReadHeader(head + rest) == Some(Header(true, opcode, length, |head|))
  {
    var head := WsCodec.Header(opcode, true, length);
    var w := head + rest;
    Pow256Values();
    if 126 <= length < 0x1_0000 {
      hide Be;
      BigEndianBytes(length);
      assert w[2..4] == Be(length, 2);
      assert w[2] == length / 256 % 256 && w[3] == length % 256;
    } else if length >= 0x1_0000 {
      hide Be, FromBe;
      BeRoundTrip(length, 8);
      assert w[2..10] == Be(length, 8);
    }
  }

  lemma FrameIsStrict(f: Frame, mask: MaskKey, rest: Bytes)
    requires Sendable(f)
    ensures ReadWireFrame(BuildFrame(f, Some(mask)) + rest) == Some((WireFrame(true, f.opcode, f.payload), rest))
  {
    hide ReadHeader, WsCodec.Header, XorMask;
    var head := WsCodec.Header(f.opcode, true, |f.payload|);
    var masked := XorMask(f.payload, mask);
    var w := BuildFrame(f, Some(mask)) + rest;
    assert w == head + (mask + masked + rest);
    HeaderIsStrict(f.opcode, |f.payload|, mask + masked + rest);
    var body := |head| + 4;
    assert w[body + |f.payload|..] == rest;
    assert w[|head|..body] == mask && w[body..body + |f.payload|] == masked;
    var payload := Unmasked(w, |head|, |f.payload|);
    forall i | 0 <= i < |f.payload|
      ensures payload[i] == f.payload[i]
    {
      assert w[|head| + i % 4] == w[|head|..body][i % 4] == mask[i % 4];
      assert w[body + i] == masked[i];
      MaskedByte(f.payload, mask, i);
    }
    assert payload == f.payload;
  }

  function AsWritten(fs: seq<Frame>): seq<WireFrame> {
    seq(|fs|, i requires 0 <= i < |fs| => WireFrame(true, fs[i].opcode, fs[i].payload))
  }

  lemma {:induction false} FramesAreStrict(fs: seq<Frame>, mask: MaskKey)
    requires forall i | 0 <= i < |fs| :: Sendable(fs[i])
    ensures WireFrames(EncodeFrames(fs, Some(mask))) == Some(AsWritten(fs))
  {
    hide BuildFrame, ReadWireFrame;
    if fs != [] {
      var tail := EncodeFrames(fs[1..], Some(mask));
      FramesAreStrict(fs[1..], mask);
      FrameIsStrict(fs[0], mask, tail);
      assert AsWritten(fs) == [AsWritten(fs)[0]] + AsWritten(fs[1..]);
      assert EncodeFrames(fs, Some(mask)) == BuildFrame(fs[0], Some(mask)) + tail;
    }
  }

  lemma {:induction false} WholeMessages(fs: seq<Frame>)
    requires forall i | 0 <= i < |fs| :: OwnFrame(fs[i])
    ensures Assemble(AsWritten(fs), None) == Some(Messages(fs))
  {
    if fs != [] {
      WholeMessages(fs[1..]);
      assert AsWritten(fs)[1..] == AsWritten(fs[1..]);
      assert [] + fs[0].payload == fs[0].payload;
      assert AsWritten(fs)[0] == WireFrame(true, fs[0].opcode, fs[0].payload);
      assert [] + Messages(fs[1..]) == Messages(fs[1..]);
    }
  }

  /** Every frame the proxy writes stands alone as a whole message or control frame. */
  lemma StrictReading(fs: seq<Frame>, mask: MaskKey)
    requires forall i | 0 <= i < |fs| :: Sendable(fs[i]) && OwnFrame(fs[i])
    ensures StrictMessages(EncodeFrames(fs, Some(mask))) == Some(Messages(fs))
  {
    FramesAreStrict(fs, mask);
    WholeMessages(fs);
  }

  /** A batch is read as exactly its parts. */
  lemma BatchIsItsParts(parts: seq<Bytes>, mask: MaskKey)
    requires forall i | 0 <= i < |parts| :: |parts[i]| < MAX_PAYLOAD
    ensures StrictMessages(EncodeFrames(BinaryFrames(parts), Some(mask))) == Some(parts)
  {
    StrictReading(BinaryFrames(parts), mask);
    MessagesOfBinary(parts);
  }
}
