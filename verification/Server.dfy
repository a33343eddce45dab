/** One client served over Fake TLS and a WebSocket: the objects of every layer put
    together, with the end-to-end guarantee for arbitrary input. */
module Server {
  import opened Octets
  import opened Ctr
  import opened Handshake
  import opened WsCodec
  import opened Endpoint
  import opened StreamReaders
  import opened MsgSplitters
  import opened BridgeObjects
  import opened FakeTls
  import opened EndToEnd
  import Sp = Splitter
  import Br = Bridge

  /** Any accepted handshake is some client's init packet. */
  function ConnectionOf(S: Suite, secret: Bytes, handshake: Block, relayBlock: Block, pad: Pad, mask: MaskKey)
    : Connection
  {
    var announced := ReadInit(S, SecretKey(S, handshake[8..56], secret), handshake);
    Connection(S, secret, handshake, announced, relayBlock, pad, mask)
  }

  lemma ConnectionFits(S: Suite, secret: Bytes, handshake: Block, relayBlock: Block, pad: Pad, mask: MaskKey)
    requires TryHandshake(S, handshake, secret).Some?
    ensures var n := ConnectionOf(S, secret, handshake, relayBlock, pad, mask);
            var h := TryHandshake(S, handshake, secret).value;
            && ClientPacket(n) == handshake
            && KnownTag(n.announced.tag)
            && h.tag == n.announced.tag && SignedIndex(h) == n.announced.dcIdx && h.prekeyIv == n.clientBlock[8..56]
  {
    var k := SecretKey(S, handshake[8..56], secret);
    ReadThenWrite(S, k, handshake);
    TryHandshakeReads(S, handshake, secret);
  }

  // ---------------------------------------------------------------- the two tasks

  /** One turn of the upstream task: read once, pass the chunk on or end. */
  method UpTurn(stream: FakeTlsStream, bridge: ReencryptingBridge) returns (ghost e: Br.Event)
    requires bridge.Valid() && bridge.upLive && !bridge.ws.closed
    requires stream !in bridge.Repr() && stream.reader !in bridge.Repr()
    modifies stream, stream.reader, bridge.Repr()
    ensures bridge.Valid() && bridge.Abs() == Br.Step(bridge.session, old(bridge.Abs()), e)
    ensures bridge.upLive == e.Up? && bridge.downLive == old(bridge.downLive)
    ensures bridge.downData == old(bridge.downData) && bridge.toClient == old(bridge.toClient)
    ensures match e
            case Up(chunk) =>
              && 0 < |chunk| <= Br.READ_SIZE && chunk + stream.Pending() == old(stream.Pending())
              && stream.Clean() == old(stream.Clean()) && !bridge.ws.closed
            case UpEof => old(stream.Pending()) == [] && old(stream.Clean())
            case UpError => old(stream.Pending()) == [] && !old(stream.Clean())
            case _ => false
  {
    hide FakeTlsStream.Pending, FakeTlsStream.Clean, Br.StepUp, Br.StepUpEof, ReencryptingBridge.Valid;
    ghost var st := bridge.Abs();
    var chunk := stream.Read(Br.READ_SIZE);
    if chunk == None {
      e := Br.UpError;
      bridge.UpError();
    } else if chunk.value == [] {
      e := Br.UpEof;
      bridge.UpEof();
    } else {
      e := Br.Up(chunk.value);
      Br.UpKeepsLive(bridge.session, st, chunk.value);
      bridge.UpChunk(chunk.value);
    }
    Br.DownStep(bridge.session, st, e);
  }

  /** How a session ends: the client's reader ended, Telegram's connection ended, or the
      session was cancelled. */
  datatype Ending = ClientEnded | TelegramEnded | Cancelled

  /** What both readers were to deliver when the session began. */
  datatype Origin = Origin(state: Br.State, pending: Bytes, clean: bool, wire: Bytes)

  /** Nothing has ended either task. */
  ghost predicate Calm(es: seq<Br.Event>) {
    forall i :: 0 <= i < |es| ==> Br.Admissible(es[i]) && Br.Quiet(es[i])
  }

  ghost predicate AllFit(items: seq<Item>) {
    forall i :: 0 <= i < |items| ==> Fits(items[i])
  }

  lemma CalmNext(es: seq<Br.Event>, e: Br.Event)
    requires Calm(es) && Br.Admissible(e)
    ensures Br.Quiet(e) ==> Calm(es + [e])
    ensures forall i :: 0 <= i < |es + [e]| ==> Br.Admissible((es + [e])[i])
  {
  }

  /** Both tasks are running after the events `es`, with `items` written to the client. */
  ghost predicate Underway(o: Origin, stream: FakeTlsStream, bridge: ReencryptingBridge,
                           es: seq<Br.Event>, items: seq<Item>)
    reads stream, stream.reader, bridge.Repr(), bridge.ws.reader
  {
    && bridge.Valid() && bridge.upLive && bridge.downLive && !bridge.ws.closed
    && stream !in bridge.Repr() && stream.reader !in bridge.Repr()
    && bridge.ws.reader !in bridge.Repr() && bridge.ws.reader != stream.reader
    && bridge.Abs() == Br.Run(bridge.session, o.state, es)
    && Calm(es)
    && Flatten(Br.Chunks(es)) + stream.Pending() == o.pending && stream.Clean() == o.clean
    && bridge.downData + ToCome(bridge.ws.reader.wire) == ToCome(o.wire)
    && AllFit(items) && Written(items) == bridge.toClient
  }

  /** The session is over. */
  ghost predicate Over(o: Origin, bridge: ReencryptingBridge, es: seq<Br.Event>, how: Ending)
    reads bridge.Repr()
  {
    && bridge.Valid() && bridge.Abs() == Br.Run(bridge.session, o.state, es)
    && (forall i :: 0 <= i < |es| ==> Br.Admissible(es[i]))
    && bridge.downData <= ToCome(o.wire)
    && Flatten(Br.Chunks(es)) <= o.pending
    && match how
       case ClientEnded =>
         && es != [] && (forall i :: 0 <= i < |es| - 1 ==> Br.Quiet(es[i]))
         && Flatten(Br.Chunks(es[..|es| - 1])) == o.pending
         && es[|es| - 1] == if o.clean then Br.UpEof else Br.UpError
       case TelegramEnded =>
         bridge.upLive && bridge.downData == ToCome(o.wire)
       case Cancelled =>
         bridge.upLive
  }

  method ClientTurn(stream: FakeTlsStream, bridge: ReencryptingBridge, ghost o: Origin,
                    ghost es: seq<Br.Event>, ghost items: seq<Item>)
    returns (ghost e: Br.Event)
    requires Underway(o, stream, bridge, es, items)
    modifies stream, stream.reader, bridge.Repr()
    ensures bridge.upLive ==>
              Underway(o, stream, bridge, es + [e], items) && |stream.Pending()| < |old(stream.Pending())|
    ensures !bridge.upLive ==> Over(o, bridge, es + [e], ClientEnded)
    ensures bridge.toClient == old(bridge.toClient) && bridge.ws.reader.wire == old(bridge.ws.reader.wire)
  {
    hide FakeTlsStream.Pending, FakeTlsStream.Clean, ReencryptingBridge.Valid, ReencryptingBridge.Abs, Flatten;
    hide Br.Step, Br.Run, Br.Chunks, ToCome, Written;
    e := UpTurn(stream, bridge);
    OneMore(bridge.session, o.state, es, e, stream.Pending());
  }

  /** One turn of the downstream task: one frame. */
  method TelegramTurn(stream: FakeTlsStream, bridge: ReencryptingBridge, ghost o: Origin,
                      ghost es: seq<Br.Event>, ghost items: seq<Item>)
    returns (data: Option<Bytes>, ghost e: Br.Event)
    requires Underway(o, stream, bridge, es, items)
    modifies bridge.Repr(), bridge.ws.reader
    ensures bridge.downLive ==>
              && Underway(o, stream, bridge, es + [e], items + WriteOf(data))
              && |bridge.ws.reader.wire| < |old(bridge.ws.reader.wire)|
    ensures !bridge.downLive ==> Over(o, bridge, es + [e], TelegramEnded) && data == None
    ensures Written(items + WriteOf(data)) == bridge.toClient
    ensures stream.Pending() == old(stream.Pending())
  {
    hide FakeTlsStream.Pending, FakeTlsStream.Clean, ReencryptingBridge.Valid, ReencryptingBridge.Abs, Flatten;
    hide Br.Step, Br.Run, Br.Chunks, Written, ToCome, DecodeFrame, Calm, AllFit;
    hide Br.Admissible, Br.Quiet;
    data, e := bridge.RelayFrame();
    OneMore(bridge.session, o.state, es, e, stream.Pending());
    CalmNext(es, e);
    AddWrite(items, data);
  }

  /** The write a downstream turn makes to the client, if any. */
  function WriteOf(data: Option<Bytes>): seq<Item> {
    if data.Some? then [Write(data.value)] else []
  }

  lemma AddWrite(items: seq<Item>, data: Option<Bytes>)
    ensures WireOf(items + WriteOf(data)) == WireOf(items) + (if data.Some? then Wrap(data.value) else [])
    ensures Written(items + WriteOf(data)) == Written(items) + (if data.Some? then data.value else [])
    ensures AllFit(items) ==> AllFit(items + WriteOf(data))
  {
    hide Wrap, WireOf, Written;
    if data.Some? {
      WireSnoc(items, data.value);
    } else {
      assert items + [] == items && WireOf(items) + [] == WireOf(items) && Written(items) + [] == Written(items);
    }
  }

  /** Both tasks take turns as the event loop decides, until one of them ends or the turns
      are over.  `clientWire` is what was written to the client. */
  method RunSession(stream: FakeTlsStream, bridge: ReencryptingBridge, turns: seq<bool>, ghost o: Origin)
    returns (clientWire: Bytes, ghost es: seq<Br.Event>, ghost how: Ending)
    requires Underway(o, stream, bridge, [], []) && bridge.toClient == []
    modifies stream, stream.reader, bridge.ws.reader, bridge.Repr()
    ensures Over(o, bridge, es, how)
    ensures Records(clientWire) == bridge.toClient
    ensures how.TelegramEnded? ==> false in turns
    ensures how.Cancelled? ==> |turns| <= |old(stream.Pending())| + |old(bridge.ws.reader.wire)|
  {
    hide Underway, Over, Records, RecordsEndCleanly, WireOf, Written, Wrap, FakeTlsStream.Pending;
    clientWire, es, how := [], [], Cancelled;
    ghost var items: seq<Item> := [];
    NothingYet();
    for i := 0 to |turns|
      invariant Underway(o, stream, bridge, es, items)
      invariant clientWire == WireOf(items) && Written(items) == bridge.toClient
      invariant AllFit(items)
      invariant i + |stream.Pending()| + |bridge.ws.reader.wire|
                <= |old(stream.Pending())| + |old(bridge.ws.reader.wire)|
    {
      if turns[i] {
        ghost var e := ClientTurn(stream, bridge, o, es, items);
        es := es + [e];
        if !bridge.upLive {
          how := ClientEnded;
          break;
        }
      } else {
        var data;
        ghost var e;
        data, e := TelegramTurn(stream, bridge, o, es, items);
        es := es + [e];
        AddWrite(items, data);
        items := items + WriteOf(data);
        if data.Some? {
          var record := WrapTlsRecord(data.value);
          clientWire := clientWire + record;
        } else {
          assert clientWire + [] == clientWire;
        }
        if !bridge.downLive {
          how := TelegramEnded;
          break;
        }
      }
    }
    if how.Cancelled? {
      MayBreakOff(o, stream, bridge, es, items);
    }
    WireRoundTrip(items);
  }

  lemma MayBreakOff(o: Origin, stream: FakeTlsStream, bridge: ReencryptingBridge, es: seq<Br.Event>, items: seq<Item>)
    requires Underway(o, stream, bridge, es, items)
    ensures Over(o, bridge, es, Cancelled)
  {
    hide FakeTlsStream.Pending, FakeTlsStream.Clean, ReencryptingBridge.Valid, ReencryptingBridge.Abs, Flatten;
    hide Br.Run, Br.Chunks, ToCome;
  }

  lemma NothingYet()
    ensures WireOf([]) == [] && Written([]) == []
  {
  }

  /** One of the tasks contributed an event. */
  lemma OneMore(c: Br.Session, st: Br.State, es: seq<Br.Event>, e: Br.Event, pending: Bytes)
    ensures Br.Run(c, st, es + [e]) == Br.Step(c, Br.Run(c, st, es), e)
    ensures Flatten(Br.Chunks(es + [e])) == Flatten(Br.Chunks(es)) + if e.Up? then e.chunk else []
    ensures e.Up? ==> Flatten(Br.Chunks(es + [e])) + pending == Flatten(Br.Chunks(es)) + (e.chunk + pending)
    ensures (es + [e])[..|es|] == es
  {
    hide Br.Run, Br.Step, Flatten;
    Br.RunSnoc(c, st, es, e);
    assert (es + [e])[..|es|] == es;
    if e.Up? {
      FlattenSnoc(Br.Chunks(es), e.chunk);
      Associative(Flatten(Br.Chunks(es)), e.chunk, pending);
    } else {
      assert Br.Chunks(es) + [] == Br.Chunks(es);
    }
  }

  method OpenBridge(S: Suite, secret: Bytes, hello: ClientHandshake, ghost n: Connection,
                    blocks: seq<Block>, pad: Pad, telegram: StreamReader, mask: MaskKey)
    returns (bridge: ReencryptingBridge)
    requires Usable(blocks)
    requires n.suite == S && n.secret == secret && n.relayBlock == FirstAccepted(blocks)
    requires n.relayPad == pad && n.mask == mask && hello.tag == n.announced.tag
    requires SignedIndex(hello) == n.announced.dcIdx && hello.prekeyIv == n.clientBlock[8..56]
    ensures bridge.Valid() && fresh(bridge.Repr())
    ensures bridge.session == SessionOf(n) && bridge.ws.mask == mask && bridge.ws.reader == telegram
    ensures bridge.Abs() == Br.Start(RelayInit(n), true)
    ensures bridge.upLive && bridge.downLive && !bridge.ws.closed && bridge.toClient == [] && bridge.downData == []
  {
    hide WriteInit, Crypt, DeriveKeys, EncodeFrames;
    hide FirstAccepted, Usable, ClientKey, ProtoOfTag, ReencryptingBridge.Valid, ReencryptingBridge.Abs;
    var relayInit := GenerateRelayInit(S, hello.tag, SignedIndex(hello), blocks, pad);
    assert relayInit == RelayInit(n);
    var ctx := BuildCryptoCtx(S, hello.prekeyIv, secret, relayInit);
    var splitter := new MsgSplitter(S, relayInit, ProtoOfTag(hello.tag));
    var ws := new RawWebSocket(telegram, mask);
    var _ := ws.Send(relayInit);
    SplitterKey(n);
    bridge := new ReencryptingBridge(ctx, splitter, ws, SessionOf(n), relayInit);
  }

  lemma SplitterKey(n: Connection)
    ensures SessionOf(n).keys.tgEnc == StreamKey(RelayInit(n)[8..40], RelayInit(n)[40..56])
  {
    assert RelayInit(n)[8..56][..32] == RelayInit(n)[8..40] && RelayInit(n)[8..56][32..] == RelayInit(n)[40..56];
  }

  // ---------------------------------------------------------------- what both ends have afterwards

  /** What Telegram has at any time from a client that sends `plain`: a prefix of it, in
      messages of one packet each. */
  ghost predicate TelegramHas(n: Connection, plain: Bytes, wire: Bytes) {
    var messages := TelegramMessages(wire);
    && messages != [] && messages[0] == RelayInit(n)
    && TelegramPlain(n.suite, messages) <= plain
    && PacketPerMessage(n, plain, messages)
  }

  /** What it has once the client's stream has ended: all of it after an empty read or in
      pass-through mode, otherwise the complete packets and nothing else.  Before
      pass-through mode each packet is one message, and a rest that is no packet is one. */
  ghost predicate TelegramGets(n: Connection, plain: Bytes, clean: bool, wire: Bytes) {
    var proto := ProtoOfTag(n.announced.tag);
    var messages, r, covered := TelegramMessages(wire), Sp.Parse(proto, plain), Sp.Covered(proto, plain);
    && TelegramHas(n, plain, wire)
    && covered <= |plain|
    && TelegramPlain(n.suite, messages) == (if clean || r.disabled then plain else plain[..covered])
    && (TelegramPlain(n.suite, messages) == plain <==> clean || r.disabled || covered == |plain|)
    && |messages| >= 1 + |r.lens|
    && (!r.disabled ==> |messages| == 1 + |r.lens| + if clean && covered < |plain| then 1 else 0)
  }

  /** The client's stream ended first. */
  lemma EndedDelivers(n: Connection, received: Bytes, before: seq<Br.Event>, end: Br.Event)
    requires (forall i | 0 <= i < |before| :: Br.Quiet(before[i])) && (end.UpEof? || end.UpError?)
    requires forall i | 0 <= i < |before + [end] + [Br.Finish]| :: Br.Admissible((before + [end] + [Br.Finish])[i])
    requires Flatten(Br.Chunks(before)) == received
    ensures TelegramGets(n, Crypt(n.suite, ClientKey(n), 64, received), end.UpEof?,
                         ProxySends(n, true, before + [end] + [Br.Finish]))
  {
    hide Crypt, Sp.Parse, Br.Run, TelegramPlain, Flatten, Sp.Covered, PacketPerMessage, ProxySends;
    hide TelegramMessages, ProtoOfTag;
    var plain := Crypt(n.suite, ClientKey(n), 64, received);
    var es := before + [end] + [Br.Finish];
    CryptCancels(n.suite, ClientKey(n), 64, received);
    assert Uploads(n, plain, before, end, [Br.Finish]);
    CoveredFits(SessionOf(n).proto, plain);
    UpstreamPrefix(n, true, es);
    UploadEnds(n, true, plain, before, end, [Br.Finish]);
    PayloadsArePackets(n, es);
    if end.UpEof? {
      UpstreamEndToEnd(n, true, plain, before, [Br.Finish]);
    } else {
      UnflushedUpload(n, true, plain, before, [Br.Finish]);
    }
  }

  lemma CoveredFits(proto: int, plain: Bytes)
    ensures Sp.Covered(proto, plain) == Sum(Sp.Parse(proto, plain).lens) <= |plain|
    ensures Sp.Covered(proto, plain) == |plain| ==> plain[..Sp.Covered(proto, plain)] == plain
  {
    Sp.ParseBounds(proto, plain);
  }

  /** Something else ended the session. */
  lemma BrokenOffDelivers(n: Connection, received: Bytes, es: seq<Br.Event>)
    requires forall i | 0 <= i < |es + [Br.Finish]| :: Br.Admissible((es + [Br.Finish])[i])
    requires Reached(n, true, es).upLive && Flatten(Br.Chunks(es)) <= received
    ensures TelegramHas(n, Crypt(n.suite, ClientKey(n), 64, received), ProxySends(n, true, es + [Br.Finish]))
  {
    hide Crypt, Sp.Parse, Br.Run, TelegramPlain, Flatten, PacketPerMessage, ProxySends, TelegramMessages, ProtoOfTag;
    var all := es + [Br.Finish];
    var c, st0 := SessionOf(n), Br.Start(RelayInit(n), true);
    Br.RunSnoc(c, st0, es, Br.Finish);
    Br.LiveRun(c, st0, es);
    var st := Reached(n, true, all);
    var part, plain := Br.UpPlain(c, st), Crypt(n.suite, ClientKey(n), 64, received);
    assert [] + Br.Chunks(es) == Br.Chunks(es);
    ClientKeysAgree(n);
    var sent := Flatten(Br.Chunks(es));
    CryptConcat(n.suite, ClientKey(n), 64, sent, received[|sent|..]);
    assert received == sent + received[|sent|..] && part <= plain;
    UpstreamPrefix(n, true, all);
    PayloadsArePackets(n, all);
    PacketsOfPrefix(n, part, plain, TelegramMessages(ProxySends(n, true, all)));
  }

  // ---------------------------------------------------------------- one client

  /** What both ends have after a session in which the client was to send `received` and
      Telegram `wire`. */
  ghost predicate Delivered(n: Connection, received: Bytes, clean: bool, wire: Bytes,
                            out: Bytes, clientWire: Bytes, how: Ending) {
    var plain := Crypt(n.suite, ClientKey(n), 64, received);
    var says := TelegramSays(n, ToCome(wire));
    && TelegramHas(n, plain, out)
    && ClientHas(n, clientWire) <= says
    && (how.ClientEnded? ==> TelegramGets(n, plain, clean, out))
    && (how.TelegramEnded? ==> ClientHas(n, clientWire) == says)
  }

  lemma SessionDelivers(n: Connection, o: Origin, es: seq<Br.Event>, how: Ending, clientWire: Bytes)
    requires forall i :: 0 <= i < |es| ==> Br.Admissible(es[i])
    requires var st := Reached(n, true, es);
             && Records(clientWire) == st.toClient && st.downData <= ToCome(o.wire)
             && match how
                case ClientEnded => true
                case TelegramEnded => st.upLive && st.downData == ToCome(o.wire)
                case Cancelled => st.upLive
    requires Flatten(Br.Chunks(es)) <= o.pending
    requires how.ClientEnded? ==>
               && es != [] && (forall i :: 0 <= i < |es| - 1 ==> Br.Quiet(es[i]))
               && Flatten(Br.Chunks(es[..|es| - 1])) == o.pending
               && es[|es| - 1] == if o.clean then Br.UpEof else Br.UpError
    ensures Delivered(n, o.pending, o.clean, o.wire, ProxySends(n, true, es + [Br.Finish]), clientWire, how)
  {
    hide Crypt, Br.Run, Flatten, ToCome, Records, TelegramHas, TelegramGets, ProxySends, TelegramSays, ClientHas;
    AnswerArrives(n, true, es, ToCome(o.wire), clientWire);
    if how.ClientEnded? {
      var before, end := es[..|es| - 1], es[|es| - 1];
      assert es == before + [end];
      EndedDelivers(n, o.pending, before, end);
      GetsIncludesHas(n, Crypt(n.suite, ClientKey(n), 64, o.pending), o.clean, ProxySends(n, true, es + [Br.Finish]));
    } else {
      BrokenOffDelivers(n, o.pending, es);
    }
  }

  lemma GetsIncludesHas(n: Connection, plain: Bytes, clean: bool, wire: Bytes)
    requires TelegramGets(n, plain, clean, wire)
    ensures TelegramHas(n, plain, wire)
  {
    hide TelegramHas;
  }

  /** A client that was to send `sent` in the tunnel: refused unless it starts with an init
      packet for this secret; otherwise both ends get what the other sent. */
  ghost predicate Handled(S: Suite, secret: Bytes, sent: Bytes, clean: bool, wire: Bytes,
                          relayBlock: Block, pad: Pad, mask: MaskKey, turns: seq<bool>,
                          ws: RawWebSocket?, clientWire: Bytes, how: Ending)
    reads ws
  {
    if |sent| < 64 || TryHandshake(S, sent[..64], secret) == None then ws == null && clientWire == []
    else
      && ws != null && ws.Valid() && ws.closed
      && (how.TelegramEnded? ==> false in turns)
      && (how.Cancelled? ==> |turns| <= |sent| - 64 + |wire|)
      && var n := ConnectionOf(S, secret, sent[..64], relayBlock, pad, mask);
         Delivered(n, sent[64..], clean, wire, ws.out, clientWire, how)
  }

  /** From the first byte inside the TLS tunnel to the closed WebSocket, for arbitrary
      bytes from both sides and any turns the event loop gives the two tasks. */
  method HandleClient(S: Suite, secret: Bytes, stream: FakeTlsStream, blocks: seq<Block>, pad: Pad,
                      telegram: StreamReader, mask: MaskKey, turns: seq<bool>)
    returns (ws: RawWebSocket?, clientWire: Bytes, ghost how: Ending)
    requires Usable(blocks) && telegram != stream.reader
    modifies stream, stream.reader, telegram
    ensures Handled(S, secret, old(stream.Pending()), old(stream.Clean()), old(telegram.wire),
                    FirstAccepted(blocks), pad, mask, turns, ws, clientWire, how)
  {
    hide Delivered, FakeTlsStream.Pending, FakeTlsStream.Clean;
    ws, clientWire, how := null, [], ClientEnded;
    var handshake := stream.ReadExactly(64);
    if handshake == None {
      return;
    }
    var result := TryHandshake(S, handshake.value, secret);
    if result == None {
      return;
    }
    ConnectionFits(S, secret, handshake.value, FirstAccepted(blocks), pad, mask);
    ghost var n := ConnectionOf(S, secret, handshake.value, FirstAccepted(blocks), pad, mask);
    ws, clientWire, how := Relay(S, secret, stream, result.value, n, blocks, pad, telegram, mask, turns);
  }

  /** The connection is accepted and a WebSocket to Telegram is open. */
  method Relay(S: Suite, secret: Bytes, stream: FakeTlsStream, hello: ClientHandshake, ghost n: Connection,
               blocks: seq<Block>, pad: Pad, telegram: StreamReader, mask: MaskKey, turns: seq<bool>)
    returns (ws: RawWebSocket, clientWire: Bytes, ghost how: Ending)
    requires Usable(blocks) && telegram != stream.reader
    requires n.suite == S && n.secret == secret && n.relayBlock == FirstAccepted(blocks)
    requires n.relayPad == pad && n.mask == mask && hello.tag == n.announced.tag
    requires SignedIndex(hello) == n.announced.dcIdx && hello.prekeyIv == n.clientBlock[8..56]
    modifies stream, stream.reader, telegram
    ensures ws.Valid() && ws.closed
    ensures how.TelegramEnded? ==> false in turns
    ensures how.Cancelled? ==> |turns| <= |old(stream.Pending())| + |old(telegram.wire)|
    ensures Delivered(n, old(stream.Pending()), old(stream.Clean()), old(telegram.wire), ws.out, clientWire, how)
  {
    hide WriteInit, Crypt, DeriveKeys, FakeTlsStream.Pending, FakeTlsStream.Clean, EncodeFrames, Delivered, Records;
    hide FirstAccepted, Usable, ProtoOfTag, ReencryptingBridge.Valid, ReencryptingBridge.Abs, Underway, ToCome, Flatten;
    hide Br.Run, Br.Chunks, Br.StepFinish, SignedIndex, RawWebSocket.Valid;
    var bridge := OpenBridge(S, secret, hello, n, blocks, pad, telegram, mask);
    ws := bridge.ws;
    ghost var o := Origin(bridge.Abs(), stream.Pending(), stream.Clean(), telegram.wire);
    Begins(o, stream, bridge);
    ghost var es;
    clientWire, es, how := RunSession(stream, bridge, turns, o);
    bridge.OnTheWire();
    SessionDelivers(n, o, es, how, clientWire);
    Br.RunSnoc(SessionOf(n), o.state, es, Br.Finish);
    bridge.Finish();
    bridge.OnTheWire();
    FinishOnWire(n, es, ws);
  }

  lemma Begins(o: Origin, stream: FakeTlsStream, bridge: ReencryptingBridge)
    requires bridge.Valid() && bridge.upLive && bridge.downLive && !bridge.ws.closed
    requires bridge.toClient == [] && bridge.downData == []
    requires stream !in bridge.Repr() && stream.reader !in bridge.Repr()
    requires bridge.ws.reader !in bridge.Repr() && bridge.ws.reader != stream.reader
    requires o == Origin(bridge.Abs(), stream.Pending(), stream.Clean(), bridge.ws.reader.wire)
    ensures Underway(o, stream, bridge, [], [])
  {
    assert [] + ToCome(o.wire) == ToCome(o.wire) && [] + o.pending == o.pending;
  }

  /** The frames of the final state are the bytes on the wire. */
  lemma FinishOnWire(n: Connection, es: seq<Br.Event>, ws: RawWebSocket)
    requires forall i :: 0 <= i < |es| ==> Br.Admissible(es[i])
    requires ws.Valid() && ws.mask == n.mask && ws.sent == Reached(n, true, es + [Br.Finish]).wsSent
    requires ws.closed == Br.StepFinish(Reached(n, true, es)).wsClosed
    ensures ws.out == ProxySends(n, true, es + [Br.Finish])
    ensures ws.closed
  {
  }

  // ---------------------------------------------------------------- how Fake TLS streams end

  /** A client whose wire holds only its data and change-cipher-spec records ends in an
      exception: the splitter is not flushed. */
  lemma SilentCloseIsNotClean(items: seq<Item>)
    requires forall i | 0 <= i < |items| :: Fits(items[i])
    ensures Coming(0, WireOf(items)) == Written(items) && !EndsCleanly(0, WireOf(items))
  {
    FreshStream(items);
  }

  /** A client that says goodbye with a record of another type, an alert say, ends in an
      empty read: the splitter is flushed. */
  lemma AlertCloseIsClean(items: seq<Item>, kind: byte, body: Bytes, rest: Bytes)
    requires forall i | 0 <= i < |items| :: Fits(items[i])
    requires kind !in {RECORD_CCS, RECORD_APPDATA} && |body| < 65536
    ensures var wire := WireOf(items) + (Record(kind, body) + rest);
            Coming(0, wire) == Written(items) && EndsCleanly(0, wire)
  {
    hide FromBe, Record, WireOf;
    RecordHeader(kind, body, rest);
    WireThen(items, Record(kind, body) + rest);
    WholeWire(WireOf(items) + (Record(kind, body) + rest));
    assert Written(items) + [] == Written(items);
  }

  /** A client whose wire holds an init packet and `plain`, and which then closes silently,
      is served to the end of its stream. */
  method ServeSilently(S: Suite, secret: Bytes, block: Block, a: Announcement, plain: Bytes, items: seq<Item>,
                       blocks: seq<Block>, pad: Pad, mask: MaskKey, turns: nat)
    returns (ws: RawWebSocket, ghost n: Connection)
    requires Usable(blocks) && KnownTag(a.tag)
    requires forall i | 0 <= i < |items| :: Fits(items[i])
    requires Written(items) == ClientInit(S, secret, block, a)
                               + Crypt(S, SecretKey(S, block[8..56], secret), 64, plain)
    requires turns > |plain|
    ensures n.suite == S && n.announced == a
    ensures TelegramGets(n, plain, false, ws.out)
  {
    hide WriteInit, Crypt, WireOf, Coming, EndsCleanly, FirstAccepted, Usable, ToCome, TelegramGets, TelegramHas;
    hide Written, RawWebSocket.Valid, TelegramSays, ClientHas, KnownTag;
    var init, key := ClientInit(S, secret, block, a), SecretKey(S, block[8..56], secret);
    var reader := new StreamReader(WireOf(items));
    var telegram := new StreamReader([]);
    var stream := new FakeTlsStream(reader);
    FreshStream(items);
    HandshakeAcceptance(S, secret, block, a);
    assert Written(items)[..64] == init && Written(items)[64..] == Crypt(S, key, 64, plain);
    n := ConnectionOf(S, secret, init, FirstAccepted(blocks), pad, mask);
    ClientOf(S, secret, block, a, FirstAccepted(blocks), pad, mask);
    CryptCancels(S, key, 64, plain);
    var it, clientWire;
    ghost var how;
    it, clientWire, how := HandleClient(S, secret, stream, blocks, pad, telegram, mask, seq(turns, _ => true));
    ws := it;
  }

  /** The plaintext of a client that closes silently arrives exactly when it ends on a
      packet boundary or in pass-through mode. */
  method ServeSilentClose(S: Suite, secret: Bytes, block: Block, a: Announcement, plain: Bytes, items: seq<Item>,
                          blocks: seq<Block>, pad: Pad, mask: MaskKey, turns: nat)
    returns (ws: RawWebSocket)
    requires Usable(blocks) && KnownTag(a.tag)
    requires forall i | 0 <= i < |items| :: Fits(items[i])
    requires Written(items) == ClientInit(S, secret, block, a)
                               + Crypt(S, SecretKey(S, block[8..56], secret), 64, plain)
    requires turns > |plain|
    ensures var messages, proto := TelegramMessages(ws.out), ProtoOfTag(a.tag);
            && messages != [] && |messages[0]| == 64
            && (TelegramPlain(S, messages) == plain
                <==> Sp.Parse(proto, plain).disabled || Sp.Covered(proto, plain) == |plain|)
            && (!Sp.Parse(proto, plain).disabled ==> |TelegramPlain(S, messages)| == Sp.Covered(proto, plain))
  {
    hide ClientInit, Crypt, TelegramMessages, TelegramPlain, Sp.Parse, Sp.Covered, ProtoOfTag, PacketPerMessage;
    ghost var n;
    ws, n := ServeSilently(S, secret, block, a, plain, items, blocks, pad, mask, turns);
    CoveredFits(ProtoOfTag(a.tag), plain);
  }

  lemma ClientOf(S: Suite, secret: Bytes, block: Block, a: Announcement, relayBlock: Block, pad: Pad, mask: MaskKey)
    ensures var n := ConnectionOf(S, secret, ClientInit(S, secret, block, a), relayBlock, pad, mask);
            n.suite == S && n.announced == a && ClientKey(n) == SecretKey(S, block[8..56], secret)
  {
    hide Crypt, Tail;
    WriteThenRead(S, SecretKey(S, block[8..56], secret), block, a);
    assert ClientInit(S, secret, block, a)[8..56] == block[8..56];
  }

  /** For example, an abridged client that sends the first byte of a packet in one record
      and closes silently: Telegram gets nothing. */
  method UnfinishedPacketLost(S: Suite, secret: Bytes, block: Block, dcIdx: Int16, tailPad: Pad,
                              blocks: seq<Block>, pad: Pad, mask: MaskKey)
    returns (ws: RawWebSocket)
    requires Usable(blocks)
    ensures var messages := TelegramMessages(ws.out);
            messages != [] && |messages[0]| == 64 && TelegramPlain(S, messages) == [] != [0x01]
  {
    hide ClientInit, Crypt, TelegramPlain, TelegramMessages, Usable;
    var a := Announcement(TAG_ABRIDGED, dcIdx, tailPad);
    var sent := ClientInit(S, secret, block, a) + Crypt(S, SecretKey(S, block[8..56], secret), 64, [0x01]);
    assert Written([Write(sent)]) == sent by {
      assert Written([Write(sent)]) == sent + Written([]);
    }
    assert Sp.Parse(ProtoOfTag(TAG_ABRIDGED), [0x01]) == Sp.Parsed([], false);
    ws := ServeSilentClose(S, secret, block, a, [0x01], [Write(sent)], blocks, pad, mask, 2);
  }
}
