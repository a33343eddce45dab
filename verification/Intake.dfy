/** The first bytes of a TCP connection when a masking domain is set: a stamped hello opens
    the tunnel, anything else is handed on untouched. */
module Intake {
  import opened Octets
  import opened Ctr
  import opened Handshake
  import opened WsCodec
  import opened Endpoint
  import opened StreamReaders
  import opened FakeTls
  import opened Hello
  import opened Server

  /** The client hung up, sent no TLS handshake record, sent one that does not verify, or
      is let into the tunnel. */
  datatype Arrival =
    | HungUp
    | NotTls(first: byte)
    | Masked(hello: Bytes)
    | Admitted(client: Verified)

  // ---------------------------------------------------------------- reading the hello

  /** What arrives on a wire, and the bytes left on it. */
  function Arrived(S: Suite, secret: Bytes, wire: Bytes, now: int): (Arrival, Bytes) {
    if wire == [] then (HungUp, [])
    else if wire[0] != TLS_HANDSHAKE then (NotTls(wire[0]), wire[1..])
    else if |wire| < 5 || |wire| < 5 + FromBe(wire[3..5]) then (HungUp, [])
    else
      var n := 5 + FromBe(wire[3..5]);
      match VerifyClientHello(S, wire[..n], secret, now)
      case None => (Masked(wire[..n]), wire[n..])
      case Some(client) => (Admitted(client), wire[n..])
  }

  method ReadHello(S: Suite, secret: Bytes, reader: StreamReader, now: int) returns (arrival: Arrival)
    modifies reader
    ensures (arrival, reader.wire) == Arrived(S, secret, old(reader.wire), now)
  {
    hide FromBe, VerifyClientHello;
    ghost var wire := reader.wire;
    var first := reader.ReadExactly(1);
    if first == None {
      return HungUp;
    }
    if first.value[0] != TLS_HANDSHAKE {
      return NotTls(first.value[0]);
    }
    var rest := reader.ReadExactly(4);
    if rest == None {
      return HungUp;
    }
    var header := first.value + rest.value;
    assert header == wire[..5] && header[3..5] == wire[3..5] && reader.wire == wire[5..];
    var body := reader.ReadExactly(FromBe(header[3..5]));
    if body == None {
      return HungUp;
    }
    var hello := header + body.value;
    assert hello == wire[..|hello|] && reader.wire == wire[|hello|..];
    match VerifyClientHello(S, hello, secret, now) {
      case None => return Masked(hello);
      case Some(client) => return Admitted(client);
    }
  }

  /** The hello is one TLS record. */
  predicate OneRecord(hello: Bytes) {
    |hello| >= 5 && |hello| == 5 + 256 * hello[3] as int + hello[4] as int
  }

  /** A stamped hello of one record is read to its last byte and no further: admitted
      exactly while its timestamp is recent, otherwise handed on as it came. */
  lemma StampedArrives(S: Suite, secret: Bytes, hello: Bytes, timestamp: nat, rest: Bytes, now: int)
    requires Shaped(hello) && OneRecord(hello) && timestamp < 0x1_0000_0000
    ensures var data := Stamp(S, hello, secret, timestamp);
            Arrived(S, secret, data + rest, now)
            == if Recent(timestamp, now)
               then (Admitted(Verified(data[RANDOM_OFFSET..RANDOM_OFFSET + RANDOM_LEN], SessionId(hello), timestamp)),
                     rest)
               else (Masked(data), rest)
  {
    hide FromBe, VerifyClientHello;
    var data := Stamp(S, hello, secret, timestamp);
    StampKeepsHeader(S, secret, hello, timestamp);
    StampedHelloVerifies(S, hello, secret, timestamp, now);
    var wire := data + rest;
    assert wire[3..5] == data[3..5] == hello[3..5];
    BigEndian(hello[3..5]);
    assert wire[..|data|] == data && wire[|data|..] == rest;
  }

  lemma StampKeepsHeader(S: Suite, secret: Bytes, hello: Bytes, timestamp: nat)
    requires |hello| >= RANDOM_OFFSET + RANDOM_LEN
    ensures var data := Stamp(S, hello, secret, timestamp);
            data[0] == hello[0] && data[3..5] == hello[3..5]
  {
  }

  /** The cases told apart by bytes: a first byte other than 0x16 alone, and a hang-up only
      before the length announced in bytes 3 and 4 has arrived. */
  lemma ArrivalsToldApart(S: Suite, secret: Bytes, wire: Bytes, now: int)
    ensures wire != [] && wire[0] != 0x16 ==> Arrived(S, secret, wire, now) == (NotTls(wire[0]), wire[1..])
    ensures Arrived(S, secret, wire, now).0.HungUp? <==>
            || wire == []
            || (wire[0] == 0x16 && (|wire| < 5 || |wire| < 5 + 256 * wire[3] as int + wire[4] as int))
    ensures Arrived(S, secret, wire, now).0.HungUp? ==> Arrived(S, secret, wire, now).1 == []
  {
    hide VerifyClientHello;
    if |wire| >= 5 {
      BigEndian(wire[3..5]);
    }
  }

  /** Only what is handed on was taken off the wire. */
  lemma MaskedIsWhatWasRead(S: Suite, secret: Bytes, wire: Bytes, now: int)
    ensures match Arrived(S, secret, wire, now)
            case (Masked(hello), rest) => hello + rest == wire
            case (NotTls(first), rest) => [first] + rest == wire
            case (HungUp, rest) => rest == []
            case (Admitted(client), rest) =>
              exists hello: Bytes :: hello + rest == wire && VerifyClientHello(S, hello, secret, now) == Some(client)
  {
    if wire != [] && wire[0] == TLS_HANDSHAKE && |wire| >= 5 && |wire| >= 5 + FromBe(wire[3..5]) {
      var n := 5 + FromBe(wire[3..5]);
      assert wire[..n] + wire[n..] == wire;
    }
  }

  // ---------------------------------------------------------------- the whole connection

  /** The server hello: authenticated against the client's random, echoing its session id,
      and made of exactly three TLS records. */
  ghost predicate Answers(S: Suite, secret: Bytes, client: Verified, reply: Bytes, pubKey: Bytes, encrypted: Bytes) {
    && |reply| >= RANDOM_OFFSET + RANDOM_LEN
    && var random := reply[RANDOM_OFFSET..RANDOM_OFFSET + RANDOM_LEN];
       && random == S.hmac(secret, client.clientRandom + ZeroRandom(reply))
       && match TlsRecords(reply)
          case None => false
          case Some(rs) =>
            && |rs| == 3 && rs[0].kind == 0x16 && rs[1] == TlsRecord(0x14, [1]) && rs[2] == TlsRecord(0x17, encrypted)
            && ReadServerHello(rs[0].body)
               == Some(ServerHello(random, client.sessionId, 0x1301,
                                   [Extension(0x33, [0, 0x1d, 0, 0x20] + pubKey), Extension(0x2b, [3, 4])]))
  }

  method Answer(S: Suite, secret: Bytes, client: Verified, pubKey: Bytes, encrypted: Bytes) returns (reply: Bytes)
    requires |client.sessionId| == SESSION_ID_LEN && |pubKey| == PUBKEY_LEN && 1900 <= |encrypted| <= 2100
    ensures Answers(S, secret, client, reply, pubKey, encrypted)
  {
    hide TlsRecords, ReadServerHello, Response, HelloBody, ZeroRandom;
    reply := BuildServerHello(S, secret, client.clientRandom, client.sessionId, pubKey, encrypted);
    ResponseReads(reply[RANDOM_OFFSET..RANDOM_OFFSET + RANDOM_LEN], client.sessionId, pubKey, encrypted);
  }

  lemma SessionIdSize(S: Suite, secret: Bytes, data: Bytes, now: int)
    ensures match VerifyClientHello(S, data, secret, now)
            case None => true
            case Some(client) => |client.sessionId| == SESSION_ID_LEN
  {
  }

  /** From the first byte of the TCP connection: what the client gets is the server hello
      and then the records of the session; a client that is not admitted gets nothing
      from here, and Telegram is not asked. */
  method ServeTcp(S: Suite, secret: Bytes, reader: StreamReader, now: int, pubKey: Bytes, encrypted: Bytes,
                  blocks: seq<Block>, pad: Pad, telegram: StreamReader, mask: MaskKey, turns: seq<bool>)
    returns (arrival: Arrival, reply: Bytes, ws: RawWebSocket?, clientWire: Bytes, ghost how: Ending)
    requires |pubKey| == PUBKEY_LEN && 1900 <= |encrypted| <= 2100
    requires Usable(blocks) && telegram != reader
    modifies reader, telegram
    ensures var (came, rest) := Arrived(S, secret, old(reader.wire), now);
            && arrival == came
            && if came.Admitted? then
                 && Answers(S, secret, came.client, reply, pubKey, encrypted)
                 && Handled(S, secret, Records(rest), RecordsEndCleanly(rest), old(telegram.wire),
                            FirstAccepted(blocks), pad, mask, turns, ws, clientWire, how)
               else
                 reply == [] && ws == null && clientWire == [] && reader.wire == rest && unchanged(telegram)
  {
    hide VerifyClientHello, Answers, Handled, Records, RecordsEndCleanly, FromBe, Coming, EndsCleanly;
    reply, ws, clientWire, how := [], null, [], ClientEnded;
    ghost var wire := reader.wire;
    arrival := ReadHello(S, secret, reader, now);
    match arrival {
      case Admitted(client) =>
        SessionIdSize(S, secret, wire[..5 + FromBe(wire[3..5])], now);
        reply := Answer(S, secret, client, pubKey, encrypted);
        WholeWire(reader.wire);
        var stream := new FakeTlsStream(reader);
        assert [] + Coming(0, reader.wire) == Coming(0, reader.wire);
        ws, clientWire, how := HandleClient(S, secret, stream, blocks, pad, telegram, mask, turns);
      case _ =>
    }
  }

  /** A client that stamps its hello and then writes into the tunnel. */
  method ServeStamped(S: Suite, secret: Bytes, hello: Bytes, timestamp: nat, items: seq<Item>, now: int,
                      pubKey: Bytes, encrypted: Bytes, blocks: seq<Block>, pad: Pad,
                      telegram: StreamReader, mask: MaskKey, turns: seq<bool>)
    returns (arrival: Arrival, reply: Bytes, ws: RawWebSocket?, clientWire: Bytes, ghost how: Ending)
    requires Shaped(hello) && OneRecord(hello) && timestamp < 0x1_0000_0000
    requires forall i | 0 <= i < |items| :: Fits(items[i])
    requires |pubKey| == PUBKEY_LEN && 1900 <= |encrypted| <= 2100 && Usable(blocks)
    modifies telegram
    ensures var data := Stamp(S, hello, secret, timestamp);
            if Recent(timestamp, now) then
              && arrival.Admitted? && arrival.client.sessionId == SessionId(hello)
              && Answers(S, secret, arrival.client, reply, pubKey, encrypted)
              && Handled(S, secret, Written(items), false, old(telegram.wire),
                         FirstAccepted(blocks), pad, mask, turns, ws, clientWire, how)
            else
              arrival == Masked(data) && reply == [] && ws == null && clientWire == [] && unchanged(telegram)
  {
    hide VerifyClientHello, Answers, Handled, Records, RecordsEndCleanly, WireOf, Written, Arrived, Stamp, FromBe;
    var reader := new StreamReader(Stamp(S, hello, secret, timestamp) + WireOf(items));
    StampedArrives(S, secret, hello, timestamp, WireOf(items), now);
    WireRoundTrip(items);
    arrival, reply, ws, clientWire, how :=
      ServeTcp(S, secret, reader, now, pubKey, encrypted, blocks, pad, telegram, mask, turns);
  }
}
