/** From the client's plaintext to Telegram's and back: handshake, ciphers, splitter,
    WebSocket frames and Fake TLS composed. */
module EndToEnd {
  import opened Octets
  import opened Ctr
  import opened Handshake
  import opened WsCodec
  import opened Endpoint
  import opened Transport
  import opened StrictPeer
  import Sp = Splitter
  import Br = Bridge
  import Tls = FakeTls

  /** One proxied connection: what the client chose, and the proxy's random choices. */
  datatype Connection = Connection(
    suite: Suite, secret: Bytes,
    clientBlock: Block, announced: Announcement,
    relayBlock: Block, relayPad: Pad, mask: MaskKey)

  // ---------------------------------------------------------------- the three parties

  function ClientKey(n: Connection): StreamKey { SecretKey(n.suite, n.clientBlock[8..56], n.secret) }
  function ClientDownKey(n: Connection): StreamKey { SecretKey(n.suite, Reverse(n.clientBlock[8..56]), n.secret) }

  /** The client's bytes: its init packet, then its plaintext from keystream position 64. */
  function ClientPacket(n: Connection): Block { ClientInit(n.suite, n.secret, n.clientBlock, n.announced) }
  function ClientSends(n: Connection, plain: Bytes): Bytes { Crypt(n.suite, ClientKey(n), 64, plain) }

  function RelayInit(n: Connection): Block {
    WriteInit(n.suite, RawKey(n.relayBlock[8..56]), n.relayBlock,
          Announcement(n.announced.tag, n.announced.dcIdx, n.relayPad))
  }

  /** What the proxy works with after the handshake. */
  function SessionOf(n: Connection): Br.Session {
    Br.Session(n.suite, DeriveKeys(n.suite, n.clientBlock[8..56], n.secret, RelayInit(n)), ProtoOfTag(n.announced.tag))
  }

  /** Telegram's view of a WebSocket byte stream: the messages it carries by the letter of
      RFC 6455, none if it breaks a rule. */
  function TelegramMessages(wire: Bytes): seq<Bytes> {
    match StrictMessages(wire)
    case None => []
    case Some(messages) => messages
  }

  /** Telegram's plaintext: everything after the relay init, decrypted with the keys
      found inside that init, from keystream position 64. */
  function TelegramPlain(S: Suite, messages: seq<Bytes>): Bytes
    requires messages != [] && |messages[0]| == 64
  {
    Crypt(S, RawKey(messages[0][8..56]), 64, Flatten(messages[1..]))
  }

  /** The state the bridge reaches, and the bytes it has put on the WebSocket. */
  function Reached(n: Connection, splitter: bool, es: seq<Br.Event>): Br.State {
    Br.Run(SessionOf(n), Br.Start(RelayInit(n), splitter), es)
  }

  function ProxySends(n: Connection, splitter: bool, es: seq<Br.Event>): Bytes
    requires forall i | 0 <= i < |es| :: Br.Admissible(es[i])
  {
    Br.RunBounded(SessionOf(n), RelayInit(n), splitter, es);
    EncodeFrames(Reached(n, splitter, es).wsSent, Some(n.mask))
  }

  // ---------------------------------------------------------------- the handshake part

  /** The proxy recovers what it needs from the client's packet, and Telegram recovers
      from the relay init exactly what the client announced. */
  lemma HandshakeComposes(n: Connection)
    requires KnownTag(n.announced.tag) && !Reserved(n.relayBlock)
    ensures var h := TryHandshake(n.suite, ClientPacket(n), n.secret);
            && h.Some?
            && h.value.prekeyIv == n.clientBlock[8..56] && h.value.tag == n.announced.tag
            && SignedIndex(h.value) == n.announced.dcIdx
    ensures ReadInit(n.suite, RawKey(RelayInit(n)[8..56]), RelayInit(n))
            == Announcement(n.announced.tag, n.announced.dcIdx, n.relayPad)
    ensures SessionOf(n).keys.tgEnc == RawKey(RelayInit(n)[8..56]) && SessionOf(n).keys.cltDec == ClientKey(n)
  {
    HandshakeAcceptance(n.suite, n.secret, n.clientBlock, n.announced);
    RelayInitCarries(n.suite, n.relayBlock, Announcement(n.announced.tag, n.announced.dcIdx, n.relayPad));
  }

  // ---------------------------------------------------------------- upstream

  /** What Telegram reads off the wire is what the bridge put into data frames. */
  lemma TelegramReadsMessages(n: Connection, splitter: bool, es: seq<Br.Event>)
    requires forall i | 0 <= i < |es| :: Br.Admissible(es[i])
    ensures TelegramMessages(ProxySends(n, splitter, es)) == Messages(Reached(n, splitter, es).wsSent)
  {
    hide Br.Run, EncodeFrames, StrictMessages;
    Br.RunBounded(SessionOf(n), RelayInit(n), splitter, es);
    StrictReading(Reached(n, splitter, es).wsSent, n.mask);
  }

  /** The messages after the relay init are the parts that could be sent. */
  lemma MessagesAreParts(n: Connection, splitter: bool, es: seq<Br.Event>)
    requires forall i | 0 <= i < |es| :: Br.Admissible(es[i])
    ensures var st := Reached(n, splitter, es);
            var messages := TelegramMessages(ProxySends(n, splitter, es));
            && messages != [] && messages[0] == RelayInit(n)
            && messages[1..] + st.dropped == st.parts
  {
    hide Br.Run, ProxySends, Br.Splitting, Br.Lockstep;
    TelegramReadsMessages(n, splitter, es);
    Br.RunInvariant(SessionOf(n), RelayInit(n), splitter, es);
    var st := Reached(n, splitter, es);
    var messages := Messages(st.wsSent);
    var all := messages + st.dropped;
    assert all[0] == RelayInit(n) && all[1..] == st.parts;
    assert |messages| + |st.dropped| == 1 + |st.parts|;
    assert all[1..] == messages[1..] + st.dropped;
  }

  /** Decrypting part of the relayed stream gives the same part of the plaintext. */
  lemma DecryptPrefix(c: Br.Session, st: Br.State, got: Bytes)
    requires got <= Br.UpRelayed(c, st)
    ensures Crypt(c.suite, c.keys.tgEnc, 64, got) == Br.UpPlain(c, st)[..|got|]
  {
    var all := Br.UpRelayed(c, st);
    CryptCancels(c.suite, c.keys.tgEnc, 64, Br.UpPlain(c, st));
    CryptSlice(c.suite, c.keys.tgEnc, 64, all, 0, |got|);
    assert all[..|got|] == got;
  }

  /** In every reachable state, whatever the interleaving and even after the peer closed
      the connection, Telegram has decrypted a prefix of the client's plaintext: all of
      it up to the bytes still in the splitter and the parts that could not be sent. */
  lemma UpstreamPrefix(n: Connection, splitter: bool, es: seq<Br.Event>)
    requires forall i | 0 <= i < |es| :: Br.Admissible(es[i])
    ensures var c := SessionOf(n);
            var st := Reached(n, splitter, es);
            var messages := TelegramMessages(ProxySends(n, splitter, es));
            var waiting := if st.splitter.Some? then |st.splitter.value.cipherBuf| else 0;
            && messages != [] && messages[0] == RelayInit(n)
            && TelegramPlain(n.suite, messages) <= Br.UpPlain(c, st)
            && |TelegramPlain(n.suite, messages)| + |Flatten(st.dropped)| + waiting == |Br.UpPlain(c, st)|
  {
    hide Br.Run, ProxySends, Br.UpRelayed, Br.UpPlain, Crypt;
    var c, st := SessionOf(n), Reached(n, splitter, es);
    MessagesAreParts(n, splitter, es);
    Br.RunInvariant(c, RelayInit(n), splitter, es);
    var messages := TelegramMessages(ProxySends(n, splitter, es));
    FlattenConcat(messages[1..], st.dropped);
    Waiting(c, RelayInit(n), st);
    var got := Flatten(messages[1..]);
    assert got <= Br.UpRelayed(c, st);
    DecryptPrefix(c, st, got);
    RelayedLength(c, st);
    assert RelayInit(n)[8..56] == n.relayBlock[8..56];
  }

  lemma RelayedLength(c: Br.Session, st: Br.State)
    ensures |Br.UpRelayed(c, st)| == |Br.UpPlain(c, st)| == |Br.UpCipher(st)|
  {
  }

  /** What is not in the parts is in the splitter. */
  lemma Waiting(c: Br.Session, relayInit: Bytes, st: Br.State)
    requires Br.Invariant(c, relayInit, st)
    ensures Flatten(st.parts) <= Br.UpRelayed(c, st)
    ensures |Flatten(st.parts)| + (if st.splitter.Some? then |st.splitter.value.cipherBuf| else 0)
            == |Br.UpRelayed(c, st)|
  {
  }

  /** The client's whole stream is read before anything closes the connection, then its
      reader ends: with an empty read (end of file) or with an exception. */
  ghost predicate Uploads(n: Connection, plain: Bytes, before: seq<Br.Event>, end: Br.Event, after: seq<Br.Event>) {
    && (forall i | 0 <= i < |before| :: Br.Quiet(before[i]))
    && (forall i | 0 <= i < |before + [end] + after| :: Br.Admissible((before + [end] + after)[i]))
    && Flatten(Br.Chunks(before)) == ClientSends(n, plain)
    && (end.UpEof? || end.UpError?)
  }

  /** Nothing is dropped, and what stays in the splitter is nothing after a flush and
      an incomplete last packet otherwise. */
  lemma UploadEnds(n: Connection, splitter: bool, plain: Bytes,
                   before: seq<Br.Event>, end: Br.Event, after: seq<Br.Event>)
    requires Uploads(n, plain, before, end, after)
    ensures var c := SessionOf(n);
            var st := Reached(n, splitter, before + [end] + after);
            && st.dropped == [] && Br.UpPlain(c, st) == plain && st.splitter.Some? == splitter
            && st.flushed == end.UpEof?
  {
    hide Crypt, Sp.Step, Sp.Flush, Br.Splitting, Br.Lockstep, Br.ClosedOnce;
    var c, st0 := SessionOf(n), Br.Start(RelayInit(n), splitter);
    Br.RunConcat(c, st0, before + [end], after);
    Br.RunConcat(c, st0, before, [end]);
    Br.QuietRun(c, RelayInit(n), splitter, before);
    Br.RunInvariant(c, RelayInit(n), splitter, before);
    var mid := Br.Run(c, st0, before);
    assert [end][..0] == [] && Br.Run(c, mid, [end]) == Br.Step(c, Br.Run(c, mid, []), end);
    var ended := Br.Step(c, mid, end);
    assert ended.dropped == [] && ended.upChunks == mid.upChunks && !ended.upLive;
    Br.UpstreamFrozen(c, ended, after);
    ClientKeysAgree(n);
    CryptCancels(n.suite, ClientKey(n), 64, plain);
  }

  lemma ClientKeysAgree(n: Connection)
    ensures SessionOf(n).keys.cltDec == ClientKey(n)
    ensures SessionOf(n).keys.cltEnc == ClientDownKey(n)
    ensures SessionOf(n).keys.tgEnc == RawKey(RelayInit(n)[8..56])
  {
  }

  /** End to end, upstream: whatever the chunks, whatever the downstream does meanwhile
      and afterwards, Telegram decrypts exactly the client's plaintext. */
  lemma UpstreamEndToEnd(n: Connection, splitter: bool, plain: Bytes, before: seq<Br.Event>, after: seq<Br.Event>)
    requires Uploads(n, plain, before, Br.UpEof, after)
    ensures var messages := TelegramMessages(ProxySends(n, splitter, before + [Br.UpEof] + after));
            && messages != [] && messages[0] == RelayInit(n)
            && TelegramPlain(n.suite, messages) == plain
  {
    hide Crypt, Sp.Step, Sp.Consumed, Br.Lockstep, Br.ClosedOnce, Br.Delivery, Br.Run, ProxySends, TelegramPlain;
    var es := before + [Br.UpEof] + after;
    UploadEnds(n, splitter, plain, before, Br.UpEof, after);
    UpstreamPrefix(n, splitter, es);
    Br.RunInvariant(SessionOf(n), RelayInit(n), splitter, es);
  }

  /** A reader that raises instead of reporting end of file skips the flush: Telegram
      then gets everything exactly when the stream ended on a packet boundary, had
      disabled the splitter, or was not split at all. */
  lemma UnflushedUpload(n: Connection, splitter: bool, plain: Bytes, before: seq<Br.Event>, after: seq<Br.Event>)
    requires Uploads(n, plain, before, Br.UpError, after)
    ensures var proto := ProtoOfTag(n.announced.tag);
            var messages := TelegramMessages(ProxySends(n, splitter, before + [Br.UpError] + after));
            var whole := !splitter || Sp.Parse(proto, plain).disabled || Sp.Covered(proto, plain) == |plain|;
            && messages != [] && |messages[0]| == 64
            && Sp.Covered(proto, plain) <= |plain|
            && TelegramPlain(n.suite, messages) == (if whole then plain else plain[..Sp.Covered(proto, plain)])
            && (TelegramPlain(n.suite, messages) == plain <==> whole)
  {
    hide Crypt, Br.Splitting, Br.Lockstep, Br.ClosedOnce, Br.Delivery, Br.Run, ProxySends, TelegramPlain, Sp.Parse;
    var es := before + [Br.UpError] + after;
    UploadEnds(n, splitter, plain, before, Br.UpError, after);
    UpstreamPrefix(n, splitter, es);
    Br.RunInvariant(SessionOf(n), RelayInit(n), splitter, es);
    Sp.ParseBounds(SessionOf(n).proto, plain);
    if splitter {
      LeftInSplitter(SessionOf(n), Reached(n, splitter, es));
    }
  }

  /** Without a flush the splitter keeps what its parse has not covered. */
  lemma LeftInSplitter(c: Br.Session, st: Br.State)
    requires Br.Splitting(c, st) && !st.flushed && st.splitter.Some?
    ensures var plain := Br.UpPlain(c, st);
            |st.splitter.value.cipherBuf|
            == if Sp.Parse(c.proto, plain).disabled then 0 else |plain| - Sp.Covered(c.proto, plain)
  {
    hide Crypt, Sp.Parse, Cut, Flatten;
    CryptCancels(c.suite, c.keys.tgEnc, 64, Br.UpPlain(c, st));
    Sp.ParseBounds(c.proto, Br.UpPlain(c, st));
    RelayedLength(c, st);
  }

  /** Before pass-through mode each WebSocket payload is one whole MTProto packet: message
      1 + i carries packet i of the plaintext, encrypted at its stream offset. */
  ghost predicate PacketPerMessage(n: Connection, plain: Bytes, messages: seq<Bytes>) {
    var proto := ProtoOfTag(n.announced.tag);
    var lens := Sp.Parse(proto, plain).lens;
    && Sum(lens) <= |plain|
    && forall i :: 0 <= i < |lens| && 1 + i < |messages| ==>
         var packet := Cut(plain, lens)[i];
         && IsPacket(proto, packet)
         && messages[1 + i] == Crypt(n.suite, RawKey(RelayInit(n)[8..56]), 64 + Sum(lens[..i]), packet)
  }

  /** In every reachable state; and before pass-through mode nothing but packets goes out,
      save a rest that is none with the flush. */
  lemma PayloadsArePackets(n: Connection, es: seq<Br.Event>)
    requires forall i | 0 <= i < |es| :: Br.Admissible(es[i])
    ensures var c, st := SessionOf(n), Reached(n, true, es);
            var plain := Br.UpPlain(c, st);
            var messages := TelegramMessages(ProxySends(n, true, es));
            var r := Sp.Parse(c.proto, plain);
            && PacketPerMessage(n, plain, messages)
            && |messages| + |st.dropped| >= 1 + |r.lens|
            && (!r.disabled ==>
                  |messages| + |st.dropped|
                  == 1 + |r.lens| + if st.flushed && Sum(r.lens) < |plain| then 1 else 0)
  {
    hide Crypt, Sp.Step, Br.Lockstep, Br.ClosedOnce, Br.Delivery, Br.Run, ProxySends, Sp.Parse, IsPacket;
    var c, st := SessionOf(n), Reached(n, true, es);
    MessagesAreParts(n, true, es);
    Br.RunInvariant(c, RelayInit(n), true, es);
    SplitterKept(c, Br.Start(RelayInit(n), true), es);
    var messages := TelegramMessages(ProxySends(n, true, es));
    ClientKeysAgree(n);
    var plain := Br.UpPlain(c, st);
    CryptCancels(c.suite, c.keys.tgEnc, 64, plain);
    Sp.ParseBounds(c.proto, plain);
    Sp.ParseYieldsPackets(c.proto, plain);
    var lens := Sp.Parse(c.proto, plain).lens;
    assert |lens| <= |st.parts| && st.parts[..|lens|] == Cut(Br.UpRelayed(c, st), lens);
    forall i | 0 <= i < |lens| && 1 + i < |messages|
      ensures messages[1 + i] == Crypt(n.suite, RawKey(RelayInit(n)[8..56]), 64 + Sum(lens[..i]), Cut(plain, lens)[i])
    {
      Sp.CutCrypt(c.suite, c.keys.tgEnc, 64, plain, lens, i);
      assert messages[1 + i] == messages[1..][i] == st.parts[i] == st.parts[..|lens|][i];
    }
  }

  lemma {:induction false} SplitterKept(c: Br.Session, st: Br.State, es: seq<Br.Event>)
    ensures Br.Run(c, st, es).splitter.Some? == st.splitter.Some?
  {
    hide Br.Step;
    if es != [] {
      var n := |es| - 1;
      SplitterKept(c, st, es[..n]);
      StepKeepsSplitter(c, Br.Run(c, st, es[..n]), es[n]);
    }
  }

  lemma StepKeepsSplitter(c: Br.Session, st: Br.State, e: Br.Event)
    ensures Br.Step(c, st, e).splitter.Some? == st.splitter.Some?
  {
    hide Crypt, Sp.Step, Sp.Flush, Answer;
  }

  /** Packets of a prefix are packets of the whole. */
  lemma PacketsOfPrefix(n: Connection, part: Bytes, plain: Bytes, messages: seq<Bytes>)
    requires part <= plain && PacketPerMessage(n, part, messages)
    requires var r := Sp.Parse(ProtoOfTag(n.announced.tag), part); r.disabled || |messages| <= 1 + |r.lens|
    ensures PacketPerMessage(n, plain, messages)
  {
    hide Sp.Parse, Crypt, IsPacket;
    var proto := ProtoOfTag(n.announced.tag);
    var more := plain[|part|..];
    assert plain == part + more;
    Sp.ParseAppend(proto, part, more);
    Sp.ParseBounds(proto, plain);
    var a, all := Sp.Parse(proto, part).lens, Sp.Parse(proto, plain).lens;
    var b := all[|a|..];
    assert all == a + b;
    SumConcat(a, b);
    CutConcat(plain, a, b);
    CutPrefix(part, more, a);
    forall i | 0 <= i < |all| && 1 + i < |messages|
      ensures Cut(plain, all)[i] == Cut(part, a)[i] && all[..i] == a[..i] && i < |a|
    {
    }
  }

  // ---------------------------------------------------------------- downstream

  /** End to end, downstream: in every reachable state the client, decrypting with its
      own key from position 0, has exactly what Telegram's messages decrypt to with the
      key pair Telegram derived from the relay init. */
  lemma DownstreamEndToEnd(n: Connection, splitter: bool, es: seq<Br.Event>)
    ensures var st := Reached(n, splitter, es);
            Crypt(n.suite, ClientDownKey(n), 0, st.toClient)
            == Crypt(n.suite, RawKey(Reverse(RelayInit(n)[8..56])), 0, Flatten(st.downData))
    ensures (forall i | 0 <= i < |es| :: !es[i].DownError? && !es[i].Finish?) ==>
              Reached(n, splitter, es).downData == Messages(BeforeClose(Br.DownFrames(es)))
  {
    hide Crypt, Br.Run, Br.Splitting, Br.ClosedOnce, Br.Delivery;
    var c, st := SessionOf(n), Reached(n, splitter, es);
    Br.RunInvariant(c, RelayInit(n), splitter, es);
    CryptCancels(n.suite, c.keys.cltEnc, 0, Crypt(n.suite, c.keys.tgDec, 0, Flatten(st.downData)));
    ClientKeysAgree(n);
    if forall i | 0 <= i < |es| :: !es[i].DownError? && !es[i].Finish? {
      Br.DownRun(c, RelayInit(n), splitter, es);
    }
  }

  /** What Telegram said: the messages on its wire before a close frame, decrypted with the
      key pair it derived from the relay init. */
  function TelegramSays(n: Connection, messages: seq<Bytes>): Bytes {
    Crypt(n.suite, RawKey(Reverse(RelayInit(n)[8..56])), 0, Flatten(messages))
  }

  /** What the client has: the application data in the TLS records it got, decrypted. */
  function ClientHas(n: Connection, clientWire: Bytes): Bytes {
    Crypt(n.suite, ClientDownKey(n), 0, Tls.Records(clientWire))
  }

  lemma AnswerArrives(n: Connection, splitter: bool, es: seq<Br.Event>, messages: seq<Bytes>, clientWire: Bytes)
    requires var st := Reached(n, splitter, es); st.downData <= messages && Tls.Records(clientWire) == st.toClient
    ensures ClientHas(n, clientWire) <= TelegramSays(n, messages)
    ensures Reached(n, splitter, es).downData == messages ==> ClientHas(n, clientWire) == TelegramSays(n, messages)
  {
    hide Crypt, Br.Run, Tls.Records;
    var st := Reached(n, splitter, es);
    var key := RawKey(Reverse(RelayInit(n)[8..56]));
    DownstreamEndToEnd(n, splitter, es);
    FlattenConcat(st.downData, messages[|st.downData|..]);
    assert messages == st.downData + messages[|st.downData|..];
    CryptConcat(n.suite, key, 0, Flatten(st.downData), Flatten(messages[|st.downData|..]));
  }
}
