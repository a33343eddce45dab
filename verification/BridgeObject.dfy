/** The bridge over real cipher, splitter and WebSocket objects, proved step by step
    against its state machine. */
module BridgeObjects {
  import opened Octets
  import opened Ctr
  import opened Handshake
  import opened WsCodec
  import opened Endpoint
  import opened MsgSplitters
  import Br = Bridge
  import Sp = Splitter

  class ReencryptingBridge {
    const ctx: CryptoCtx
    const splitter: MsgSplitter?
    const ws: RawWebSocket
    ghost const session: Br.Session
    var toClient: Bytes
    var upLive: bool
    var downLive: bool
    ghost var flushed: bool
    ghost var upChunks: seq<Bytes>
    ghost var parts: seq<Bytes>
    ghost var dropped: seq<Bytes>
    ghost var downData: seq<Bytes>

    ghost function Repr(): set<object> {
      {this, ctx.cltDec, ctx.cltEnc, ctx.tgEnc, ctx.tgDec, ws}
      + if splitter == null then {} else {splitter, splitter.dec}
    }

    ghost predicate Valid()
      reads Repr()
    {
      && ctx.Holds(session.suite, session.keys)
      && ws.Valid()
      && (downLive ==> !ws.closed)
      && (splitter != null ==>
            && splitter.Valid() && splitter.proto == session.proto && |splitter.cipherBuf| < 0x8000_0004
            && splitter.dec.suite == session.suite && splitter.dec.key == session.keys.tgEnc
            && splitter.dec !in {ctx.cltDec, ctx.cltEnc, ctx.tgEnc, ctx.tgDec})
    }

    ghost function Abs(): Br.State
      requires Valid()
      reads Repr()
    {
      Br.State(ctx.cltDec.pos, ctx.cltEnc.pos, ctx.tgEnc.pos, ctx.tgDec.pos,
               if splitter == null then None else Some(splitter.Abs()),
               ws.closed, ws.sent, toClient, upLive, downLive, flushed, upChunks, parts, dropped, downData)
    }

    /** The objects carry what the abstract state says. */
    lemma OnTheWire()
      requires Valid()
      ensures Abs().wsSent == ws.sent && Abs().wsClosed == ws.closed && ws.Valid()
      ensures Abs().upLive == upLive && Abs().downLive == downLive
      ensures Abs().downData == downData && Abs().toClient == toClient
    {
    }

    /** The state in which bridging starts: fresh ciphers, and a connection over which
        nothing but the relay init went. */
    constructor (ctx: CryptoCtx, splitter: MsgSplitter?, ws: RawWebSocket,
                 ghost session: Br.Session, ghost relayInit: Bytes)
      requires ctx.Holds(session.suite, session.keys)
      requires ctx.cltDec.pos == 64 && ctx.tgEnc.pos == 64 && ctx.cltEnc.pos == 0 && ctx.tgDec.pos == 0
      requires ws.Valid() && !ws.closed && ws.sent == [Frame(OP_BINARY, relayInit)]
      requires splitter != null ==>
                 && splitter.Valid() && splitter.Abs() == Sp.INITIAL && splitter.proto == session.proto
                 && splitter.dec.suite == session.suite && splitter.dec.key == session.keys.tgEnc
                 && splitter.dec !in {ctx.cltDec, ctx.cltEnc, ctx.tgEnc, ctx.tgDec}
      ensures Valid() && this.ctx == ctx && this.splitter == splitter && this.ws == ws && this.session == session
      ensures Abs() == Br.Start(relayInit, splitter != null)
      ensures upLive && downLive && !ws.closed && toClient == [] && downData == []
    {
      this.ctx, this.splitter, this.ws, this.session := ctx, splitter, ws, session;
      toClient, upLive, downLive := [], true, true;
      flushed, upChunks, parts, dropped, downData := false, [], [], [], [];
    }

    /** Parts go out in one write when there are several; on a closed connection the
        send raises, which ends the upstream task. */
    method SendParts(ps: seq<Bytes>)
      requires Valid() && forall i | 0 <= i < |ps| :: |ps[i]| < MAX_PAYLOAD
      modifies ws`out, ws`sent, this`upLive, this`dropped
      ensures Valid()
      ensures Abs() == Br.SendParts(old(Abs()), ps)
    {
      hide RawWebSocket.Valid;
      if ps == [] {
        return;
      }
      var ok;
      if |ps| > 1 {
        ok := ws.SendBatch(ps);
      } else {
        assert BinaryFrames(ps) == [Frame(OP_BINARY, ps[0])];
        ok := ws.Send(ps[0]);
      }
      if !ok {
        upLive := false;
        dropped := dropped + ps;
      }
    }

    /** One chunk read from the client: decrypt, encrypt for Telegram, split, send. */
    method UpChunk(chunk: Bytes)
      requires Valid() && upLive && |chunk| <= Br.READ_SIZE
      modifies Repr()
      ensures Valid()
      ensures Abs() == Br.StepUp(session, old(Abs()), chunk)
    {
      hide Sp.Step, RawWebSocket.Valid, Br.SendParts, Crypt, Valid, Abs;
      var enc := Reencrypt(chunk);
      var ps := CutParts(enc);
      SendParts(ps);
    }

    /** The pieces of the relayed chunk: what the splitter cuts, or the chunk itself. */
    method CutParts(enc: Bytes) returns (ps: seq<Bytes>)
      requires Valid() && |enc| <= Br.READ_SIZE
      modifies this`parts, if splitter == null then {} else {splitter, splitter.dec}
      ensures Valid() && forall i | 0 <= i < |ps| :: |ps[i]| < MAX_PAYLOAD
      ensures var st := old(Abs());
              match st.splitter
              case None => ps == [enc] && Abs() == st.(parts := st.parts + ps)
              case Some(sp) =>
                var (end, cut) := Sp.Step(session.suite, session.keys.tgEnc, session.proto, sp, enc);
                ps == cut && Abs() == st.(splitter := Some(end), parts := st.parts + ps)
    {
      hide Sp.Step, RawWebSocket.Valid, Crypt;
      ps := [enc];
      if splitter != null {
        Sp.BuffersStaySmall(session.suite, session.keys.tgEnc, session.proto, splitter.Abs(), enc);
        ps := splitter.Split(enc);
      }
      parts := parts + ps;
    }

    method Reencrypt(chunk: Bytes) returns (enc: Bytes)
      requires Valid()
      modifies ctx.cltDec, ctx.tgEnc, this`upChunks
      ensures Valid() && |enc| == |chunk|
      ensures var st := old(Abs());
              && enc == Crypt(session.suite, session.keys.tgEnc, st.tgEnc,
                              Crypt(session.suite, session.keys.cltDec, st.cltDec, chunk))
              && Abs() == st.(cltDec := st.cltDec + |chunk|, tgEnc := st.tgEnc + |chunk|,
                              upChunks := st.upChunks + [chunk])
    {
      hide RawWebSocket.Valid, Crypt;
      var plain := ctx.cltDec.Update(chunk);
      enc := ctx.tgEnc.Update(plain);
      upChunks := upChunks + [chunk];
    }

    /** The client reader reports end of file: flush the splitter, then stop. */
    method UpEof()
      requires Valid() && upLive
      modifies Repr()
      ensures Valid()
      ensures Abs() == Br.StepUpEof(old(Abs())) && !upLive
    {
      hide RawWebSocket.Valid, Br.SendParts;
      if splitter != null {
        var tail := splitter.Flush();
        parts := parts + tail;
        SendParts(tail);
      }
      upLive := false;
      flushed := true;
    }

    /** The client reader raises: the upstream task ends without flushing. */
    method UpError()
      requires Valid()
      modifies this`upLive
      ensures Valid()
      ensures Abs() == old(Abs()).(upLive := false)
    {
      upLive := false;
    }

    /** One frame read from Telegram; a message is re-encrypted for the client. */
    method DownFrame(f: Frame) returns (data: Option<Bytes>)
      requires Valid() && downLive && Sendable(f)
      modifies Repr()
      ensures Valid()
      ensures Abs() == Br.StepDown(session, old(Abs()), f)
      ensures data.Some? == IsData(f) && toClient == old(toClient) + (if data.Some? then data.value else [])
    {
      hide RawWebSocket.Valid, Crypt;
      data := None;
      assert toClient + [] == toClient;
      var outcome := ws.React(f);
      if outcome == None {
        return;
      }
      match outcome.value {
        case Message(payload) =>
          downData := downData + [payload];
          var plain := ctx.tgDec.Update(payload);
          var enc := ctx.cltEnc.Update(plain);
          toClient := toClient + enc;
          data := Some(enc);
          assert ws.sent == old(ws.sent);
        case Closed =>
          downLive := false;
        case Raised =>
      }
    }

    /** What the downstream task does between two of its waits for Telegram: read one
        frame, answer it or relay its message, or end. */
    method RelayFrame() returns (data: Option<Bytes>, ghost e: Br.Event)
      requires Valid() && downLive
      modifies Repr(), ws.reader
      ensures Valid() && Abs() == Br.Step(session, old(Abs()), e) && Br.Admissible(e)
      ensures match DecodeFrame(old(ws.reader.wire))
              case Incomplete => e == Br.DownError && ws.reader.wire == [] && data == None
              case Decoded(f, rest) => e == Br.Down(f) && ws.reader.wire == rest && data.Some? == IsData(f)
      ensures toClient == old(toClient) + (if data.Some? then data.value else [])
      ensures upLive == old(upLive) && downLive == (e.Down? && e.frame.opcode != OP_CLOSE)
      ensures downLive ==> !ws.closed && Br.Quiet(e)
      ensures downLive ==> downData + ToCome(ws.reader.wire) == old(downData) + ToCome(old(ws.reader.wire))
      ensures !downLive ==> downData == old(downData) && ToCome(old(ws.reader.wire)) == []
    {
      hide DecodeFrame, RawWebSocket.Valid, ToCome;
      ghost var st, wire := Abs(), ws.reader.wire;
      DecodedIsSendable(wire);
      FrameTakesOne(wire);
      var frame := ReadFrame(ws.reader);
      if frame == None {
        e, data := Br.DownError, None;
        assert toClient + [] == toClient;
        downLive := false;
        return;
      }
      e := Br.Down(frame.value);
      data := DownFrame(frame.value);
      Br.DownEvent(session, st, frame.value);
      OnTheWire();
      Associative(st.downData, if IsData(frame.value) then [frame.value.payload] else [], ToCome(ws.reader.wire));
    }

    /** One turn of the downstream task: a whole recv, whose message is re-encrypted for
        the client.  None when the task has ended. */
    method RelayDown() returns (data: Option<Bytes>, ghost es: seq<Br.Event>)
      requires Valid() && downLive
      modifies Repr(), ws.reader
      ensures Valid() && Abs() == Br.Run(session, old(Abs()), es) && es == Br.RecvEvents(old(ws.reader.wire))
      ensures var e := RecvStep(old(ws.reader.wire));
              && ws.reader.wire == e.rest
              && downLive == data.Some? == e.result.Message?
              && downData == old(downData) + (if e.result.Message? then [e.result.payload] else [])
      ensures toClient == old(toClient) + (if data.Some? then data.value else [])
      ensures upLive == old(upLive) && (downLive ==> ws.closed == old(ws.closed))
    {
      hide RawWebSocket.Valid, Crypt, RecvStep, FramesRead, Br.Run, Br.Downs;
      ghost var st, wire := Abs(), ws.reader.wire;
      Br.RecvIsRun(session, st, wire);
      es := Br.Downs(FramesRead(wire));
      var r := ws.Recv();
      match r {
        case Message(payload) =>
          downData := downData + [payload];
          var plain := ctx.tgDec.Update(payload);
          var enc := ctx.cltEnc.Update(plain);
          toClient := toClient + enc;
          data := Some(enc);
          assert es + [] == es;
        case Closed =>
          downLive, data := false, None;
          assert es + [] == es;
        case Raised =>
          Br.RunSnoc(session, st, es, Br.DownError);
          es := es + [Br.DownError];
          downLive, data := false, None;
      }
    }

    /** Both tasks are cancelled and the connection is closed. */
    method Finish()
      requires Valid()
      modifies Repr()
      ensures Valid()
      ensures Abs() == Br.StepFinish(old(Abs()))
    {
      upLive, downLive := false, false;
      ws.Close();
    }

    /** Any interleaving the event loop may choose. */
    method RunEvents(es: seq<Br.Event>)
      requires Valid()
      requires forall i | 0 <= i < |es| :: Br.Admissible(es[i])
      modifies Repr()
      ensures Valid()
      ensures Abs() == Br.Run(session, old(Abs()), es)
    {
      hide Br.StepUp, Br.StepUpEof, Br.StepDown, Br.StepFinish;
      assert es[..0] == [];
      for n := 0 to |es|
        invariant Valid() && Abs() == Br.Run(session, old(Abs()), es[..n])
      {
        assert es[..n + 1][..n] == es[..n] && es[..n + 1][n] == es[n];
        match es[n] {
          case Up(chunk) => if upLive { UpChunk(chunk); }
          case UpEof => if upLive { UpEof(); }
          case UpError => UpError();
          case Down(f) => if downLive { var _ := DownFrame(f); }
          case DownError => downLive := false;
          case Finish => Finish();
        }
      }
      assert es[..|es|] == es;
    }
  }
}
