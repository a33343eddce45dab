/** The re-encrypting bridge as a state machine: its two directions are interleaved
    steps over the four ciphers, the splitter and the WebSocket. */
module Bridge {
  import opened Octets
  import opened Ctr
  import opened Handshake
  import opened WsCodec
  import opened Endpoint
  import Sp = Splitter

  /** What does not change during a session. */
  datatype Session = Session(suite: Suite, keys: Keys, proto: int)

  /** Cipher positions, splitter, connection, bytes written to the client, and whether
      each direction's task is still running.  The last four fields are the history:
      chunks read from the client, parts cut from them, parts that could not be sent,
      messages received. */
  datatype State = State(
    cltDec: nat, cltEnc: nat, tgEnc: nat, tgDec: nat,
    splitter: Option<Sp.State>,
    wsClosed: bool, wsSent: seq<Frame>,
    toClient: Bytes,
    upLive: bool, downLive: bool, flushed: bool,
    upChunks: seq<Bytes>, parts: seq<Bytes>, dropped: seq<Bytes>, downData: seq<Bytes>)

  /** The bridge starts right after the relay init was sent. */
  function Start(relayInit: Bytes, splitter: bool): State {
    State(64, 0, 64, 0, if splitter then Some(Sp.INITIAL) else None,
          false, [Frame(OP_BINARY, relayInit)], [], true, true, false, [], [], [], [])
  }

  /** One scheduling step: the client reader yields a chunk, end of file or an exception;
      the WebSocket yields a frame or an exception; the session is torn down. */
  datatype Event =
    | Up(chunk: Bytes)
    | UpEof
    | UpError
    | Down(frame: Frame)
    | DownError
    | Finish

  /** Sending on a closed connection raises, which ends the upstream task. */
  function SendParts(st: State, parts: seq<Bytes>): State {
    if parts == [] then st
    else if st.wsClosed then st.(upLive := false, dropped := st.dropped + parts)
    else st.(wsSent := st.wsSent + BinaryFrames(parts))
  }

  function StepUp(c: Session, st: State, chunk: Bytes): State {
    var plain := Crypt(c.suite, c.keys.cltDec, st.cltDec, chunk);
    var enc := Crypt(c.suite, c.keys.tgEnc, st.tgEnc, plain);
    var (sp, parts) :=
      match st.splitter
      case None => (st.splitter, [enc])
      case Some(s) =>
        var (s', ps) := Sp.Step(c.suite, c.keys.tgEnc, c.proto, s, enc);
        (Some(s'), ps);
    SendParts(st.(cltDec := st.cltDec + |chunk|, tgEnc := st.tgEnc + |chunk|, splitter := sp,
                  upChunks := st.upChunks + [chunk], parts := st.parts + parts),
              parts)
  }

  function StepUpEof(st: State): State {
    var ended :=
      match st.splitter
      case None => st
      case Some(s) =>
        var (s', tail) := Sp.Flush(s);
        SendParts(st.(splitter := Some(s'), parts := st.parts + tail), tail);
    ended.(upLive := false, flushed := true)
  }

  function StepDown(c: Session, st: State, f: Frame): State {
    if IsData(f) then
      var plain := Crypt(c.suite, c.keys.tgDec, st.tgDec, f.payload);
      st.(tgDec := st.tgDec + |f.payload|, cltEnc := st.cltEnc + |f.payload|,
          toClient := st.toClient + Crypt(c.suite, c.keys.cltEnc, st.cltEnc, plain),
          downData := st.downData + [f.payload])
    else
      st.(wsSent := st.wsSent + Answer(f),
          wsClosed := f.opcode == OP_CLOSE, downLive := f.opcode != OP_CLOSE)
  }

  function StepFinish(st: State): State {
    st.(upLive := false, downLive := false, wsClosed := true,
        wsSent := st.wsSent + if st.wsClosed then [] else [Frame(OP_CLOSE, [])])
  }

  function Step(c: Session, st: State, e: Event): State {
    match e
    case Up(chunk) => if st.upLive then StepUp(c, st, chunk) else st
    case UpEof => if st.upLive then StepUpEof(st) else st
    case UpError => st.(upLive := false)
    case Down(f) => if st.downLive then StepDown(c, st, f) else st
    case DownError => st.(downLive := false)
    case Finish => StepFinish(st)
  }

  function Run(c: Session, st: State, es: seq<Event>): State {
    if es == [] then st else Step(c, Run(c, st, es[..|es| - 1]), es[|es| - 1])
  }

  // ---------------------------------------------------------------- streams so far

  /** The client's ciphertext, plaintext and the stream encrypted for Telegram. */
  function UpCipher(st: State): Bytes { Flatten(st.upChunks) }
  function UpPlain(c: Session, st: State): Bytes { Crypt(c.suite, c.keys.cltDec, 64, UpCipher(st)) }
  function UpRelayed(c: Session, st: State): Bytes { Crypt(c.suite, c.keys.tgEnc, 64, UpPlain(c, st)) }

  // ---------------------------------------------------------------- keystream lockstep

  /** The position law of every reachable state. */
  ghost predicate Lockstep(c: Session, st: State) {
    && st.cltDec == st.tgEnc == 64 + |UpCipher(st)|
    && st.tgDec == st.cltEnc == |Flatten(st.downData)|
    && st.toClient == Crypt(c.suite, c.keys.cltEnc, 0, Crypt(c.suite, c.keys.tgDec, 0, Flatten(st.downData)))
  }

  lemma UpLockstep(c: Session, st: State, chunk: Bytes)
    requires Lockstep(c, st)
    ensures Lockstep(c, StepUp(c, st, chunk))
    ensures UpCipher(StepUp(c, st, chunk)) == UpCipher(st) + chunk
    ensures UpRelayed(c, StepUp(c, st, chunk))
            == UpRelayed(c, st)
               + Crypt(c.suite, c.keys.tgEnc, st.tgEnc, Crypt(c.suite, c.keys.cltDec, st.cltDec, chunk))
  {
    hide Crypt, Sp.Step, Flatten, BinaryFrames;
    FlattenSnoc(st.upChunks, chunk);
    CryptConcat(c.suite, c.keys.cltDec, 64, UpCipher(st), chunk);
    CryptConcat(c.suite, c.keys.tgEnc, 64, UpPlain(c, st), Crypt(c.suite, c.keys.cltDec, st.cltDec, chunk));
  }

  lemma DownLockstep(c: Session, st: State, f: Frame)
    requires Lockstep(c, st)
    ensures Lockstep(c, StepDown(c, st, f))
  {
    if IsData(f) {
      var all := Flatten(st.downData);
      FlattenSnoc(st.downData, f.payload);
      CryptConcat(c.suite, c.keys.tgDec, 0, all, f.payload);
      CryptConcat(c.suite, c.keys.cltEnc, 0, Crypt(c.suite, c.keys.tgDec, 0, all),
                  Crypt(c.suite, c.keys.tgDec, st.tgDec, f.payload));
    }
  }

  lemma StepLockstep(c: Session, st: State, e: Event)
    requires Lockstep(c, st)
    ensures Lockstep(c, Step(c, st, e))
  {
    match e
    case Up(chunk) => UpLockstep(c, st, chunk);
    case Down(f) => DownLockstep(c, st, f);
    case _ =>
  }

  // ---------------------------------------------------------------- the splitter in the bridge

  /** Until the flush the splitter is where consuming the relayed stream puts it; then
      it has returned all of it. */
  ghost predicate Splitting(c: Session, st: State) {
    match st.splitter
    case None => Flatten(st.parts) == UpRelayed(c, st)
    case Some(s) =>
      if st.flushed then s.cipherBuf == [] && Flatten(st.parts) == UpRelayed(c, st) && PacketsFirst(c, st)
      else Sp.Consumed(c.suite, c.keys.tgEnc, c.proto, UpRelayed(c, st), s, st.parts)
  }

  /** The parts begin with the packets of the stream, one each; after them comes only a
      rest that is no packet, if there is one, and what pass-through mode passes on. */
  ghost predicate PacketsFirst(c: Session, st: State) {
    var plain := Crypt(c.suite, c.keys.tgEnc, 64, UpRelayed(c, st));
    var lens := Sp.Parse(c.proto, plain).lens;
    Sp.ParseBounds(c.proto, plain);
    && |lens| <= |st.parts| && st.parts[..|lens|] == Cut(UpRelayed(c, st), lens)
    && (!Sp.Parse(c.proto, plain).disabled ==> |st.parts| == |lens| + if Sum(lens) < |plain| then 1 else 0)
  }

  lemma UpSplitting(c: Session, st: State, chunk: Bytes)
    requires Lockstep(c, st) && Splitting(c, st) && !st.flushed
    ensures Splitting(c, StepUp(c, st, chunk))
  {
    hide Sp.Consumed, Sp.Step, Crypt;
    UpLockstep(c, st, chunk);
    var enc := Crypt(c.suite, c.keys.tgEnc, st.tgEnc, Crypt(c.suite, c.keys.cltDec, st.cltDec, chunk));
    match st.splitter
    case None =>
      FlattenSnoc(st.parts, enc);
    case Some(s) =>
      Sp.StepConsumes(c.suite, c.keys.tgEnc, c.proto, UpRelayed(c, st), s, st.parts, enc);
  }

  lemma EofSplitting(c: Session, st: State)
    requires Splitting(c, st) && !st.flushed
    ensures Splitting(c, StepUpEof(st))
  {
    hide Crypt, Sp.Parse, Cut, Flatten;
    if st.splitter.Some? {
      CryptCancels(c.suite, c.keys.tgEnc, 64, UpPlain(c, st));
      Sp.FlushCompletes(st.splitter.value, st.parts);
      var s, r := UpRelayed(c, st), Sp.Parse(c.proto, UpPlain(c, st));
      Sp.ParseBounds(c.proto, UpPlain(c, st));
      assert !r.disabled ==> |st.parts| == |r.lens| && st.splitter.value.cipherBuf == s[Sum(r.lens)..];
      var tail := Sp.Flush(st.splitter.value).1;
      assert |st.parts| >= |r.lens| ==> (st.parts + tail)[..|r.lens|] == st.parts[..|r.lens|];
    }
  }

  lemma StepSplitting(c: Session, st: State, e: Event)
    requires Lockstep(c, st) && Splitting(c, st) && (st.flushed ==> !st.upLive)
    ensures Splitting(c, Step(c, st, e))
  {
    hide Sp.Consumed, Crypt, Sp.Parse, Sp.Step, Flatten, PacketsFirst;
    match e
    case Up(chunk) =>
      if st.upLive {
        UpSplitting(c, st, chunk);
      }
    case UpEof =>
      if st.upLive {
        EofSplitting(c, st);
      }
    case Down(f) =>
      SameStreamSplits(c, st, Step(c, st, e));
    case _ =>
      SameStreamSplits(c, st, Step(c, st, e));
  }

  lemma SameStreamSplits(c: Session, st: State, end: State)
    requires end.splitter == st.splitter && end.flushed == st.flushed
    requires end.upChunks == st.upChunks && end.parts == st.parts
    ensures Splitting(c, end) == Splitting(c, st)
  {
  }

  // ---------------------------------------------------------------- what goes out on the WebSocket

  lemma {:induction false} MessagesConcat(a: seq<Frame>, b: seq<Frame>)
    ensures Messages(a + b) == Messages(a) + Messages(b)
  {
    if a == [] {
      assert a + b == b;
    } else {
      MessagesConcat(a[1..], b);
      assert (a + b)[1..] == a[1..] + b && (a + b)[0] == a[0];
      Associative(if IsData(a[0]) then [a[0].payload] else [], Messages(a[1..]), Messages(b));
    }
  }

  /** The relay init and then every part go out, in order, one data frame each, except
      for parts cut when the connection was already closed. */
  ghost predicate Delivery(relayInit: Bytes, st: State) {
    && Messages(st.wsSent) + st.dropped == [relayInit] + st.parts
    && (st.dropped != [] ==> st.wsClosed && !st.upLive)
    && |st.dropped| <= |st.parts|
  }

  lemma SendPartsDelivers(relayInit: Bytes, st: State, parts: seq<Bytes>)
    requires Delivery(relayInit, st) && st.upLive
    ensures Delivery(relayInit, SendParts(st.(parts := st.parts + parts), parts))
  {
    MessagesConcat(st.wsSent, BinaryFrames(parts));
    MessagesOfBinary(parts);
    assert ([relayInit] + st.parts) + parts == [relayInit] + (st.parts + parts);
    assert Messages(st.wsSent) + [] == Messages(st.wsSent);
  }

  lemma ControlFramesDeliver(relayInit: Bytes, st: State, f: Frame)
    requires Delivery(relayInit, st)
    ensures Messages(st.wsSent + [Frame(OP_CLOSE, [])]) == Messages(st.wsSent)
    ensures !IsData(f) ==> Messages(st.wsSent + Answer(f)) == Messages(st.wsSent)
  {
    MessagesConcat(st.wsSent, [Frame(OP_CLOSE, [])]);
    MessagesConcat(st.wsSent, Answer(f));
  }

  // ---------------------------------------------------------------- at most one close frame

  /** A close frame is last, and there is one exactly when the connection is closed. */
  ghost predicate ClosedOnce(st: State) {
    && (forall i :: 0 <= i < |st.wsSent| - 1 ==> st.wsSent[i].opcode != OP_CLOSE)
    && (st.wsClosed <==> st.wsSent != [] && st.wsSent[|st.wsSent| - 1].opcode == OP_CLOSE)
    && (st.wsClosed ==> !st.downLive)
  }

  lemma UpClosedOnce(c: Session, st: State, chunk: Bytes)
    requires ClosedOnce(st)
    ensures ClosedOnce(StepUp(c, st, chunk))
    ensures st.wsClosed ==> StepUp(c, st, chunk).wsSent == st.wsSent
  {
    hide Sp.Step, Crypt;
  }

  lemma EofClosedOnce(st: State)
    requires ClosedOnce(st)
    ensures ClosedOnce(StepUpEof(st))
    ensures st.wsClosed ==> StepUpEof(st).wsSent == st.wsSent
  {
    hide Sp.Flush;
  }

  lemma DownClosedOnce(c: Session, st: State, f: Frame)
    requires ClosedOnce(st) && st.downLive
    ensures ClosedOnce(StepDown(c, st, f))
  {
    hide Crypt;
  }

  lemma FinishClosedOnce(st: State)
    requires ClosedOnce(st)
    ensures ClosedOnce(StepFinish(st))
    ensures st.wsClosed ==> StepFinish(st).wsSent == st.wsSent
  {
  }

  lemma StepClosedOnce(c: Session, st: State, e: Event)
    requires ClosedOnce(st)
    ensures ClosedOnce(Step(c, st, e))
    ensures st.wsClosed ==> Step(c, st, e).wsSent == st.wsSent
  {
    hide StepUp, StepUpEof, StepDown, StepFinish;
    match e
    case Up(chunk) => UpClosedOnce(c, st, chunk);
    case UpEof => EofClosedOnce(st);
    case Down(f) => if st.downLive { DownClosedOnce(c, st, f); }
    case Finish => FinishClosedOnce(st);
    case _ =>
  }

  // ---------------------------------------------------------------- every reachable state

  ghost predicate Invariant(c: Session, relayInit: Bytes, st: State) {
    Lockstep(c, st) && Splitting(c, st) && Delivery(relayInit, st) && ClosedOnce(st) && (st.flushed ==> !st.upLive)
  }

  lemma StepDelivery(c: Session, relayInit: Bytes, st: State, e: Event)
    requires Delivery(relayInit, st) && ClosedOnce(st)
    ensures Delivery(relayInit, Step(c, st, e))
  {
    match e
    case Up(chunk) =>
      if st.upLive {
        var enc := Crypt(c.suite, c.keys.tgEnc, st.tgEnc, Crypt(c.suite, c.keys.cltDec, st.cltDec, chunk));
        var parts :=
          match st.splitter
          case None => [enc]
          case Some(s) => Sp.Step(c.suite, c.keys.tgEnc, c.proto, s, enc).1;
        SendPartsDelivers(relayInit, st, parts);
      }
    case UpEof =>
      if st.upLive && st.splitter.Some? {
        SendPartsDelivers(relayInit, st, Sp.Flush(st.splitter.value).1);
      }
    case Down(f) =>
      ControlFramesDeliver(relayInit, st, f);
    case Finish =>
      ControlFramesDeliver(relayInit, st, Frame(OP_CLOSE, []));
      assert st.wsSent + [] == st.wsSent;
    case _ =>
  }

  lemma {:induction false} RunInvariant(c: Session, relayInit: Bytes, splitter: bool, es: seq<Event>)
    ensures Invariant(c, relayInit, Run(c, Start(relayInit, splitter), es))
  {
    hide Lockstep, Splitting, Delivery, ClosedOnce, Crypt, Sp.Step, Sp.Flush, Answer, Start;
    var st := Start(relayInit, splitter);
    if es == [] {
      StartInvariant(c, relayInit, splitter);
    } else {
      var n := |es| - 1;
      RunInvariant(c, relayInit, splitter, es[..n]);
      var mid := Run(c, st, es[..n]);
      StepLockstep(c, mid, es[n]);
      StepSplitting(c, mid, es[n]);
      StepDelivery(c, relayInit, mid, es[n]);
      StepClosedOnce(c, mid, es[n]);
    }
  }

  lemma StartInvariant(c: Session, relayInit: Bytes, splitter: bool)
    ensures Invariant(c, relayInit, Start(relayInit, splitter))
  {
    var st := Start(relayInit, splitter);
    assert Crypt(c.suite, c.keys.cltDec, 64, []) == [] && UpRelayed(c, st) == [];
    assert Crypt(c.suite, c.keys.tgDec, 0, []) == [] && Crypt(c.suite, c.keys.cltEnc, 0, []) == [];
    assert Messages(st.wsSent) == [relayInit] + Messages(st.wsSent[1..]);
    Sp.RunConsumes(c.suite, c.keys.tgEnc, c.proto, []);
  }

  // ---------------------------------------------------------------- frames always fit

  const READ_SIZE := 65536

  /** Client reads are at most 64 KiB; frames have four-bit opcodes and 64-bit lengths. */
  predicate Admissible(e: Event) {
    && (e.Up? ==> |e.chunk| <= READ_SIZE)
    && (e.Down? ==> Sendable(e.frame))
  }

  predicate Bounded(st: State) {
    && (st.splitter.Some? ==> |st.splitter.value.cipherBuf| < 0x8000_0004)
    && forall i | 0 <= i < |st.wsSent| :: Sendable(st.wsSent[i]) && OwnFrame(st.wsSent[i])
  }

  lemma StepBounded(c: Session, st: State, e: Event)
    requires Bounded(st) && Admissible(e)
    ensures Bounded(Step(c, st, e))
  {
    hide Sp.Step, Crypt;
    if e.Up? && st.splitter.Some? {
      var enc := Crypt(c.suite, c.keys.tgEnc, st.tgEnc, Crypt(c.suite, c.keys.cltDec, st.cltDec, e.chunk));
      Sp.BuffersStaySmall(c.suite, c.keys.tgEnc, c.proto, st.splitter.value, enc);
    }
  }

  lemma {:induction false} RunBounded(c: Session, relayInit: Bytes, splitter: bool, es: seq<Event>)
    requires |relayInit| < MAX_PAYLOAD && forall i | 0 <= i < |es| :: Admissible(es[i])
    ensures Bounded(Run(c, Start(relayInit, splitter), es))
  {
    hide Bounded, Step;
    if es == [] {
      StartBounded(relayInit, splitter);
    } else {
      RunBounded(c, relayInit, splitter, es[..|es| - 1]);
      StepBounded(c, Run(c, Start(relayInit, splitter), es[..|es| - 1]), es[|es| - 1]);
    }
  }

  lemma StartBounded(relayInit: Bytes, splitter: bool)
    requires |relayInit| < MAX_PAYLOAD
    ensures Bounded(Start(relayInit, splitter))
  {
  }

  // ---------------------------------------------------------------- histories in terms of events

  /** Once closed, nothing more is ever written. */
  lemma {:induction false} NothingAfterClose(c: Session, st: State, es: seq<Event>)
    requires ClosedOnce(st) && st.wsClosed
    ensures ClosedOnce(Run(c, st, es)) && Run(c, st, es).wsClosed && Run(c, st, es).wsSent == st.wsSent
  {
    if es != [] {
      NothingAfterClose(c, st, es[..|es| - 1]);
      StepClosedOnce(c, Run(c, st, es[..|es| - 1]), es[|es| - 1]);
    }
  }

  lemma {:induction false} RunConcat(c: Session, st: State, a: seq<Event>, b: seq<Event>)
    ensures Run(c, st, a + b) == Run(c, Run(c, st, a), b)
  {
    if b == [] {
      assert a + b == a;
    } else {
      RunConcat(c, st, a, b[..|b| - 1]);
      assert (a + b)[..|a + b| - 1] == a + b[..|b| - 1];
    }
  }

  lemma RunSnoc(c: Session, st: State, es: seq<Event>, e: Event)
    ensures Run(c, st, es + [e]) == Step(c, Run(c, st, es), e)
  {
    assert (es + [e])[..|es|] == es;
  }

  lemma UpKeepsLive(c: Session, st: State, chunk: Bytes)
    requires !st.wsClosed
    ensures StepUp(c, st, chunk).upLive == st.upLive && !StepUp(c, st, chunk).wsClosed
  {
    hide Sp.Step, Crypt;
  }

  /** Events that neither end the upstream task nor close the connection. */
  predicate Quiet(e: Event) {
    e.Up? || e.DownError? || (e.Down? && e.frame.opcode != OP_CLOSE)
  }

  function Chunks(es: seq<Event>): seq<Bytes> {
    if es == [] then []
    else Chunks(es[..|es| - 1]) + if es[|es| - 1].Up? then [es[|es| - 1].chunk] else []
  }

  lemma {:induction false} QuietRun(c: Session, relayInit: Bytes, splitter: bool, es: seq<Event>)
    requires forall i | 0 <= i < |es| :: Quiet(es[i])
    ensures var st := Run(c, Start(relayInit, splitter), es);
            st.upLive && !st.wsClosed && !st.flushed && st.upChunks == Chunks(es) && st.splitter.Some? == splitter
  {
    if es != [] {
      QuietRun(c, relayInit, splitter, es[..|es| - 1]);
    }
  }

  /** After the upstream task ended its history stands still. */
  lemma {:induction false} UpstreamFrozen(c: Session, st: State, es: seq<Event>)
    requires !st.upLive
    ensures var end := Run(c, st, es);
            && !end.upLive && end.upChunks == st.upChunks && end.parts == st.parts && end.dropped == st.dropped
            && end.flushed == st.flushed && end.splitter == st.splitter
  {
    hide Step;
    if es != [] {
      var n := |es| - 1;
      UpstreamFrozen(c, st, es[..n]);
      StepFrozen(c, Run(c, st, es[..n]), es[n]);
    }
  }

  lemma StepFrozen(c: Session, st: State, e: Event)
    requires !st.upLive
    ensures var end := Step(c, st, e);
            && !end.upLive && end.upChunks == st.upChunks && end.parts == st.parts && end.dropped == st.dropped
            && end.flushed == st.flushed && end.splitter == st.splitter
  {
  }

  function DownFrames(es: seq<Event>): seq<Frame> {
    if es == [] then []
    else DownFrames(es[..|es| - 1]) + if es[|es| - 1].Down? then [es[|es| - 1].frame] else []
  }

  lemma {:induction false} BeforeCloseSnoc(fs: seq<Frame>, f: Frame)
    ensures BeforeClose(fs + [f])
            == if |BeforeClose(fs)| < |fs| || f.opcode == OP_CLOSE then BeforeClose(fs) else BeforeClose(fs) + [f]
    ensures |BeforeClose(fs)| == |fs| ==> BeforeClose(fs) == fs
  {
    if fs != [] && fs[0].opcode != OP_CLOSE {
      BeforeCloseSnoc(fs[1..], f);
      assert (fs + [f])[1..] == fs[1..] + [f];
    }
  }

  lemma DownStep(c: Session, st: State, e: Event)
    requires !e.DownError? && !e.Finish? && !e.Down?
    ensures var end := Step(c, st, e);
            end.downData == st.downData && end.downLive == st.downLive && end.toClient == st.toClient
  {
    hide Crypt, Sp.Step, Sp.Flush;
  }

  /** While the downstream task is neither broken off nor cancelled, the messages
      processed are the data payloads before the first close frame. */
  lemma {:induction false} DownRun(c: Session, relayInit: Bytes, splitter: bool, es: seq<Event>)
    requires forall i | 0 <= i < |es| :: !es[i].DownError? && !es[i].Finish?
    ensures var st := Run(c, Start(relayInit, splitter), es);
            var fs := DownFrames(es);
            && st.downData == Messages(BeforeClose(fs))
            && (st.downLive <==> |BeforeClose(fs)| == |fs|)
  {
    hide StepUp, StepUpEof, Crypt, StepFinish;
    if es != [] {
      var n := |es| - 1;
      DownRun(c, relayInit, splitter, es[..n]);
      var st := Run(c, Start(relayInit, splitter), es[..n]);
      var fs := DownFrames(es[..n]);
      if es[n].Down? {
        var f := es[n].frame;
        BeforeCloseSnoc(fs, f);
        MessagesConcat(BeforeClose(fs), [f]);
        assert Messages([f]) == (if IsData(f) then [f.payload] else []) + Messages([f][1..]);
      } else {
        DownStep(c, st, es[n]);
        assert fs + [] == fs;
      }
    }
  }

  // ---------------------------------------------------------------- one recv as events

  ghost function Downs(fs: seq<Frame>): seq<Event> {
    seq(|fs|, i requires 0 <= i < |fs| => Down(fs[i]))
  }

  /** Reading frames up to the next message is a run of downstream events. */
  lemma {:induction false} RecvIsRun(c: Session, st: State, wire: Bytes)
    requires st.downLive && !st.wsClosed
    ensures var e := RecvStep(wire);
            var written := st.(wsSent := st.wsSent + e.written);
            Run(c, st, Downs(FramesRead(wire)))
            == match e.result
               case Message(p) => StepDown(c, written, Frame(OP_BINARY, p))
               case Closed => written.(wsClosed := true, downLive := false)
               case Raised => written
    decreases |wire|
  {
    hide DecodeFrame, Crypt, Answer, Step, Run;
    match DecodeFrame(wire)
    case Incomplete =>
      RunNothing(c, st);
      assert st.wsSent + [] == st.wsSent;
    case Decoded(f, rest) =>
      OneDown(c, st, f);
      assert st.wsSent + [] == st.wsSent;
      if f.opcode == OP_CLOSE || IsData(f) {
        assert Downs(FramesRead(wire)) == [Down(f)];
      } else {
        var next := StepDown(c, st, f);
        RecvIsRun(c, next, rest);
        RunConcat(c, st, [Down(f)], Downs(FramesRead(rest)));
        assert Downs(FramesRead(wire)) == [Down(f)] + Downs(FramesRead(rest));
        Associative(st.wsSent, Answer(f), RecvStep(rest).written);
      }
  }

  /** The events of one recv. */
  ghost function RecvEvents(wire: Bytes): seq<Event> {
    Downs(FramesRead(wire)) + if RecvStep(wire).result.Raised? then [DownError] else []
  }

  /** They read nothing from the client, and a message comes without a close. */
  lemma {:induction false} RecvEventsQuiet(wire: Bytes)
    ensures forall i :: 0 <= i < |RecvEvents(wire)| ==> !RecvEvents(wire)[i].Up? && Admissible(RecvEvents(wire)[i])
    ensures RecvStep(wire).result.Message? ==> forall i :: 0 <= i < |RecvEvents(wire)| ==> Quiet(RecvEvents(wire)[i])
    decreases |wire|
  {
    hide DecodeFrame;
    DecodedIsSendable(wire);
    match DecodeFrame(wire)
    case Incomplete =>
    case Decoded(f, rest) =>
      if f.opcode == OP_CLOSE || IsData(f) {
        assert RecvEvents(wire) == [Down(f)];
      } else {
        RecvEventsQuiet(rest);
        assert RecvEvents(wire) == [Down(f)] + RecvEvents(rest);
      }
  }

  /** What a frame does to the downstream task. */
  lemma DownEvent(c: Session, st: State, f: Frame)
    ensures var end := StepDown(c, st, f);
            && end.upLive == st.upLive && (st.downLive ==> end.downLive == (f.opcode != OP_CLOSE))
            && end.downData == st.downData + (if IsData(f) then [f.payload] else [])
  {
    hide Crypt, Answer;
  }

  lemma RunNothing(c: Session, st: State)
    ensures Run(c, st, []) == st
  {
  }

  lemma OneDown(c: Session, st: State, f: Frame)
    requires st.downLive
    ensures Run(c, st, [Down(f)]) == StepDown(c, st, f)
  {
    assert [Down(f)][..0] == [] && Run(c, st, []) == st;
  }

  lemma {:induction false} ChunksConcat(a: seq<Event>, b: seq<Event>)
    ensures Chunks(a + b) == Chunks(a) + Chunks(b)
  {
    if b == [] {
      assert a + b == a;
    } else {
      var n := |b| - 1;
      ChunksConcat(a, b[..n]);
      assert (a + b)[..|a + b| - 1] == a + b[..n];
    }
  }

  lemma {:induction false} NoChunks(es: seq<Event>)
    requires forall i :: 0 <= i < |es| ==> !es[i].Up?
    ensures Chunks(es) == []
  {
    if es != [] {
      NoChunks(es[..|es| - 1]);
    }
  }

  /** As long as the upstream task runs, all that was read from the client was processed. */
  lemma {:induction false} LiveRun(c: Session, st: State, es: seq<Event>)
    requires Run(c, st, es).upLive
    ensures st.upLive && Run(c, st, es).upChunks == st.upChunks + Chunks(es)
    ensures Run(c, st, es).flushed == st.flushed
  {
    hide Step;
    if es == [] {
      assert st.upChunks + [] == st.upChunks;
    } else {
      var n := |es| - 1;
      StepLive(c, Run(c, st, es[..n]), es[n]);
      LiveRun(c, st, es[..n]);
      Associative(st.upChunks, Chunks(es[..n]), if es[n].Up? then [es[n].chunk] else []);
    }
  }

  lemma StepLive(c: Session, st: State, e: Event)
    requires Step(c, st, e).upLive
    ensures st.upLive && Step(c, st, e).upChunks == st.upChunks + (if e.Up? then [e.chunk] else [])
    ensures Step(c, st, e).flushed == st.flushed
  {
    hide Crypt, Sp.Step, Sp.Flush, Answer;
  }

  // ---------------------------------------------------------------- control frames

  function Controls(fs: seq<Frame>): seq<Frame> {
    if fs == [] then []
    else (if fs[0].opcode >= 0x8 then [fs[0]] else []) + Controls(fs[1..])
  }

  lemma {:induction false} ControlsConcat(a: seq<Frame>, b: seq<Frame>)
    ensures Controls(a + b) == Controls(a) + Controls(b)
  {
    if a == [] {
      assert a + b == b;
    } else {
      ControlsConcat(a[1..], b);
      assert (a + b)[1..] == a[1..] + b && (a + b)[0] == a[0];
      Associative(if a[0].opcode >= 0x8 then [a[0]] else [], Controls(a[1..]), Controls(b));
    }
  }

  lemma {:induction false} NoControls(fs: seq<Frame>)
    requires forall i :: 0 <= i < |fs| ==> fs[i].opcode < 0x8
    ensures Controls(fs) == []
  {
    if fs != [] {
      NoControls(fs[1..]);
    }
  }

  lemma OneControl(f: Frame)
    ensures Controls([f]) == if f.opcode >= 0x8 then [f] else []
  {
    assert [f][1..] == [];
  }

  lemma {:induction false} PongsConcat(a: seq<Frame>, b: seq<Frame>)
    ensures Pongs(a + b) == Pongs(a) + Pongs(b)
  {
    if a == [] {
      assert a + b == b;
    } else {
      PongsConcat(a[1..], b);
      assert (a + b)[1..] == a[1..] + b && (a + b)[0] == a[0];
      Associative(if a[0].opcode == OP_PING then [Frame(OP_PONG, a[0].payload)] else [], Pongs(a[1..]), Pongs(b));
    }
  }

  /** The control frames that answer the frames read: a pong per ping before the first
      close, and for that close its status code. */
  function Replies(fs: seq<Frame>): seq<Frame> {
    var open := BeforeClose(fs);
    Pongs(open)
    + if |open| == |fs| then []
      else
        var status := fs[|open|].payload;
        [Frame(0x8, if |status| < 2 then status else status[..2])]
  }

  lemma RepliesSnoc(fs: seq<Frame>, f: Frame)
    requires |BeforeClose(fs)| == |fs|
    ensures Replies(fs + [f]) == Replies(fs) + Answer(f)
  {
    BeforeCloseSnoc(fs, f);
    PongsConcat(fs, [f]);
    assert [f][1..] == [];
    assert Pongs([f]) == (if f.opcode == OP_PING then [Frame(OP_PONG, f.payload)] else []) + Pongs([]);
    if f.opcode == OP_CLOSE {
      assert (fs + [f])[|fs|] == f;
      assert Pongs(fs) + [] == Pongs(fs);
      assert |f.payload| == 2 ==> f.payload[..2] == f.payload;
    }
  }

  /** Over a run the control frames written are exactly those replies, in order. */
  lemma {:induction false} RunReplies(c: Session, relayInit: Bytes, splitter: bool, es: seq<Event>)
    requires forall i | 0 <= i < |es| :: !es[i].DownError? && !es[i].Finish?
    ensures var st := Run(c, Start(relayInit, splitter), es);
            Controls(st.wsSent) == Replies(DownFrames(es))
  {
    if es == [] {
      OneControl(Frame(OP_BINARY, relayInit));
    } else {
      hide Controls, Replies, Step, DownFrames;
      var n := |es| - 1;
      RunReplies(c, relayInit, splitter, es[..n]);
      var st := Run(c, Start(relayInit, splitter), es[..n]);
      DownRun(c, relayInit, splitter, es[..n]);
      StepReplies(c, st, DownFrames(es[..n]), es[n]);
      DownFramesSnoc(es[..n], es[n]);
      assert es == es[..n] + [es[n]];
    }
  }

  lemma DownFramesSnoc(es: seq<Event>, e: Event)
    ensures DownFrames(es + [e]) == DownFrames(es) + if e.Down? then [e.frame] else []
  {
    assert (es + [e])[..|es|] == es;
  }

  lemma StepReplies(c: Session, st: State, fs: seq<Frame>, e: Event)
    requires !e.DownError? && !e.Finish? && Controls(st.wsSent) == Replies(fs)
    requires st.downLive <==> |BeforeClose(fs)| == |fs|
    ensures Controls(Step(c, st, e).wsSent) == Replies(fs + if e.Down? then [e.frame] else [])
  {
    hide Replies, Controls, StepUp, StepUpEof, StepDown;
    assert fs + [] == fs;
    match e
    case Down(f) =>
      if st.downLive {
        DownReplies(c, st, fs, f);
      } else {
        RepliesClosed(fs, f);
      }
    case Up(chunk) =>
      if st.upLive {
        UpControls(c, st, chunk);
      }
    case UpEof =>
      if st.upLive {
        EofControls(st);
      }
    case UpError =>
  }

  lemma DownReplies(c: Session, st: State, fs: seq<Frame>, f: Frame)
    requires Controls(st.wsSent) == Replies(fs) && |BeforeClose(fs)| == |fs|
    ensures Controls(StepDown(c, st, f).wsSent) == Replies(fs + [f])
  {
    hide Replies, Controls, Crypt;
    RepliesSnoc(fs, f);
    ControlsConcat(st.wsSent, Answer(f));
    if Answer(f) == [] {
      NoControls([]);
      assert Replies(fs) + [] == Replies(fs);
    } else {
      OneControl(Answer(f)[0]);
      assert Answer(f) == [Answer(f)[0]];
    }
  }

  lemma RepliesClosed(fs: seq<Frame>, f: Frame)
    requires |BeforeClose(fs)| < |fs|
    ensures Replies(fs + [f]) == Replies(fs)
  {
    BeforeCloseSnoc(fs, f);
    assert (fs + [f])[|BeforeClose(fs)|] == fs[|BeforeClose(fs)|];
  }

  lemma SendControls(st: State, parts: seq<Bytes>)
    ensures Controls(SendParts(st, parts).wsSent) == Controls(st.wsSent)
  {
    ControlsConcat(st.wsSent, BinaryFrames(parts));
    NoControls(BinaryFrames(parts));
    assert Controls(st.wsSent) + [] == Controls(st.wsSent);
  }

  lemma UpControls(c: Session, st: State, chunk: Bytes)
    ensures Controls(StepUp(c, st, chunk).wsSent) == Controls(st.wsSent)
  {
    hide Controls, SendParts, Sp.Step, Crypt;
    var enc := Crypt(c.suite, c.keys.tgEnc, st.tgEnc, Crypt(c.suite, c.keys.cltDec, st.cltDec, chunk));
    var sp, parts := st.splitter, [enc];
    if st.splitter.Some? {
      var (next, ps) := Sp.Step(c.suite, c.keys.tgEnc, c.proto, st.splitter.value, enc);
      sp, parts := Some(next), ps;
    }
    SendControls(st.(cltDec := st.cltDec + |chunk|, tgEnc := st.tgEnc + |chunk|, splitter := sp,
                     upChunks := st.upChunks + [chunk], parts := st.parts + parts),
                 parts);
  }

  lemma EofControls(st: State)
    ensures Controls(StepUpEof(st).wsSent) == Controls(st.wsSent)
  {
    hide Controls, SendParts, Sp.Flush;
    if st.splitter.Some? {
      var (sp, tail) := Sp.Flush(st.splitter.value);
      SendControls(st.(splitter := Some(sp), parts := st.parts + tail), tail);
    }
  }
}
