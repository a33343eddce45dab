/** The client end of a WebSocket connection: answering control frames, handing out
    data messages, closing (section 5.5 of RFC 6455). */
module Endpoint {
  import opened Octets
  import opened StreamReaders
  import opened WsCodec

  const OP_CONTINUATION := 0x0
  const OP_TEXT := 0x1
  const OP_BINARY := 0x2
  const OP_CLOSE := 0x8
  const OP_PING := 0x9
  const OP_PONG := 0xA

  // ---------------------------------------------------------------- one incoming frame

  predicate IsData(f: Frame) {
    f.opcode in {OP_TEXT, OP_BINARY}
  }

  /** The frame written in answer to an incoming one, if any. */
  function Answer(f: Frame): seq<Frame> {
    if f.opcode == OP_CLOSE then [Frame(OP_CLOSE, if |f.payload| > 2 then f.payload[..2] else f.payload)]
    else if f.opcode == OP_PING then [Frame(OP_PONG, f.payload)]
    else []
  }

  /** The frames this end writes: binary messages, close and pong. */
  predicate OwnFrame(f: Frame) {
    f.opcode in {0x2, 0x8, 0xA}
  }

  datatype Received = Message(payload: Bytes) | Closed | Raised

  /** Effect of one call of recv on an open connection: result, unread bytes, frames written. */
  datatype RecvEffect = RecvEffect(result: Received, rest: Bytes, written: seq<Frame>)

  function RecvStep(wire: Bytes): (e: RecvEffect)
    ensures |e.rest| <= |wire| && (e.result.Message? ==> |e.rest| < |wire|)
    decreases |wire|
  {
    match DecodeFrame(wire)
    case Incomplete => RecvEffect(Raised, [], [])
    case Decoded(f, rest) =>
      if f.opcode == OP_CLOSE then RecvEffect(Closed, rest, Answer(f))
      else if IsData(f) then RecvEffect(Message(f.payload), rest, [])
      else
        var e := RecvStep(rest);
        e.(written := Answer(f) + e.written)
  }

  /** A recv that wrote some frames before reaching `wire`. */
  ghost function Answering(answered: seq<Frame>, wire: Bytes): RecvEffect {
    RecvStep(wire).(written := answered + RecvStep(wire).written)
  }

  lemma RecvUnfolds(wire: Bytes, answered: seq<Frame>)
    ensures match DecodeFrame(wire)
            case Incomplete => Answering(answered, wire) == RecvEffect(Raised, [], answered)
            case Decoded(f, rest) =>
              |rest| < |wire|
              && Answering(answered, wire)
                 == if f.opcode == OP_CLOSE then RecvEffect(Closed, rest, answered + Answer(f))
                    else if IsData(f) then RecvEffect(Message(f.payload), rest, answered + Answer(f))
                    else Answering(answered + Answer(f), rest)
  {
    assert answered + [] == answered;
    match DecodeFrame(wire)
    case Incomplete =>
    case Decoded(f, rest) =>
      Associative(answered, Answer(f), RecvStep(rest).written);
  }

  /** What each opcode means to recv: 1 and 2 are messages, 8 is answered with the status
      code it came with, 9 with a pong of the same payload, and the rest is passed over. */
  lemma OpcodeMeanings(wire: Bytes, f: Frame, rest: Bytes)
    requires DecodeFrame(wire) == Decoded(f, rest)
    ensures |rest| < |wire|
    ensures RecvStep(wire)
            == if f.opcode == 0x1 || f.opcode == 0x2 then RecvEffect(Message(f.payload), rest, [])
               else if f.opcode == 0x8 then
                 RecvEffect(Closed, rest, [Frame(0x8, if |f.payload| < 2 then f.payload else f.payload[..2])])
               else if f.opcode == 0x9 then
                 RecvStep(rest).(written := [Frame(0xA, f.payload)] + RecvStep(rest).written)
               else RecvStep(rest)
  {
    hide DecodeFrame;
    assert [] + RecvStep(rest).written == RecvStep(rest).written;
    assert |f.payload| == 2 ==> f.payload[..2] == f.payload;
  }

  // ---------------------------------------------------------------- the connection object

  class RawWebSocket {
    const reader: StreamReader
    const mask: MaskKey
    var closed: bool
    /** Every byte given to the transport. */
    var out: Bytes
    /** The frames those bytes are made of. */
    ghost var sent: seq<Frame>

    ghost predicate Valid()
      reads this
    {
      && (forall i | 0 <= i < |sent| :: Sendable(sent[i]))
      && out == EncodeFrames(sent, Some(mask))
    }

    constructor (reader: StreamReader, mask: MaskKey)
      ensures Valid() && this.reader == reader && this.mask == mask
      ensures !closed && out == [] && sent == []
    {
      this.reader, this.mask := reader, mask;
      closed, out, sent := false, [], [];
    }

    method WriteFrame(f: Frame)
      requires Valid() && Sendable(f)
      modifies this`out, this`sent
      ensures Valid() && sent == old(sent) + [f]
    {
      EncodeFramesSnoc(sent, f, Some(mask));
      out := out + BuildFrame(f, Some(mask));
      sent := sent + [f];
    }

    /** False stands for the ConnectionError raised on a closed connection. */
    method Send(data: Bytes) returns (ok: bool)
      requires Valid() && |data| < MAX_PAYLOAD
      modifies this`out, this`sent
      ensures Valid() && ok == !closed
      ensures sent == old(sent) + if ok then [Frame(OP_BINARY, data)] else []
    {
      if closed {
        return false;
      }
      WriteFrame(Frame(OP_BINARY, data));
      return true;
    }

    /** All parts as frames in a single write. */
    method SendBatch(parts: seq<Bytes>) returns (ok: bool)
      requires Valid() && forall i | 0 <= i < |parts| :: |parts[i]| < MAX_PAYLOAD
      modifies this`out, this`sent
      ensures Valid() && ok == !closed
      ensures sent == old(sent) + if ok then BinaryFrames(parts) else []
    {
      if closed {
        return false;
      }
      var buf := JoinFrames(parts, mask);
      EncodeFramesConcat(sent, BinaryFrames(parts), Some(mask));
      out := out + buf;
      sent := sent + BinaryFrames(parts);
      return true;
    }

    /** The body of recv's loop for one frame: what recv returns, or None to go on. */
    method React(f: Frame) returns (outcome: Option<Received>)
      requires Valid() && !closed && Sendable(f)
      modifies this
      ensures Valid() && sent == old(sent) + Answer(f) && closed == (f.opcode == OP_CLOSE)
      ensures outcome == if f.opcode == OP_CLOSE then Some(Closed)
                         else if IsData(f) then Some(Message(f.payload)) else None
    {
      assert sent + [] == sent;
      if f.opcode == OP_CLOSE {
        closed := true;
        WriteFrame(Frame(OP_CLOSE, if |f.payload| > 2 then f.payload[..2] else f.payload));
        return Some(Closed);
      }
      if f.opcode == OP_PING {
        WriteFrame(Frame(OP_PONG, f.payload));
        return None;
      }
      if f.opcode == OP_PONG {
        return None;
      }
      if IsData(f) {
        return Some(Message(f.payload));
      }
      return None;
    }

    method Recv() returns (r: Received)
      requires Valid()
      modifies this, reader
      ensures Valid()
      ensures old(closed) ==> r == Closed && closed && sent == old(sent) && reader.wire == old(reader.wire)
      ensures !old(closed) ==>
                var e := RecvStep(old(reader.wire));
                r == e.result && reader.wire == e.rest && sent == old(sent) + e.written && closed == r.Closed?
    {
      hide RawWebSocket.Valid, DecodeFrame, RecvStep, Answer;
      ghost var answered: seq<Frame> := [];
      assert [] + RecvStep(reader.wire).written == RecvStep(reader.wire).written;
      while !closed
        invariant Valid() && sent == old(sent) + answered
        invariant old(closed) ==> closed && answered == [] && reader.wire == old(reader.wire)
        invariant !old(closed) ==> !closed && RecvStep(old(reader.wire)) == Answering(answered, reader.wire)
        decreases !closed, |reader.wire|
      {
        DecodedIsSendable(reader.wire);
        RecvUnfolds(reader.wire, answered);
        var frame := ReadFrame(reader);
        if frame == None {
          return Raised;
        }
        var outcome := React(frame.value);
        answered := answered + Answer(frame.value);
        if outcome.Some? {
          return outcome.value;
        }
      }
      return Closed;
    }

    method Close()
      requires Valid()
      modifies this
      ensures Valid() && closed
      ensures sent == old(sent) + if old(closed) then [] else [Frame(OP_CLOSE, [])]
    {
      if closed {
        return;
      }
      closed := true;
      WriteFrame(Frame(OP_CLOSE, []));
    }
  }

  function BinaryFrames(parts: seq<Bytes>): seq<Frame> {
    seq(|parts|, i requires 0 <= i < |parts| => Frame(OP_BINARY, parts[i]))
  }

  /** The buffer of send_batch. */
  method JoinFrames(parts: seq<Bytes>, mask: MaskKey) returns (buf: Bytes)
    requires forall i | 0 <= i < |parts| :: |parts[i]| < MAX_PAYLOAD
    ensures buf == EncodeFrames(BinaryFrames(parts), Some(mask))
  {
    hide BuildFrame;
    buf := [];
    for i := 0 to |parts|
      invariant buf == EncodeFrames(BinaryFrames(parts[..i]), Some(mask))
    {
      JoinOneMore(parts[..i], parts[i], mask);
      assert parts[..i + 1] == parts[..i] + [parts[i]];
      buf := buf + BuildFrame(Frame(OP_BINARY, parts[i]), Some(mask));
    }
    assert parts[..|parts|] == parts;
  }

  lemma JoinOneMore(parts: seq<Bytes>, part: Bytes, mask: MaskKey)
    requires |part| < MAX_PAYLOAD && forall i | 0 <= i < |parts| :: |parts[i]| < MAX_PAYLOAD
    ensures EncodeFrames(BinaryFrames(parts + [part]), Some(mask))
            == EncodeFrames(BinaryFrames(parts), Some(mask)) + BuildFrame(Frame(OP_BINARY, part), Some(mask))
  {
    hide BuildFrame, EncodeFrames;
    assert BinaryFrames(parts + [part]) == BinaryFrames(parts) + [Frame(OP_BINARY, part)];
    EncodeFramesSnoc(BinaryFrames(parts), Frame(OP_BINARY, part), Some(mask));
  }

  // ---------------------------------------------------------------- whole runs

  /** Frames before the first close frame. */
  function BeforeClose(fs: seq<Frame>): (r: seq<Frame>)
    ensures |r| <= |fs| && r == fs[..|r|]
    ensures |r| < |fs| ==> fs[|r|].opcode == OP_CLOSE
    ensures forall i :: 0 <= i < |r| ==> r[i].opcode != OP_CLOSE
  {
    if fs == [] || fs[0].opcode == OP_CLOSE then [] else [fs[0]] + BeforeClose(fs[1..])
  }

  /** Payloads of the frames with opcode 1 or 2. */
  function Messages(fs: seq<Frame>): seq<Bytes> {
    if fs == [] then []
    else (if IsData(fs[0]) then [fs[0].payload] else []) + Messages(fs[1..])
  }

  lemma {:induction false} MessagesOfBinary(parts: seq<Bytes>)
    ensures Messages(BinaryFrames(parts)) == parts
  {
    if parts != [] {
      MessagesOfBinary(parts[1..]);
      assert BinaryFrames(parts)[1..] == BinaryFrames(parts[1..]);
    }
  }

  /** One pong per ping, with the ping's payload. */
  function Pongs(fs: seq<Frame>): seq<Frame> {
    if fs == [] then []
    else (if fs[0].opcode == OP_PING then [Frame(OP_PONG, fs[0].payload)] else []) + Pongs(fs[1..])
  }

  /** Calling recv until it stops returning messages. */
  function RecvAll(wire: Bytes): (seq<Bytes>, RecvEffect)
    decreases |wire|
  {
    var e := RecvStep(wire);
    if e.result.Message? then
      var (more, last) := RecvAll(e.rest);
      ([e.result.payload] + more, last.(written := e.written + last.written))
    else ([], e)
  }

  /** The outcome of a whole run in terms of the frames received. */
  ghost predicate RunIs(fs: seq<Frame>, messages: seq<Bytes>, last: RecvEffect) {
    var open := BeforeClose(fs);
    && messages == Messages(open)
    && last.result == (if |open| < |fs| then Closed else Raised)
    && last.written == Pongs(open) + if |open| < |fs| then Answer(fs[|open|]) else []
  }

  lemma RunIsCons(f: Frame, fs: seq<Frame>, messages: seq<Bytes>, last: RecvEffect)
    requires RunIs(fs, messages, last) && f.opcode != OP_CLOSE
    ensures RunIs([f] + fs, (if IsData(f) then [f.payload] else []) + messages,
                  last.(written := Answer(f) + last.written))
  {
    var all := [f] + fs;
    assert all[1..] == fs;
    var open := BeforeClose(all);
    assert open[1..] == BeforeClose(fs);
    var tail := if |open| < |all| then Answer(all[|open|]) else [];
    assert Answer(f) + (Pongs(open[1..]) + tail) == (Answer(f) + Pongs(open[1..])) + tail;
  }

  /** Over a whole run the messages handed out are the data payloads before the first
      close frame, in order; what is written is one pong per ping before it and then
      the answer to the close, if there is one. */
  lemma {:induction false} RecvRun(wire: Bytes)
    ensures RunIs(DecodeFrames(wire), RecvAll(wire).0, RecvAll(wire).1)
    decreases |wire|
  {
    match DecodeFrame(wire)
    case Incomplete =>
    case Decoded(f, rest) =>
      DecodeFramesStep(wire, f, rest);
      if f.opcode == OP_CLOSE {
        assert [] + Answer(f) == Answer(f);
      } else {
        RecvRun(rest);
        RecvAllStep(wire, f, rest);
        RunIsCons(f, DecodeFrames(rest), RecvAll(rest).0, RecvAll(rest).1);
      }
  }

  /** A frame other than a close contributes its message and its answer. */
  lemma RecvAllStep(wire: Bytes, f: Frame, rest: Bytes)
    requires DecodeFrame(wire) == Decoded(f, rest) && f.opcode != OP_CLOSE
    ensures var (messages, last) := RecvAll(rest);
            RecvAll(wire) == ((if IsData(f) then [f.payload] else []) + messages,
                              last.(written := Answer(f) + last.written))
  {
    hide DecodeFrame;
    var e := RecvStep(rest);
    var (messages, last) := RecvAll(rest);
    if !IsData(f) {
      assert RecvStep(wire) == e.(written := Answer(f) + e.written);
      assert [] + messages == messages;
      if e.result.Message? {
        var (more, end) := RecvAll(e.rest);
        assert Answer(f) + (e.written + end.written) == (Answer(f) + e.written) + end.written;
      }
    }
  }

  // ---------------------------------------------------------------- what recv reads, and what is to come

  ghost function FramesRead(wire: Bytes): seq<Frame>
    decreases |wire|
  {
    match DecodeFrame(wire)
    case Incomplete => []
    case Decoded(f, rest) => if f.opcode == OP_CLOSE || IsData(f) then [f] else [f] + FramesRead(rest)
  }

  /** The messages a wire still carries before a close frame. */
  ghost function ToCome(wire: Bytes): seq<Bytes> {
    Messages(BeforeClose(DecodeFrames(wire)))
  }

  /** A data frame takes its message from those to come, a close ends them. */
  lemma FrameTakesOne(wire: Bytes)
    ensures match DecodeFrame(wire)
            case Incomplete => ToCome(wire) == []
            case Decoded(f, rest) =>
              ToCome(wire) == if f.opcode == OP_CLOSE then []
                              else (if IsData(f) then [f.payload] else []) + ToCome(rest)
  {
    match DecodeFrame(wire)
    case Incomplete =>
    case Decoded(f, rest) =>
      DecodeFramesStep(wire, f, rest);
      assert ([f] + DecodeFrames(rest))[1..] == DecodeFrames(rest);
      if f.opcode != OP_CLOSE {
        var open := BeforeClose(DecodeFrames(wire));
        assert open[1..] == BeforeClose(DecodeFrames(rest));
      }
  }
}
