/** What a peer may put on the wire: frames with or without the FIN bit, each masked as it
    likes, and messages in fragments (section 5.4 of RFC 6455). */
module Fragments {
  import opened Octets
  import opened WsCodec
  import opened Endpoint
  import opened StrictPeer

  datatype PeerFrame = PeerFrame(fin: bool, frame: Frame, mask: Option<MaskKey>)

  // ---------------------------------------------------------------- the peer's encoder

  function BuildPeerFrame(p: PeerFrame): Bytes
    requires Sendable(p.frame)
  {
    [(if p.fin then 0x80 else 0) + p.frame.opcode] + BuildFrame(p.frame, p.mask)[1..]
  }

  function EncodePeer(ps: seq<PeerFrame>): Bytes
    requires forall i | 0 <= i < |ps| :: Sendable(ps[i].frame)
  {
    if ps == [] then [] else BuildPeerFrame(ps[0]) + EncodePeer(ps[1..])
  }

  function FramesOf(ps: seq<PeerFrame>): seq<Frame> {
    seq(|ps|, i requires 0 <= i < |ps| => ps[i].frame)
  }

  /** Of the first byte only the opcode matters to the reader. */
  lemma OnlyOpcodeRead(b: byte, w: Bytes)
    requires w != [] && b % 16 == w[0] % 16
    ensures DecodeFrame([b] + w[1..]) == DecodeFrame(w)
  {
    hide DecodeBody, FromBe;
    var v := [b] + w[1..];
    if |w| >= 10 {
      assert v[2..10] == w[2..10] && v[10..] == w[10..];
    }
    if |w| >= 4 {
      assert v[2..4] == w[2..4] && v[4..] == w[4..];
    }
    if |w| >= 2 {
      assert v[2..] == w[2..];
    }
  }

  lemma PeerFrameRoundTrip(p: PeerFrame, suffix: Bytes)
    requires Sendable(p.frame)
    ensures DecodeFrame(BuildPeerFrame(p) + suffix) == Decoded(p.frame, suffix)
  {
    hide DecodeFrame;
    var w := BuildFrame(p.frame, p.mask) + suffix;
    var b: byte := (if p.fin then 0x80 else 0) + p.frame.opcode;
    assert w[0] == 0x80 + p.frame.opcode;
    assert BuildPeerFrame(p) + suffix == [b] + w[1..];
    OnlyOpcodeRead(b, w);
    FrameRoundTrip(p.frame, p.mask, suffix);
  }

  lemma {:induction false} PeerRoundTrip(ps: seq<PeerFrame>, suffix: Bytes)
    requires forall i | 0 <= i < |ps| :: Sendable(ps[i].frame)
    ensures DecodeFrames(EncodePeer(ps) + suffix) == FramesOf(ps) + DecodeFrames(suffix)
  {
    hide BuildPeerFrame, DecodeFrames;
    if ps == [] {
      assert [] + suffix == suffix;
    } else {
      var tail := EncodePeer(ps[1..]) + suffix;
      PeerRoundTrip(ps[1..], suffix);
      Associative(BuildPeerFrame(ps[0]), EncodePeer(ps[1..]), suffix);
      PeerFrameRoundTrip(ps[0], tail);
      DecodeFramesStep(BuildPeerFrame(ps[0]) + tail, ps[0].frame, tail);
      assert FramesOf(ps) == [ps[0].frame] + FramesOf(ps[1..]);
    }
  }

  lemma PeerSent(ps: seq<PeerFrame>)
    requires forall i | 0 <= i < |ps| :: Sendable(ps[i].frame)
    ensures DecodeFrames(EncodePeer(ps)) == FramesOf(ps)
  {
    PeerRoundTrip(ps, []);
    assert EncodePeer(ps) + [] == EncodePeer(ps);
    assert DecodeFrames([]) == [] && FramesOf(ps) + [] == FramesOf(ps);
  }

  /** A peer that sends frames, whatever their FIN bits and masking, then falls silent. */
  lemma RecvRunOfFrames(ps: seq<PeerFrame>)
    requires forall i | 0 <= i < |ps| :: Sendable(ps[i].frame)
    ensures RunIs(FramesOf(ps), RecvAll(EncodePeer(ps)).0, RecvAll(EncodePeer(ps)).1)
  {
    PeerSent(ps);
    RecvRun(EncodePeer(ps));
  }

  // ---------------------------------------------------------------- application bytes

  /** The application bytes of a frame list: continuation frames carry data too. */
  function StreamBytes(fs: seq<Frame>): Bytes {
    if fs == [] then []
    else (if IsData(fs[0]) || fs[0].opcode == OP_CONTINUATION then fs[0].payload else []) + StreamBytes(fs[1..])
  }

  function ContinuationBytes(fs: seq<Frame>): Bytes {
    if fs == [] then []
    else (if fs[0].opcode == OP_CONTINUATION then fs[0].payload else []) + ContinuationBytes(fs[1..])
  }

  lemma {:induction false} StreamLength(fs: seq<Frame>)
    ensures |StreamBytes(fs)| == |Flatten(Messages(fs))| + |ContinuationBytes(fs)|
    ensures ContinuationBytes(fs) == [] ==> StreamBytes(fs) == Flatten(Messages(fs))
  {
    if fs != [] {
      StreamLength(fs[1..]);
      var first: seq<Bytes> := if IsData(fs[0]) then [fs[0].payload] else [];
      FlattenConcat(first, Messages(fs[1..]));
      if IsData(fs[0]) {
        FlattenSingle(fs[0].payload);
      }
    }
  }

  /** recv skips continuation frames, so over any wire the bytes it hands out are the
      peer's application bytes exactly when no continuation frame carries any. */
  lemma RecvLosesExactlyContinuations(wire: Bytes)
    ensures var open := BeforeClose(DecodeFrames(wire));
            Flatten(RecvAll(wire).0) == StreamBytes(open) <==> ContinuationBytes(open) == []
  {
    RecvRun(wire);
    StreamLength(BeforeClose(DecodeFrames(wire)));
  }

  // ---------------------------------------------------------------- a message in fragments

  /** A message in fragments: the first has the message's opcode, the others are
      continuation frames, and only the last has the FIN bit. */
  function Fragments(opcode: nat, parts: seq<Bytes>, masks: seq<Option<MaskKey>>): seq<PeerFrame>
    requires |masks| == |parts|
  {
    seq(|parts|, i requires 0 <= i < |parts| =>
      PeerFrame(i == |parts| - 1, Frame(if i == 0 then opcode else OP_CONTINUATION, parts[i]), masks[i]))
  }

  lemma {:induction false} Continuations(fs: seq<Frame>, parts: seq<Bytes>)
    requires |fs| == |parts| && forall i :: 0 <= i < |fs| ==> fs[i] == Frame(OP_CONTINUATION, parts[i])
    ensures BeforeClose(fs) == fs && Messages(fs) == [] && StreamBytes(fs) == Flatten(parts)
  {
    if fs != [] {
      Continuations(fs[1..], parts[1..]);
    }
  }

  /** By the letter of RFC 6455 those frames are one message, the parts put together. */
  function OnTheWire(ps: seq<PeerFrame>): seq<WireFrame> {
    seq(|ps|, i requires 0 <= i < |ps| => WireFrame(ps[i].fin, ps[i].frame.opcode, ps[i].frame.payload))
  }

  lemma LastFragment(f: WireFrame, open: Option<Bytes>)
    requires f.fin && (if open.Some? then f.opcode == 0x0 else f.opcode in {0x1, 0x2})
    ensures Assemble([f], open) == Some([(if open.Some? then open.value else []) + f.payload])
  {
    var message := (if open.Some? then open.value else []) + f.payload;
    assert [f][1..] == [] && Assemble([], None) == Some([]);
    assert Assemble([f][1..], None) == Some([]) && [message] + [] == [message];
    assert Assemble([f], open) == Some([message] + []);
  }

  lemma {:induction false} RestOfMessage(fs: seq<WireFrame>, open: Bytes, parts: seq<Bytes>)
    requires |fs| == |parts| > 0
    requires forall i :: 0 <= i < |fs| ==> fs[i] == WireFrame(i == |fs| - 1, OP_CONTINUATION, parts[i])
    ensures Assemble(fs, Some(open)) == Some([open + Flatten(parts)])
  {
    Associative(open, parts[0], Flatten(parts[1..]));
    if |fs| > 1 {
      RestOfMessage(fs[1..], open + parts[0], parts[1..]);
    } else {
      assert fs[1..] == [] && parts[1..] == [];
      LastFragment(fs[0], Some(open));
      assert Assemble(fs, Some(open)) == Assemble([fs[0]], Some(open)) by { assert fs == [fs[0]]; }
      assert Flatten(parts) == parts[0] + Flatten(parts[1..]) == parts[0] + [] == parts[0];
    }
  }

  lemma FragmentsAreOneMessage(opcode: nat, parts: seq<Bytes>, masks: seq<Option<MaskKey>>)
    requires opcode in {OP_TEXT, OP_BINARY} && |masks| == |parts| && parts != []
    ensures Assemble(OnTheWire(Fragments(opcode, parts, masks)), None) == Some([Flatten(parts)])
  {
    var fs := OnTheWire(Fragments(opcode, parts, masks));
    assert [] + parts[0] == parts[0] && fs[0] == WireFrame(|parts| == 1, opcode, parts[0]);
    if |parts| > 1 {
      RestOfMessage(fs[1..], parts[0], parts[1..]);
    } else {
      assert fs[1..] == [] && parts[1..] == [];
      LastFragment(fs[0], None);
      assert Assemble(fs, None) == Assemble([fs[0]], None) by { assert fs == [fs[0]]; }
      assert Flatten(parts) == parts[0] + Flatten(parts[1..]) == parts[0] + [] == parts[0];
    }
  }

  /** Only the first fragment of a message arrives, so a message in fragments is received
      whole exactly when its other fragments are empty. */
  lemma FragmentedMessage(opcode: nat, parts: seq<Bytes>, masks: seq<Option<MaskKey>>)
    requires opcode in {OP_TEXT, OP_BINARY} && |masks| == |parts| && parts != []
    requires forall i | 0 <= i < |parts| :: |parts[i]| < MAX_PAYLOAD
    ensures var wire := EncodePeer(Fragments(opcode, parts, masks));
            && RecvAll(wire).0 == [parts[0]]
            && StreamBytes(BeforeClose(DecodeFrames(wire))) == Flatten(parts)
            && (Flatten(RecvAll(wire).0) == Flatten(parts) <==> Flatten(parts[1..]) == [])
  {
    hide EncodePeer, RecvAll, DecodeFrames;
    var ps := Fragments(opcode, parts, masks);
    PeerSent(ps);
    RecvRun(EncodePeer(ps));
    FirstAndRest(FramesOf(ps), opcode, parts);
    hide Messages, StreamBytes, BeforeClose, FramesOf, Fragments;
    FlattenSingle(parts[0]);
    assert Flatten(parts) == parts[0] + Flatten(parts[1..]);
  }

  lemma FirstAndRest(fs: seq<Frame>, opcode: nat, parts: seq<Bytes>)
    requires opcode in {OP_TEXT, OP_BINARY} && |fs| == |parts| > 0 && fs[0] == Frame(opcode, parts[0])
    requires forall i :: 0 < i < |fs| ==> fs[i] == Frame(OP_CONTINUATION, parts[i])
    ensures BeforeClose(fs) == fs && Messages(fs) == [parts[0]] && StreamBytes(fs) == Flatten(parts)
  {
    Continuations(fs[1..], parts[1..]);
    assert fs == [fs[0]] + fs[1..];
    assert [parts[0]] + [] == [parts[0]];
  }
}
