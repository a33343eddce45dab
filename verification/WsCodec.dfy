/** WebSocket frames on the wire: masking and the three length encodings
    (sections 5.2 and 5.3 of RFC 6455). */
module WsCodec {
  import opened Octets
  import opened StreamReaders

  // ---------------------------------------------------------------- masking

  type MaskKey = m: Bytes | |m| == 4 witness [0, 0, 0, 0]

  /** The mask of section 5.3 of RFC 6455, byte by byte. */
  function XorMask(data: Bytes, mask: MaskKey): (r: Bytes)
    ensures |r| == |data|
  {
    seq(|data|, i requires 0 <= i < |data| => XorByte(data[i], mask[i % 4]))
  }

  /** Byte i is combined with byte i modulo 4 of the key. */
  lemma MaskedByte(data: Bytes, mask: MaskKey, i: nat)
    requires i < |data|
    ensures Xor(XorMask(data, mask)[i], mask[i % 4]) == data[i]
    ensures XorByte(XorMask(data, mask)[i], mask[i % 4]) == data[i]
  {
    XorCancels(data[i], mask[i % 4]);
  }

  lemma XorMaskTwice(data: Bytes, mask: MaskKey)
    ensures XorMask(XorMask(data, mask), mask) == data
  {
    forall i | 0 <= i < |data|
      ensures XorMask(XorMask(data, mask), mask)[i] == data[i]
    {
      XorCancels(data[i], mask[i % 4]);
    }
  }

  lemma XorLastDigit(m: nat, n: nat, x: byte, y: byte)
    ensures Xor(256 * m + x, 256 * n + y) == 256 * Xor(m, n) + XorByte(x, y)
  {
    XorDigits(m, n, x, y, 8);
    AppendedByte(m, x);
    AppendedByte(n, y);
    AppendedByte(Xor(m, n), XorByte(x, y));
  }

  lemma BeDigit(n: nat, d: byte, k: nat)
    ensures Be(256 * n + d, k + 1) == Be(n, k) + [d]
  {
  }

  /** Exclusive or of big-endian words is exclusive or of their bytes. */
  lemma {:induction false} XorWord(a: Bytes, b: Bytes)
    requires |a| == |b|
    ensures Be(Xor(FromBe(a), FromBe(b)), |a|) == XorBytes(a, b)
  {
    hide Xor, Be, XorByte;
    if a != [] {
      var n := |a| - 1;
      XorWord(a[..n], b[..n]);
      var d := XorByte(a[n], b[n]);
      XorLastDigit(FromBe(a[..n]), FromBe(b[..n]), a[n], b[n]);
      BeDigit(Xor(FromBe(a[..n]), FromBe(b[..n])), d, n);
      assert XorBytes(a, b) == XorBytes(a[..n], b[..n]) + [d];
    }
  }

  /** One 32-bit word masked and stored back. */
  function MaskWord(word: Bytes, mask: MaskKey): (r: Bytes)
    requires |word| == 4
    ensures r == XorBytes(word, mask)
  {
    XorWord(word, mask);
    Be(Xor(FromBe(word), FromBe(mask)), 4)
  }

  /** Storing four bytes at an offset of a buffer. */
  method PackInto(out: array<byte>, off: nat, v: Bytes)
    requires |v| == 4 && off + 4 <= out.Length
    modifies out
    ensures out[..] == old(out[..off]) + v + old(out[off + 4..])
  {
    out[off], out[off + 1], out[off + 2], out[off + 3] := v[0], v[1], v[2], v[3];
  }

  lemma Mod4(w: nat, i: nat)
    requires i < 4
    ensures (4 * w + i) % 4 == i
  {
  }

  lemma MaskAt(data: Bytes, mask: MaskKey, w: nat, i: nat)
    requires i < 4 && 4 * w + i < |data|
    ensures XorMask(data, mask)[4 * w + i] == XorByte(data[4 * w + i], mask[i])
  {
    Mod4(w, i);
  }

  lemma MaskWordAt(data: Bytes, mask: MaskKey, w: nat)
    requires 4 * w + 4 <= |data|
    ensures MaskWord(data[4 * w..4 * w + 4], mask) == XorMask(data, mask)[4 * w..4 * w + 4]
  {
    hide MaskWord, XorMask;
    var l, r := MaskWord(data[4 * w..4 * w + 4], mask), XorMask(data, mask)[4 * w..4 * w + 4];
    forall i | 0 <= i < 4
      ensures l[i] == r[i]
    {
      MaskAt(data, mask, w, i);
    }
  }

  /** Four bytes at a time through 32-bit words, then the remainder. */
  method XorMaskWords(data: Bytes, mask: MaskKey) returns (r: Bytes)
    ensures r == XorMask(data, mask)
  {
    hide XorMask, MaskWord, XorByte;
    var n := |data|;
    if n == 0 {
      return data;
    }
    ghost var goal := XorMask(data, mask);
    var out := new byte[n];
    var full, rem := n / 4, n % 4;
    var off := 0;
    for w := 0 to full
      invariant off == 4 * w
      invariant out[..off] == goal[..off]
    {
      var v := MaskWord(data[off..off + 4], mask);
      MaskWordAt(data, mask, w);
      ghost var before := out[..off];
      PackInto(out, off, v);
      assert out[..off + 4] == before + v;
      off := off + 4;
    }
    for i := 0 to rem
      invariant out[..off + i] == goal[..off + i]
    {
      ghost var before := out[..off + i];
      MaskAt(data, mask, full, i);
      out[off + i] := XorByte(data[off + i], mask[i]);
      assert out[..off + i + 1] == before + [goal[off + i]];
    }
    assert out[..] == out[..n];
    r := out[..];
  }

  // ---------------------------------------------------------------- frames

  datatype Frame = Frame(opcode: nat, payload: Bytes)

  const MAX_PAYLOAD: nat := 0x1_0000_0000_0000_0000

  /** What the header can carry: a four-bit opcode and a 64-bit length. */
  predicate Sendable(f: Frame) {
    f.opcode < 16 && |f.payload| < MAX_PAYLOAD
  }

  /** First two bytes and extended length. */
  function Header(opcode: nat, masked: bool, length: nat): Bytes
    requires opcode < 16 && length < MAX_PAYLOAD
  {
    var m := if masked then 0x80 else 0;
    if length < 126 then [0x80 + opcode, m + length]
    else if length < 65536 then [0x80 + opcode, m + 126] + Be(length, 2)
    else [0x80 + opcode, m + 127] + Be(length, 8)
  }

  function BuildFrame(f: Frame, mask: Option<MaskKey>): Bytes
    requires Sendable(f)
  {
    match mask
    case None => Header(f.opcode, false, |f.payload|) + f.payload
    case Some(key) => Header(f.opcode, true, |f.payload|) + key + XorMask(f.payload, key)
  }

  datatype Decoded = Incomplete | Decoded(frame: Frame, rest: Bytes)

  /** Reading one frame from the front of a byte stream. */
  function DecodeFrame(wire: Bytes): (r: Decoded)
    ensures r.Decoded? ==> |r.rest| + 2 <= |wire|
  {
    if |wire| < 2 then Incomplete
    else
      var opcode, masked, short := wire[0] % 16, wire[1] >= 0x80, wire[1] % 0x80;
      if short == 126 then
        if |wire| < 4 then Incomplete
        else DecodeBody(opcode, masked, FromBe(wire[2..4]), wire[4..])
      else if short == 127 then
        if |wire| < 10 then Incomplete
        else DecodeBody(opcode, masked, FromBe(wire[2..10]), wire[10..])
      else
        DecodeBody(opcode, masked, short, wire[2..])
  }

  function DecodeBody(opcode: nat, masked: bool, length: nat, wire: Bytes): (r: Decoded)
    ensures r.Decoded? ==> |r.rest| <= |wire|
  {
    if masked then
      if |wire| < 4 + length then Incomplete
      else Decoded(Frame(opcode, XorMask(wire[4..4 + length], wire[..4])), wire[4 + length..])
    else if |wire| < length then Incomplete
    else Decoded(Frame(opcode, wire[..length]), wire[length..])
  }

  lemma DecodedIsSendable(wire: Bytes)
    ensures DecodeFrame(wire).Decoded? ==> Sendable(DecodeFrame(wire).frame)
  {
    Pow256Values();
    if |wire| >= 4 {
      FromBeRoundTrip(wire[2..4]);
    }
    if |wire| >= 10 {
      FromBeRoundTrip(wire[2..10]);
    }
  }

  lemma BodyRoundTrip(f: Frame, mask: Option<MaskKey>, suffix: Bytes)
    ensures match mask
            case None => DecodeBody(f.opcode, false, |f.payload|, f.payload + suffix) == Decoded(f, suffix)
            case Some(key) => DecodeBody(f.opcode, true, |f.payload|, key + XorMask(f.payload, key) + suffix)
                              == Decoded(f, suffix)
  {
    match mask
    case None =>
      assert (f.payload + suffix)[..|f.payload|] == f.payload;
    case Some(key) =>
      var w := key + XorMask(f.payload, key) + suffix;
      assert w[..4] == key && w[4..4 + |f.payload|] == XorMask(f.payload, key);
      assert w[4 + |f.payload|..] == suffix;
      XorMaskTwice(f.payload, key);
  }

  lemma Header16RoundTrip(opcode: nat, m: nat, length: nat, body: Bytes)
    requires opcode < 16 && m in {0, 0x80} && length < 65536
    ensures DecodeFrame([0x80 + opcode, m + 126] + Be(length, 2) + body) == DecodeBody(opcode, m == 0x80, length, body)
  {
    hide DecodeBody, Be, FromBe, Pow256;
    var w := [0x80 + opcode, m + 126] + Be(length, 2) + body;
    Pow256Values();
    BeRoundTrip(length, 2);
    assert w[2..4] == Be(length, 2) && w[4..] == body;
  }

  lemma Header64RoundTrip(opcode: nat, m: nat, length: nat, body: Bytes)
    requires opcode < 16 && m in {0, 0x80} && length < MAX_PAYLOAD
    ensures DecodeFrame([0x80 + opcode, m + 127] + Be(length, 8) + body) == DecodeBody(opcode, m == 0x80, length, body)
  {
    hide DecodeBody, Be, FromBe, Pow256;
    var w := [0x80 + opcode, m + 127] + Be(length, 8) + body;
    Pow256Values();
    BeRoundTrip(length, 8);
    assert w[2..10] == Be(length, 8) && w[10..] == body;
  }

  lemma HeaderRoundTrip(opcode: nat, masked: bool, length: nat, body: Bytes)
    requires opcode < 16 && length < MAX_PAYLOAD
    ensures DecodeFrame(Header(opcode, masked, length) + body) == DecodeBody(opcode, masked, length, body)
  {
    hide DecodeBody, Be, FromBe;
    var m := if masked then 0x80 else 0;
    if length >= 65536 {
      Header64RoundTrip(opcode, m, length, body);
    } else if length >= 126 {
      Header16RoundTrip(opcode, m, length, body);
    } else {
      assert ([0x80 + opcode, m + length] + body)[2..] == body;
    }
  }

  /** Reading back a built frame, whatever follows it. */
  lemma FrameRoundTrip(f: Frame, mask: Option<MaskKey>, suffix: Bytes)
    requires Sendable(f)
    ensures DecodeFrame(BuildFrame(f, mask) + suffix) == Decoded(f, suffix)
  {
    hide DecodeFrame, DecodeBody, Header, XorMask;
    BodyRoundTrip(f, mask, suffix);
    var h := Header(f.opcode, mask.Some?, |f.payload|);
    match mask
    case None =>
      HeaderRoundTrip(f.opcode, false, |f.payload|, f.payload + suffix);
      assert BuildFrame(f, mask) + suffix == h + (f.payload + suffix);
    case Some(key) =>
      HeaderRoundTrip(f.opcode, true, |f.payload|, key + XorMask(f.payload, key) + suffix);
      assert BuildFrame(f, mask) + suffix == h + (key + XorMask(f.payload, key) + suffix);
  }

  /** Bytes of a frame before masking key and payload, as its second byte announces. */
  function HeaderSize(second: byte): nat {
    if second % 0x80 == 127 then 10 else if second % 0x80 == 126 then 4 else 2
  }

  lemma DecodedSize(w: Bytes)
    ensures match DecodeFrame(w)
            case Incomplete => true
            case Decoded(f, rest) =>
              && |w| == HeaderSize(w[1]) + (if w[1] >= 0x80 then 4 else 0) + |f.payload| + |rest|
              && (HeaderSize(w[1]) == 2 ==> |f.payload| < 126)
              && (HeaderSize(w[1]) == 4 ==> |f.payload| < 65536)
  {
    Pow256Values();
    if |w| >= 4 {
      FromBeRoundTrip(w[2..4]);
    }
  }

  lemma BuiltSize(f: Frame, mask: Option<MaskKey>)
    requires Sendable(f)
    ensures |BuildFrame(f, mask)| == |f.payload| + (if mask.Some? then 4 else 0)
                                     + if |f.payload| < 126 then 2 else if |f.payload| < 65536 then 4 else 10
  {
  }

  /** The length encoding is minimal: no shorter byte string reads back as the same
      frame with the same choice of masking, and one of equal length must use the
      same length form. */
  lemma LengthEncodingMinimal(f: Frame, mask: Option<MaskKey>, w: Bytes)
    requires Sendable(f) && DecodeFrame(w) == Decoded(f, [])
    requires mask.Some? <==> w[1] >= 0x80
    ensures |BuildFrame(f, mask)| <= |w|
    ensures |BuildFrame(f, mask)| == |w| <==>
            (HeaderSize(w[1]) == 10 ==> |f.payload| >= 65536) && (HeaderSize(w[1]) == 4 ==> |f.payload| >= 126)
  {
    hide DecodeFrame, BuildFrame;
    DecodedSize(w);
    BuiltSize(f, mask);
  }

  /** The frame stream of a list of frames, all masked alike. */
  function EncodeFrames(fs: seq<Frame>, mask: Option<MaskKey>): Bytes
    requires forall i | 0 <= i < |fs| :: Sendable(fs[i])
  {
    if fs == [] then [] else BuildFrame(fs[0], mask) + EncodeFrames(fs[1..], mask)
  }

  lemma {:induction false} EncodeFramesConcat(a: seq<Frame>, b: seq<Frame>, mask: Option<MaskKey>)
    requires forall i | 0 <= i < |a| :: Sendable(a[i])
    requires forall i | 0 <= i < |b| :: Sendable(b[i])
    ensures EncodeFrames(a + b, mask) == EncodeFrames(a, mask) + EncodeFrames(b, mask)
  {
    hide BuildFrame;
    if a == [] {
      assert a + b == b;
    } else {
      EncodeFramesConcat(a[1..], b, mask);
      assert (a + b)[1..] == a[1..] + b;
    }
  }

  lemma EncodeFramesSnoc(fs: seq<Frame>, f: Frame, mask: Option<MaskKey>)
    requires Sendable(f) && forall i | 0 <= i < |fs| :: Sendable(fs[i])
    ensures EncodeFrames(fs + [f], mask) == EncodeFrames(fs, mask) + BuildFrame(f, mask)
  {
    hide BuildFrame;
    EncodeFramesConcat(fs, [f], mask);
    assert EncodeFrames([f], mask) == BuildFrame(f, mask) + EncodeFrames([], mask);
  }

  /** All complete frames of a byte stream. */
  function DecodeFrames(wire: Bytes): seq<Frame>
    decreases |wire|
  {
    match DecodeFrame(wire)
    case Incomplete => []
    case Decoded(f, rest) => [f] + DecodeFrames(rest)
  }

  lemma EncodeFramesHead(fs: seq<Frame>, mask: Option<MaskKey>, suffix: Bytes)
    requires fs != [] && forall i | 0 <= i < |fs| :: Sendable(fs[i])
    ensures EncodeFrames(fs, mask) + suffix == BuildFrame(fs[0], mask) + (EncodeFrames(fs[1..], mask) + suffix)
  {
    hide BuildFrame;
  }

  lemma FirstFrame(f: Frame, mask: Option<MaskKey>, tail: Bytes)
    requires Sendable(f)
    ensures DecodeFrames(BuildFrame(f, mask) + tail) == [f] + DecodeFrames(tail)
  {
    hide BuildFrame, DecodeFrame, DecodeFrames;
    FrameRoundTrip(f, mask, tail);
    DecodeFramesStep(BuildFrame(f, mask) + tail, f, tail);
  }

  lemma DecodeFramesStep(wire: Bytes, f: Frame, rest: Bytes)
    requires DecodeFrame(wire) == Decoded(f, rest)
    ensures DecodeFrames(wire) == [f] + DecodeFrames(rest)
  {
  }

  lemma HeadFirst<T>(s: seq<T>, t: seq<T>)
    requires s != []
    ensures s + t == [s[0]] + (s[1..] + t)
  {
  }

  /** A stream of built frames reads back as exactly its list of frames. */
  lemma {:induction false} FramesRoundTrip(fs: seq<Frame>, mask: Option<MaskKey>, suffix: Bytes)
    requires forall i | 0 <= i < |fs| :: Sendable(fs[i])
    ensures DecodeFrames(EncodeFrames(fs, mask) + suffix) == fs + DecodeFrames(suffix)
  {
    hide BuildFrame, DecodeFrame;
    if fs == [] {
      assert [] + suffix == suffix;
    } else {
      var tail := EncodeFrames(fs[1..], mask) + suffix;
      FramesRoundTrip(fs[1..], mask, suffix);
      FirstFrame(fs[0], mask, tail);
      EncodeFramesHead(fs, mask, suffix);
      HeadFirst(fs, DecodeFrames(suffix));
    }
  }

  /** `_read_frame` over a stream reader; None stands for IncompleteReadError. */
  method ReadFrame(reader: StreamReader) returns (r: Option<Frame>)
    modifies reader
    ensures match DecodeFrame(old(reader.wire))
            case Incomplete => r == None && reader.wire == []
            case Decoded(f, rest) => r == Some(f) && reader.wire == rest
  {
    hide DecodeBody;
    ghost var w := reader.wire;
    var hdr := reader.ReadExactly(2);
    if hdr == None { return None; }
    var opcode: nat := hdr.value[0] % 16;
    var length: nat := hdr.value[1] % 0x80;
    if length == 126 {
      var ext := reader.ReadExactly(2);
      if ext == None { return None; }
      assert ext.value == w[2..4] && reader.wire == w[4..];
      length := FromBe(ext.value);
    } else if length == 127 {
      var ext := reader.ReadExactly(8);
      if ext == None { return None; }
      assert ext.value == w[2..10] && reader.wire == w[10..];
      length := FromBe(ext.value);
    }
    assert DecodeFrame(w) == DecodeBody(opcode, hdr.value[1] >= 0x80, length, reader.wire);
    r := ReadBody(reader, opcode, hdr.value[1] >= 0x80, length);
  }

  method ReadBody(reader: StreamReader, opcode: nat, masked: bool, length: nat) returns (r: Option<Frame>)
    modifies reader
    ensures match DecodeBody(opcode, masked, length, old(reader.wire))
            case Incomplete => r == None && reader.wire == []
            case Decoded(f, rest) => r == Some(f) && reader.wire == rest
  {
    hide XorMask;
    ghost var body := reader.wire;
    if masked {
      var maskKey := reader.ReadExactly(4);
      if maskKey == None { return None; }
      var payload := reader.ReadExactly(length);
      if payload == None { return None; }
      assert payload.value == body[4..4 + length] && reader.wire == body[4 + length..];
      var plain := XorMaskWords(payload.value, maskKey.value);
      return Some(Frame(opcode, plain));
    }
    var payload := reader.ReadExactly(length);
    if payload == None { return None; }
    return Some(Frame(opcode, payload.value));
  }
}
