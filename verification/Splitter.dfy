/** Cutting a TCP stream into MTProto packets: the whole-stream definition, the
    incremental splitter that works on arbitrary chunks, and their agreement. */
module Splitter {
  import opened Octets
  import opened Ctr
  import opened Transport

  // ---------------------------------------------------------------- the whole-stream reference

  /** Packet lengths from the start of a stream, and whether an empty-packet header
      (or an unknown protocol) was then met. */
  datatype Parsed = Parsed(lens: seq<nat>, disabled: bool)

  function Parse(proto: int, plain: Bytes): (r: Parsed)
    decreases |plain|
  {
    NextPacketLenBounds(proto, plain);
    match NextPacketLen(proto, plain)
    case None => Parsed([], false)
    case Some(n) =>
      if n <= 0 then Parsed([], true)
      else
        var rest := Parse(proto, plain[n..]);
        Parsed([n] + rest.lens, rest.disabled)
  }

  /** Number of bytes the packets of a stream cover. */
  function Covered(proto: int, plain: Bytes): nat {
    Sum(Parse(proto, plain).lens)
  }

  lemma {:induction false} ParseBounds(proto: int, plain: Bytes)
    ensures Covered(proto, plain) <= |plain|
    ensures forall i :: 0 <= i < |Parse(proto, plain).lens| ==> Parse(proto, plain).lens[i] > 0
    decreases |plain|
  {
    NextPacketLenBounds(proto, plain);
    var r := NextPacketLen(proto, plain);
    if r.Some? && r.value > 0 {
      ParseBounds(proto, plain[r.value..]);
    }
  }

  /** What an undisabled parse leaves over is less than one packet. */
  lemma {:induction false} LeftoverBound(proto: int, plain: Bytes)
    requires !Parse(proto, plain).disabled
    ensures Covered(proto, plain) <= |plain| < Covered(proto, plain) + 0x8000_0004
    ensures NextPacketLen(proto, plain[Covered(proto, plain)..]) == None
    decreases |plain|
  {
    NextPacketLenBounds(proto, plain);
    var r := NextPacketLen(proto, plain);
    if r.Some? {
      LeftoverBound(proto, plain[r.value..]);
      assert plain[r.value..][Covered(proto, plain[r.value..])..] == plain[Covered(proto, plain)..];
    } else {
      assert plain[0..] == plain;
    }
  }

  function Prepend(lens: seq<nat>, p: Parsed): Parsed {
    Parsed(lens + p.lens, p.disabled)
  }

  /** Parsing resumes where it stopped when more bytes arrive; a disabling header
      ends it for good. */
  lemma {:induction false} ParseAppend(proto: int, plain: Bytes, more: Bytes)
    ensures Covered(proto, plain) <= |plain|
    ensures Parse(proto, plain + more)
            == if Parse(proto, plain).disabled then Parse(proto, plain)
               else Prepend(Parse(proto, plain).lens, Parse(proto, plain[Covered(proto, plain)..] + more))
    decreases |plain|
  {
    ParseBounds(proto, plain);
    var r := NextPacketLen(proto, plain);
    if r == None {
      assert plain[0..] == plain;
      var q := Parse(proto, plain + more);
      assert Prepend([], q).lens == q.lens;
    } else {
      NextPacketLenMonotone(proto, plain, more);
      if r.value > 0 {
        ParseAppendStep(proto, plain, more, r.value);
      }
    }
  }

  lemma {:induction false} ParseAppendStep(proto: int, plain: Bytes, more: Bytes, n: nat)
    requires 0 < n <= |plain| && NextPacketLen(proto, plain) == NextPacketLen(proto, plain + more) == Some(n)
    ensures Covered(proto, plain) <= |plain|
    ensures Parse(proto, plain + more)
            == if Parse(proto, plain).disabled then Parse(proto, plain)
               else Prepend(Parse(proto, plain).lens, Parse(proto, plain[Covered(proto, plain)..] + more))
    decreases |plain|, 0
  {
    hide NextPacketLen;
    var rest := plain[n..];
    ParseAppend(proto, rest, more);
    ParseBounds(proto, plain);
    assert (plain + more)[n..] == rest + more;
    var u := Covered(proto, rest);
    assert Covered(proto, plain) == n + u by {
      assert Parse(proto, plain).lens[1..] == Parse(proto, rest).lens;
    }
    assert rest[u..] == plain[n + u..];
    var q := Parse(proto, rest[u..] + more);
    assert [n] + (Parse(proto, rest).lens + q.lens) == ([n] + Parse(proto, rest).lens) + q.lens;
  }

  /** Every slice of a parse is one whole well-formed packet. */
  lemma {:induction false} ParseYieldsPackets(proto: int, plain: Bytes)
    ensures Covered(proto, plain) <= |plain|
    ensures forall i :: 0 <= i < |Parse(proto, plain).lens| ==>
              IsPacket(proto, Cut(plain, Parse(proto, plain).lens)[i])
    decreases |plain|
  {
    ParseBounds(proto, plain);
    NextPacketLenBounds(proto, plain);
    var r := NextPacketLen(proto, plain);
    if r.Some? && r.value > 0 {
      RecognisedIsPacket(proto, plain);
      ParseYieldsPackets(proto, plain[r.value..]);
      var p := Parse(proto, plain);
      assert p.lens[1..] == Parse(proto, plain[r.value..]).lens;
      forall i | 0 <= i < |p.lens|
        ensures IsPacket(proto, Cut(plain, p.lens)[i])
      {
        if i > 0 {
          assert Cut(plain, p.lens)[i] == Cut(plain[r.value..], p.lens[1..])[i - 1];
        }
      }
    }
  }

  function EncodedLens(ps: seq<Packet>): (r: seq<nat>)
    ensures |r| == |ps|
  {
    if ps == [] then [] else [|Encode(ps[0])|] + EncodedLens(ps[1..])
  }

  lemma ParseEmpty(proto: int)
    ensures Parse(proto, []) == Parsed([], false)
  {
  }

  /** Parsing inverts encoding: a list of packets is cut back into exactly those
      packets, nothing is left over and nothing disables the splitter. */
  lemma {:induction false} ParseInvertsEncode(proto: int, ps: seq<Packet>)
    requires forall i | 0 <= i < |ps| :: WellFormed(proto, ps[i])
    ensures var s := EncodeAll(ps); var r := Parse(proto, s);
            && r == Parsed(EncodedLens(ps), false)
            && Sum(r.lens) == |s|
            && forall i :: 0 <= i < |ps| ==> Cut(s, r.lens)[i] == Encode(ps[i])
  {
    hide NextPacketLen, Encode;
    ParseEmpty(proto);
    if ps != [] {
      var s, h, t := EncodeAll(ps), Encode(ps[0]), EncodeAll(ps[1..]);
      PacketIsRecognised(proto, ps[0], t);
      assert s[|h|..] == t && s[..|h|] == h;
      ParseInvertsEncode(proto, ps[1..]);
      var r := Parse(proto, s);
      assert r.lens[1..] == EncodedLens(ps[1..]);
      forall i | 0 <= i < |ps|
        ensures Cut(s, r.lens)[i] == Encode(ps[i])
      {
        if i > 0 {
          assert Cut(s, r.lens)[i] == Cut(t, r.lens[1..])[i - 1];
        }
      }
    }
  }

  lemma {:induction false} PieceBound(s: Bytes, lens: seq<nat>, i: nat)
    requires Sum(lens) <= |s| && i < |lens|
    ensures |Cut(s, lens)[i]| <= |s|
  {
    if i > 0 {
      PieceBound(s[lens[0]..], lens[1..], i - 1);
    }
  }

  // ---------------------------------------------------------------- the splitter's state machine

  /** `pos` is the position of the splitter's own keystream. */
  datatype SplitterState = State(pos: nat, cipherBuf: Bytes, plainBuf: Bytes, disabled: bool)

  /** The two buffers advance in lockstep. */
  type State = st: SplitterState | |st.cipherBuf| == |st.plainBuf| witness State(64, [], [], false)

  const INITIAL: State := State(64, [], [], false)

  /** One call of split: the new state and the parts returned. */
  function Step(S: Suite, k: StreamKey, proto: int, st: State, chunk: Bytes): (State, seq<Bytes>) {
    if chunk == [] then (st, [])
    else if st.disabled then (st, [chunk])
    else
      var c := st.cipherBuf + chunk;
      var p := st.plainBuf + Crypt(S, k, st.pos, chunk);
      var r := Parse(proto, p);
      ParseBounds(proto, p);
      var u := Sum(r.lens);
      if r.disabled then (State(st.pos + |chunk|, [], [], true), Cut(c, r.lens) + [c[u..]])
      else (State(st.pos + |chunk|, c[u..], p[u..], false), Cut(c, r.lens))
  }

  /** Feeding a list of chunks; the parts of all calls, in order. */
  function Run(S: Suite, k: StreamKey, proto: int, st: State, chunks: seq<Bytes>): (State, seq<Bytes>) {
    if chunks == [] then (st, [])
    else
      var last := |chunks| - 1;
      var (mid, parts) := Run(S, k, proto, st, chunks[..last]);
      var (end, more) := Step(S, k, proto, mid, chunks[last]);
      (end, parts + more)
  }

  function Flush(st: State): (State, seq<Bytes>) {
    if st.cipherBuf == [] then (st, [])
    else (st.(cipherBuf := [], plainBuf := []), [st.cipherBuf])
  }

  /** What the splitter must look like after consuming the stream `s`, whatever the
      chunks were: while enabled everything is determined; once disabled the parts
      still begin with the packets and still concatenate to the stream. */
  ghost predicate Consumed(S: Suite, k: StreamKey, proto: int, s: Bytes, st: State, parts: seq<Bytes>) {
    var plain := Crypt(S, k, 64, s);
    var r := Parse(proto, plain);
    ParseBounds(proto, plain);
    var u := Sum(r.lens);
    && st.disabled == r.disabled
    && Flatten(parts) + st.cipherBuf == s
    && |parts| >= |r.lens|
    && parts[..|r.lens|] == Cut(s, r.lens)
    && (if r.disabled then
          st.cipherBuf == [] && st.plainBuf == []
        else
          && |parts| == |r.lens|
          && st == State(64 + |s|, s[u..], plain[u..], false))
  }

  lemma StepConsumes(S: Suite, k: StreamKey, proto: int, s: Bytes, st: State, parts: seq<Bytes>, chunk: Bytes)
    requires Consumed(S, k, proto, s, st, parts)
    ensures var (end, more) := Step(S, k, proto, st, chunk);
            Consumed(S, k, proto, s + chunk, end, parts + more)
  {
    hide NextPacketLen;
    if chunk == [] {
      assert s + chunk == s;
      assert parts + [] == parts;
    } else if st.disabled {
      DisabledStep(S, k, proto, s, st, parts, chunk);
    } else {
      EnabledStep(S, k, proto, s, st, parts, chunk);
    }
  }

  lemma DisabledStep(S: Suite, k: StreamKey, proto: int, s: Bytes, st: State, parts: seq<Bytes>, chunk: Bytes)
    requires Consumed(S, k, proto, s, st, parts) && st.disabled
    ensures Consumed(S, k, proto, s + chunk, st, parts + [chunk])
  {
    var plain := Crypt(S, k, 64, s);
    var added := Crypt(S, k, 64 + |s|, chunk);
    CryptConcat(S, k, 64, s, chunk);
    ParseAppend(proto, plain, added);
    var lens := Parse(proto, plain).lens;
    ParseBounds(proto, plain);
    CutPrefix(s, chunk, lens);
    FlattenSnoc(parts, chunk);
    assert (parts + [chunk])[..|lens|] == parts[..|lens|];
    assert Flatten(parts) == s;
  }

  /** Resuming with leftovers cuts the longer stream as a fresh start would. */
  lemma ResumedCut(proto: int, s: Bytes, plain: Bytes, chunk: Bytes, added: Bytes)
    requires |s| == |plain| && |chunk| == |added| && !Parse(proto, plain).disabled
    ensures Covered(proto, plain) <= |s|
    ensures var u := Covered(proto, plain);
            var c, p := s[u..] + chunk, plain[u..] + added;
            var v := Covered(proto, p);
            var whole := Parse(proto, plain + added);
            && v <= |c|
            && whole == Prepend(Parse(proto, plain).lens, Parse(proto, p))
            && Sum(whole.lens) == u + v <= |s + chunk|
            && Cut(s + chunk, whole.lens) == Cut(s, Parse(proto, plain).lens) + Cut(c, Parse(proto, p).lens)
            && (s + chunk)[u + v..] == c[v..]
            && (plain + added)[u + v..] == p[v..]
  {
    ParseBounds(proto, plain);
    ParseAppend(proto, plain, added);
    var lens := Parse(proto, plain).lens;
    var p := plain[Sum(lens)..] + added;
    ParseBounds(proto, p);
    CutResume(s, chunk, lens, Parse(proto, p).lens);
    CutResume(plain, added, lens, Parse(proto, p).lens);
  }

  lemma EnabledStep(S: Suite, k: StreamKey, proto: int, s: Bytes, st: State, parts: seq<Bytes>, chunk: Bytes)
    requires Consumed(S, k, proto, s, st, parts) && chunk != [] && !st.disabled
    ensures var (end, more) := Step(S, k, proto, st, chunk);
            Consumed(S, k, proto, s + chunk, end, parts + more)
  {
    hide NextPacketLen, Parse, Cut, Flatten, Sum;
    var plain := Crypt(S, k, 64, s);
    var added := Crypt(S, k, 64 + |s|, chunk);
    CryptConcat(S, k, 64, s, chunk);
    ResumedCut(proto, s, plain, chunk, added);
    var u := Covered(proto, plain);
    var c, p := s[u..] + chunk, plain[u..] + added;
    var r, whole := Parse(proto, p), Parse(proto, plain + added);
    ParseBounds(proto, p);
    ParseBounds(proto, plain + added);
    var v := Sum(r.lens);
    var cut := Cut(c, r.lens);
    assert st.cipherBuf + chunk == c && st.plainBuf + added == p;
    assert parts == Cut(s, Parse(proto, plain).lens);
    CutFlatten(s + chunk, whole.lens);
    assert s + chunk == (s + chunk)[..u + v] + c[v..];
    if r.disabled {
      assert parts + (cut + [c[v..]]) == Cut(s + chunk, whole.lens) + [c[v..]];
      FlattenSnoc(Cut(s + chunk, whole.lens), c[v..]);
      assert (Cut(s + chunk, whole.lens) + [c[v..]])[..|whole.lens|] == Cut(s + chunk, whole.lens);
    } else {
      assert (parts + cut)[..|whole.lens|] == Cut(s + chunk, whole.lens);
    }
  }

  /** Chunking independence: after any chunks of a stream the splitter is where the
      whole-stream parse puts it. */
  lemma {:induction false} RunConsumes(S: Suite, k: StreamKey, proto: int, chunks: seq<Bytes>)
    ensures var (st, parts) := Run(S, k, proto, INITIAL, chunks);
            Consumed(S, k, proto, Flatten(chunks), st, parts)
  {
    hide NextPacketLen, Step;
    if chunks == [] {
      assert Crypt(S, k, 64, []) == [];
      ParseEmpty(proto);
    } else {
      var last := |chunks| - 1;
      RunConsumes(S, k, proto, chunks[..last]);
      var (mid, parts) := Run(S, k, proto, INITIAL, chunks[..last]);
      StepConsumes(S, k, proto, Flatten(chunks[..last]), mid, parts, chunks[last]);
      assert chunks == chunks[..last] + [chunks[last]];
      FlattenSnoc(chunks[..last], chunks[last]);
    }
  }

  // ---------------------------------------------------------------- pass-through mode

  lemma {:induction false} RunConcat(S: Suite, k: StreamKey, proto: int, st: State, a: seq<Bytes>, b: seq<Bytes>)
    ensures var (mid, first) := Run(S, k, proto, st, a);
            var (end, second) := Run(S, k, proto, mid, b);
            Run(S, k, proto, st, a + b) == (end, first + second)
  {
    hide Step;
    if b == [] {
      assert a + b == a && Run(S, k, proto, st, a).1 + [] == Run(S, k, proto, st, a).1;
    } else {
      var n := |b| - 1;
      RunConcat(S, k, proto, st, a, b[..n]);
      assert (a + b)[..|a + b| - 1] == a + b[..n] && (a + b)[|a + b| - 1] == b[n];
      var (mid, first) := Run(S, k, proto, st, a);
      var (next, more) := Run(S, k, proto, mid, b[..n]);
      Associative(first, more, Step(S, k, proto, next, b[n]).1);
    }
  }

  /** Nothing in, nothing out; and a disabled splitter passes on what it gets. */
  lemma IdleCalls(S: Suite, k: StreamKey, proto: int, st: State, chunk: Bytes)
    ensures Step(S, k, proto, st, []) == (st, [])
    ensures st.disabled && chunk != [] ==> Step(S, k, proto, st, chunk) == (st, [chunk])
  {
  }

  lemma {:induction false} PassedOn(S: Suite, k: StreamKey, proto: int, st: State, chunks: seq<Bytes>)
    requires st.disabled && forall i :: 0 <= i < |chunks| ==> chunks[i] != []
    ensures Run(S, k, proto, st, chunks) == (st, chunks)
  {
    if chunks != [] {
      var n := |chunks| - 1;
      PassedOn(S, k, proto, st, chunks[..n]);
      assert chunks == chunks[..n] + [chunks[n]];
    }
  }

  /** The call that meets the empty-packet header returns the packets before it and then
      all the rest as one part, and keeps nothing. */
  lemma DisablingCall(S: Suite, k: StreamKey, proto: int, s: Bytes, st: State, parts: seq<Bytes>, chunk: Bytes)
    requires Consumed(S, k, proto, s, st, parts) && !st.disabled
    requires Step(S, k, proto, st, chunk).0.disabled
    ensures var (end, more) := Step(S, k, proto, st, chunk);
            var lens := Parse(proto, Crypt(S, k, 64, s + chunk)).lens;
            && Sum(lens) <= |s + chunk|
            && parts + more == Cut(s + chunk, lens) + [(s + chunk)[Sum(lens)..]]
            && end.cipherBuf == [] && end.plainBuf == []
  {
    hide NextPacketLen, Parse, Cut, Flatten, Sum;
    var plain, added := Crypt(S, k, 64, s), Crypt(S, k, 64 + |s|, chunk);
    CryptConcat(S, k, 64, s, chunk);
    ResumedCut(proto, s, plain, chunk, added);
    var u := Covered(proto, plain);
    var c, p := s[u..] + chunk, plain[u..] + added;
    ParseBounds(proto, p);
    assert st.cipherBuf + chunk == c && st.plainBuf + added == p;
    assert parts == Cut(s, Parse(proto, plain).lens);
  }

  /** Every part of a run that meets an empty-packet header: the packets before it, the
      rest of the chunk it is in, and each later chunk as it came. */
  lemma PassThrough(S: Suite, k: StreamKey, proto: int, before: seq<Bytes>, chunk: Bytes, after: seq<Bytes>)
    requires !Run(S, k, proto, INITIAL, before).0.disabled
    requires Run(S, k, proto, INITIAL, before + [chunk]).0.disabled
    requires forall i :: 0 <= i < |after| ==> after[i] != []
    ensures var s := Flatten(before) + chunk;
            var lens := Parse(proto, Crypt(S, k, 64, s)).lens;
            && Sum(lens) <= |s|
            && Run(S, k, proto, INITIAL, before + [chunk] + after).1 == Cut(s, lens) + [s[Sum(lens)..]] + after
  {
    hide Step, Consumed, Parse, Sum, Cut, Crypt;
    RunConsumes(S, k, proto, before);
    var (st, parts) := Run(S, k, proto, INITIAL, before);
    assert (before + [chunk])[..|before|] == before;
    DisablingCall(S, k, proto, Flatten(before), st, parts, chunk);
    RunConcat(S, k, proto, INITIAL, before + [chunk], after);
    PassedOn(S, k, proto, Run(S, k, proto, INITIAL, before + [chunk]).0, after);
  }

  // ---------------------------------------------------------------- what a caller may rely on

  /** No buffer ever holds a whole packet, so no part outgrows a WebSocket length field. */
  lemma BuffersStaySmall(S: Suite, k: StreamKey, proto: int, st: State, chunk: Bytes)
    requires |st.cipherBuf| < 0x8000_0004 && |chunk| <= 65536
    ensures var (end, parts) := Step(S, k, proto, st, chunk);
            && |end.cipherBuf| < 0x8000_0004
            && forall i :: 0 <= i < |parts| ==> |parts[i]| < 0x8000_0004 + 65536
  {
    hide NextPacketLen, Parse, Cut, Sum;
    var c, p := st.cipherBuf + chunk, st.plainBuf + Crypt(S, k, st.pos, chunk);
    var r := Parse(proto, p);
    ParseBounds(proto, p);
    if !r.disabled {
      LeftoverBound(proto, p);
    }
    forall i | 0 <= i < |r.lens|
      ensures |Cut(c, r.lens)[i]| <= |c|
    {
      PieceBound(c, r.lens, i);
    }
  }

  /** Two chunkings of one stream return the same packets up to disabling, disable
      alike, and with the final flush lose nothing. */
  lemma ChunkingIndependence(S: Suite, k: StreamKey, proto: int, a: seq<Bytes>, b: seq<Bytes>)
    requires Flatten(a) == Flatten(b)
    ensures var (sa, pa) := Run(S, k, proto, INITIAL, a);
            var (sb, pb) := Run(S, k, proto, INITIAL, b);
            var n := |Parse(proto, Crypt(S, k, 64, Flatten(a))).lens|;
            && sa.disabled == sb.disabled
            && n <= |pa| && n <= |pb| && pa[..n] == pb[..n]
            && (!sa.disabled ==> sa == sb && pa == pb)
            && Flatten(pa + Flush(sa).1) == Flatten(pb + Flush(sb).1) == Flatten(a)
  {
    var (sa, pa) := Run(S, k, proto, INITIAL, a);
    var (sb, pb) := Run(S, k, proto, INITIAL, b);
    RunConsumes(S, k, proto, a);
    RunConsumes(S, k, proto, b);
    FlushCompletes(sa, pa);
    FlushCompletes(sb, pb);
    ConsumedAgree(S, k, proto, Flatten(a), sa, pa, sb, pb);
  }

  /** The stream alone determines everything but how a disabled splitter passes on
      what follows the packets. */
  lemma ConsumedAgree(S: Suite, k: StreamKey, proto: int, s: Bytes,
                      sa: State, pa: seq<Bytes>, sb: State, pb: seq<Bytes>)
    ensures Consumed(S, k, proto, s, sa, pa) && Consumed(S, k, proto, s, sb, pb) ==>
              var n := |Parse(proto, Crypt(S, k, 64, s)).lens|;
              && sa.disabled == sb.disabled
              && n <= |pa| && n <= |pb| && pa[..n] == pb[..n]
              && (!sa.disabled ==> sa == sb && pa == pb)
  {
    var n := |Parse(proto, Crypt(S, k, 64, s)).lens|;
    if Consumed(S, k, proto, s, sa, pa) && Consumed(S, k, proto, s, sb, pb) && !sa.disabled {
      assert pa[..n] == pa && pb[..n] == pb;
    }
  }

  lemma FlushCompletes(st: State, parts: seq<Bytes>)
    ensures Flatten(parts + Flush(st).1) == Flatten(parts) + st.cipherBuf
  {
    FlattenConcat(parts, Flush(st).1);
    FlattenSingle(st.cipherBuf);
  }

  /** The splitter inverts the client's transport encoder: packets encrypted and cut
      anywhere come out one per part, in order, with empty buffers at the end. */
  lemma SplitterInvertsEncoder(S: Suite, k: StreamKey, proto: int, ps: seq<Packet>, chunks: seq<Bytes>)
    requires forall i | 0 <= i < |ps| :: WellFormed(proto, ps[i])
    requires Flatten(chunks) == Crypt(S, k, 64, EncodeAll(ps))
    ensures var (st, parts) := Run(S, k, proto, INITIAL, chunks);
            && |parts| == |ps|
            && (forall i :: 0 <= i < |ps| ==>
                  parts[i] == Crypt(S, k, 64 + |EncodeAll(ps[..i])|, Encode(ps[i])))
            && !st.disabled && st.cipherBuf == [] && st.plainBuf == []
  {
    hide NextPacketLen, Encode;
    var plain := EncodeAll(ps);
    RunConsumes(S, k, proto, chunks);
    ParseInvertsEncode(proto, ps);
    CryptCancels(S, k, 64, plain);
    var (st, parts) := Run(S, k, proto, INITIAL, chunks);
    var lens := Parse(proto, plain).lens;
    assert parts == Cut(Flatten(chunks), lens);
    forall i | 0 <= i < |ps|
      ensures parts[i] == Crypt(S, k, 64 + |EncodeAll(ps[..i])|, Encode(ps[i]))
    {
      CutCrypt(S, k, 64, plain, lens, i);
      EncodedPrefix(proto, ps, i);
    }
  }

  /** Slices of a ciphertext are the ciphertexts of the slices. */
  lemma {:induction false} CutCrypt(S: Suite, k: StreamKey, pos: nat, plain: Bytes, lens: seq<nat>, i: nat)
    requires Sum(lens) <= |plain| && i < |lens|
    ensures Cut(Crypt(S, k, pos, plain), lens)[i] == Crypt(S, k, pos + Sum(lens[..i]), Cut(plain, lens)[i])
    decreases |lens|
  {
    hide Crypt;
    var n := lens[0];
    CryptSlice(S, k, pos, plain, 0, n);
    CryptSlice(S, k, pos, plain, n, |plain|);
    if i == 0 {
      assert pos + 0 == pos;
    } else {
      CutCrypt(S, k, pos + n, plain[n..], lens[1..], i - 1);
      assert lens[1..][..i - 1] == lens[..i][1..];
      assert plain[n..|plain|] == plain[n..] && Crypt(S, k, pos, plain)[n..|plain|] == Crypt(S, k, pos, plain)[n..];
    }
  }

  lemma {:induction false} EncodedPrefix(proto: int, ps: seq<Packet>, i: nat)
    requires i <= |ps| && forall j | 0 <= j < |ps| :: WellFormed(proto, ps[j])
    ensures Sum(EncodedLens(ps)[..i]) == |EncodeAll(ps[..i])|
  {
    hide Encode;
    if i > 0 {
      EncodedPrefix(proto, ps[1..], i - 1);
      assert EncodedLens(ps)[..i][1..] == EncodedLens(ps[1..])[..i - 1];
      assert ps[..i][1..] == ps[1..][..i - 1];
    }
  }
}
