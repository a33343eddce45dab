/** The splitter object of the bridge, proved against the splitter's state machine. */
module MsgSplitters {
  import opened Octets
  import opened Ctr
  import opened Transport
  import Sp = Splitter

  const ZERO_64: Bytes := seq(64, _ => 0)

  class MsgSplitter {
    const dec: CtrCipher
    const proto: int
    var cipherBuf: Bytes
    var plainBuf: Bytes
    var disabled: bool

    ghost predicate Valid()
      reads this
    {
      |cipherBuf| == |plainBuf|
    }

    ghost function Abs(): Sp.State
      requires Valid()
      reads this, dec
    {
      Sp.State(dec.pos, cipherBuf, plainBuf, disabled)
    }

    /** Keyed by bytes 8 to 55 of the relay init, fast-forwarded past it. */
    constructor (suite: Suite, relayInit: Bytes, proto: int)
      requires |relayInit| >= 56
      ensures Valid() && Abs() == Sp.INITIAL && fresh(dec)
      ensures this.proto == proto && dec.suite == suite
      ensures dec.key == StreamKey(relayInit[8..40], relayInit[40..56])
    {
      var cipher := new CtrCipher(suite, StreamKey(relayInit[8..40], relayInit[40..56]));
      var _ := cipher.Update(ZERO_64);
      this.dec := cipher;
      this.proto := proto;
      cipherBuf, plainBuf, disabled := [], [], false;
    }

    method Split(chunk: Bytes) returns (parts: seq<Bytes>)
      requires Valid()
      modifies this, dec
      ensures Valid()
      ensures (Abs(), parts) == Sp.Step(dec.suite, dec.key, proto, old(Abs()), chunk)
    {
      if chunk == [] {
        return [];
      }
      if disabled {
        return [chunk];
      }
      var plain := dec.Update(chunk);
      cipherBuf := cipherBuf + chunk;
      plainBuf := plainBuf + plain;
      var offset, stopped;
      parts, offset, stopped := TakePackets(proto, cipherBuf, plainBuf);
      JoinedStep(dec.suite, dec.key, proto, old(Abs()), chunk);
      if stopped {
        disabled := true;
      }
      if offset != 0 {
        cipherBuf, plainBuf := cipherBuf[offset..], plainBuf[offset..];
      }
    }

    method Flush() returns (parts: seq<Bytes>)
      requires Valid()
      modifies this
      ensures Valid()
      ensures (Abs(), parts) == Sp.Flush(old(Abs()))
    {
      if cipherBuf == [] {
        return [];
      }
      var tail := cipherBuf;
      cipherBuf := [];
      plainBuf := [];
      return [tail];
    }
  }

  /** Parts, bytes used, and whether an empty-packet header was met. */
  function Taken(proto: int, c: Bytes, p: Bytes): (seq<Bytes>, nat, bool)
    requires |c| == |p|
  {
    var r := Sp.Parse(proto, p);
    Sp.ParseBounds(proto, p);
    if r.disabled then (Cut(c, r.lens) + [c[Sum(r.lens)..]], |c|, true)
    else (Cut(c, r.lens), Sum(r.lens), false)
  }

  lemma JoinedStep(S: Suite, k: StreamKey, proto: int, st: Sp.State, chunk: Bytes)
    requires chunk != [] && !st.disabled
    ensures var c, p := st.cipherBuf + chunk, st.plainBuf + Crypt(S, k, st.pos, chunk);
            var (parts, offset, stopped) := Taken(proto, c, p);
            && offset <= |c|
            && Sp.Step(S, k, proto, st, chunk) == (Sp.State(st.pos + |chunk|, c[offset..], p[offset..], stopped), parts)
            && c[0..] == c && p[0..] == p
  {
    var c, p := st.cipherBuf + chunk, st.plainBuf + Crypt(S, k, st.pos, chunk);
    Sp.ParseBounds(proto, p);
    assert c[|c|..] == [] && p[|p|..] == [] && c[0..] == c && p[0..] == p;
  }

  /** The loop of Split over the joined buffers. */
  method TakePackets(proto: int, c: Bytes, p: Bytes) returns (parts: seq<Bytes>, offset: nat, stopped: bool)
    requires |c| == |p|
    ensures (parts, offset, stopped) == Taken(proto, c, p)
  {
    hide NextPacketLen, Progress, Taken;
    parts, offset, stopped := [], 0, false;
    Begin(proto, c, p);
    while offset < |c|
      invariant offset <= |c| && Progress(proto, c, p, offset, parts)
    {
      NextPacketLenBounds(proto, p[offset..]);
      var packetLen := NextPacketLen(proto, p[offset..]);
      if packetLen == None {
        break;
      }
      if packetLen.value <= 0 {
        Stop(proto, c, p, offset, parts);
        parts := parts + [c[offset..]];
        return parts, |c|, true;
      }
      Extend(proto, c, p, offset, parts, packetLen.value);
      parts := parts + [c[offset..offset + packetLen.value]];
      offset := offset + packetLen.value;
    }
    Pause(proto, c, p, offset, parts);
  }

  /** The loop of Split: the parts so far are the packets before the offset, and the
      parse of the buffer continues there. */
  ghost predicate Progress(proto: int, c: Bytes, p: Bytes, offset: nat, parts: seq<Bytes>)
    requires offset <= |c| == |p|
  {
    exists lens: seq<nat> ::
      && Sum(lens) == offset && parts == Cut(c, lens)
      && Sp.Parse(proto, p) == Sp.Prepend(lens, Sp.Parse(proto, p[offset..]))
  }

  lemma Begin(proto: int, c: Bytes, p: Bytes)
    requires |c| == |p|
    ensures Progress(proto, c, p, 0, [])
  {
    assert p[0..] == p && Sum([]) == 0 && Cut(c, []) == [];
    assert Sp.Prepend([], Sp.Parse(proto, p)) == Sp.Parse(proto, p);
  }

  /** One more packet found. */
  lemma Extend(proto: int, c: Bytes, p: Bytes, offset: nat, parts: seq<Bytes>, n: nat)
    requires offset <= |c| == |p| && Progress(proto, c, p, offset, parts)
    requires 0 < n <= |p| - offset && NextPacketLen(proto, p[offset..]) == Some(n)
    ensures Progress(proto, c, p, offset + n, parts + [c[offset..offset + n]])
  {
    hide NextPacketLen;
    var lens: seq<nat> :|
      Sum(lens) == offset && parts == Cut(c, lens)
      && Sp.Parse(proto, p) == Sp.Prepend(lens, Sp.Parse(proto, p[offset..]));
    SumConcat(lens, [n]);
    CutConcat(c, lens, [n]);
    assert Cut(c[offset..], [n]) == [c[offset..][..n]];
    assert c[offset..][..n] == c[offset..offset + n];
    assert p[offset..][n..] == p[offset + n..];
    var rest := Sp.Parse(proto, p[offset + n..]).lens;
    assert lens + ([n] + rest) == (lens + [n]) + rest;
    assert Sp.Parse(proto, p) == Sp.Prepend(lens + [n], Sp.Parse(proto, p[offset + n..]));
  }

  /** No further packet is complete: the rest waits for more bytes. */
  lemma Pause(proto: int, c: Bytes, p: Bytes, offset: nat, parts: seq<Bytes>)
    requires offset <= |c| == |p| && Progress(proto, c, p, offset, parts)
    requires NextPacketLen(proto, p[offset..]) == None || offset == |c|
    ensures Taken(proto, c, p) == (parts, offset, false)
  {
    var lens: seq<nat> :|
      Sum(lens) == offset && parts == Cut(c, lens)
      && Sp.Parse(proto, p) == Sp.Prepend(lens, Sp.Parse(proto, p[offset..]));
    assert NextPacketLen(proto, p[offset..]) == None;
    assert lens + [] == lens;
  }

  /** An empty-packet header: the rest is passed on as it is. */
  lemma Stop(proto: int, c: Bytes, p: Bytes, offset: nat, parts: seq<Bytes>)
    requires offset <= |c| == |p| && Progress(proto, c, p, offset, parts)
    requires NextPacketLen(proto, p[offset..]) == Some(0)
    ensures Taken(proto, c, p) == (parts + [c[offset..]], |c|, true)
  {
    var lens: seq<nat> :|
      Sum(lens) == offset && parts == Cut(c, lens)
      && Sp.Parse(proto, p) == Sp.Prepend(lens, Sp.Parse(proto, p[offset..]));
    assert lens + [] == lens;
  }
}
