/** From the packets a client writes to the packets Telegram reads, with the transport named
    by its four tag bytes. */
module Delivery {
  import opened Octets
  import opened Ctr
  import opened Transport
  import opened Handshake
  import opened WsCodec
  import opened Endpoint
  import opened FakeTls
  import opened EndToEnd
  import opened Server
  import Sp = Splitter

  /** The packets each transport may carry: ef is abridged, ee and dd are intermediate. */
  ghost predicate Carries(tag: Bytes, ps: seq<Packet>) {
    || (tag == [0xef, 0xef, 0xef, 0xef]
        && forall i :: 0 <= i < |ps| ==>
             && |ps[i].payload| % 4 == 0
             && (|| (ps[i].AbridgedShort? && 0 < |ps[i].payload| < 508)
                 || (ps[i].AbridgedLong? && 0 < |ps[i].payload| < 0x400_0000)))
    || (tag in {[0xee, 0xee, 0xee, 0xee], [0xdd, 0xdd, 0xdd, 0xdd]}
        && forall i :: 0 <= i < |ps| ==> ps[i].Intermediate? && 0 < |ps[i].payload| < 0x8000_0000)
  }

  lemma CarriesWellFormed(tag: Tag, ps: seq<Packet>)
    requires Carries(tag, ps)
    ensures KnownTag(tag)
    ensures forall i | 0 <= i < |ps| :: WellFormed(ProtoOfTag(tag), ps[i])
  {
    forall i | 0 <= i < |ps|
      ensures WellFormed(ProtoOfTag(tag), ps[i])
    {
      PacketsOfTransport(ps[i]);
    }
  }

  /** Telegram has exactly these packets, one per message, in order: what it decrypts with
      the key and IV bytes of the relay init, each at its offset in the stream. */
  ghost predicate PacketsArrive(S: Suite, ps: seq<Packet>, messages: seq<Bytes>) {
    && |messages| == 1 + |ps| && |messages[0]| == 64
    && var key := StreamKey(messages[0][8..40], messages[0][40..56]);
       forall i :: 0 <= i < |ps| ==>
         Crypt(S, key, 64 + |EncodeAll(ps[..i])|, messages[1 + i]) == Encode(ps[i])
  }

  /** Whenever a client's stream of packets has ended, cleanly or not. */
  lemma PacketsDelivered(n: Connection, ps: seq<Packet>, clean: bool, wire: Bytes)
    requires Carries(n.announced.tag, ps) && TelegramGets(n, EncodeAll(ps), clean, wire)
    ensures PacketsArrive(n.suite, ps, TelegramMessages(wire))
  {
    hide Crypt, Encode, TelegramMessages, TelegramPlain, Carries, IsPacket, NextPacketLen, Sp.Parse;
    var proto, plain, messages := ProtoOfTag(n.announced.tag), EncodeAll(ps), TelegramMessages(wire);
    CarriesWellFormed(n.announced.tag, ps);
    Sp.ParseInvertsEncode(proto, ps);
    CoveredFits(proto, plain);
    var lens := Sp.Parse(proto, plain).lens;
    var init := RelayInit(n);
    assert init[8..56][..32] == init[8..40] && init[8..56][32..] == init[40..56];
    var key := StreamKey(init[8..40], init[40..56]);
    forall i | 0 <= i < |ps|
      ensures Crypt(n.suite, key, 64 + |EncodeAll(ps[..i])|, messages[1 + i]) == Encode(ps[i])
    {
      Sp.EncodedPrefix(proto, ps, i);
      CryptCancels(n.suite, key, 64 + Sum(lens[..i]), Cut(plain, lens)[i]);
    }
  }

  /** Through every layer: packets written in any pieces, change-cipher-spec records
      anywhere, over any segments, by a client that closes silently. */
  method ServePackets(S: Suite, secret: Bytes, block: Block, a: Announcement, ps: seq<Packet>, items: seq<Item>,
                      blocks: seq<Block>, pad: Pad, mask: MaskKey)
    returns (ws: RawWebSocket)
    requires Usable(blocks) && Carries(a.tag, ps)
    requires forall i | 0 <= i < |items| :: Fits(items[i])
    requires Written(items) == ClientInit(S, secret, block, a)
                               + Crypt(S, SecretKey(S, block[8..56], secret), 64, EncodeAll(ps))
    ensures PacketsArrive(S, ps, TelegramMessages(ws.out))
  {
    hide ClientInit, Crypt, TelegramMessages, TelegramGets, PacketsArrive, Carries, Written, KnownTag, Usable;
    CarriesWellFormed(a.tag, ps);
    var plain := EncodeAll(ps);
    ghost var n;
    ws, n := ServeSilently(S, secret, block, a, plain, items, blocks, pad, mask, |plain| + 1);
    PacketsDelivered(n, ps, false, ws.out);
  }
}
