/** The 64-byte obfuscation handshake on both sides of the proxy and the four
    ciphers derived from it. */
module Handshake {
  import opened Octets
  import opened Ctr
  import opened Transport

  const TAG_ABRIDGED: Bytes := [0xef, 0xef, 0xef, 0xef]
  const TAG_INTERMEDIATE: Bytes := [0xee, 0xee, 0xee, 0xee]
  const TAG_SECURE: Bytes := [0xdd, 0xdd, 0xdd, 0xdd]

  const RESERVED_STARTS: set<Bytes> := {
    [0x48, 0x45, 0x41, 0x44], [0x50, 0x4F, 0x53, 0x54], [0x47, 0x45, 0x54, 0x20],
    [0xee, 0xee, 0xee, 0xee], [0xdd, 0xdd, 0xdd, 0xdd], [0x16, 0x03, 0x01, 0x02]}
  const RESERVED_CONTINUE: Bytes := [0, 0, 0, 0]

  /** A handshake packet or a block of 64 random bytes. */
  type Block = b: Bytes | |b| == 64 witness seq(64, _ => 0)
  type Tag = t: Bytes | |t| == 4 witness [0, 0, 0, 0]
  type Pad = p: Bytes | |p| == 2 witness [0, 0]
  type Int16 = x: int | -0x8000 <= x < 0x8000

  predicate KnownTag(tag: Tag) {
    tag in {TAG_ABRIDGED, TAG_INTERMEDIATE, TAG_SECURE}
  }

  function ProtoOfTag(tag: Tag): int {
    if tag == TAG_ABRIDGED then PROTO_ABRIDGED
    else if tag == TAG_INTERMEDIATE then PROTO_INTERMEDIATE
    else PROTO_PADDED_INTERMEDIATE
  }

  // ---------------------------------------------------------------- signed 16-bit integers

  function PackInt16(x: Int16): (r: Bytes)
    ensures |r| == 2
  {
    Le(if x < 0 then x + 0x1_0000 else x, 2)
  }

  function UnpackInt16(b: Bytes): (x: Int16)
    requires |b| == 2
  {
    FromLeRoundTrip(b);
    Pow256Values();
    var u := FromLe(b);
    if u >= 0x8000 then u - 0x1_0000 else u
  }

  lemma Int16RoundTrip(x: Int16)
    ensures UnpackInt16(PackInt16(x)) == x
  {
    Pow256Values();
    LeRoundTrip(if x < 0 then x + 0x1_0000 else x, 2);
  }

  lemma PackInt16Inverse(b: Bytes)
    requires |b| == 2
    ensures PackInt16(UnpackInt16(b)) == b
  {
    FromLeRoundTrip(b);
  }

  /** Two's complement, the lower byte first. */
  lemma Int16Bytes(x: Int16, b: Bytes)
    ensures var u := if x < 0 then x + 0x1_0000 else x; PackInt16(x) == [u % 256, u / 256]
    ensures |b| == 2 ==> UnpackInt16(b) == b[0] as int + 256 * b[1] as int - if b[1] >= 0x80 then 0x1_0000 else 0
  {
    var u: nat := if x < 0 then x + 0x1_0000 else x;
    LittleEndianBytes(u);
    assert u / 256 % 256 == u / 256;
    LittleEndian(b);
  }

  // ---------------------------------------------------------------- key derivation

  function Reverse(b: Bytes): (r: Bytes)
    ensures |r| == |b|
  {
    seq(|b|, i requires 0 <= i < |b| => b[|b| - 1 - i])
  }

  /** Key hashed with the proxy secret: the client's side. */
  function SecretKey(S: Suite, prekeyIv: Bytes, secret: Bytes): StreamKey
    requires |prekeyIv| == 48
  {
    StreamKey(S.sha256(prekeyIv[..32] + secret), prekeyIv[32..])
  }

  /** Raw key: Telegram's side. */
  function RawKey(prekeyIv: Bytes): StreamKey
    requires |prekeyIv| == 48
  {
    StreamKey(prekeyIv[..32], prekeyIv[32..])
  }

  datatype Keys = Keys(cltDec: StreamKey, cltEnc: StreamKey, tgEnc: StreamKey, tgDec: StreamKey)

  function DeriveKeys(S: Suite, clientPrekeyIv: Bytes, secret: Bytes, relayInit: Block): Keys
    requires |clientPrekeyIv| == 48
  {
    Keys(SecretKey(S, clientPrekeyIv, secret), SecretKey(S, Reverse(clientPrekeyIv), secret),
         RawKey(relayInit[8..56]), RawKey(Reverse(relayInit[8..56])))
  }

  /** Key and IV of each direction as slices of the two init packets: the client's keys
      are hashed with the secret, Telegram's are raw, and the way back uses the bytes in
      reverse. */
  lemma KeysOfBytes(S: Suite, prekeyIv: Bytes, secret: Bytes, relayInit: Block)
    requires |prekeyIv| == 48
    ensures var back := seq(48, i requires 0 <= i < 48 => prekeyIv[47 - i]);
            var relayBack := seq(48, i requires 0 <= i < 48 => relayInit[55 - i]);
            var keys := DeriveKeys(S, prekeyIv, secret, relayInit);
            && keys.cltDec == StreamKey(S.sha256(prekeyIv[..32] + secret), prekeyIv[32..])
            && keys.cltEnc == StreamKey(S.sha256(back[..32] + secret), back[32..])
            && keys.tgEnc == StreamKey(relayInit[8..40], relayInit[40..56])
            && keys.tgDec == StreamKey(relayBack[..32], relayBack[32..])
  {
    var body := relayInit[8..56];
    assert body[..32] == relayInit[8..40] && body[32..] == relayInit[40..56];
    assert Reverse(prekeyIv) == seq(48, i requires 0 <= i < 48 => prekeyIv[47 - i]);
    assert Reverse(body) == seq(48, i requires 0 <= i < 48 => relayInit[55 - i]);
  }

  class CryptoCtx {
    const cltDec: CtrCipher
    const cltEnc: CtrCipher
    const tgEnc: CtrCipher
    const tgDec: CtrCipher

    constructor (cltDec: CtrCipher, cltEnc: CtrCipher, tgEnc: CtrCipher, tgDec: CtrCipher)
      ensures this.cltDec == cltDec && this.cltEnc == cltEnc && this.tgEnc == tgEnc && this.tgDec == tgDec
    {
      this.cltDec, this.cltEnc, this.tgEnc, this.tgDec := cltDec, cltEnc, tgEnc, tgDec;
    }

    /** Four different ciphers of one suite under the given keys. */
    ghost predicate Holds(S: Suite, keys: Keys) {
      && cltDec != cltEnc && cltDec != tgEnc && cltDec != tgDec
      && cltEnc != tgEnc && cltEnc != tgDec && tgEnc != tgDec
      && cltDec.suite == cltEnc.suite == tgEnc.suite == tgDec.suite == S
      && Keys(cltDec.key, cltEnc.key, tgEnc.key, tgDec.key) == keys
    }
  }

  /** The two upstream ciphers skip the 64 bytes of the init packets. */
  method BuildCryptoCtx(S: Suite, clientPrekeyIv: Bytes, secret: Bytes, relayInit: Block) returns (ctx: CryptoCtx)
    requires |clientPrekeyIv| == 48
    ensures fresh(ctx) && fresh({ctx.cltDec, ctx.cltEnc, ctx.tgEnc, ctx.tgDec})
    ensures ctx.Holds(S, DeriveKeys(S, clientPrekeyIv, secret, relayInit))
    ensures ctx.cltDec.pos == 64 && ctx.tgEnc.pos == 64 && ctx.cltEnc.pos == 0 && ctx.tgDec.pos == 0
  {
    var cltEncPrekeyIv := Reverse(clientPrekeyIv);
    var cltDec := new CtrCipher(S, StreamKey(S.sha256(clientPrekeyIv[..32] + secret), clientPrekeyIv[32..]));
    var cltEnc := new CtrCipher(S, StreamKey(S.sha256(cltEncPrekeyIv[..32] + secret), cltEncPrekeyIv[32..]));
    var _ := cltDec.Update(seq(64, _ => 0));

    var relayDecPrekeyIv := Reverse(relayInit[8..56]);
    assert relayInit[8..56][..32] == relayInit[8..40] && relayInit[8..56][32..] == relayInit[40..56];
    var tgEnc := new CtrCipher(S, StreamKey(relayInit[8..40], relayInit[40..56]));
    var tgDec := new CtrCipher(S, StreamKey(relayDecPrekeyIv[..32], relayDecPrekeyIv[32..]));
    var _ := tgEnc.Update(seq(64, _ => 0));
    ctx := new CryptoCtx(cltDec, cltEnc, tgEnc, tgDec);
  }

  // ---------------------------------------------------------------- init packets

  /** What an init packet announces. */
  datatype Announcement = Announcement(tag: Tag, dcIdx: Int16, pad: Pad)

  function Tail(a: Announcement): (r: Bytes)
    ensures |r| == 8
  {
    a.tag + PackInt16(a.dcIdx) + a.pad
  }

  /** How a peer holding the key reads an init packet: decrypt all of it, look at the end. */
  function ReadInit(S: Suite, k: StreamKey, init: Block): Announcement {
    var plain := Crypt(S, k, 0, init);
    Announcement(plain[56..60], UnpackInt16(plain[60..62]), plain[62..64])
  }

  /** How a peer writes one: a random block whose last 8 bytes are the encrypted tail. */
  function WriteInit(S: Suite, k: StreamKey, block: Block, a: Announcement): Block {
    block[..56] + Crypt(S, k, 56, Tail(a))
  }

  /** Byte i of an init packet without its keystream. */
  function PlainByte(S: Suite, k: StreamKey, init: Block, i: nat): byte
    requires i < 64
  {
    XorByte(init[i], S.keystream(k.key, k.iv, i))
  }

  /** Where the announcement is: bytes 56 to 59, 60 to 61 and 62 to 63, each combined with
      the keystream at its own position. */
  lemma InitBytes(S: Suite, k: StreamKey, init: Block)
    ensures var a := ReadInit(S, k, init);
            var (lo, hi) := (PlainByte(S, k, init, 60), PlainByte(S, k, init, 61));
            && (forall i :: 0 <= i < 4 ==> a.tag[i] == PlainByte(S, k, init, 56 + i))
            && a.dcIdx as int == lo as int + 256 * hi as int - (if hi >= 0x80 then 0x1_0000 else 0)
            && (forall i :: 0 <= i < 2 ==> a.pad[i] == PlainByte(S, k, init, 62 + i))
  {
    hide UnpackInt16;
    var plain := Crypt(S, k, 0, init);
    Int16Bytes(0, plain[60..62]);
  }

  lemma WriteThenRead(S: Suite, k: StreamKey, block: Block, a: Announcement)
    ensures ReadInit(S, k, WriteInit(S, k, block, a)) == a
  {
    hide Crypt, PackInt16, UnpackInt16;
    var init := WriteInit(S, k, block, a);
    var plain := Crypt(S, k, 0, init);
    CryptConcat(S, k, 0, block[..56], Crypt(S, k, 56, Tail(a)));
    CryptCancels(S, k, 56, Tail(a));
    assert plain[56..64] == Tail(a);
    assert plain[56..60] == plain[56..64][..4] && plain[60..62] == plain[56..64][4..6];
    assert plain[62..64] == plain[56..64][6..8];
    Int16RoundTrip(a.dcIdx);
  }

  lemma ReadThenWrite(S: Suite, k: StreamKey, init: Block)
    ensures WriteInit(S, k, init, ReadInit(S, k, init)) == init
  {
    var plain := Crypt(S, k, 0, init);
    var a := ReadInit(S, k, init);
    PackInt16Inverse(plain[60..62]);
    assert Tail(a) == plain[56..64];
    CryptSlice(S, k, 0, init, 56, 64);
    CryptCancels(S, k, 56, init[56..64]);
    assert init == init[..56] + init[56..64];
  }

  // ---------------------------------------------------------------- the client's init

  datatype ClientHandshake = ClientHandshake(dc: nat, isMedia: bool, tag: Tag, prekeyIv: Bytes)

  function Magnitude(x: int): nat {
    if x < 0 then -x else x
  }

  /** The index the proxy announces to Telegram. */
  function SignedIndex(h: ClientHandshake): int {
    if h.isMedia then -(h.dc as int) else h.dc
  }

  function TryHandshake(S: Suite, handshake: Block, secret: Bytes): Option<ClientHandshake> {
    var prekeyIv := handshake[8..56];
    var iv := Be(FromBe(prekeyIv[32..]), 16);
    var decrypted := Crypt(S, StreamKey(S.sha256(prekeyIv[..32] + secret), iv), 0, handshake);
    var tag: Tag := decrypted[56..60];
    if !KnownTag(tag) then None
    else
      var dcIdx := UnpackInt16(decrypted[60..62]);
      Some(ClientHandshake(Magnitude(dcIdx), dcIdx < 0, tag, prekeyIv))
  }

  /** The recipe of the client: the key depends on the block itself and the secret. */
  function ClientInit(S: Suite, secret: Bytes, block: Block, a: Announcement): Block {
    WriteInit(S, SecretKey(S, block[8..56], secret), block, a)
  }

  lemma TryHandshakeReads(S: Suite, handshake: Block, secret: Bytes)
    ensures var a := ReadInit(S, SecretKey(S, handshake[8..56], secret), handshake);
            TryHandshake(S, handshake, secret)
            == if KnownTag(a.tag)
               then Some(ClientHandshake(Magnitude(a.dcIdx), a.dcIdx < 0, a.tag, handshake[8..56]))
               else None
  {
    FromBeRoundTrip(handshake[8..56][32..]);
  }

  /** The proxy accepts exactly the init packets a client can make for its secret with a
      known transport, and the signed data-centre index survives the split into a
      number and a media flag. */
  lemma HandshakeAcceptance(S: Suite, secret: Bytes, block: Block, a: Announcement)
    ensures var r := TryHandshake(S, ClientInit(S, secret, block, a), secret);
            && (r.Some? <==> KnownTag(a.tag))
            && (r.Some? <==> a.tag in {[0xef, 0xef, 0xef, 0xef], [0xee, 0xee, 0xee, 0xee], [0xdd, 0xdd, 0xdd, 0xdd]})
            && (r.Some? ==>
                  && r.value.tag == a.tag && r.value.prekeyIv == block[8..56]
                  && r.value.isMedia == (a.dcIdx < 0)
                  && r.value.dc as int == (if a.dcIdx < 0 then 0 - a.dcIdx as int else a.dcIdx as int)
                  && SignedIndex(r.value) == a.dcIdx)
  {
    var init := ClientInit(S, secret, block, a);
    assert init[8..56] == block[8..56];
    WriteThenRead(S, SecretKey(S, block[8..56], secret), block, a);
    TryHandshakeReads(S, init, secret);
  }

  lemma AcceptedIsClientInit(S: Suite, secret: Bytes, handshake: Block)
    ensures TryHandshake(S, handshake, secret).Some?
            <==> exists block: Block, a: Announcement ::
                   KnownTag(a.tag) && handshake == ClientInit(S, secret, block, a)
  {
    var k := SecretKey(S, handshake[8..56], secret);
    TryHandshakeReads(S, handshake, secret);
    ReadThenWrite(S, k, handshake);
    assert handshake == ClientInit(S, secret, handshake, ReadInit(S, k, handshake));
    forall block: Block, a: Announcement | KnownTag(a.tag) && handshake == ClientInit(S, secret, block, a)
      ensures TryHandshake(S, handshake, secret).Some?
    {
      HandshakeAcceptance(S, secret, block, a);
    }
  }

  // ---------------------------------------------------------------- the relay init

  /** Prefixes that would look like another protocol. */
  predicate Reserved(init: Bytes)
    requires |init| >= 8
  {
    init[0] == 0xEF || init[..4] in RESERVED_STARTS || init[4..8] == RESERVED_CONTINUE
  }

  /** The reserved starts in full: the abridged marker, the first words of HTTP requests,
      the two other transports, a TLS handshake, and a zero second word. */
  lemma ReservedBytes(init: Bytes)
    requires |init| >= 8
    ensures Reserved(init) <==>
            || init[0] == 0xEF
            || init[..4] == [0x48, 0x45, 0x41, 0x44]
            || init[..4] == [0x50, 0x4F, 0x53, 0x54]
            || init[..4] == [0x47, 0x45, 0x54, 0x20]
            || init[..4] == [0xEE, 0xEE, 0xEE, 0xEE]
            || init[..4] == [0xDD, 0xDD, 0xDD, 0xDD]
            || init[..4] == [0x16, 0x03, 0x01, 0x02]
            || init[4] == init[5] == init[6] == init[7] == 0
  {
    assert init[4..8] == [init[4], init[5], init[6], init[7]];
  }

  /** Some block the random source yields is acceptable. */
  predicate Usable(blocks: seq<Block>) {
    blocks != [] && (!Reserved(blocks[0]) || Usable(blocks[1..]))
  }

  function FirstAccepted(blocks: seq<Block>): (r: Block)
    requires Usable(blocks)
    ensures r in blocks && !Reserved(r)
  {
    if Reserved(blocks[0]) then FirstAccepted(blocks[1..]) else blocks[0]
  }

  /** Every block drawn before the accepted one was reserved. */
  lemma {:induction false} AcceptedIsFirst(blocks: seq<Block>) returns (i: nat)
    requires Usable(blocks)
    ensures i < |blocks| && FirstAccepted(blocks) == blocks[i] && !Reserved(blocks[i])
    ensures forall j :: 0 <= j < i ==> Reserved(blocks[j])
  {
    if Reserved(blocks[0]) {
      i := AcceptedIsFirst(blocks[1..]);
      assert forall j :: 0 < j < i + 1 ==> blocks[j] == blocks[1..][j - 1];
      i := i + 1;
    } else {
      i := 0;
    }
  }

  /** Draws random blocks until one is acceptable, then overwrites its tail.  `blocks`
      is what the random source yields. */
  method GenerateRelayInit(S: Suite, tag: Tag, dcIdx: Int16, blocks: seq<Block>, pad: Pad)
    returns (result: Block)
    requires Usable(blocks)
    ensures var rnd := FirstAccepted(blocks);
            result == WriteInit(S, RawKey(rnd[8..56]), rnd, Announcement(tag, dcIdx, pad))
  {
    var n := 0;
    assert blocks[0..] == blocks;
    while Reserved(blocks[n])
      invariant n < |blocks|
      invariant Usable(blocks[n..]) && FirstAccepted(blocks[n..]) == FirstAccepted(blocks)
      decreases |blocks| - n
    {
      assert blocks[n..][1..] == blocks[n + 1..];
      n := n + 1;
    }
    var rnd := blocks[n];
    var key := StreamKey(rnd[8..40], rnd[40..56]);
    assert rnd[8..56][..32] == rnd[8..40] && rnd[8..56][32..] == rnd[40..56];
    var encryptor := new CtrCipher(S, key);
    var tailPlain := tag + PackInt16(dcIdx) + pad;
    var encryptedFull := encryptor.Update(rnd);
    var encryptedTail: Bytes := [];
    for i := 0 to 8
      invariant encryptedTail == Crypt(S, key, 56, tailPlain)[..i]
    {
      var keystream := XorByte(encryptedFull[56 + i], rnd[56 + i]);
      CryptBytes(S, key, 0, rnd, 56 + i);
      assert XorByte(tailPlain[i], keystream) == Crypt(S, key, 56, tailPlain)[i];
      encryptedTail := encryptedTail + [XorByte(tailPlain[i], keystream)];
    }
    result := rnd[..56] + encryptedTail;
  }

  /** Telegram reads back from the relay init what the client announced to the proxy,
      the key material is the random block's, and no reserved prefix appears. */
  lemma RelayInitCarries(S: Suite, block: Block, a: Announcement)
    requires !Reserved(block)
    ensures var init := WriteInit(S, RawKey(block[8..56]), block, a);
            && !Reserved(init)
            && init[..56] == block[..56] && init[8..56] == block[8..56]
            && ReadInit(S, RawKey(init[8..56]), init) == a
  {
    var init := WriteInit(S, RawKey(block[8..56]), block, a);
    assert init[8..56] == block[8..56] && init[..4] == block[..4] && init[4..8] == block[4..8];
    WriteThenRead(S, RawKey(block[8..56]), block, a);
  }
}
