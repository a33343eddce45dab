# Verified model of the tg-ws-proxy data path

The proxy accepts Telegram clients that speak MTProto over TCP (optionally dressed up as TLS),
re-encrypts their traffic and carries it to Telegram over a WebSocket, one transport packet per
frame. Every stage is stateful and sees its input cut into arbitrary chunks. This project models
those stages and proves that chunking, buffering, interleaving and fast paths do not change what
arrives.

## Layout

| file | what it covers |
|---|---|
| `Octets.dfy`, `Ctr.dfy` | bytes, exclusive or, integers on the wire, slicing; keystream ciphers by position |
| `Transport.dfy`, `Splitter.dfy`, `MsgSplitter.dfy` | MTProto transport packets; the incremental packet splitter as a state machine and as an object |
| `StreamReader.dfy`, `FakeTls.dfy`, `Hello.dfy` | the byte stream a peer writes, the TLS record layer over it, the two hellos |
| `WsCodec.dfy`, `Endpoint.dfy`, `Fragments.dfy`, `StrictPeer.dfy` | WebSocket frames, masking, the endpoint that answers control frames, peers that fragment messages, and a reader that goes by the letter of RFC 6455 |
| `Handshake.dfy` | the obfuscation handshake on both sides and the four ciphers |
| `Bridge.dfy`, `BridgeObject.dfy` | the re-encrypting bridge as interleaved steps, and over real objects |
| `EndToEnd.dfy`, `Server.dfy`, `Delivery.dfy`, `Intake.dfy` | all layers composed: from client plaintext to Telegram's plaintext and back, from packets to packets, and from the first TCP byte |
| `Pool.dfy`, `PoolProtocol.dfy`, `PoolRefill.dfy`, `PoolReset.dfy` | the pool of idle connections, every interleaving of takers and refills, what one refill brings about, and what a reset does |
| `Route.dfy`, `Fallback.dfy` | blacklist and cooldown over histories of handlers; the fallback routes |
| `Balancer.dfy`, `Domains.dfy` | sticky domain choice; domain list clean-up |

## How to read the model

* AES in counter mode is an arbitrary keystream indexed by key, IV and byte position; SHA-256 and
  HMAC-SHA256 are arbitrary functions with 32-byte results. They are fields of `Ctr.Suite`, a
  parameter of every theorem, so no theorem depends on what they compute.
* Random blocks, random bytes, the clock, shuffles, connection outcomes and the sizes of partial
  reads are parameters or nondeterministic choices. Results hold for all of them.
* `None` from a reader stands for an IncompleteReadError; the empty byte string for an empty read.
* The two bridge directions and all client handlers are interleaved as atomic steps between
  awaits (reading one WebSocket frame is one step), pool operations as atomic steps between locks;
  a run is a list of steps and every theorem about runs holds for every list.
* Formats are stated twice: by the functions the code is proved against, and on raw bytes with
  literal constants (byte order, tag bytes, header bits, offsets), so that neither can drift alone.
  Telegram's side is a strict reader of its own (`StrictPeer`), not the inverse of the writer.
* Objects the source mutates are classes. A driver method beside each state machine runs an
  arbitrary list of steps through the object and is proved to follow the machine
  (`ReencryptingBridge.RunEvents`, `Server.RunSession`, `PoolProtocol.RunSteps`,
  `Route.RunHandlers`); the theorems are about the state machine.

## Where the code falls short of its intent

Each of these is stated with its exact condition and with an input that fails.

* `FakeTlsStream.read` raises at the end of the wire between two records
  (`proxy/fake_tls.py:193`) instead of returning an empty result, so the bridge then ends without
  flushing the splitter. Telegram still gets the whole plaintext if and only if the stream ends on
  a packet boundary or the splitter was disabled or absent (`EndToEnd.UnflushedUpload`,
  `Server.ServeSilentClose`). A client whose wire holds only application-data and
  change-cipher-spec records always ends this way (`Server.SilentCloseIsNotClean`); one that ends
  with a record of another type, such as an alert, is flushed (`Server.AlertCloseIsClean`). The
  one-byte abridged plaintext 0x01 is lost (`Server.UnfinishedPacketLost`).
* `RawWebSocket.recv` skips continuation frames (`proxy/raw_websocket.py:217-219`). Over any wire,
  the bytes it hands out are the peer's application bytes if and only if no continuation frame
  before the close carries any (`Fragments.RecvLosesExactlyContinuations`); of a message sent in
  fragments only the first arrives (`Fragments.FragmentedMessage`).
* `WsPool::reset` clears the buckets under one lock and then the set of keys being refilled under
  another, while refill tasks still run. Clearing the set keeps the bounds for every later run if
  and only if it is empty at that moment (or, for the size bound, the pool size is zero):
  `PoolReset.ForgettingIsHarmlessWhenIdle`. A caller can rely on that if nothing is recorded when
  it calls reset and no `get` or `warmup` runs before it returns, and given the latter only then
  (`PoolReset.ResetIsHarmlessWhenIdle`); with a `get` between the two locks no state makes it safe
  (`PoolReset.RacingReset`). Runs that fail: `PoolReset.ResetBreaksTheBound` with a refill in
  flight, `PoolReset.RacingResetBreaksTheBound` with none at the call. Nothing under `src/` calls
  reset; the only mentions are its two definitions, at `src/proxy/pool.rs:125` and
  `src/proxy/pool.rs:262`. Its Python twin (`proxy/pool.py:69-71`) is called on every start, at
  `proxy/tg_ws_proxy.py:436-437`.

The comments at `proxy/fake_tls.py:40-43` and `proxy/fake_tls.py:76-78` call extension 0x0033
supported_versions and 0x002b psk_key_exchange_modes. On the wire 0x0033 is key_share and 0x002b is
supported_versions (section 4.2 of RFC 8446); the bytes themselves are right, and the model reads
them as bytes.

## Model

| member | source | states |
|---|---|---|
| Splitter.RunConsumes | proxy/bridge.py:65-92 | after any list of chunks, the splitter's buffers, keystream position, disabled flag and returned parts are what one parse of the whole stream determines: `_plain_buf` is the decryption of `_cipher_buf` at its offset, and parts plus buffer concatenate to the input |
| Splitter.ChunkingIndependence | proxy/bridge.py:65-100 | two chunkings of one stream return the same packets up to disabling, disable alike, end in the same state when not disabled, and split plus flush output concatenates to the input |
| Splitter.SplitterInvertsEncoder | proxy/bridge.py:65-139 | any list of well-formed transport packets, encrypted and cut anywhere, comes back one part per packet in order, each part the packet's ciphertext at its stream offset; never disabled, buffers empty at the end |
| Splitter.ParseInvertsEncode | proxy/bridge.py:102-139 | parsing a concatenation of well-formed packets recovers exactly those packets with nothing left over |
| Splitter.ParseYieldsPackets | proxy/bridge.py:102-139 | every slice cut from any byte stream is the encoding of one well-formed non-empty packet |
| Splitter.ParseAppend | proxy/bridge.py:71-92 | parsing resumes from the leftover when more bytes arrive and never changes earlier cuts; once disabled it stays disabled |
| Splitter.LeftoverBound | proxy/bridge.py:102-139 | what an undisabled parse leaves over contains no complete packet and is shorter than 2^31 + 4 bytes |
| Splitter.BuffersStaySmall | proxy/bridge.py:65-92 | a call that begins with fewer than 2^31 + 4 bytes buffered ends so, and every part it returns is at most one read longer |
| Splitter.PassThrough | proxy/bridge.py:68-92 | the parts of a run that meets an empty-packet header are exactly the packets before it, then the rest of what had arrived as one part, then each later chunk as it came |
| Splitter.IdleCalls | proxy/bridge.py:66-69 | an empty chunk returns nothing and changes nothing; once disabled a chunk is returned as it is |
| Transport.NextPacketLenMonotone | proxy/bridge.py:102-139 | a packet length or an empty-packet verdict once reached is not changed by more available bytes |
| Transport.AbridgedRule | proxy/bridge.py:112-128 | on bytes: one byte of length in words without its top bit, or after 0x7f or 0xff three bytes of it, lowest first; zero is the empty packet, less than the whole packet is undecided |
| Transport.IntermediateRule | proxy/bridge.py:130-139 | on bytes: four bytes of length, lowest first, without the highest bit; zero is the empty packet, less than the whole packet is undecided |
| Transport.OtherRule | proxy/bridge.py:102-110 | any other transport number disables splitting at the first byte |
| Transport.ShortBytes | proxy/bridge.py:121 | the header byte of a short abridged packet, with its quick-ack bit |
| Transport.LongBytes | proxy/bridge.py:114-119 | the header bytes of a long abridged packet, with its quick-ack marker |
| Transport.IntermediateBytes | proxy/bridge.py:133 | the header bytes of an intermediate packet, with its quick-ack bit |
| Transport.PacketsOfTransport | proxy/bridge.py:105-109 | which packets each of the three transport numbers carries, by kind and payload size |
| Transport.RecognisedIsPacket | proxy/bridge.py:102-139 | the bytes a positive length covers are the encoding of a well-formed packet of the announced transport (abridged short and long, intermediate, quick-ack bit) |
| Transport.PacketIsRecognised | proxy/bridge.py:112-139 | every encoded well-formed packet is recognised with its full length, whatever follows |
| MsgSplitters.MsgSplitter.constructor | proxy/bridge.py:55-63 | the fresh splitter is the machine's initial state: keyed by bytes 8-55 of the relay init, keystream at 64, empty buffers |
| MsgSplitters.MsgSplitter.Split | proxy/bridge.py:65-92 | one call changes buffers, cipher position and flag and returns parts exactly as one step of the splitter machine |
| MsgSplitters.TakePackets | proxy/bridge.py:74-87 | the offset loop finds exactly the packets of the whole-buffer parse, the offset after them and whether an empty-packet header stopped it |
| MsgSplitters.MsgSplitter.Flush | proxy/bridge.py:94-100 | hands out the whole buffer as one part, or nothing when empty, and empties both buffers |
| Ctr.CryptConcat | proxy/bridge.py:312-313 | feeding a stream cipher in pieces gives the same output as feeding it at once |
| Ctr.CryptCancels | proxy/tg_ws_proxy.py:202-243 | decrypting at the same key, IV and position undoes encrypting |
| Ctr.CryptBytes | proxy/tg_ws_proxy.py:92-96 | each output byte is the input byte combined with the keystream of that key and IV at that position |
| Ctr.CtrCipher.Update | proxy/bridge.py:71-72 | advances the position by the input length and outputs the keystream encryption at the old position |
| WsCodec.XorMaskWords | proxy/raw_websocket.py:54-78 | word-at-a-time masking with its 0-3 byte remainder equals the bytewise mask of section 5.3 of RFC 6455 at every length |
| WsCodec.XorMaskTwice | src/proxy/crypto.rs:11-16 | masking twice with one key is the identity |
| WsCodec.XorWord | proxy/raw_websocket.py:65-74 | exclusive or of big-endian words is the bytewise exclusive or, for words of any size |
| WsCodec.MaskedByte | src/proxy/crypto.rs:11-16 | byte i is combined with byte i modulo 4 of the key |
| Octets.XorBits | src/proxy/crypto.rs:14 | a bit of the result is set exactly where the operands' bits differ |
| Octets.LittleEndian | proxy/bridge.py:117-118 | the first byte of a little-endian number counts ones, for two, three and four bytes |
| Octets.LittleEndianBytes | proxy/tg_ws_proxy.py:89 | the bytes a number is written as, lowest first |
| Octets.BigEndian | proxy/tg_ws_proxy.py:140 | the last byte of a network-order number counts ones |
| WsCodec.FrameRoundTrip | proxy/raw_websocket.py:239-270 | for every opcode below 16, payload shorter than 2^64, masked or not, reading a built frame gives back opcode and payload and leaves any suffix |
| WsCodec.LengthEncodingMinimal | proxy/raw_websocket.py:239-255 | no byte string reading back as the same frame with the same masking choice is shorter than the built one, and one as short uses the smallest length form (section 5.2 of RFC 6455) |
| WsCodec.FramesRoundTrip | proxy/raw_websocket.py:180-188 | a concatenation of built frames decodes to exactly that list of frames, then whatever follows |
| WsCodec.ReadFrame | proxy/raw_websocket.py:257-270 | consumes exactly one frame from the reader as the byte-level decoding says, or raises having met the end of the stream |
| Endpoint.JoinFrames | proxy/raw_websocket.py:185-187 | the batch buffer is the frame stream of its parts, in order |
| StrictPeer.StrictReading | proxy/raw_websocket.py:239-255 | a reader that checks FIN, the reserved bits, the mask bit and the shortest length form on raw bytes, and assembles fragments by section 5.4 of RFC 6455, gets exactly the messages from what this end writes |
| StrictPeer.BatchIsItsParts | proxy/raw_websocket.py:180-188 | that reader gets a batch as exactly its parts |
| Endpoint.OpcodeMeanings | proxy/raw_websocket.py:191-219 | opcodes 1 and 2 are messages, 8 is answered with the first two bytes of its payload and ends the connection, 9 gets a pong 0xA of its payload, all others are passed over |
| Endpoint.RawWebSocket.Send | proxy/raw_websocket.py:174-178 | writes one binary frame when open, raises and writes nothing when closed |
| Endpoint.RawWebSocket.SendBatch | proxy/raw_websocket.py:180-188 | writes one binary frame per part when open, raises and writes nothing when closed |
| Endpoint.RawWebSocket.React | proxy/raw_websocket.py:194-219 | per frame: what is answered, whether the connection closes and whether the loop returns |
| Endpoint.RawWebSocket.Recv | proxy/raw_websocket.py:190-220 | the loop's result, the bytes it consumes, the frames it writes and the closed flag are those of the recv function over the wire |
| Endpoint.RawWebSocket.Close | proxy/raw_websocket.py:222-230 | writes one empty close frame unless already closed |
| Endpoint.RecvRun | proxy/raw_websocket.py:190-220 | over any wire, the messages are the data payloads before the first close in order, and what is written is one pong per earlier ping with its payload and then the answer to the close |
| Fragments.PeerRoundTrip | proxy/raw_websocket.py:257-270 | frames with or without the FIN bit, each masked as its sender likes, decode to exactly their list, then whatever follows |
| Fragments.RecvRunOfFrames | proxy/raw_websocket.py:190-220 | the same for any list of frames a peer encodes, whatever their FIN bits and masking |
| Fragments.RecvLosesExactlyContinuations | proxy/raw_websocket.py:214-219 | over any wire, the bytes handed out equal the peer's application bytes if and only if no continuation frame before the close carries data |
| Fragments.FragmentsAreOneMessage | proxy/raw_websocket.py:214-219 | the fragments considered are, by section 5.4 of RFC 6455, one message of all the parts |
| Fragments.FragmentedMessage | proxy/raw_websocket.py:214-219 | of a text or binary message sent in any number of fragments (FIN on the last only, any masks) exactly the first arrives, so it is received whole if and only if the others are empty |
| Handshake.Int16RoundTrip | proxy/tg_ws_proxy.py:89-90 | signed little-endian 16-bit packing is invertible on the whole range, negative indices included |
| Handshake.Int16Bytes | proxy/tg_ws_proxy.py:60-61 | two's complement in two bytes, the lower first, in both directions |
| Handshake.KeysOfBytes | proxy/tg_ws_proxy.py:205-232 | key and IV of all four ciphers as slices of the two init packets: hashed with the secret for the client, raw for Telegram, byte-reversed for the way back |
| Handshake.InitBytes | proxy/tg_ws_proxy.py:53-61 | tag, index and padding are bytes 56-59, 60-61 and 62-63, each combined with the keystream at its own position |
| Handshake.ReservedBytes | proxy/tg_ws_proxy.py:72-77 | a block is refused exactly for first byte 0xEF, one of the six listed first words, or a zero second word |
| Handshake.AcceptedIsFirst | proxy/tg_ws_proxy.py:70-78 | the block used is the first drawn that is not refused |
| Handshake.HandshakeAcceptance | proxy/tg_ws_proxy.py:42-66 | an init packet made for this secret is accepted if and only if its tag is four bytes ef, ee or dd; tag and key bytes are recovered, the number is the index's magnitude and the media flag its sign |
| Handshake.AcceptedIsClientInit | proxy/tg_ws_proxy.py:42-66 | the packets accepted are exactly those some client could have made for this secret with a known tag |
| Handshake.WriteThenRead | proxy/tg_ws_proxy.py:92-100 | the tail XORed in under the keystream decrypts to the tag, index and padding put in |
| Handshake.ReadThenWrite | proxy/tg_ws_proxy.py:92-100 | re-writing what was read from any 64-byte packet reproduces the packet |
| Handshake.GenerateRelayInit | proxy/tg_ws_proxy.py:69-100 | the first block that avoids the reserved prefixes, with its tail replaced by the encrypted announcement |
| Handshake.RelayInitCarries | proxy/tg_ws_proxy.py:69-100 | the relay init avoids every reserved prefix, keeps the random key and IV bytes and decrypts under them to the given tag and index |
| Handshake.BuildCryptoCtx | proxy/tg_ws_proxy.py:202-243 | four distinct ciphers keyed as both peers expect; upstream ones at position 64, downstream ones at 0 |
| Bridge.RunInvariant | proxy/bridge.py:296-382 | in every reachable state under any interleaving: the upstream ciphers are at 64 plus bytes up and the downstream ones at bytes down; the splitter is where the relayed stream puts it; relay init and parts go out in order, one frame each; a close frame only comes last |
| Bridge.RunBounded | proxy/bridge.py:300-323 | with reads of at most 64 KiB every frame written in any run fits the WebSocket length field |
| Bridge.NothingAfterClose | proxy/raw_websocket.py:222-230 | once the connection is closed no run writes another frame, so at most one close frame is ever written |
| Bridge.UpstreamFrozen | proxy/bridge.py:296-330 | after the upstream task ended nothing more is read from the client, cut or flushed |
| Bridge.DownRun | proxy/bridge.py:332-345 | until broken off, the messages relayed to the client are the data payloads before the first close, in order |
| Bridge.RunReplies | proxy/raw_websocket.py:194-212 | over any run the control frames written are exactly one pong per ping before the first close, in order, and that close's status code back |
| Bridge.RecvIsRun | proxy/raw_websocket.py:190-220 | one recv, however many control frames it answers on the way, is a run of downstream events of the bridge |
| BridgeObjects.ReencryptingBridge.UpChunk | proxy/bridge.py:308-323 | over the real cipher, splitter and WebSocket objects one chunk does one upstream step and nothing else |
| BridgeObjects.ReencryptingBridge.Reencrypt | proxy/bridge.py:308-313 | decrypts with the client's key and encrypts with Telegram's, each at its own stream position, and advances both by the chunk |
| BridgeObjects.ReencryptingBridge.CutParts | proxy/bridge.py:314-323 | the parts to send are the splitter's cut of the relayed chunk, or the chunk itself without a splitter, and each fits a frame |
| BridgeObjects.ReencryptingBridge.SendParts | proxy/bridge.py:314-323 | none, one or several parts leave in order as one frame each; on a closed connection all of them are dropped and the task ends |
| BridgeObjects.ReencryptingBridge.UpEof | proxy/bridge.py:301-307 | end of file flushes the splitter, sends its tail and ends the upstream task |
| BridgeObjects.ReencryptingBridge.DownFrame | proxy/bridge.py:332-345 | one incoming frame is answered and, if a message, re-encrypted to the client, as one downstream step |
| BridgeObjects.ReencryptingBridge.RelayFrame | proxy/raw_websocket.py:191-219 | what the downstream task does between two waits: one frame is answered, relayed as a message or ends the task, and messages relayed plus messages to come stay the same |
| BridgeObjects.ReencryptingBridge.RelayDown | proxy/bridge.py:335-345 | a whole recv and the relaying of its message is the run of its frames, one after the other |
| BridgeObjects.ReencryptingBridge.Finish | proxy/bridge.py:357-377 | both tasks end and the connection is closed once |
| BridgeObjects.ReencryptingBridge.RunEvents | proxy/bridge.py:355-377 | the objects follow the state machine through any interleaving |
| FakeTls.WrapTlsRecord | proxy/fake_tls.py:138-149 | the offset loop yields the records of the data cut at 16384 bytes, none of them empty |
| FakeTls.WrapRoundTrip | proxy/fake_tls.py:138-211 | deframing wrapped data gives the data back, whatever follows on the wire |
| FakeTls.RecordKinds | proxy/fake_tls.py:192-211 | the bytes of a record header, and by its first byte: 0x14 is skipped, 0x17 carries its body, any other type or an empty body ends the stream there |
| FakeTls.WireRoundTrip | proxy/fake_tls.py:138-211 | any sequence of writes with change-cipher-spec records mixed in anywhere deframes to exactly the written bytes, and the stream then ends in an exception |
| FakeTls.OtherEnds | proxy/fake_tls.py:192-211 | after whatever was written, an empty record or one cut short ends in an empty read, the latter delivering the bytes that came, and a cut change-cipher-spec record in the exception |
| Hello.WrapIsStrict | proxy/fake_tls.py:138-149 | wrapped data parses strictly (section 5.1 of RFC 8446) as version 3.3 application-data records, none empty, all full but the last at 16384 bytes, carrying exactly the data |
| FakeTls.FakeTlsStream.ReadTlsPayload | proxy/fake_tls.py:184-211 | terminates; payload plus what is still due (rest of the record and later records) is what was due before; when nothing is returned nothing was due, the wire stands exactly after the record that ended the stream, and the wire determines whether that shows as an exception |
| FakeTls.FakeTlsStream.Read | proxy/fake_tls.py:171-182 | at most n bytes; result plus what is pending afterwards is what was pending before, for every segmentation; and over any wire, also on an empty or raising call, nothing on it is lost |
| FakeTls.FakeTlsStream.ReadExactly | proxy/fake_tls.py:161-169 | succeeds if and only if n bytes are pending, returns exactly those and leaves the rest pending; a raising call keeps what it read and loses nothing |
| FakeTls.ReadCalls | proxy/fake_tls.py:161-211 | for any wire and any sequence of read and readexactly calls with positive sizes, what they return plus what is still unread is what was unread before, even past calls that came up short; each call gets what is pending from where the earlier ones stopped |
| FakeTls.ReadBack | proxy/fake_tls.py:138-211 | any writes with change-cipher-spec records anywhere, over any segments and read by any calls: the results are consecutive slices of the written bytes from the start, with nothing lost or repeated |
| EndToEnd.HandshakeComposes | proxy/tg_ws_proxy.py:262-288 | the proxy recovers the client's keys, tag and index, and Telegram recovers the same tag and index from the relay init |
| EndToEnd.UpstreamEndToEnd | proxy/bridge.py:296-330 | for every plaintext, chunking ending in end of file, downstream traffic and aftermath: deframing the WebSocket bytes, skipping the relay init and decrypting from position 64 gives exactly that plaintext |
| EndToEnd.UpstreamPrefix | proxy/bridge.py:296-330 | in every reachable state, even after a close or an error, Telegram has a prefix of the client's plaintext, short by exactly the bytes in the splitter and in unsendable parts |
| EndToEnd.UnflushedUpload | proxy/fake_tls.py:193 | when the reader raises instead of reporting end of file, Telegram gets the whole plaintext if and only if it ends on a packet boundary, was no longer split or never was; otherwise the packets that are complete |
| EndToEnd.PayloadsArePackets | proxy/bridge.py:314-321 | in every reachable state each WebSocket payload before pass-through is the ciphertext of one whole MTProto packet at its stream offset, and without pass-through there is at most one other, the rest a flush sends |
| EndToEnd.PacketsOfPrefix | proxy/bridge.py:65-92 | what is one packet per message for the part read so far is so for the whole plaintext |
| EndToEnd.DownstreamEndToEnd | proxy/bridge.py:332-345 | in every reachable state the client's decryption of what it got equals Telegram's messages decrypted with the keys derived from the relay init |
| EndToEnd.TelegramReadsMessages | proxy/raw_websocket.py:180-188 | the messages a strict reader gets from the bytes on the wire are the bridge's data frames |
| EndToEnd.AnswerArrives | proxy/fake_tls.py:213-214 | from the TLS records written to it the client deframes and decrypts a prefix of what Telegram said, all of it once all messages were relayed |
| Server.HandleClient | proxy/tg_ws_proxy.py:254-287 | for arbitrary bytes from both sides and any turns of the two tasks: refused unless the first 64 client bytes are an acceptable init packet; otherwise Telegram always has a prefix of the client's plaintext in messages of one packet each and the client a prefix of Telegram's, all of it when that side ended the session (for an unclean client stream, the complete packets and nothing else), and the WebSocket ends closed; with more turns than bytes the session ends by itself |
| Server.Relay | proxy/tg_ws_proxy.py:385-401 | the accepted connection delivers as above through fresh ciphers, splitter, WebSocket and bridge |
| Server.OpenBridge | proxy/tg_ws_proxy.py:287-288 | ciphers, splitter and WebSocket built for one client form a bridge in its starting state, with only the relay init sent |
| Delivery.PacketsDelivered | proxy/tg_ws_proxy.py:275-280 | for tag bytes ef and any list of abridged packets, or ee or dd and any list of intermediate ones: once the client's stream has ended, cleanly or not, Telegram has one message per packet, each decrypting under the key bytes of the relay init to exactly the bytes of that packet |
| Delivery.ServePackets | proxy/tg_ws_proxy.py:254-401 | the same through every layer, for packets written over Fake TLS in any pieces by a client that closes silently |
| Server.UpTurn | proxy/bridge.py:299-326 | one read of the client's stream becomes one upstream event: a non-empty chunk of at most 64 KiB, a flush exactly when the stream ends cleanly, or an unflushed end |
| Server.TelegramTurn | proxy/bridge.py:335-345 | one frame advances the session: its message, if any, goes to the client in TLS records, and the task ends only with every message Telegram's wire carries relayed |
| Server.RunSession | proxy/bridge.py:355-377 | the two loops, one client read or one WebSocket frame at a time in any order until one of them ends, follow the bridge machine and end in one of three ways, each with exactly what both sides then have |
| Server.SilentCloseIsNotClean | proxy/fake_tls.py:192-194 | a wire of application-data and change-cipher-spec records only always ends in the exception, not in end of file |
| Server.AlertCloseIsClean | proxy/fake_tls.py:202-203 | the same wire followed by a record of any other type delivers the same bytes and ends in end of file |
| Server.ServeSilentClose | proxy/fake_tls.py:193 | served whole, the plaintext of a client that closes silently arrives if and only if it ends on a packet boundary or in pass-through mode |
| Server.UnfinishedPacketLost | proxy/fake_tls.py:193 | the abridged plaintext 0x01, wrapped in one record after the init, leaves Telegram with nothing |
| Intake.ReadHello | proxy/tg_ws_proxy.py:124-159 | the three reads take exactly one TLS record off the wire, or one byte that starts none, and classify it; a hang-up in between is told apart |
| Intake.ArrivalsToldApart | proxy/tg_ws_proxy.py:131-147 | a first byte other than 0x16 is taken alone; a hang-up is told exactly when the length in bytes 3 and 4 has not arrived in full |
| Intake.StampedArrives | proxy/tg_ws_proxy.py:131-161 | a stamped hello of one record followed by anything is read to its last byte and no further, and is admitted if and only if its timestamp is within 120 s |
| Intake.MaskedIsWhatWasRead | proxy/tg_ws_proxy.py:153-159 | a hello that does not verify is handed on as exactly the bytes taken off the wire |
| Intake.ServeTcp | proxy/tg_ws_proxy.py:124-177 | from the first TCP byte: an admitted client gets a server hello of three records authenticated against its random, then the session of the tunnel; any other gets nothing from here and Telegram is not contacted |
| Intake.ServeStamped | proxy/tg_ws_proxy.py:124-177 | a client that stamps its hello and writes into the tunnel, change-cipher-spec records anywhere, is served as if its written bytes were the whole stream, exactly while its timestamp is recent |
| Hello.StampedHelloVerifies | proxy/fake_tls.py:82-114 | a hello stamped by the client recipe verifies if and only if its timestamp is within 120 s, and yields that timestamp and its session id |
| Hello.VerifiedHelloIsStamped | proxy/fake_tls.py:82-114 | the hellos that verify are exactly the well-shaped ones stamped under this secret with a recent 32-bit timestamp |
| Hello.VerifiedBytes | proxy/fake_tls.py:82-114 | the check on bytes: types at 0 and 5, 28 bytes of MAC from 11 over the hello with bytes 11-42 zero, the timestamp in 39-42 lowest first within 120 s, the session id at 44-75 if byte 43 is 32 |
| Hello.StampBytes | proxy/fake_tls.py:93-104 | the bytes a client's stamp writes |
| Hello.BuildServerHello | proxy/fake_tls.py:117-135 | the reply's random is the HMAC of the client random and the reply with that field zeroed; every other byte is that of the three-record layout |
| Hello.ResponseReads | proxy/fake_tls.py:67-79 | the reply parses as exactly three TLS records, with one ServerHello whose nested lengths all match, echoing session id and key share |
| Pool.PopOutcome | src/proxy/pool.rs:45-57 | the taker gets the first connection that is open and at most 120 s old; exactly the ones before it are discarded; nothing exactly when there is none |
| Pool.PopIsOldest | src/proxy/pool.rs:45-57 | in a chronological bucket that is the oldest such connection |
| Pool.WsPool.Take | src/proxy/pool.rs:42-59 | the pop loop on the shared map does exactly that for one key and leaves other keys alone |
| Pool.WsPool.ScheduleRefill | src/proxy/pool.rs:68-78 | a task is spawned exactly when none is recorded for the key, which is then recorded |
| PoolProtocol.RunSteps | src/proxy/pool.rs:32-128 | one pool object shared by takers, refill tasks and the two halves of resets in any order follows the protocol: its buckets and refilling set, and all connects and connections, are those of the machine |
| PoolProtocol.RunInvariant | src/proxy/pool.rs:32-128 | in every interleaving of atomic steps, buckets are chronological and every connection is in exactly the one place recorded; with a constant pool size and a refilling set that is only cleared when empty, each key has at most one refill in flight and its idle plus outstanding connects stay within the pool size |
| PoolProtocol.StepFinal | src/proxy/pool.rs:42-66 | a made connection is never forgotten and, once handed out or discarded, never returns to the pool |
| PoolProtocol.GetTakesOldest | src/proxy/pool.rs:42-66 | in every reachable state get hands out the oldest connection of its key that is not closed and at most 120 s old, closes only ones closed or older, keeps the rest, and returns none exactly when all are closed or older |
| PoolProtocol.EntriesAreStamped | src/proxy/pool.rs:103 | a connection enters a bucket only when its task collects it, with the time of that moment |
| PoolProtocol.StepsHappen | src/proxy/pool.rs:42-128 | no step is held up: a key with no recorded refill gets a task, a recorded one none, and clearing the buckets closes what was idle and only that |
| PoolRefill.RefillFills | src/proxy/pool.rs:85-108 | an undisturbed refill whose connects succeed opens exactly what is missing, puts the connections at the end stamped with the time, fills the bucket to the pool size and lets the key be refilled again |
| PoolReset.ForgettingIsHarmlessWhenIdle | src/proxy/pool.rs:127 | in any sound state, all runs after clearing the refilling set keep one task per key if and only if the set is empty, and keep the size bound per key if and only if that or the pool size is zero |
| PoolReset.ResetIsHarmlessWhenIdle | src/proxy/pool.rs:125-128 | over all runs of a reset during which no refill is scheduled, both bounds last if and only if no refill is recorded at the call (or, for the size, the pool size is zero) |
| PoolReset.RacingReset | src/proxy/pool.rs:125-128 | from any sound state, a refill scheduled between the two locks leads on to a second task of a key and, for a positive pool size, beyond it |
| PoolReset.ResetBreaksTheBound | src/proxy/pool.rs:125-128 | a concrete run, with a refill in flight at the reset, that ends with two tasks on one key and more connects than the pool size |
| PoolReset.RacingResetBreaksTheBound | src/proxy/pool.rs:125-128 | the same with nothing recorded at the call and one get between the two locks |
| Route.DcKeyInjective | proxy/tg_ws_proxy.py:290 | different data centres and media flags never share a routing key |
| Route.VerdictMeans | proxy/tg_ws_proxy.py:325-370 | an attempt succeeded if a pooled or new connection opened, blacklists if at least one domain was tried and all redirected, and otherwise failed |
| Route.Router.TryDirect | proxy/tg_ws_proxy.py:325-385 | blacklist and cooldown change exactly by the meaning of the attempt (connected, all redirects, failed) |
| Route.RunHandlers | proxy/tg_ws_proxy.py:293-385 | any client handlers interleaved around the shared blacklist and cooldown map follow the routing machine |
| Route.DirectAttempts | proxy/tg_ws_proxy.py:293-317 | over every history a new handler begins a direct attempt if and only if the data centre is configured and no finished attempt on the key was all redirects; it has 2 s within 30 s of the start of a failed last other attempt and 10 s otherwise |
| Route.EndIsRecorded | proxy/tg_ws_proxy.py:358-385 | an attempt's end enters the history as it came, under the key and time it began with |
| Route.CancelIsSilent | proxy/tg_ws_proxy.py:407-408 | a cancelled handler changes neither list nor history |
| Route.RunExplained | proxy/tg_ws_proxy.py:293-385 | over every history of interleaved handlers: blacklisted keys are exactly those with an all-redirect attempt, cooling keys exactly those whose last other finished attempt failed, until 30 s after that attempt began |
| Route.BlacklistStep | proxy/tg_ws_proxy.py:359-363 | the blacklist only grows, and a key enters only when every domain of one attempt redirected |
| Route.NoDirectAfterBlacklist | proxy/tg_ws_proxy.py:293-313 | once a key is blacklisted no handler arriving later begins a direct attempt on it |
| Route.ShortTimeout | proxy/tg_ws_proxy.py:315-317 | the 2 s timeout is used exactly when the key's last decisive attempt failed less than 30 s before |
| Fallback.DoFallback | proxy/bridge.py:142-181 | at most one route bridges, the first enabled one that connects, from the post-handshake cipher state; failing leaves all ciphers and the splitter untouched |
| Fallback.ChosenOrder | proxy/bridge.py:149-156 | a worker goes before the proxy and the proxy before TCP, workers and TCP only with an address, the proxy only when enabled |
| Fallback.StreamsOfEvents | proxy/bridge.py:389-405 | what each side sent is one stream in order, whatever the other sent in between |
| Fallback.TryWebSockets | proxy/bridge.py:184-260 | bridges over the first connection that opens, none before it; when none does, all were tried and nothing was touched |
| Fallback.BridgeOver | proxy/bridge.py:219-224 | a connected WebSocket carries the relay init first and then the bridge run |
| Fallback.TcpBridge.RunEvents | proxy/bridge.py:385-412 | the plain TCP bridge relays both streams re-encrypted under any interleaving |
| Fallback.TcpBridge.TcpEndToEnd | proxy/bridge.py:272-275 | the server decrypts what follows the relay init to the client's plaintext, and the client decrypts to the server's |
| Balancer.DomainBalancer.UpdateDomainsList | proxy/balancer.py:12-21 | a reordered pool changes nothing; a new one draws a choice from it for each data centre; an emptied one raises and keeps the old choices |
| Balancer.DomainBalancer.UpdateDomainForDc | proxy/balancer.py:23-28 | changes the choice of one data centre only, tells whether it differed and keeps choices within the pool |
| Balancer.DomainBalancer.GetDomainsForDc | proxy/balancer.py:30-40 | yields the sticky domain and then the shuffled pool without it |
| Balancer.EnumerationComplete | proxy/balancer.py:30-40 | for any shuffle the sticky domain comes first and once, every other as often as the pool has it |
| Balancer.EnumerationIsPermutation | proxy/balancer.py:30-40 | a duplicate-free pool with its sticky domain is enumerated as a permutation |
| Balancer.ReorderKeepsChoices | proxy/balancer.py:12-33 | reordering the pool between requests keeps every sticky choice and which domain is tried first |
| Balancer.SettleOnEnumerated | proxy/bridge.py:239-253 | trying the candidates settles on a reachable pool domain if there is one, on the sticky one if that is reachable, and changes no other data centre |
| Domains.CoerceDomainList | proxy/config.py:76-97 | the loops compute first occurrences up to case of the words of the text or list; anything else gives nothing |
| Domains.CoerceLaws | proxy/config.py:76-97 | no two results equal up to case, first-occurrence order kept, and the result survives being joined with ", " or passed as a list and coerced again |
| Domains.JoinedWordsSplit | proxy/config.py:77-78 | splitting undoes joining words with ", " |
| Domains.Separators | proxy/config.py:77-78 | entries are separated by commas, semicolons and white space and by nothing else |
| Domains.EntryByEntry | proxy/config.py:80-83 | a list contributes its text entries one after the other and skips what is not text |
| Domains.StripTrims | proxy/config.py:89 | white space at both ends goes and nothing else |
| Domains.IsValidDomain | proxy/config.py:116-135 | accepts exactly the names of the grammar: at least two dot-separated labels of 1-63 letters, digits and inner hyphens, a top level of two characters or more with a letter, 253 characters in all |
| Domains.NameByName | proxy/config.py:116-135 | label by label, on characters and literal limits: every label of 1-63 letters, digits and inner hyphens, the last of two or more with a letter, at least one dot, 253 in all |
| Domains.NormalizeDomainPool | proxy/config.py:138-149 | the loop keeps the first occurrence of each valid normalised name |
| Domains.PoolLaws | proxy/config.py:138-149 | the pool holds exactly the valid names of the download, each once, in order of first occurrence |
| Domains.PoolFixed | proxy/config.py:138-149 | normalising again changes nothing if and only if stripping and lower-casing leave every name of the pool unchanged |
| Domains.NormalForm | proxy/config.py:142 | a name's normal form is its lower-casing without the white space around it |

## Left out

- Sockets, TLS connections, the HTTP upgrade, DNS, timeouts and event-loop scheduling: they appear only as outcomes and as the order of atomic steps.
- AES, SHA-256 and HMAC internals and the libcrypto binding (`proxy/_aes.py`): arbitrary functions here.
- Server.HandleClient: the WebSocket to Telegram always opens; which route is taken is in Route.dfy and Fallback.dfy.
- Server.Relay: takes the route of an opened direct WebSocket.
- Server.RunSession: stops at the first ending, whereas the other task may take a few more turns before it is cancelled (EndToEnd.UpstreamEndToEnd, EndToEnd.UpstreamPrefix and EndToEnd.DownstreamEndToEnd cover those); a session cancelled from outside is one whose turns are over; an exception of the client writer is not modelled.
- Intake.ServeTcp: the branch with a masking domain; without one the client's bytes reach the bridge with no TLS layer, and a non-TLS byte is answered with a redirect, both left out.
- Fallback.TcpBridge.RunEvents: an end of stream or a cancellation is where the list of events stops; closing the writers is left out.
- FakeTls.FakeTlsStream.Read: requires a positive size, as all call sites pass one.
- Endpoint.RawWebSocket.Close: leaves out closing the underlying transport.
- Endpoint.RawWebSocket.Send: writes to the transport always succeed; a transport that fails in the middle of a write is not modelled.
- Handshake.GenerateRelayInit: the random source is a given list with an acceptable block in it, since the loop ends only with probability 1.
- Balancer.DomainBalancer.GetDomainsForDc: enumerates at once, whereas the generator copies the pool only after its first result is consumed; a pool refresh in between is not modelled.
- Balancer.SettleOnEnumerated: no pool refresh happens while candidates are tried.
- PoolProtocol.RunInvariant: the pool size is constant.
- Domains: white space, letters, digits and lower-casing are parameters, since Python's Unicode tables are not part of this model.
- The shuffle of worker domains shared between clients, with which one attempt may try a worker twice or not at all: Fallback takes the list of outcomes in the order tried.
- The Python pool (`proxy/pool.py`), which stores under a pair but is asked with a bare number, and `CfWorkerPool`, which repeats `WsPool` for another key type.
- The compiled Rust splitter, handshake, bridge and Fake TLS, which differ from the Python ones.
- The masking relay to the decoy domain, the PROXY protocol line and the draining of bad handshakes: plumbing.
- Downloading and decoding the domain list, configuration files, statistics, logging, update checks, tray applications and dialogs.
