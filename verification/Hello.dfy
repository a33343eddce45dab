/** The Fake TLS hellos: a ClientHello stamped with an HMAC and a timestamp, and the
    server's reply of three TLS records. */
module Hello {
  import opened Octets
  import opened Ctr
  import opened FakeTls

  const TLS_HANDSHAKE: byte := 0x16
  const CLIENT_HELLO: byte := 0x01
  const SERVER_HELLO: byte := 0x02
  const RANDOM_OFFSET: nat := 11
  const RANDOM_LEN: nat := 32
  const SESSION_ID_LEN_OFFSET: nat := 43
  const SESSION_ID_OFFSET: nat := 44
  const SESSION_ID_LEN: nat := 32
  const TIMESTAMP_TOLERANCE := 120

  function Zeros(n: nat): (r: Bytes)
    ensures |r| == n
  {
    seq(n, _ => 0)
  }

  /** Overwriting a slice of a buffer. */
  function Splice(s: Bytes, off: nat, v: Bytes): (r: Bytes)
    requires off + |v| <= |s|
    ensures |r| == |s|
  {
    s[..off] + v + s[off + |v|..]
  }

  function ZeroRandom(hello: Bytes): (r: Bytes)
    requires |hello| >= RANDOM_OFFSET + RANDOM_LEN
    ensures |r| == |hello|
  {
    Splice(hello, RANDOM_OFFSET, Zeros(RANDOM_LEN))
  }

  // ---------------------------------------------------------------- the client's hello

  datatype Verified = Verified(clientRandom: Bytes, sessionId: Bytes, timestamp: nat)

  function SessionId(data: Bytes): (r: Bytes)
    requires |data| >= RANDOM_OFFSET + RANDOM_LEN
    ensures |r| == SESSION_ID_LEN
  {
    if |data| >= SESSION_ID_OFFSET + SESSION_ID_LEN && data[SESSION_ID_LEN_OFFSET] == SESSION_ID_LEN
    then data[SESSION_ID_OFFSET..SESSION_ID_OFFSET + SESSION_ID_LEN]
    else Zeros(SESSION_ID_LEN)
  }

  function VerifyClientHello(S: Suite, data: Bytes, secret: Bytes, now: int): Option<Verified> {
    if |data| < RANDOM_OFFSET + RANDOM_LEN then None
    else if data[0] != TLS_HANDSHAKE then None
    else if data[5] != CLIENT_HELLO then None
    else
      var clientRandom := data[RANDOM_OFFSET..RANDOM_OFFSET + RANDOM_LEN];
      var expected := S.hmac(secret, ZeroRandom(data));
      if expected[..28] != clientRandom[..28] then None
      else
        var timestamp := FromLe(XorBytes(clientRandom[28..], expected[28..]));
        if now - timestamp > TIMESTAMP_TOLERANCE || timestamp - now > TIMESTAMP_TOLERANCE then None
        else Some(Verified(clientRandom, SessionId(data), timestamp))
  }

  predicate Shaped(hello: Bytes) {
    |hello| >= RANDOM_OFFSET + RANDOM_LEN && hello[0] == TLS_HANDSHAKE && hello[5] == CLIENT_HELLO
  }

  predicate Recent(timestamp: nat, now: int) {
    -TIMESTAMP_TOLERANCE <= now - timestamp <= TIMESTAMP_TOLERANCE
  }

  /** The client's recipe: the random field is the HMAC of the hello with that field
      zeroed, its last four bytes masked with the timestamp. */
  function Stamp(S: Suite, hello: Bytes, secret: Bytes, timestamp: nat): (r: Bytes)
    requires |hello| >= RANDOM_OFFSET + RANDOM_LEN
    ensures |r| == |hello|
  {
    var mac := S.hmac(secret, ZeroRandom(hello));
    Splice(hello, RANDOM_OFFSET, mac[..28] + XorBytes(mac[28..], Le(timestamp, 4)))
  }

  /** The whole check on the bytes of a hello: record and message type, the first 28 bytes
      of the MAC over the hello with its random zeroed, the timestamp in the last four,
      lowest byte first, and the session id if there is one of 32 bytes. */
  lemma VerifiedBytes(S: Suite, data: Bytes, secret: Bytes, now: int)
    ensures |data| < 43 || data[0] != 0x16 || data[5] != 1 ==> VerifyClientHello(S, data, secret, now) == None
    ensures |data| >= 43 && data[0] == 0x16 && data[5] == 1 ==>
              var mac := S.hmac(secret, data[..11] + seq(32, _ => 0) + data[43..]);
              var timestamp: nat := XorByte(data[39], mac[28]) + 256 * XorByte(data[40], mac[29])
                                    + 0x1_0000 * XorByte(data[41], mac[30]) + 0x100_0000 * XorByte(data[42], mac[31]);
              var id := if |data| >= 76 && data[43] == 32 then data[44..76] else seq(32, _ => 0);
              VerifyClientHello(S, data, secret, now)
              == if data[11..39] == mac[..28] && -120 <= now - timestamp <= 120
                 then Some(Verified(data[11..43], id, timestamp)) else None
  {
    if |data| >= 43 {
      var random := data[11..43];
      assert ZeroRandom(data) == data[..11] + seq(32, _ => 0) + data[43..];
      assert random[..28] == data[11..39];
      var mac := S.hmac(secret, ZeroRandom(data));
      var stamp := XorBytes(random[28..], mac[28..]);
      LittleEndian(stamp);
      hide FromLe;
      assert forall i :: 0 <= i < 4 ==> stamp[i] == XorByte(data[39 + i], mac[28 + i]);
    }
  }

  /** The bytes a stamp writes. */
  lemma StampBytes(S: Suite, hello: Bytes, secret: Bytes, timestamp: nat)
    requires |hello| >= 43 && timestamp < 0x1_0000_0000
    ensures var mac := S.hmac(secret, hello[..11] + seq(32, _ => 0) + hello[43..]);
            var time := [timestamp % 256, timestamp / 256 % 256, timestamp / 0x1_0000 % 256, timestamp / 0x100_0000];
            Stamp(S, hello, secret, timestamp) == hello[..11] + mac[..28] + XorBytes(mac[28..], time) + hello[43..]
  {
    hide Le;
    LittleEndianBytes(timestamp);
    assert timestamp / 0x100_0000 % 256 == timestamp / 0x100_0000;
    assert ZeroRandom(hello) == hello[..11] + seq(32, _ => 0) + hello[43..];
  }

  lemma XorBytesSwapped(a: Bytes, b: Bytes)
    requires |a| == |b|
    ensures XorBytes(XorBytes(a, b), a) == b
  {
    hide Xor;
    var r := XorBytes(XorBytes(a, b), a);
    forall i | 0 <= i < |a|
      ensures r[i] == b[i]
    {
      XorSymmetric(a[i], b[i]);
      XorCancels(b[i], a[i]);
    }
  }

  lemma SpliceTwice(s: Bytes, off: nat, v: Bytes, w: Bytes)
    requires |v| == |w| && off + |v| <= |s|
    ensures Splice(Splice(s, off, v), off, w) == Splice(s, off, w)
    ensures Splice(s, off, v)[off..off + |v|] == v
    ensures forall i :: 0 <= i < |s| && !(off <= i < off + |v|) ==> Splice(s, off, v)[i] == s[i]
  {
  }

  /** A stamped hello verifies, exactly while its timestamp is recent, and yields that
      timestamp and its session id. */
  lemma StampedHelloVerifies(S: Suite, hello: Bytes, secret: Bytes, timestamp: nat, now: int)
    requires Shaped(hello) && timestamp < 0x1_0000_0000
    ensures var data := Stamp(S, hello, secret, timestamp);
            VerifyClientHello(S, data, secret, now)
            == if Recent(timestamp, now)
               then Some(Verified(data[RANDOM_OFFSET..RANDOM_OFFSET + RANDOM_LEN], SessionId(hello), timestamp))
               else None
  {
    hide Splice, XorBytes, Le, FromLe;
    var mac := S.hmac(secret, ZeroRandom(hello));
    var random := mac[..28] + XorBytes(mac[28..], Le(timestamp, 4));
    var data := Stamp(S, hello, secret, timestamp);
    SpliceTwice(hello, RANDOM_OFFSET, random, Zeros(RANDOM_LEN));
    assert ZeroRandom(data) == ZeroRandom(hello);
    assert random[..28] == mac[..28] && random[28..] == XorBytes(mac[28..], Le(timestamp, 4));
    XorBytesSwapped(mac[28..], Le(timestamp, 4));
    Pow256Values();
    LeRoundTrip(timestamp, 4);
    assert SessionId(data) == SessionId(hello);
  }

  /** Nothing else verifies. */
  lemma VerifiedHelloIsStamped(S: Suite, data: Bytes, secret: Bytes, now: int)
    ensures VerifyClientHello(S, data, secret, now).Some? <==>
            Shaped(data)
            && exists ts: nat :: ts < 0x1_0000_0000 && Recent(ts, now) && data == Stamp(S, data, secret, ts)
  {
    if VerifyClientHello(S, data, secret, now).Some? {
      StampRecovered(S, data, secret, now);
    }
    if Shaped(data) {
      forall ts: nat | ts < 0x1_0000_0000 && Recent(ts, now) && data == Stamp(S, data, secret, ts)
        ensures VerifyClientHello(S, data, secret, now).Some?
      {
        StampedHelloVerifies(S, data, secret, ts, now);
      }
    }
  }

  lemma StampRecovered(S: Suite, data: Bytes, secret: Bytes, now: int)
    requires VerifyClientHello(S, data, secret, now).Some?
    ensures var ts := VerifyClientHello(S, data, secret, now).value.timestamp;
            Shaped(data) && ts < 0x1_0000_0000 && Recent(ts, now) && data == Stamp(S, data, secret, ts)
  {
    hide XorBytes, Le, FromLe;
    var mac := S.hmac(secret, ZeroRandom(data));
    var random := data[RANDOM_OFFSET..RANDOM_OFFSET + RANDOM_LEN];
    var masked := XorBytes(random[28..], mac[28..]);
    Pow256Values();
    FromLeRoundTrip(masked);
    MaskRecovered(random[28..], mac[28..]);
    assert random == random[..28] + random[28..];
    assert Splice(data, RANDOM_OFFSET, random) == data;
  }

  lemma MaskRecovered(r: Bytes, e: Bytes)
    requires |r| == |e|
    ensures XorBytes(e, XorBytes(r, e)) == r
  {
    hide Xor;
    var masked := XorBytes(e, XorBytes(r, e));
    forall i | 0 <= i < |r|
      ensures masked[i] == r[i]
    {
      XorSymmetric(r[i], e[i]);
      XorSymmetric(e[i], Xor(e[i], r[i]));
      XorSymmetric(Xor(e[i], r[i]), e[i]);
      XorCancels(r[i], e[i]);
    }
  }

  // ---------------------------------------------------------------- the server's hello

  const PUBKEY_OFFSET: nat := 89
  const PUBKEY_LEN: nat := 32
  const CCS_FRAME: Bytes := [0x14, 3, 3, 0, 1, 1]

  const TEMPLATE: Bytes :=
    [0x16, 3, 3, 0, 0x7a] + [2, 0, 0, 0x76] + [3, 3] + Zeros(32) + [32] + Zeros(32) + [0x13, 1, 0]
    + [0, 0x2e] + [0, 0x33, 0, 0x24, 0, 0x1d, 0, 0x20] + Zeros(32) + [0, 0x2b, 0, 2, 3, 4]

  /** `pubKey` and `encrypted` are the random bytes drawn for the key share and for the
      fake encrypted record. */
  method BuildServerHello(S: Suite, secret: Bytes, clientRandom: Bytes, sessionId: Bytes,
                          pubKey: Bytes, encrypted: Bytes)
    returns (result: Bytes)
    requires |sessionId| == SESSION_ID_LEN && |pubKey| == PUBKEY_LEN && 1900 <= |encrypted| <= 2100
    ensures |result| >= RANDOM_OFFSET + RANDOM_LEN
    ensures result[RANDOM_OFFSET..RANDOM_OFFSET + RANDOM_LEN] == S.hmac(secret, clientRandom + ZeroRandom(result))
    ensures ZeroRandom(result) == Response(Zeros(RANDOM_LEN), sessionId, pubKey, encrypted)
    ensures result == Response(result[RANDOM_OFFSET..RANDOM_OFFSET + RANDOM_LEN], sessionId, pubKey, encrypted)
  {
    var sh := Splice(TEMPLATE, SESSION_ID_OFFSET, sessionId);
    sh := Splice(sh, PUBKEY_OFFSET, pubKey);
    var appRecord := [0x17, 3, 3] + Be(|encrypted|, 2) + encrypted;
    var response := sh + CCS_FRAME + appRecord;
    FilledTemplate(sessionId, pubKey);
    assert response == Response(Zeros(RANDOM_LEN), sessionId, pubKey, encrypted);
    var serverRandom := S.hmac(secret, clientRandom + response);
    result := Splice(response, RANDOM_OFFSET, serverRandom);
    ReplaceRandom(Zeros(RANDOM_LEN), serverRandom, sessionId, pubKey, encrypted);
    ReplaceRandom(serverRandom, Zeros(RANDOM_LEN), sessionId, pubKey, encrypted);
  }

  function Extensions(pubKey: Bytes): Bytes {
    [0, 0x33, 0, 0x24, 0, 0x1d, 0, 0x20] + pubKey + [0, 0x2b, 0, 2, 3, 4]
  }

  function HelloBody(random: Bytes, sessionId: Bytes, pubKey: Bytes): Bytes {
    [3, 3] + random + [32] + sessionId + [0x13, 1, 0] + [0, 0x2e] + Extensions(pubKey)
  }

  /** The reply as its parts: a handshake record, a change-cipher-spec record and an
      application-data record. */
  function Response(random: Bytes, sessionId: Bytes, pubKey: Bytes, encrypted: Bytes): Bytes {
    [0x16, 3, 3, 0, 0x7a] + ([2, 0, 0, 0x76] + HelloBody(random, sessionId, pubKey))
    + CCS_FRAME + Record(RECORD_APPDATA, encrypted)
  }

  /** The template around its two gaps, the session id and the key. */
  const BEFORE_ID: Bytes := [0x16, 3, 3, 0, 0x7a, 2, 0, 0, 0x76, 3, 3] + Zeros(32) + [32]
  const BEFORE_KEY: Bytes := [0x13, 1, 0] + [0, 0x2e] + [0, 0x33, 0, 0x24, 0, 0x1d, 0, 0x20]
  const AFTER_KEY: Bytes := [0, 0x2b, 0, 2, 3, 4]

  lemma TemplateParts()
    ensures TEMPLATE == BEFORE_ID + Zeros(32) + (BEFORE_KEY + Zeros(32) + AFTER_KEY)
    ensures |BEFORE_ID| == SESSION_ID_OFFSET && |BEFORE_ID| + 32 + |BEFORE_KEY| == PUBKEY_OFFSET
    ensures |TEMPLATE| == 127
  {
  }

  lemma FilledParts(sessionId: Bytes, pubKey: Bytes)
    requires |sessionId| == SESSION_ID_LEN && |pubKey| == PUBKEY_LEN
    ensures BEFORE_ID + sessionId + (BEFORE_KEY + pubKey + AFTER_KEY)
            == [0x16, 3, 3, 0, 0x7a] + ([2, 0, 0, 0x76] + HelloBody(Zeros(RANDOM_LEN), sessionId, pubKey))
  {
  }

  lemma FilledTemplate(sessionId: Bytes, pubKey: Bytes)
    requires |sessionId| == SESSION_ID_LEN && |pubKey| == PUBKEY_LEN
    ensures |TEMPLATE| == 127
    ensures Splice(Splice(TEMPLATE, SESSION_ID_OFFSET, sessionId), PUBKEY_OFFSET, pubKey)
            == [0x16, 3, 3, 0, 0x7a] + ([2, 0, 0, 0x76] + HelloBody(Zeros(RANDOM_LEN), sessionId, pubKey))
  {
    TemplateParts();
    FilledParts(sessionId, pubKey);
    hide Splice, TEMPLATE, BEFORE_ID, BEFORE_KEY, AFTER_KEY, HelloBody;
    SpliceTwoGaps(BEFORE_ID, sessionId, BEFORE_KEY, pubKey, AFTER_KEY, Zeros(32));
  }

  lemma SpliceTwoGaps(a: Bytes, id: Bytes, m: Bytes, key: Bytes, e: Bytes, gap: Bytes)
    requires |id| == |key| == |gap|
    ensures Splice(Splice(a + gap + (m + gap + e), |a|, id), |a| + |id| + |m|, key) == a + id + (m + key + e)
  {
    hide Splice;
    var front := a + id + m;
    SpliceMiddle(a, gap, id, m + gap + e);
    SpliceMiddle(front, gap, key, e);
    assert a + id + (m + gap + e) == front + gap + e;
    assert front + key + e == a + id + (m + key + e);
  }

  const HEAD: Bytes := [0x16, 3, 3, 0, 0x7a, 2, 0, 0, 0x76, 3, 3]

  /** What follows the random field. */
  function AfterRandom(sessionId: Bytes, pubKey: Bytes, encrypted: Bytes): Bytes {
    [32] + sessionId + [0x13, 1, 0] + [0, 0x2e] + Extensions(pubKey) + CCS_FRAME + Record(RECORD_APPDATA, encrypted)
  }

  lemma AroundRandom(random: Bytes, sessionId: Bytes, pubKey: Bytes, encrypted: Bytes)
    ensures Response(random, sessionId, pubKey, encrypted) == HEAD + random + AfterRandom(sessionId, pubKey, encrypted)
  {
    hide Record, Extensions;
  }

  lemma SpliceMiddle(a: Bytes, r1: Bytes, r2: Bytes, b: Bytes)
    requires |r1| == |r2|
    ensures Splice(a + r1 + b, |a|, r2) == a + r2 + b
    ensures (a + r1 + b)[|a|..|a| + |r1|] == r1
  {
  }

  lemma ReplaceRandom(r1: Bytes, r2: Bytes, sessionId: Bytes, pubKey: Bytes, encrypted: Bytes)
    requires |r1| == |r2| == RANDOM_LEN
    ensures |Response(r1, sessionId, pubKey, encrypted)| >= RANDOM_OFFSET + RANDOM_LEN
    ensures Splice(Response(r1, sessionId, pubKey, encrypted), RANDOM_OFFSET, r2)
            == Response(r2, sessionId, pubKey, encrypted)
    ensures Response(r1, sessionId, pubKey, encrypted)[RANDOM_OFFSET..RANDOM_OFFSET + RANDOM_LEN] == r1
  {
    hide Response, AfterRandom, Splice;
    AroundRandom(r1, sessionId, pubKey, encrypted);
    AroundRandom(r2, sessionId, pubKey, encrypted);
    SpliceMiddle(HEAD, r1, r2, AfterRandom(sessionId, pubKey, encrypted));
  }

  // ---------------------------------------------------------------- a strict reader of the reply

  datatype TlsRecord = TlsRecord(kind: byte, body: Bytes)

  /** All records of a byte string that consists of whole records. */
  function TlsRecords(wire: Bytes): Option<seq<TlsRecord>>
    decreases |wire|
  {
    if wire == [] then Some([])
    else if |wire| < 5 || wire[1..3] != [3, 3] || |wire| - 5 < FromBe(wire[3..5]) then None
    else
      var n := 5 + FromBe(wire[3..5]);
      match TlsRecords(wire[n..])
      case None => None
      case Some(rs) => Some([TlsRecord(wire[0], wire[5..n])] + rs)
  }

  datatype Extension = Extension(kind: nat, body: Bytes)

  /** All extensions of a byte string that consists of whole extensions. */
  function ReadExtensions(b: Bytes): Option<seq<Extension>>
    decreases |b|
  {
    if b == [] then Some([])
    else if |b| < 4 || |b| - 4 < FromBe(b[2..4]) then None
    else
      var n := 4 + FromBe(b[2..4]);
      match ReadExtensions(b[n..])
      case None => None
      case Some(es) => Some([Extension(FromBe(b[..2]), b[4..n])] + es)
  }

  datatype ServerHello = ServerHello(random: Bytes, sessionId: Bytes, cipherSuite: nat, extensions: seq<Extension>)

  /** A handshake record body holding exactly one ServerHello, every nested length exact. */
  function ReadServerHello(b: Bytes): Option<ServerHello> {
    if |b| < 39 || b[0] != SERVER_HELLO || FromBe(b[1..4]) != |b| - 4 || b[4..6] != [3, 3] then None
    else
      var n: nat := b[38] as int;
      if |b| < 44 + n || b[41 + n] != 0 || FromBe(b[42 + n..44 + n]) != |b| - 44 - n then None
      else
        match ReadExtensions(b[44 + n..])
        case None => None
        case Some(es) => Some(ServerHello(b[6..38], b[39..39 + n], FromBe(b[39 + n..41 + n]), es))
  }

  lemma RecordThenRest(kind: byte, body: Bytes, rest: Bytes)
    requires |body| < 65536
    ensures TlsRecords(Record(kind, body) + rest)
            == match TlsRecords(rest)
               case None => None
               case Some(rs) => Some([TlsRecord(kind, body)] + rs)
  {
    hide FromBe, Be;
    var w := Record(kind, body) + rest;
    RecordHeader(kind, body, rest);
    assert w[1..3] == [3, 3] && w[5..5 + |body|] == body && w[5 + |body|..] == rest;
  }

  /** Application-data records, none empty, none above 2^14 bytes, full but for the last. */
  predicate DataRecords(rs: seq<TlsRecord>) {
    && (forall i :: 0 <= i < |rs| ==> rs[i].kind == 0x17 && 0 < |rs[i].body| <= 16384)
    && (forall i :: 0 <= i < |rs| - 1 ==> |rs[i].body| == 16384)
  }

  function Bodies(rs: seq<TlsRecord>): seq<Bytes> {
    seq(|rs|, i requires 0 <= i < |rs| => rs[i].body)
  }

  lemma OneMoreRecord(body: Bytes, more: seq<TlsRecord>)
    requires DataRecords(more) && 0 < |body| <= 16384 && (more != [] ==> |body| == 16384)
    ensures DataRecords([TlsRecord(0x17, body)] + more)
    ensures Flatten(Bodies([TlsRecord(0x17, body)] + more)) == body + Flatten(Bodies(more))
  {
    var rs := [TlsRecord(0x17, body)] + more;
    assert Bodies(rs)[1..] == Bodies(more) && Bodies(rs)[0] == body;
  }

  lemma WrapFirst(data: Bytes)
    requires data != []
    ensures var n := if |data| < 16384 then |data| else 16384;
            Wrap(data) == Record(0x17, data[..n]) + Wrap(data[n..])
  {
    hide Record;
  }

  /** Wrapped data is a sequence of such records by the letter of section 5.1 of RFC 8446,
      version 3.3 in each, with exactly the data in them. */
  lemma {:induction false} WrapIsStrict(data: Bytes)
    ensures TlsRecords(Wrap(data)).Some?
    ensures var rs := TlsRecords(Wrap(data)).value;
            DataRecords(rs) && Flatten(Bodies(rs)) == data && (rs == [] <==> data == [])
  {
    hide TlsRecords, Record, DataRecords, Flatten, Wrap;
    if data == [] {
      WrapEmpty(data);
      NoRecords();
      NoBodies();
    } else {
      var n := if |data| < 16384 then |data| else 16384;
      WrapFirst(data);
      WrapIsStrict(data[n..]);
      RecordThenRest(0x17, data[..n], Wrap(data[n..]));
      OneMoreRecord(data[..n], TlsRecords(Wrap(data[n..])).value);
      assert data == data[..n] + data[n..];
    }
  }

  lemma NoBodies()
    ensures DataRecords([]) && Flatten(Bodies([])) == []
  {
  }

  lemma ExtensionsRead(pubKey: Bytes)
    requires |pubKey| == PUBKEY_LEN
    ensures |Extensions(pubKey)| == 46
    ensures ReadExtensions(Extensions(pubKey))
            == Some([Extension(0x33, [0, 0x1d, 0, 0x20] + pubKey), Extension(0x2b, [3, 4])])
  {
    hide FromBe, ReadExtensions;
    var b := Extensions(pubKey);
    var second: Bytes := [0, 0x2b, 0, 2, 3, 4];
    assert b[0] == 0 && b[1] == 0x33 && b[2] == 0 && b[3] == 0x24;
    assert b[40..] == second && b[4..40] == [0, 0x1d, 0, 0x20] + pubKey;
    assert second[6..] == [] && second[4..6] == [3, 4];
    NoExtensions();
    BigEndian(b[2..4]);
    BigEndian(b[..2]);
    BigEndian(second[2..4]);
    BigEndian(second[..2]);
    OneExtension(second, 2);
    OneExtension(b, 36);
    assert ReadExtensions(second).value == [Extension(0x2b, [3, 4])];
    assert ReadExtensions(b).value == [Extension(0x33, [0, 0x1d, 0, 0x20] + pubKey), Extension(0x2b, [3, 4])];
  }

  lemma NoExtensions()
    ensures ReadExtensions([]) == Some([])
  {
  }

  lemma OneExtension(b: Bytes, n: nat)
    requires |b| >= 4 + n && FromBe(b[2..4]) == n
    ensures ReadExtensions(b)
            == match ReadExtensions(b[4 + n..])
               case None => None
               case Some(es) => Some([Extension(FromBe(b[..2]), b[4..4 + n])] + es)
  {
    hide FromBe;
  }

  lemma HelloRead(random: Bytes, sessionId: Bytes, pubKey: Bytes)
    requires |random| == RANDOM_LEN && |sessionId| == SESSION_ID_LEN && |pubKey| == PUBKEY_LEN
    ensures var b := [2, 0, 0, 0x76] + HelloBody(random, sessionId, pubKey);
            && |b| == 0x7a
            && ReadServerHello(b) == Some(ServerHello(random, sessionId, 0x1301,
                 [Extension(0x33, [0, 0x1d, 0, 0x20] + pubKey), Extension(0x2b, [3, 4])]))
  {
    hide FromBe, ReadExtensions, Extensions;
    var b := [2, 0, 0, 0x76] + HelloBody(random, sessionId, pubKey);
    ExtensionsRead(pubKey);
    BigEndian(b[1..4]);
    BigEndian(b[74..76]);
    BigEndian(b[71..73]);
    assert b[38] == 32;
    assert b[4..6] == [3, 3] && b[6..38] == random && b[39..71] == sessionId && b[76..] == Extensions(pubKey);
  }

  /** The reply reads as exactly three TLS records: one well-nested ServerHello echoing
      the session id, a change-cipher-spec, and the fake encrypted data. */
  lemma ResponseReads(random: Bytes, sessionId: Bytes, pubKey: Bytes, encrypted: Bytes)
    requires |random| == RANDOM_LEN && |sessionId| == SESSION_ID_LEN && |pubKey| == PUBKEY_LEN
    requires 1900 <= |encrypted| <= 2100
    ensures var hello := [2, 0, 0, 0x76] + HelloBody(random, sessionId, pubKey);
            && TlsRecords(Response(random, sessionId, pubKey, encrypted))
               == Some([TlsRecord(0x16, hello), TlsRecord(0x14, [1]), TlsRecord(0x17, encrypted)])
            && ReadServerHello(hello) == Some(ServerHello(random, sessionId, 0x1301,
                 [Extension(0x33, [0, 0x1d, 0, 0x20] + pubKey), Extension(0x2b, [3, 4])]))
  {
    hide HelloBody, TlsRecords, Record;
    var hello := [2, 0, 0, 0x76] + HelloBody(random, sessionId, pubKey);
    HelloRead(random, sessionId, pubKey);
    ThreeRecords(hello, encrypted);
    SmallRecord(0x16, hello);
    assert Response(random, sessionId, pubKey, encrypted)
           == [0x16, 3, 3, 0, |hello|] + hello + CCS_FRAME + Record(RECORD_APPDATA, encrypted);
  }

  lemma ThreeRecords(hello: Bytes, encrypted: Bytes)
    requires |hello| < 65536 && |encrypted| < 65536
    ensures TlsRecords(Record(0x16, hello) + CCS_FRAME + Record(RECORD_APPDATA, encrypted))
            == Some([TlsRecord(0x16, hello), TlsRecord(0x14, [1]), TlsRecord(0x17, encrypted)])
  {
    hide TlsRecords, Record;
    var app := Record(RECORD_APPDATA, encrypted);
    SmallRecord(0x14, [1]);
    assert CCS_FRAME == Record(0x14, [1]);
    NoRecords();
    assert app + [] == app;
    RecordThenRest(RECORD_APPDATA, encrypted, []);
    RecordThenRest(0x14, [1], app);
    RecordThenRest(0x16, hello, CCS_FRAME + app);
    Associative(Record(0x16, hello), CCS_FRAME, app);
    assert [TlsRecord(0x16, hello)] + ([TlsRecord(0x14, [1])] + ([TlsRecord(RECORD_APPDATA, encrypted)] + []))
           == [TlsRecord(0x16, hello), TlsRecord(0x14, [1]), TlsRecord(0x17, encrypted)];
  }

  lemma NoRecords()
    ensures TlsRecords([]) == Some([])
  {
  }

  lemma SmallRecord(kind: byte, body: Bytes)
    requires |body| < 256
    ensures Record(kind, body) == [kind, 3, 3, 0, |body|] + body
  {
    assert Be(|body|, 2) == Be(0, 1) + [|body|];
    assert Be(0, 1) == Be(0, 0) + [0];
  }
}
