/** The Fake TLS record layer: application data travels in TLS records that carry no
    encryption (record format of section 5.1 of RFC 8446). */
module FakeTls {
  import opened Octets
  import opened StreamReaders

  const RECORD_CCS: byte := 0x14
  const RECORD_APPDATA: byte := 0x17
  const APPDATA_MAX: nat := 16384

  // ---------------------------------------------------------------- writing

  function Record(kind: byte, body: Bytes): Bytes {
    [kind, 3, 3] + Be(|body|, 2) + body
  }

  /** Application data cut into records of at most APPDATA_MAX bytes. */
  function Wrap(data: Bytes): Bytes {
    if data == [] then []
    else
      var n := if |data| < APPDATA_MAX then |data| else APPDATA_MAX;
      Record(RECORD_APPDATA, data[..n]) + Wrap(data[n..])
  }

  method WrapTlsRecord(data: Bytes) returns (r: Bytes)
    ensures r == Wrap(data)
  {
    hide Be, Flatten, Wrap, Record;
    var parts: seq<Bytes> := [];
    var offset := 0;
    FlattenEmpty<byte>();
    assert data[0..] == data;
    while offset < |data|
      invariant offset <= |data|
      invariant Flatten(parts) + Wrap(data[offset..]) == Wrap(data)
    {
      var end := if offset + APPDATA_MAX < |data| then offset + APPDATA_MAX else |data|;
      var chunk := data[offset..end];
      var record := [RECORD_APPDATA, 3, 3] + Be(|chunk|, 2) + chunk;
      WrapStep(data, offset, end);
      Associative(Flatten(parts), record, Wrap(data[end..]));
      FlattenSnoc(parts, record);
      parts := parts + [record];
      offset := offset + |chunk|;
    }
    WrapEmpty(data[offset..]);
    r := Flatten(parts);
  }

  lemma WrapEmpty(data: Bytes)
    requires data == []
    ensures Wrap(data) == []
  {
  }

  lemma WrapStep(data: Bytes, offset: nat, end: nat)
    requires offset < |data| && end == if offset + APPDATA_MAX < |data| then offset + APPDATA_MAX else |data|
    ensures Wrap(data[offset..])
            == [RECORD_APPDATA, 3, 3] + Be(end - offset, 2) + data[offset..end] + Wrap(data[end..])
  {
    hide Be;
    assert data[offset..end] == data[offset..][..end - offset] && data[end..] == data[offset..][end - offset..];
  }

  // ---------------------------------------------------------------- what a wire carries

  /** The application bytes a wire will still yield when `left` bytes of the current
      record are due.  Change-cipher-spec records are skipped; any other foreign record,
      an empty record or a truncated header ends the stream. */
  function Coming(left: nat, wire: Bytes): (r: Bytes)
    ensures |r| <= |wire|
    decreases |wire|, 1
  {
    if |wire| <= left then wire else wire[..left] + Records(wire[left..])
  }

  function Records(wire: Bytes): (r: Bytes)
    ensures |r| <= |wire|
    decreases |wire|, 0
  {
    if |wire| < 5 then []
    else
      var length, rest := FromBe(wire[3..5]), wire[5..];
      if wire[0] == RECORD_CCS then
        if |rest| < length then [] else Records(rest[length..])
      else if wire[0] != RECORD_APPDATA || length == 0 then []
      else Coming(length, rest)
  }

  /** Whether the end of the stream shows as an empty read rather than as an exception. */
  predicate EndsCleanly(left: nat, wire: Bytes)
    decreases |wire|, 1
  {
    |wire| < left || RecordsEndCleanly(wire[left..])
  }

  predicate RecordsEndCleanly(wire: Bytes)
    decreases |wire|, 0
  {
    && |wire| >= 5
    && var length, rest := FromBe(wire[3..5]), wire[5..];
       if wire[0] == RECORD_CCS then |rest| >= length && RecordsEndCleanly(rest[length..])
       else wire[0] != RECORD_APPDATA || length == 0 || EndsCleanly(length, rest)
  }

  /** What is left on the wire where the stream reads as ended: after the header of the
      foreign or empty record, or nothing. */
  function After(left: nat, wire: Bytes): (r: Bytes)
    ensures |r| <= |wire|
    decreases |wire|, 1
  {
    if |wire| <= left then [] else AfterRecords(wire[left..])
  }

  function AfterRecords(wire: Bytes): (r: Bytes)
    ensures |r| <= |wire| && (wire != [] ==> |r| < |wire|)
    decreases |wire|, 0
  {
    if |wire| < 5 then []
    else
      var length, rest := FromBe(wire[3..5]), wire[5..];
      if wire[0] == RECORD_CCS then
        if |rest| < length then [] else AfterRecords(rest[length..])
      else if wire[0] != RECORD_APPDATA || length == 0 then rest
      else After(length, rest)
  }

  /** The application bytes of a reader that goes on after each such end. */
  function Later(wire: Bytes): Bytes
    decreases |wire|
  {
    if wire == [] then [] else Records(wire) + Later(AfterRecords(wire))
  }

  function Everything(left: nat, wire: Bytes): Bytes {
    Coming(left, wire) + Later(After(left, wire))
  }

  /** Going on where the stream read as ended. */
  lemma GoesOn(left: nat, wire: Bytes)
    requires left == 0 || wire == []
    ensures Everything(left, wire) == Later(wire)
  {
    assert wire[0..] == wire && wire[..0] == [];
    if wire == [] {
      assert Coming(left, wire) == [] && After(left, wire) == [];
    } else {
      assert Coming(0, wire) == Records(wire);
    }
  }

  // ---------------------------------------------------------------- one step of the reader

  /** Two positions of a reader with the same bytes to come, ending alike. */
  ghost predicate DueAlike(left: nat, wire: Bytes, left': nat, wire': Bytes) {
    && Coming(left, wire) == Coming(left', wire')
    && EndsCleanly(left, wire) == EndsCleanly(left', wire')
    && After(left, wire) == After(left', wire')
  }

  ghost predicate NothingDue(left: nat, wire: Bytes, clean: bool, after: Bytes) {
    Coming(left, wire) == [] && EndsCleanly(left, wire) == clean && After(left, wire) == after
  }

  /** With no record in progress everything is in the records to come. */
  lemma WholeWire(wire: Bytes)
    ensures Coming(0, wire) == Records(wire)
    ensures EndsCleanly(0, wire) == RecordsEndCleanly(wire)
    ensures After(0, wire) == AfterRecords(wire)
  {
    assert wire[0..] == wire && wire[..0] == [];
    if wire == [] {
      assert Records([]) == [] && AfterRecords([]) == [];
    }
  }

  lemma WireTooShort(wire: Bytes)
    requires |wire| < 5
    ensures NothingDue(0, wire, false, [])
  {
    WholeWire(wire);
  }

  /** The wire ends inside a record. */
  lemma RecordCutShort(left: nat)
    requires left > 0
    ensures NothingDue(left, [], true, [])
  {
  }

  lemma HeaderRead(wire: Bytes)
    requires |wire| >= 5
    ensures var length, rest := FromBe(wire[3..5]), wire[5..];
            if wire[0] == RECORD_CCS then
              if |rest| < length then NothingDue(0, wire, false, []) else DueAlike(0, rest[length..], 0, wire)
            else if wire[0] != RECORD_APPDATA || length == 0 then NothingDue(0, wire, true, rest)
            else DueAlike(length, rest, 0, wire)
  {
    hide FromBe;
    WholeWire(wire);
    var length, rest := FromBe(wire[3..5]), wire[5..];
    if wire[0] == RECORD_CCS && |rest| >= length {
      WholeWire(rest[length..]);
    }
  }

  /** A record length fits its two bytes. */
  lemma LengthFits(b: Bytes)
    requires |b| == 2
    ensures FromBe(b) < 65536
  {
    FromBeRoundTrip(b);
    Pow256Values();
  }

  // ---------------------------------------------------------------- reading

  class FakeTlsStream {
    const reader: StreamReader
    var readBuf: Bytes
    var readLeft: nat

    constructor (reader: StreamReader)
      ensures this.reader == reader && readBuf == [] && readLeft == 0
    {
      this.reader, readBuf, readLeft := reader, [], 0;
    }

    /** Everything still to be handed out. */
    ghost function Pending(): Bytes
      reads this, reader
    {
      readBuf + Coming(readLeft, reader.wire)
    }

    ghost predicate Clean()
      reads this, reader
    {
      EndsCleanly(readLeft, reader.wire)
    }

    /** Also what would be handed out beyond an empty read. */
    ghost function Unread(): Bytes
      reads this, reader
    {
      readBuf + Everything(readLeft, reader.wire)
    }

    /** One payload moved, or the end of the stream passed: nothing is lost either way. */
    lemma Conserved(left: nat, wire: Bytes, payload: Bytes)
      requires if payload != [] then
                 && payload + Coming(readLeft, reader.wire) == Coming(left, wire)
                 && After(readLeft, reader.wire) == After(left, wire)
               else
                 && Coming(left, wire) == []
                 && reader.wire == After(left, wire) && (readLeft == 0 || reader.wire == [])
      ensures payload + Everything(readLeft, reader.wire) == Everything(left, wire)
    {
      hide Coming, After, Later;
      if payload == [] {
        GoesOn(readLeft, reader.wire);
      }
    }

    /** None stands for IncompleteReadError, an empty result for end of stream.  The
        exception leaves nothing on the wire. */
    method ReadTlsPayload() returns (r: Option<Bytes>)
      modifies this`readLeft, reader
      ensures var coming := old(Coming(readLeft, reader.wire));
              if r.Some? && r.value != [] then
                r.value + Coming(readLeft, reader.wire) == coming && (Clean() == old(Clean()))
              else
                && coming == [] && (r.Some? <==> old(Clean()))
                && reader.wire == old(After(readLeft, reader.wire)) && (readLeft == 0 || reader.wire == [])
      ensures r.Some? && r.value != [] ==> After(readLeft, reader.wire) == old(After(readLeft, reader.wire))
      ensures r == None ==> reader.wire == [] && readLeft == 0
    {
      hide FromBe, Coming, Records, EndsCleanly, RecordsEndCleanly, After, AfterRecords;
      if readLeft > 0 {
        ghost var wire, left := reader.wire, readLeft;
        var data := reader.Read(readLeft);
        if data == [] {
          RecordCutShort(left);
          return Some([]);
        }
        ContinueRecord(left, wire, data, reader.wire);
        readLeft := readLeft - |data|;
        return Some(data);
      }
      while true
        invariant readLeft == 0
        invariant DueAlike(0, reader.wire, old(readLeft), old(reader.wire))
        decreases |reader.wire|
      {
        ghost var wire := reader.wire;
        var hdr := reader.ReadExactly(5);
        if hdr == None {
          WireTooShort(wire);
          return None;
        }
        assert hdr.value[3..5] == wire[3..5] && reader.wire == wire[5..];
        HeaderRead(wire);
        var rtype, recLen := hdr.value[0], FromBe(hdr.value[3..5]);
        if rtype == RECORD_CCS {
          if recLen > 0 {
            var body := reader.ReadExactly(recLen);
            if body == None {
              WireTooShort([]);
              return None;
            }
          }
          assert reader.wire == wire[5..][recLen..];
          continue;
        }
        if rtype != RECORD_APPDATA {
          return Some([]);
        }
        LengthFits(hdr.value[3..5]);
        var data := reader.Read(if recLen < 65536 then recLen else 65536);
        if data == [] {
          if recLen > 0 {
            RecordCutShort(recLen);
          }
          return Some([]);
        }
        ContinueRecord(recLen, wire[5..], data, reader.wire);
        var remaining := recLen - |data|;
        if remaining > 0 {
          readLeft := remaining;
        }
        return Some(data);
      }
    }

    /** Some of what is pending, at most n bytes; empty or None only when nothing is. */
    method Read(n: nat) returns (r: Option<Bytes>)
      requires n > 0
      modifies this, reader
      ensures if r.Some? && r.value != [] then
                |r.value| <= n && r.value + Pending() == old(Pending()) && (Clean() == old(Clean()))
              else
                old(Pending()) == [] && (r.Some? <==> old(Clean()))
      ensures r == None ==> Pending() == [] && !Clean()
      ensures (if r.Some? then r.value else []) + Unread() == old(Unread())
      ensures old(readBuf) != [] ==> r == Some(old(readBuf)[..if n < |old(readBuf)| then n else |old(readBuf)|])
    {
      hide Coming, EndsCleanly, After, Everything;
      if readBuf != [] {
        var k := if n < |readBuf| then n else |readBuf|;
        Handed(readBuf, k, Coming(readLeft, reader.wire));
        Handed(readBuf, k, Everything(readLeft, reader.wire));
        r := Some(readBuf[..k]);
        readBuf := readBuf[k..];
        return;
      }
      r := ReadFresh(n);
    }

    /** The part of read for an empty buffer. */
    method ReadFresh(n: nat) returns (r: Option<Bytes>)
      requires n > 0 && readBuf == []
      modifies this, reader
      ensures if r.Some? && r.value != [] then
                |r.value| <= n && r.value + Pending() == old(Pending()) && (Clean() == old(Clean()))
              else
                old(Pending()) == [] && (r.Some? <==> old(Clean()))
      ensures r == None ==> Pending() == [] && !Clean()
      ensures (if r.Some? then r.value else []) + Unread() == old(Unread())
    {
      hide Coming, EndsCleanly, After, Everything;
      NothingLeft();
      ghost var left, wire := readLeft, reader.wire;
      var payload := ReadTlsPayload();
      Conserved(left, wire, if payload.Some? then payload.value else []);
      Handed([], 0, Coming(left, wire));
      Handed([], 0, Everything(left, wire));
      Handed([], 0, Everything(readLeft, reader.wire));
      if payload == None || payload.value == [] {
        return payload;
      }
      if |payload.value| > n {
        Handed(payload.value, n, Coming(readLeft, reader.wire));
        Handed(payload.value, n, Everything(readLeft, reader.wire));
        assert readBuf + payload.value[n..] == payload.value[n..];
        readBuf := readBuf + payload.value[n..];
        return Some(payload.value[..n]);
      }
      Handed([], 0, Coming(readLeft, reader.wire));
      return payload;
    }

    /** Exactly the next n pending bytes, or an exception when fewer are. */
    method ReadExactly(n: nat) returns (r: Option<Bytes>)
      modifies this, reader
      ensures r.Some? <==> n <= |old(Pending())|
      ensures r.Some? ==> r.value == old(Pending())[..n] && Pending() == old(Pending())[n..] && Clean() == old(Clean())
      ensures r == None ==> readBuf == old(Pending())
      ensures r == None && !old(Clean()) ==> Pending() == old(Pending()) && !Clean()
      ensures (if r.Some? then r.value else []) + Unread() == old(Unread())
    {
      hide Coming, EndsCleanly, After, Everything;
      while |readBuf| < n
        invariant Pending() == old(Pending()) && Clean() == old(Clean()) && Unread() == old(Unread())
        decreases |Coming(readLeft, reader.wire)|
      {
        ghost var left, wire := readLeft, reader.wire;
        var payload := ReadTlsPayload();
        Conserved(left, wire, if payload.Some? then payload.value else []);
        if payload == None || payload.value == [] {
          NothingLeft();
          assert readBuf + [] == readBuf;
          return None;
        }
        Associative(readBuf, payload.value, Everything(readLeft, reader.wire));
        readBuf := readBuf + payload.value;
      }
      r := Some(readBuf[..n]);
      readBuf := readBuf[n..];
    }
  }

  lemma Handed(buf: Bytes, k: nat, rest: Bytes)
    requires k <= |buf|
    ensures buf[..k] + (buf[k..] + rest) == buf + rest && [] + rest == rest
    ensures k == |buf| ==> buf[..k] == buf && buf[k..] == []
  {
  }

  lemma NothingLeft()
    ensures Coming(0, []) == [] && !EndsCleanly(0, [])
  {
  }

  /** Part of a record body arrived: the rest of it comes next. */
  lemma ContinueRecord(left: nat, wire: Bytes, data: Bytes, after: Bytes)
    requires wire == data + after && 0 < |data| <= left
    ensures data + Coming(left - |data|, after) == Coming(left, wire)
    ensures EndsCleanly(left - |data|, after) == EndsCleanly(left, wire)
    ensures After(left - |data|, after) == After(left, wire)
  {
    if |wire| >= left {
      assert after[left - |data|..] == wire[left..];
    }
    if |wire| == left {
      assert Coming(left - |data|, after) == after;
    }
  }

  // ---------------------------------------------------------------- round trip

  /** What a well-behaved peer puts on the wire. */
  datatype Item = Write(data: Bytes) | ChangeCipherSpec(body: Bytes)

  predicate Fits(item: Item) {
    item.ChangeCipherSpec? ==> |item.body| < 65536
  }

  function WireOf(items: seq<Item>): Bytes {
    if items == [] then []
    else (match items[0]
          case Write(data) => Wrap(data)
          case ChangeCipherSpec(body) => Record(RECORD_CCS, body)) + WireOf(items[1..])
  }

  function Written(items: seq<Item>): Bytes {
    if items == [] then []
    else (if items[0].Write? then items[0].data else []) + Written(items[1..])
  }

  lemma {:induction false} WireSnoc(items: seq<Item>, data: Bytes)
    ensures WireOf(items + [Write(data)]) == WireOf(items) + Wrap(data)
    ensures Written(items + [Write(data)]) == Written(items) + data
  {
    hide Wrap, Record;
    var all := items + [Write(data)];
    if items == [] {
      assert all[1..] == [] && Wrap(data) + [] == Wrap(data) && data + [] == data;
    } else {
      WireSnoc(items[1..], data);
      assert all[0] == items[0] && all[1..] == items[1..] + [Write(data)];
      Associative(if items[0].Write? then items[0].data else [], Written(items[1..]), data);
      Associative(match items[0] case Write(d) => Wrap(d) case ChangeCipherSpec(body) => Record(RECORD_CCS, body),
                  WireOf(items[1..]), Wrap(data));
    }
  }

  lemma RecordHeader(kind: byte, body: Bytes, rest: Bytes)
    requires |body| < 65536
    ensures var w := Record(kind, body) + rest;
            |w| >= 5 && w[0] == kind && FromBe(w[3..5]) == |body| && w[5..] == body + rest
  {
    hide Be, FromBe;
    var w := Record(kind, body) + rest;
    Pow256Values();
    BeRoundTrip(|body|, 2);
    assert w[3..5] == Be(|body|, 2);
  }

  lemma AppRecordCarries(body: Bytes, rest: Bytes)
    requires 0 < |body| < 65536
    ensures Records(Record(RECORD_APPDATA, body) + rest) == body + Records(rest)
    ensures RecordsEndCleanly(Record(RECORD_APPDATA, body) + rest) == RecordsEndCleanly(rest)
  {
    hide FromBe, Record;
    RecordHeader(RECORD_APPDATA, body, rest);
    assert (body + rest)[..|body|] == body && (body + rest)[|body|..] == rest;
    if rest == [] {
      assert Coming(|body|, body + rest) == body + rest && Records(rest) == [];
    }
  }

  lemma CcsCarriesNothing(body: Bytes, rest: Bytes)
    requires |body| < 65536
    ensures Records(Record(RECORD_CCS, body) + rest) == Records(rest)
    ensures RecordsEndCleanly(Record(RECORD_CCS, body) + rest) == RecordsEndCleanly(rest)
  {
    hide FromBe, Record;
    RecordHeader(RECORD_CCS, body, rest);
    assert (body + rest)[|body|..] == rest;
  }

  /** What a record means by its type: 0x14 is skipped, 0x17 carries data, any other ends
      the stream for a reader that would go on after it. */
  lemma RecordKinds(kind: byte, body: Bytes, rest: Bytes)
    requires |body| < 65536
    ensures Record(kind, body) == [kind, 3, 3, |body| / 256, |body| % 256] + body
    ensures var wire := Record(kind, body) + rest;
            if kind == 0x14 then Records(wire) == Records(rest) && RecordsEndCleanly(wire) == RecordsEndCleanly(rest)
            else if kind == 0x17 && body != [] then
              Records(wire) == body + Records(rest) && RecordsEndCleanly(wire) == RecordsEndCleanly(rest)
            else Records(wire) == [] && RecordsEndCleanly(wire) && AfterRecords(wire) == body + rest
  {
    hide FromBe, Be;
    BigEndianBytes(|body|);
    RecordHeader(kind, body, rest);
    if kind == 0x14 {
      CcsCarriesNothing(body, rest);
    } else if kind == 0x17 && body != [] {
      AppRecordCarries(body, rest);
    }
  }

  /** Wrapping then deframing is the identity, whatever follows. */
  lemma {:induction false} WrapRoundTrip(data: Bytes, rest: Bytes)
    ensures Records(Wrap(data) + rest) == data + Records(rest)
    ensures RecordsEndCleanly(Wrap(data) + rest) == RecordsEndCleanly(rest)
  {
    hide Records, RecordsEndCleanly, Record;
    if data == [] {
      assert Wrap(data) + rest == rest;
    } else {
      var n := if |data| < APPDATA_MAX then |data| else APPDATA_MAX;
      WrapRoundTrip(data[n..], rest);
      AppRecordCarries(data[..n], Wrap(data[n..]) + rest);
      assert Wrap(data) + rest == Record(RECORD_APPDATA, data[..n]) + (Wrap(data[n..]) + rest);
      assert data == data[..n] + data[n..];
    }
  }

  /** Every write arrives, once and in order, whatever change-cipher-spec records are
      mixed in and whatever follows. */
  lemma {:induction false} WireThen(items: seq<Item>, rest: Bytes)
    requires forall i | 0 <= i < |items| :: Fits(items[i])
    ensures Records(WireOf(items) + rest) == Written(items) + Records(rest)
    ensures RecordsEndCleanly(WireOf(items) + rest) == RecordsEndCleanly(rest)
  {
    hide Record, Wrap, Records, RecordsEndCleanly;
    if items == [] {
      assert [] + rest == rest;
    } else {
      var tail := WireOf(items[1..]) + rest;
      WireThen(items[1..], rest);
      match items[0] {
        case Write(data) =>
          WrapRoundTrip(data, tail);
          Associative(Wrap(data), WireOf(items[1..]), rest);
          Associative(data, Written(items[1..]), Records(rest));
        case ChangeCipherSpec(body) =>
          CcsCarriesNothing(body, tail);
          Associative(Record(RECORD_CCS, body), WireOf(items[1..]), rest);
          assert Written(items) == [] + Written(items[1..]);
      }
    }
  }

  /** With nothing following, the stream ends in an exception, not in an empty read. */
  lemma WireRoundTrip(items: seq<Item>)
    requires forall i | 0 <= i < |items| :: Fits(items[i])
    ensures Records(WireOf(items)) == Written(items)
    ensures !RecordsEndCleanly(WireOf(items))
  {
    WireThen(items, []);
    assert WireOf(items) + [] == WireOf(items) && Written(items) + [] == Written(items);
    assert Records([]) == [];
  }

  /** The other ways a stream can end after what was written: an empty record reads as end
      of file, and so does a record cut short after its header, whose bytes still arrive; a
      change-cipher-spec record cut short raises. */
  lemma OtherEnds(items: seq<Item>, kind: byte, body: Bytes, length: nat, rest: Bytes)
    requires (forall i | 0 <= i < |items| :: Fits(items[i])) && |body| < length < 65536
    ensures var wire := WireOf(items) + (Record(RECORD_APPDATA, []) + rest);
            Records(wire) == Written(items) && RecordsEndCleanly(wire)
    ensures var wire := WireOf(items) + (Record(RECORD_APPDATA, seq(length, _ => 0))[..5] + body);
            Records(wire) == Written(items) + body && RecordsEndCleanly(wire)
    ensures var wire := WireOf(items) + (Record(RECORD_CCS, seq(length, _ => 0))[..5] + body);
            Records(wire) == Written(items) && !RecordsEndCleanly(wire)
  {
    hide WireOf, FromBe, Record, Be;
    var empty := Record(RECORD_APPDATA, []) + rest;
    RecordHeader(RECORD_APPDATA, [], rest);
    WireThen(items, empty);
    assert Written(items) + [] == Written(items);
    RecordSize(RECORD_APPDATA, seq(length, _ => 0));
    RecordSize(RECORD_CCS, seq(length, _ => 0));
    CutRecord(RECORD_APPDATA, length, body);
    WireThen(items, Record(RECORD_APPDATA, seq(length, _ => 0))[..5] + body);
    CutRecord(RECORD_CCS, length, body);
    WireThen(items, Record(RECORD_CCS, seq(length, _ => 0))[..5] + body);
  }

  lemma RecordSize(kind: byte, body: Bytes)
    ensures |Record(kind, body)| == 5 + |body|
  {
  }

  lemma CutRecord(kind: byte, length: nat, body: Bytes)
    requires |body| < length < 65536
    ensures var w := Record(kind, seq(length, _ => 0))[..5] + body;
            |w| >= 5 && w[0] == kind && FromBe(w[3..5]) == length && w[5..] == body
  {
    hide FromBe, Record;
    var whole := Record(kind, seq(length, _ => 0)) + [];
    RecordHeader(kind, seq(length, _ => 0), []);
    var w := Record(kind, seq(length, _ => 0))[..5] + body;
    assert w[3..5] == whole[3..5];
  }

  // ---------------------------------------------------------------- any sequence of reads

  datatype Call = UpTo(n: nat) | Exactly(n: nat)

  /** What one call must return when `pending` is still to come; nothing stands for an
      exception as well as for an empty read. */
  predicate Answers(call: Call, out: Bytes, pending: Bytes) {
    match call
    case UpTo(n) => |out| <= n && out <= pending && (out == [] <==> pending == [])
    case Exactly(n) => out == if n <= |pending| then pending[..n] else []
  }

  /** Call i is answered from where the ones before it stopped. */
  ghost predicate ServedAt(call: Call, out: Bytes, before: seq<Bytes>, pending: Bytes) {
    |Flatten(before)| <= |pending| && Answers(call, out, pending[|Flatten(before)|..])
  }

  ghost predicate Served(calls: seq<Call>, outs: seq<Bytes>, pending: Bytes) {
    |outs| == |calls| && forall i :: 0 <= i < |calls| ==> ServedAt(calls[i], outs[i], outs[..i], pending)
  }

  lemma ServedNext(calls: seq<Call>, outs: seq<Bytes>, all: Bytes, pending: Bytes, out: Bytes)
    requires |outs| < |calls| && Served(calls[..|outs|], outs, all)
    requires Flatten(outs) + pending == all && Answers(calls[|outs|], out, pending)
    ensures Served(calls[..|outs| + 1], outs + [out], all)
  {
    hide Answers, Flatten, ServedAt;
    var n, more := |outs|, outs + [out];
    forall i | 0 <= i <= n
      ensures ServedAt(calls[i], more[i], more[..i], all)
    {
      assert more[..i] == outs[..i];
      if i == n {
        ServedAfter(calls[n], out, outs, all, pending);
        assert more[..n] == outs;
      } else {
        assert calls[..n][i] == calls[i];
      }
    }
  }

  lemma ServedAfter(call: Call, out: Bytes, before: seq<Bytes>, all: Bytes, pending: Bytes)
    requires Flatten(before) + pending == all && Answers(call, out, pending)
    ensures ServedAt(call, out, before, all)
  {
    hide Answers, Flatten;
    assert all[|Flatten(before)|..] == pending;
  }

  /** One call; nothing stands for an exception as well as for an empty read. */
  method ReadOne(stream: FakeTlsStream, call: Call) returns (out: Bytes)
    requires call.n > 0
    modifies stream, stream.reader
    ensures Answers(call, out, old(stream.Pending()))
    ensures out != [] || !old(stream.Clean()) ==>
              out + stream.Pending() == old(stream.Pending()) && stream.Clean() == old(stream.Clean())
    ensures out + stream.Unread() == old(stream.Unread())
  {
    hide FakeTlsStream.Pending, FakeTlsStream.Clean, FakeTlsStream.Unread;
    var r;
    match call {
      case UpTo(n) => r := stream.Read(n);
      case Exactly(n) => r := stream.ReadExactly(n);
    }
    out := if r.Some? then r.value else [];
  }

  /** Reads of any kinds and sizes in any order, over any wire and even after reads that
      came up short: nothing is lost and nothing repeated.  Each call is answered from
      where the ones before it stopped, up to the first that meets an end of stream that
      reads as empty, if there is one; `live` says how many. */
  method ReadCalls(stream: FakeTlsStream, calls: seq<Call>) returns (outs: seq<Bytes>, ghost live: nat)
    requires forall i :: 0 <= i < |calls| ==> calls[i].n > 0
    modifies stream, stream.reader
    ensures live <= |outs| == |calls|
    ensures Served(calls[..live], outs[..live], old(stream.Pending()))
    ensures live == |calls| || (live > 0 && outs[live - 1] == [] && old(stream.Clean()))
    ensures Flatten(outs) + stream.Unread() == old(stream.Unread())
    ensures !old(stream.Clean()) ==> Flatten(outs) + stream.Pending() == old(stream.Pending())
  {
    hide FakeTlsStream.Pending, FakeTlsStream.Clean, FakeTlsStream.Unread, Flatten, Served, Answers;
    ghost var all, good, short := stream.Pending(), [], false;
    outs := [];
    NoneServed(calls, all);
    ghost var unread := stream.Unread();
    assert [] + unread == unread;
    for i := 0 to |calls|
      invariant Flatten(outs) + stream.Unread() == unread
      invariant |outs| == i && good <= outs && Served(calls[..|good|], good, all)
      invariant if short then good != [] && good[|good| - 1] == [] && old(stream.Clean())
                else good == outs && Flatten(outs) + stream.Pending() == all && stream.Clean() == old(stream.Clean())
    {
      ghost var before := stream.Pending();
      var out := ReadOne(stream, calls[i]);
      FlattenSnoc(outs, out);
      Associative(Flatten(outs), out, stream.Unread());
      if !short {
        ServedNext(calls, outs, all, before, out);
        Associative(Flatten(outs), out, stream.Pending());
        good := outs + [out];
        short := out == [] && old(stream.Clean());
      }
      outs := outs + [out];
    }
    live := |good|;
    assert outs[..live] == good;
  }

  lemma NoneServed(calls: seq<Call>, pending: Bytes)
    ensures Served(calls[..0], [], pending) && Flatten<byte>([]) + pending == pending
  {
  }

  /** The whole way: what was written, in whatever pieces, with change-cipher-spec records
      anywhere, over any segments, is what any reads return. */
  method ReadBack(items: seq<Item>, calls: seq<Call>) returns (outs: seq<Bytes>, ghost unread: Bytes)
    requires forall i | 0 <= i < |items| :: Fits(items[i])
    requires forall i :: 0 <= i < |calls| ==> calls[i].n > 0
    ensures Served(calls, outs, Written(items))
    ensures Flatten(outs) + unread == Written(items)
  {
    hide WireOf, Coming, EndsCleanly, Records, RecordsEndCleanly, Served;
    var reader := new StreamReader(WireOf(items));
    var stream := new FakeTlsStream(reader);
    FreshStream(items);
    ghost var live;
    outs, live := ReadCalls(stream, calls);
    assert calls[..live] == calls && outs[..live] == outs;
    unread := stream.Pending();
  }

  /** An untouched stream over such a wire has all of it pending, and ends in an exception. */
  lemma FreshStream(items: seq<Item>)
    requires forall i | 0 <= i < |items| :: Fits(items[i])
    ensures Coming(0, WireOf(items)) == Written(items)
    ensures [] + Coming(0, WireOf(items)) == Written(items)
    ensures !EndsCleanly(0, WireOf(items))
  {
    hide Wrap, Record, FromBe, WireOf;
    WireRoundTrip(items);
    WholeWire(WireOf(items));
  }
}
