/** The TCP read loop of ClientSession.cpp (and its twin in connection.cpp), what is sent, and what is done with it. */
module TcpSession {
  import opened Wire
  import opened Packet
  import opened Messages
  import opened Framing

  // ---- Sending ----

  const TEST_STRUCT: u16 := 0
  const FIRST_DATA: u16 := 1

  datatype Side = Server | Client

  /** The packet of one message. The server leaves the packet number at 0, the client writes 1. */
  function OnePacket(side: Side, d_type: u16, buffer: seq<byte>): Packet {
    Packet(PacketHeader(SERVER_HASH, ToU32(|buffer|), 1, if side.Server? then 0 else 1,
                        ToU16(|buffer| + PREFIX_SIZE), 1, 1, 0),
           d_type, buffer)
  }

  /** The one packet of a message, field by field. */
  predicate IsOnlyPacket(p: Packet, side: Side, d_type: u16, buffer: seq<byte>) {
    && p.header.server_hash == 1337
    && p.header.total_data_size as int == |buffer| % 0x1_0000_0000
    && p.header.total_cnt_packets == 1
    && p.header.cur_packet_number == (match side case Server => 0 case Client => 1)
    && p.header.cur_packet_size as int == (|buffer| + 17) % 0x1_0000
    && p.header.isFirst == 1 && p.header.isLast == 1 && p.header.isCompressed == 0
    && p.d_type == d_type && p.buffer == buffer
  }

  lemma OnlyPacket(side: Side, d_type: u16, buffer: seq<byte>)
    ensures IsOnlyPacket(OnePacket(side, d_type, buffer), side, d_type, buffer)
    ensures Decode(Encode(OnePacket(side, d_type, buffer))) == Some(OnePacket(side, d_type, buffer))
  {
    hide Encode, Decode;
    DecodeEncode(OnePacket(side, d_type, buffer));
  }

  /** What both sides send for a message, as bytes on the wire; only the packet number tells them apart. */
  lemma SentHeader(side: Side, d_type: u16, buffer: seq<byte>)
    ensures var b := Encode(OnePacket(side, d_type, buffer));
            && b[0] == 0x39 && b[1] == 0x05
            && b[2] as int + 0x100 * (b[3] as int) + 0x1_0000 * (b[4] as int) + 0x100_0000 * (b[5] as int)
               == |buffer| % 0x1_0000_0000
            && b[6] == 1 && b[7] == 0
            && b[8] == (match side case Server => 0 case Client => 1) && b[9] == 0
            && b[10] as int + 0x100 * (b[11] as int) == (|buffer| + 17) % 0x1_0000
            && b[12] == 1 && b[13] == 1 && b[14] == 0
            && b[15] as int + 0x100 * (b[16] as int) == d_type
            && b[17..] == buffer
  {
    OnlyPacket(side, d_type, buffer);
    Layout(OnePacket(side, d_type, buffer));
    hide Encode, Decode, OnePacket;
  }

  /** doSend and asyncWrite: the bytes handed to the socket, none when it is closed. */
  method Send(open: bool, side: Side, d_type: u16, buffer: seq<byte>) returns (out: seq<byte>)
    ensures out == if open then Frame(Encode(OnePacket(side, d_type, buffer))) else []
    ensures open ==> Decode(out[4..]).Some? && IsOnlyPacket(Decode(out[4..]).value, side, d_type, buffer)
  {
    hide Encode, Decode, Le32;
    if !open {
      return [];
    }
    OnlyPacket(side, d_type, buffer);
    var header := PacketHeader(SERVER_HASH, ToU32(|buffer|), 1, if side.Server? then 0 else 1,
                               ToU16(|buffer| + PREFIX_SIZE), 1, 1, 0);
    var full_packet := Serialize(Packet(header, d_type, buffer));
    var size := ToU32(|full_packet|);
    out := Le32(size) + full_packet;
  }

  // ---- The read loop ----

  /** One connection. `delivered` records the buffers passed to signal_process_packet,
      `closed` the raising of signal_deleting, `ended` that no read is outstanding any more; `pending` holds bytes
      that have arrived but are not read. */
  class AsioTcpClientSession {
    const cur_client_id_: u32
    var size_: u32
    var buffer_: seq<byte>
    var readingBody: bool
    var pending: seq<byte>
    var delivered: seq<seq<byte>>
    var closed: bool
    var ended: bool

    constructor (client_id: u32)
      ensures Valid() && State() == Progress([], []) && !closed && !ended && cur_client_id_ == client_id
    {
      cur_client_id_ := client_id;
      size_ := 0;
      buffer_ := [];
      readingBody := false;
      pending := [];
      delivered := [];
      closed := false;
      ended := false;
    }

    /** The outstanding read is waiting for more bytes than have arrived. */
    ghost predicate Valid()
      reads this
    {
      if readingBody then |pending| < size_ else |pending| < 4
    }

    /** The bodies delivered and the bytes of the frame being read, its size prefix included. */
    ghost function State(): Progress
      reads this
    {
      Progress(delivered, (if readingBody then Le32(size_) else []) + pending)
    }

    /** The handler of the size read. */
    method OnSize()
      requires !readingBody && |pending| >= 4
      modifies this
      ensures readingBody && pending == old(pending)[4..] && size_ == FromLe32(old(pending)[..4])
      ensures State() == old(State()) && closed == old(closed) && ended == old(ended)
    {
      SizeRead(delivered, pending);
      size_ := FromLe32(pending[..4]);
      pending := pending[4..];
      readingBody := true;
    }

    /** The handler of the body read: the buffer is handed on and the next size read starts. */
    method OnBody()
      requires readingBody && |pending| >= size_
      modifies this
      ensures delivered == old(delivered) + [old(pending)[..old(size_)]]
      ensures !readingBody && pending == old(pending)[old(size_)..]
      ensures Settled(State()) == Settled(old(State())) && closed == old(closed) && ended == old(ended)
    {
      BodyRead(delivered, size_, pending);
      buffer_ := pending[..size_];
      pending := pending[size_..];
      delivered := delivered + [buffer_];
      readingBody := false;
    }

    /** Bytes arrive; every read they complete runs its handler, which starts the next read. */
    method Receive(segment: seq<byte>)
      requires Valid() && !ended
      modifies this
      ensures Valid() && closed == old(closed) && !ended
      ensures State() == Feed(old(State()), segment)
    {
      hide Settled, Feed, Le32, FromLe32;
      SettledNow(State(), segment);
      pending := pending + segment;
      assert State() == Progress(old(State()).bodies, old(State()).rest + segment);
      while if readingBody then |pending| >= size_ else |pending| >= 4
        invariant closed == old(closed) && !ended
        invariant Settled(State()) == Feed(old(State()), segment)
        decreases |pending|, readingBody
      {
        if !readingBody {
          OnSize();
        } else {
          OnBody();
        }
      }
      Waiting(delivered, readingBody, size_, pending);
    }

    /** The stream ends: the size read reports the end of file and raises signal_deleting,
        the body read only logs. Neither starts another read. */
    method EndOfStream()
      requires Valid() && !ended
      modifies this`closed, this`ended
      ensures Valid() && State() == old(State()) && ended
      ensures closed == (old(closed) || |State().rest| < 4)
    {
      ended := true;
      if !readingBody {
        closed := true;
      }
    }
  }

  /** Everything that is complete in the rest has been delivered. */
  function Settled(p: Progress): Progress {
    Feed(p, [])
  }

  lemma SettledNow(p: Progress, segment: seq<byte>)
    ensures Settled(Progress(p.bodies, p.rest + segment)) == Feed(p, segment)
  {
    assert p.rest + segment + [] == p.rest + segment;
  }

  lemma SizeRead(d: seq<seq<byte>>, pending: seq<byte>)
    requires |pending| >= 4
    ensures [] + pending == Le32(FromLe32(pending[..4])) + pending[4..]
  {
    Le32RoundTrip(0, pending[..4]);
  }

  lemma BodyRead(d: seq<seq<byte>>, size: u32, pending: seq<byte>)
    requires |pending| >= size
    ensures Settled(Progress(d, Le32(size) + pending)) == Settled(Progress(d + [pending[..size]], [] + pending[size..]))
  {
    hide Le32, FromLe32;
    var s := Le32(size) + pending;
    Le32RoundTrip(size, []);
    assert s[..4] == Le32(size);
    assert s + [] == s && [] + pending[size..] + [] == pending[size..];
    assert FirstBody(s) == pending[..size] && AfterFirst(s) == pending[size..];
    var q := Deframe(pending[size..]);
    assert d + ([pending[..size]] + q.bodies) == (d + [pending[..size]]) + q.bodies;
  }

  lemma Waiting(d: seq<seq<byte>>, readingBody: bool, size: u32, pending: seq<byte>)
    requires if readingBody then |pending| < size else |pending| < 4
    ensures var p := Progress(d, (if readingBody then Le32(size) else []) + pending); Settled(p) == p
  {
    hide Le32, FromLe32;
    var s := (if readingBody then Le32(size) else []) + pending;
    Le32RoundTrip(size, []);
    if readingBody { assert s[..4] == Le32(size); }
    assert s + [] == s;
    assert !Complete(s);
  }

  // ---- What is done with a delivered buffer ----

  datatype Event =
    | OutOfBounds                 // the buffer is shorter than what is read from it
    | BadHash
    | BadFlags
    | GotTestStruct(t: TestStruct)
    | GotFirstData(f: FirstData)
    | Ignored

  /** AsioTcpManager::processPacket (server) and BoostTcpConnection::prcsPacket (client). */
  function Process(side: Side, buf: seq<byte>): Event {
    match Decode(buf)
    case None => OutOfBounds
    case Some(pkt) =>
      if pkt.header.server_hash != SERVER_HASH then BadHash
      else if pkt.header.isFirst != 1 || pkt.header.isLast != 1 then BadFlags
      else if pkt.d_type == TEST_STRUCT then
        (match DecodeTestStruct(pkt.buffer)
         case None => OutOfBounds
         case Some(t) => GotTestStruct(t))
      else if pkt.d_type == FIRST_DATA && side.Client? then
        (match DecodeFirstData(pkt.buffer)
         case None => OutOfBounds
         case Some(f) => GotFirstData(f))
      else Ignored
  }

  /** What happens to a delivered buffer, by its bytes: too short for a header; a foreign hash; a flag that is not 1;
      a type that the side does not know. */
  lemma ProcessChecks(side: Side, buf: seq<byte>)
    ensures |buf| < 17 ==> Process(side, buf) == OutOfBounds
    ensures |buf| >= 17 ==>
              var hash, d_type := buf[0] as int + 0x100 * (buf[1] as int), buf[15] as int + 0x100 * (buf[16] as int);
              && (Process(side, buf) == BadHash <==> hash != 1337)
              && (Process(side, buf) == BadFlags <==> hash == 1337 && !(buf[12] == 1 && buf[13] == 1))
              && (Process(side, buf) == Ignored <==>
                    hash == 1337 && buf[12] == 1 && buf[13] == 1
                    && d_type != 0 && !(d_type == 1 && side == Client))
              && (Process(side, buf).GotTestStruct? ==>
                    d_type == 0 && DecodeTestStruct(buf[17..]) == Some(Process(side, buf).t))
              && (Process(side, buf).GotFirstData? ==>
                    d_type == 1 && side == Client && DecodeFirstData(buf[17..]) == Some(Process(side, buf).f))
  {
    hide DecodeTestStruct, DecodeFirstData, DecodeHeader;
    if |buf| >= 17 {
      ParsedLayout(buf);
      hide FromLe16;
    }
  }

  /** The parse, the two checks and the switch that both sides run on a delivered buffer. */
  method ProcessPacket(side: Side, buf: seq<byte>) returns (e: Event)
    requires Process(side, buf) != OutOfBounds
    ensures e == Process(side, buf)
  {
    hide DecodeTestStruct, DecodeFirstData, Encode;
    var pkt := Parse(buf);
    if pkt.header.server_hash != SERVER_HASH {
      return BadHash;
    }
    if pkt.header.isFirst != 1 || pkt.header.isLast != 1 {
      return BadFlags;
    }
    if pkt.d_type == TEST_STRUCT {
      var a := DeserializeTestStruct(pkt.buffer);
      e := GotTestStruct(a);
    } else if pkt.d_type == FIRST_DATA && side == Client {
      var a := DeserializeFirstData(pkt.buffer);
      e := GotFirstData(a);
    } else {
      e := Ignored;
    }
  }

  lemma ProcessOnePacket(from: Side, to: Side, d_type: u16, buffer: seq<byte>)
    ensures Decode(Encode(OnePacket(from, d_type, buffer))) == Some(OnePacket(from, d_type, buffer))
  {
    DecodeEncode(OnePacket(from, d_type, buffer));
  }

  /** A structure small enough for its 32-bit offsets and for the frame prefix. */
  predicate SendableStruct(t: TestStruct) {
    20 + PREFIX_SIZE + |t.a| + 4 * |t.d| < MAX32
  }

  function StructBody(from: Side, t: TestStruct): seq<byte> {
    Encode(OnePacket(from, TEST_STRUCT, EncodeTestStruct(t)))
  }

  lemma StructBodySize(from: Side, t: TestStruct)
    requires SendableStruct(t)
    ensures |StructBody(from, t)| < MAX32
  {
    EncodeStringSize(t.a);
  }

  lemma StructBodyProcessed(from: Side, to: Side, t: TestStruct)
    requires SendableStruct(t)
    ensures Process(to, StructBody(from, t)) == GotTestStruct(t)
  {
    hide Encode, Decode, EncodeTestStruct, DecodeTestStruct;
    ProcessOnePacket(from, to, TEST_STRUCT, EncodeTestStruct(t));
    TestStructFits(t);
    TestStructRoundTrip(t, []);
    assert EncodeTestStruct(t) + [] == EncodeTestStruct(t);
  }

  /** Structures sent over one connection, cut into arrivals in any way, are processed as the structures
      sent, in order: always a beginning of the list, and the whole list once the stream has arrived. */
  lemma StructsArrive(from: Side, to: Side, ts: seq<TestStruct>, segments: seq<seq<byte>>) returns (k: nat)
    requires forall t | t in ts :: SendableStruct(t)
    requires var bodies := seq(|ts|, i requires 0 <= i < |ts| => StructBody(from, ts[i]));
             Concat(segments) <= Frames(bodies)
    ensures var bodies := seq(|ts|, i requires 0 <= i < |ts| => StructBody(from, ts[i]));
            var p := FeedAll(Progress([], []), segments);
            && k <= |ts| && |p.bodies| == k
            && (forall i | 0 <= i < k :: Process(to, p.bodies[i]) == GotTestStruct(ts[i]))
            && (Concat(segments) == Frames(bodies) <==> k == |ts|)
  {
    hide StructBody, Process, SendableStruct, Frames, Concat, FeedAll, Deframe;
    var bodies := seq(|ts|, i requires 0 <= i < |ts| => StructBody(from, ts[i]));
    forall b | b in bodies ensures |b| < MAX32 {
      var i :| 0 <= i < |bodies| && bodies[i] == b;
      StructBodySize(from, ts[i]);
    }
    k := Delivery(bodies, segments);
    forall i | 0 <= i < k ensures Process(to, bodies[i]) == GotTestStruct(ts[i]) {
      StructBodyProcessed(from, to, ts[i]);
    }
  }

  /** The address and port the server sends on accepting a client reach the client. */
  lemma FirstDataArrives(f: FirstData)
    requires |f.client_addr| < MAX32 - 4
    ensures Process(Client, Encode(OnePacket(Server, FIRST_DATA, EncodeFirstData(f)))) == GotFirstData(f)
  {
    hide Encode, Decode, EncodeFirstData, DecodeFirstData;
    ProcessOnePacket(Server, Client, FIRST_DATA, EncodeFirstData(f));
    FirstDataRoundTrip(f, []);
    assert EncodeFirstData(f) + [] == EncodeFirstData(f);
  }
}
