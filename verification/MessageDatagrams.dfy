/** The test message that the server broadcasts, from its codec through the fragments to the receiver's parse. */
module MessageDatagrams {
  import opened Wire
  import opened Packet
  import opened Messages
  import opened Fragments
  import opened Reassembly
  import opened Datagrams

  /** What the receiver logs: the test message in a buffer, None when there is none or its text ends behind the buffer. */
  function MessageIn(buf: seq<byte>): Option<TestMessage> {
    match Decode(buf)
    case None => None
    case Some(p) =>
      if p.header.server_hash == SERVER_HASH && p.d_type == TEST_MESSAGE then DecodeTestMessage(p.buffer) else None
  }

  /** A text is logged only from a buffer with the hash 1337 and the type 0, and then from its payload. */
  lemma LoggedOnly(buf: seq<byte>, m: TestMessage)
    ensures MessageIn(buf) == Some(m) <==>
            && |buf| >= 17
            && buf[0] as int + 0x100 * (buf[1] as int) == 1337
            && buf[15] as int + 0x100 * (buf[16] as int) == 0
            && DecodeTestMessage(buf[17..]) == Some(m)
  {
    hide DecodeTestMessage, DecodeHeader;
    if |buf| >= 17 {
      ParsedLayout(buf);
      hide FromLe16;
    }
  }

  /** The datagrams of one broadcast of a test message to one client. */
  function MessageSent(C: Chunk, m: TestMessage): seq<seq<byte>>
    requires Exact(EncodeTestMessage(m))
  {
    EncodeAll(Split(C, TEST_MESSAGE, EncodeTestMessage(m)))
  }

  /** The first datagram carries the message up to the chunk size; it is the only one when the message fits. */
  lemma FirstDatagram(C: Chunk, m: TestMessage) returns (p: Packet)
    requires Exact(EncodeTestMessage(m))
    ensures var e, ds := EncodeTestMessage(m), MessageSent(C, m);
            && ds != [] && ds[0] == Encode(p) && (|ds| == 1 <==> |e| <= C)
            && p.header.server_hash == SERVER_HASH && p.d_type == TEST_MESSAGE
            && p.buffer == if |e| <= C then e else e[..C]
  {
    var e := EncodeTestMessage(m);
    MessageSize(m);
    hide EncodeTestMessage, Encode, Packets;
    Chunks(C, e);
    p := Fragment(C, TEST_MESSAGE, e, 0);
    FragmentPayload(C, TEST_MESSAGE, e, 0);
    assert e[..|e|] == e;
  }

  lemma MessageSize(m: TestMessage)
    ensures |EncodeTestMessage(m)| == 4 + |m.message|
  {
    EncodeStringSize(m.message);
  }

  lemma Chunks(C: Chunk, e: seq<byte>)
    requires Exact(e) && e != []
    ensures Packets(C, e) >= 1 && (Packets(C, e) == 1 <==> |e| <= C)
    ensures Size(C, e, 0) == if |e| <= C then |e| else C
  {
    CountBounds(C, Total(e));
    hide Packets, Size, Count;
    PacketsIsCount(C, e);
    ChunkInside(C, e, 0);
    if Packets(C, e) > 1 { ChunkInside(C, e, 1); }
  }

  lemma ReceiveMessage(C: Chunk, st: Assembly, p: Packet)
    requires p.header.server_hash == SERVER_HASH && p.d_type == TEST_MESSAGE
    ensures MessageIn(Encode(p)) == DecodeTestMessage(p.buffer)
    ensures Receive(C, st, Encode(p)) == if DecodeTestMessage(p.buffer).Some? then Stepped(st, None) else OutOfBounds
  {
    hide Encode, Decode, Step, DecodeTestMessage;
    DecodeEncode(p);
  }

  /** A buffer that starts with the encoding is read, one that is cut off before its end is not. */
  lemma ReadStart(m: TestMessage, K: nat, tail: seq<byte>)
    requires Exact(EncodeTestMessage(m)) && K >= 4
    ensures DecodeTestMessage(EncodeTestMessage(m) + tail) == Some(m)
    ensures K < |EncodeTestMessage(m)| ==> DecodeTestMessage(EncodeTestMessage(m)[..K]) == None
  {
    MessageSize(m);
    TestMessageRoundTrip(m, tail);
    hide Be32, FromBe32;
    var e := EncodeTestMessage(m);
    Be32RoundTrip(|m.message|, []);
    if K < |e| {
      assert e[..K][0..4] == Be32(|m.message|);
    }
  }

  /** Parsing the whole buffer of K + 17 bytes, with K at most the chunk size, a test message is read back, in one
      datagram, exactly when 4 + |message| <= K; otherwise the read leaves the buffer. */
  lemma MessageWhole(C: Chunk, K: int, m: TestMessage, st: Assembly, rbuf: seq<byte>)
    requires 4 <= K <= C && |rbuf| == PREFIX_SIZE + K && Exact(EncodeTestMessage(m))
    ensures var ds, fits := MessageSent(C, m), 4 + |m.message| <= K;
            && ds != []
            && MessageIn(Fill(rbuf, ds[0])) == (if fits then Some(m) else None)
            && RunBuffers(C, st, Buffers(rbuf, ds)) == (if fits then Ran(st, []) else Failed)
            && (fits ==> |ds| == 1)
  {
    var p := FirstDatagram(C, m);
    var e, ds := EncodeTestMessage(m), MessageSent(C, m);
    MessageSize(m);
    FillEncodes(rbuf, p);
    ParsedMessage(rbuf, p, e, K, C);
    ReceiveMessage(C, st, Parsed(rbuf, p));
    ReadStart(m, K, if |e| <= K then rbuf[PREFIX_SIZE + |e|..] else []);
    RunOneMore(C, st, rbuf, ds);
    hide MessageSent, EncodeTestMessage, DecodeTestMessage, Encode, Receive, Fill, MessageIn, Buffers, RunBuffers, Parsed;
    if |e| <= K {
      assert ds[1..] == [];
      NoBuffers(C, st, Fill(rbuf, ds[0]));
    }
  }

  lemma ParsedMessage(rbuf: seq<byte>, p: Packet, e: seq<byte>, K: nat, C: nat)
    requires K <= C && |rbuf| == PREFIX_SIZE + K && p.buffer == if |e| <= C then e else e[..C]
    ensures Parsed(rbuf, p).buffer == if |e| <= K then e + rbuf[PREFIX_SIZE + |e|..] else e[..K]
    ensures Parsed(rbuf, p).header == p.header && Parsed(rbuf, p).d_type == p.d_type
  {
    if |e| <= K { assert rbuf[PREFIX_SIZE..][|e|..] == rbuf[PREFIX_SIZE + |e|..]; }
  }

  /** With payloads of exact length and a buffer that takes whole packets, exactly when 4 + |message| <= C. */
  lemma MessageExactly(C: Chunk, R: nat, m: TestMessage, st: Assembly)
    requires 4 <= C && C + PREFIX_SIZE <= R && Exact(EncodeTestMessage(m))
    ensures var ds, fits := MessageSent(C, m), 4 + |m.message| <= C;
            && ds != []
            && MessageIn(Truncate(R, ds[0])) == (if fits then Some(m) else None)
            && RunBuffers(C, st, TruncateAll(R, ds)) == (if fits then Ran(st, []) else Failed)
  {
    var p := FirstDatagram(C, m);
    var e, ds := EncodeTestMessage(m), MessageSent(C, m);
    MessageSize(m);
    ReceiveMessage(C, st, p);
    ReadStart(m, C, []);
    assert e + [] == e;
    assert TruncateAll(R, ds)[0] == ds[0];
    hide MessageSent, EncodeTestMessage, DecodeTestMessage, Encode, Receive, MessageIn;
    if |e| <= C {
      assert TruncateAll(R, ds)[1..] == [];
    }
  }

  /** With the shipped values a test message is read back exactly when its text has at most 1451 bytes. */
  lemma MessageShipped(m: TestMessage, st: Assembly, rbuf: seq<byte>)
    requires |rbuf| == BUFFER_SIZE && Exact(EncodeTestMessage(m))
    ensures var ds := MessageSent(MAX_SIZE_UDP, m);
            && ds != []
            && MessageIn(Fill(rbuf, ds[0])) == (if |m.message| <= 1451 then Some(m) else None)
            && RunBuffers(MAX_SIZE_UDP, st, Buffers(rbuf, ds)) == (if |m.message| <= 1451 then Ran(st, []) else Failed)
  {
    hide MessageSent, EncodeTestMessage, RunBuffers, Buffers, MessageIn, Fill;
    MessageWhole(MAX_SIZE_UDP, 1455, m, st, rbuf);
  }
}
