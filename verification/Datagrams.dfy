/** From datagrams to image packets: exact payloads, and the fixed buffer the code really parses. */
module Datagrams {
  import opened Wire
  import opened Packet
  import opened Messages
  import opened Fragments
  import opened Reassembly

  const TEST_MESSAGE: u16 := 0
  const BUFFER_SIZE := 1472
  const MAX_SIZE_UDP: Chunk := 1472

  /** processPacket and prcsPacket on the bytes of one buffer. */
  function Receive(C: Chunk, st: Assembly, buf: seq<byte>): StepResult {
    match Decode(buf)
    case None => OutOfBounds
    case Some(pkt) =>
      if pkt.header.server_hash != SERVER_HASH then Stepped(st, None)
      else if pkt.d_type == TEST_MESSAGE then
        if DecodeTestMessage(pkt.buffer).Some? then Stepped(st, None) else OutOfBounds
      else if pkt.d_type == IMAGE then Step(C, st, pkt)
      else Stepped(st, None)
  }

  lemma ReceiveImage(C: Chunk, st: Assembly, p: Packet)
    requires p.header.server_hash == SERVER_HASH && p.d_type == IMAGE
    ensures Receive(C, st, Encode(p)) == Step(C, st, p)
  {
    hide Encode, Decode, Step;
    DecodeEncode(p);
  }

  /** What the receivers do with a buffer, by its bytes. */
  lemma ReceiveChecks(C: Chunk, st: Assembly, buf: seq<byte>)
    ensures |buf| < 17 ==> Receive(C, st, buf) == OutOfBounds
    ensures |buf| >= 17 ==>
              var hash, d_type := buf[0] as int + 0x100 * (buf[1] as int), buf[15] as int + 0x100 * (buf[16] as int);
              && Decode(buf).Some?
              && (hash != 1337 || d_type > 1 ==> Receive(C, st, buf) == Stepped(st, None))
              && (hash == 1337 && d_type == 0 ==>
                    Receive(C, st, buf)
                    == if DecodeTestMessage(buf[17..]).Some? then Stepped(st, None) else OutOfBounds)
              && (hash == 1337 && d_type == 1 ==> Receive(C, st, buf) == Step(C, st, Decode(buf).value))
  {
    hide DecodeTestMessage, DecodeHeader, Step;
    if |buf| >= 17 {
      ParsedLayout(buf);
      hide FromLe16;
    }
  }

  /** Of another program, or of a type that the receivers do not know. */
  predicate Foreign(buf: seq<byte>) {
    |buf| >= 17
    && (buf[0] as int + 0x100 * (buf[1] as int) != 1337 || buf[15] as int + 0x100 * (buf[16] as int) > 1)
  }

  // ---- Datagrams delivered with their exact length ----

  /** Buffers one after the other, with the images handed on. */
  function RunBuffers(C: Chunk, st: Assembly, bufs: seq<seq<byte>>): RunResult
    decreases |bufs|
  {
    if bufs == [] then Ran(st, [])
    else
      match Receive(C, st, bufs[0])
      case OutOfBounds => Failed
      case Stepped(st1, image) =>
        (match RunBuffers(C, st1, bufs[1..])
         case Failed => Failed
         case Ran(st2, images) => Ran(st2, Images(image) + images))
  }

  function OwnBuffers(bufs: seq<seq<byte>>): seq<seq<byte>> {
    if bufs == [] then [] else (if Foreign(bufs[0]) then [] else [bufs[0]]) + OwnBuffers(bufs[1..])
  }

  /** Foreign datagrams, wherever they come in between, change neither the images nor the buffer. */
  lemma {:induction false} ForeignHarmless(C: Chunk, st: Assembly, bufs: seq<seq<byte>>)
    ensures RunBuffers(C, st, bufs) == RunBuffers(C, st, OwnBuffers(bufs))
    decreases |bufs|
  {
    hide Receive, Foreign;
    if bufs != [] {
      var own := OwnBuffers(bufs[1..]);
      if Foreign(bufs[0]) {
        ForeignIgnored(C, st, bufs[0]);
        ForeignHarmless(C, st, bufs[1..]);
        assert [] + own == own;
        var r := RunBuffers(C, st, bufs[1..]);
        if r.Ran? { assert Images(None) + r.images == r.images; }
      } else {
        assert ([bufs[0]] + own)[1..] == own;
        var r := Receive(C, st, bufs[0]);
        if r.Stepped? { ForeignHarmless(C, r.st, bufs[1..]); }
      }
    }
  }

  lemma ForeignIgnored(C: Chunk, st: Assembly, buf: seq<byte>)
    requires Foreign(buf)
    ensures Receive(C, st, buf) == Stepped(st, None)
  {
    hide Receive;
    ReceiveChecks(C, st, buf);
  }

  predicate ImagePackets(ps: seq<Packet>) {
    forall i | 0 <= i < |ps| :: ps[i].header.server_hash == SERVER_HASH && ps[i].d_type == IMAGE
  }

  lemma {:induction false} RunEncoded(C: Chunk, st: Assembly, ps: seq<Packet>)
    requires ImagePackets(ps)
    ensures RunBuffers(C, st, EncodeAll(ps)) == Run(C, st, ps)
    decreases |ps|
  {
    hide Receive, Step, Encode, Images;
    if ps != [] {
      ReceiveImage(C, st, ps[0]);
      assert EncodeAll(ps)[1..] == EncodeAll(ps[1..]);
      var s := Step(C, st, ps[0]);
      if s.Stepped? { RunEncoded(C, s.st, ps[1..]); }
    }
  }

  lemma SplitImages(C: Chunk, data: seq<byte>)
    requires Sendable(data)
    ensures ImagePackets(Split(C, IMAGE, data))
  {
    hide Packets, Total;
  }

  /** A datagram of a receive buffer of R bytes: what does not fit is cut off. */
  function Truncate(R: nat, d: seq<byte>): seq<byte> {
    if |d| <= R then d else d[..R]
  }

  function TruncateAll(R: nat, ds: seq<seq<byte>>): (ts: seq<seq<byte>>)
    ensures |ts| == |ds|
  {
    seq(|ds|, i requires 0 <= i < |ds| => Truncate(R, ds[i]))
  }

  lemma NothingTruncated(C: Chunk, R: nat, data: seq<byte>)
    requires Sendable(data) && C + PREFIX_SIZE <= R
    ensures var ds := EncodeAll(Split(C, IMAGE, data)); TruncateAll(R, ds) == ds
  {
    hide Packets, Total, Size;
    var ps := Split(C, IMAGE, data);
    forall k | 0 <= k < |ps| ensures |Encode(ps[k])| <= R {
      ChunkInside(C, data, k);
      FragmentPayload(C, IMAGE, data, k);
    }
  }

  /** With a receive buffer that takes a whole packet and payloads of exact length, the datagrams of a message
      bring exactly that message to the other side when, and only when, it has 1 to 65535 * C bytes. */
  lemma TransferExactly(C: Chunk, R: nat, data: seq<byte>, st: Assembly)
    requires Sendable(data) && C + PREFIX_SIZE <= R
    ensures var r := RunBuffers(C, st, TruncateAll(R, EncodeAll(Split(C, IMAGE, data))));
            (r.Ran? && r.images == [data]) <==> 1 <= |data| <= 65535 * C
  {
    hide Packets, Total, Run, RunBuffers, EncodeAll, TruncateAll, Split, Sendable;
    NothingTruncated(C, R, data);
    SplitImages(C, data);
    RunEncoded(C, st, Split(C, IMAGE, data));
    RoundTripExactly(C, data, st);
  }

  // ---- The fixed receive buffer, parsed whole ----

  /** A datagram lands in the receive buffer; what was there before stays behind it. */
  function Fill(rbuf: seq<byte>, d: seq<byte>): (r: seq<byte>)
    ensures |r| == |rbuf|
  {
    if |d| <= |rbuf| then d + rbuf[|d|..] else d[..|rbuf|]
  }

  /** A datagram overwrites the beginning of the buffer, as far as it fits, and nothing else. */
  lemma FillBytes(rbuf: seq<byte>, d: seq<byte>, j: nat)
    requires j < |rbuf|
    ensures Fill(rbuf, d)[j] == if j < |d| then d[j] else rbuf[j]
  {}

  /** The contents of the receive buffer that the listen handlers have parsed, one for every datagram. */
  function Buffers(rbuf: seq<byte>, ds: seq<seq<byte>>): seq<seq<byte>>
    decreases |ds|
  {
    if ds == [] then []
    else
      var r := Fill(rbuf, ds[0]);
      [r] + Buffers(r, ds[1..])
  }

  /** One more datagram on the whole receive buffer. */
  lemma RunOneMore(C: Chunk, st: Assembly, rbuf: seq<byte>, ds: seq<seq<byte>>)
    requires ds != []
    ensures var r := Fill(rbuf, ds[0]);
            RunBuffers(C, st, Buffers(rbuf, ds)) ==
            match Receive(C, st, r)
            case OutOfBounds => Failed
            case Stepped(st1, image) =>
              (match RunBuffers(C, st1, Buffers(r, ds[1..]))
               case Failed => Failed
               case Ran(st2, images) => Ran(st2, Images(image) + images))
  {
    hide Receive, Images, Fill;
    var r := Fill(rbuf, ds[0]);
    assert Buffers(rbuf, ds)[1..] == Buffers(r, ds[1..]);
  }

  /** The packet the receiver parses when p lands on rbuf: p's header and K payload bytes, the last ones stale. */
  function Parsed(rbuf: seq<byte>, p: Packet): Packet
    requires |rbuf| >= PREFIX_SIZE
  {
    p.(buffer := Fill(rbuf[PREFIX_SIZE..], p.buffer))
  }

  lemma FillEncodes(rbuf: seq<byte>, p: Packet)
    requires |rbuf| >= PREFIX_SIZE
    ensures Fill(rbuf, Encode(p)) == Encode(Parsed(rbuf, p))
  {
    hide EncodeHeader, Le16;
    var head := EncodeHeader(p.header) + Le16(p.d_type);
    var tail := rbuf[PREFIX_SIZE..];
    if |p.buffer| <= |tail| {
      assert rbuf[|Encode(p)|..] == tail[|p.buffer|..];
    } else {
      assert Encode(p)[..|rbuf|] == head + p.buffer[..|tail|];
    }
  }

  lemma WholeStep(C: Chunk, st: Assembly, rbuf: seq<byte>, p: Packet)
    requires |rbuf| >= PREFIX_SIZE && p.header.server_hash == SERVER_HASH && p.d_type == IMAGE
    ensures Receive(C, st, Fill(rbuf, Encode(p))) == Step(C, st, Parsed(rbuf, p))
  {
    hide Encode, Step, Fill, Receive;
    FillEncodes(rbuf, p);
    ReceiveImage(C, st, Parsed(rbuf, p));
  }

  /** A payload of at least K bytes leaves nothing stale. */
  lemma ParsedIsCut(rbuf: seq<byte>, p: Packet, K: int)
    requires K >= 1 && |rbuf| == PREFIX_SIZE + K && |p.buffer| >= K
    ensures Parsed(rbuf, p) == Cut(p, K)
  {
    assert p.buffer[..|p.buffer|] == p.buffer;
  }

  function CutAllPackets(ps: seq<Packet>, K: int): (cs: seq<Packet>)
    requires K >= 1
    ensures |cs| == |ps|
  {
    seq(|ps|, i requires 0 <= i < |ps| => Cut(ps[i], K))
  }

  lemma {:induction false} RunWholeIsRun(C: Chunk, K: int, st: Assembly, rbuf: seq<byte>, ps: seq<Packet>)
    requires K >= 1 && |rbuf| == PREFIX_SIZE + K && ImagePackets(ps)
    requires forall i | 0 <= i < |ps| :: |ps[i].buffer| >= K
    ensures RunBuffers(C, st, Buffers(rbuf, EncodeAll(ps))) == Run(C, st, CutAllPackets(ps, K))
    decreases |ps|
  {
    hide Receive, Step, Encode, Fill, Cut, Images, Parsed, Buffers, RunBuffers;
    if ps == [] {
      NoBuffers(C, st, rbuf);
    } else {
      RunOneMore(C, st, rbuf, EncodeAll(ps));
      WholeStep(C, st, rbuf, ps[0]);
      ParsedIsCut(rbuf, ps[0], K);
      assert EncodeAll(ps)[1..] == EncodeAll(ps[1..]);
      assert CutAllPackets(ps, K)[1..] == CutAllPackets(ps[1..], K);
      var s := Step(C, st, Cut(ps[0], K));
      if s.Stepped? { RunWholeIsRun(C, K, s.st, Fill(rbuf, Encode(ps[0])), ps[1..]); }
    }
  }

  lemma NoBuffers(C: Chunk, st: Assembly, rbuf: seq<byte>)
    ensures RunBuffers(C, st, Buffers(rbuf, [])) == Ran(st, [])
  {}

  /** The last chunk's size. */
  function LastSize(C: Chunk, data: seq<byte>): int
    requires Packets(C, data) >= 1
  {
    Size(C, data, Packets(C, data) - 1)
  }

  lemma SizesAtLeast(C: Chunk, K: int, data: seq<byte>)
    requires Exact(data) && 1 <= Packets(C, data) && K <= LastSize(C, data)
    ensures K <= C
    ensures forall k | 0 <= k < Packets(C, data) :: |Split(C, IMAGE, data)[k].buffer| >= K
  {
    hide Packets, Size, Total;
    ChunkInside(C, data, Packets(C, data) - 1);
    forall k | 0 <= k < Packets(C, data) ensures |Split(C, IMAGE, data)[k].buffer| >= K {
      ChunkInside(C, data, k);
      FragmentPayload(C, IMAGE, data, k);
    }
  }

  lemma CutSplit(C: Chunk, K: int, data: seq<byte>)
    requires Exact(data) && K >= 1
    ensures CutAllPackets(Split(C, IMAGE, data), K) == Pick(C, K, data, UpTo(Packets(C, data)))
  {
    hide Packets, Fragment, Cut;
  }

  /** A run over all packets in order hands on the message as far as the cut leaves it. */
  lemma InOrderCut(C: Chunk, K: int, data: seq<byte>, st: Assembly)
    requires K >= 1 && Exact(data) && 1 <= Packets(C, data) <= 65535
    ensures exists S :: AllChunks(C, data, S) &&
              Run(C, st, Pick(C, K, data, UpTo(Packets(C, data)))) == Ran(IDLE, [Patch(C, K, data, S)])
  {
    hide Packets, Sent, Patch, Run, Exact;
    var n := Packets(C, data);
    if n == 1 {
      RunSingle(C, K, data, st);
      assert UpTo(1) == [0];
      assert AllChunks(C, data, {0});
    } else {
      var ks: seq<nat> := seq(n - 2, i requires 0 <= i < n - 2 => i + 1);
      assert UpTo(n) == [0] + ks + [n - 1];
      var S := {0} + Indices(ks) + {n - 1};
      forall k: nat | 0 < k && k + 1 < n ensures k in ks { assert ks[k - 1] == k; }
      assert AllChunks(C, data, S);
      RunComplete(C, K, data, ks, st);
    }
  }

  // ---- A short last chunk overruns the image ----

  /** While packets of one message arrive, a buffer of its size stays one, whatever the payloads are. */
  lemma StepKeepsLength(C: Chunk, data: seq<byte>, k: nat, st: Assembly, rbuf: seq<byte>)
    requires Exact(data) && k < Packets(C, data) && |rbuf| >= PREFIX_SIZE
    requires k > 0 ==> |st.buffer| == |data|
    ensures var s := Step(C, st, Parsed(rbuf, Fragment(C, IMAGE, data, k)));
            k + 1 < Packets(C, data) && s.Stepped? ==> |s.st.buffer| == |data|
  {
    hide Packets, Size, Fill, ToU16, ToU32, ChunkOffset, Paste;
    ChunkInside(C, data, k);
  }

  /** Packet m of a message leaves the image: a last chunk shorter than the payload that is parsed,
      or the packet whose number has wrapped to 0. */
  predicate Overruns(C: Chunk, data: seq<byte>, m: nat, R: nat) {
    m < Packets(C, data) && (m == 65535 || (m + 1 == Packets(C, data) <= 65535 && LastSize(C, data) < R - PREFIX_SIZE))
  }

  lemma StepOverruns(C: Chunk, data: seq<byte>, m: nat, st: Assembly, rbuf: seq<byte>)
    requires Exact(data) && |rbuf| >= PREFIX_SIZE && Overruns(C, data, m, |rbuf|)
    requires m > 0 ==> |st.buffer| == |data|
    ensures Step(C, st, Parsed(rbuf, Fragment(C, IMAGE, data, m))) == OutOfBounds
  {
    hide Packets, Size, Fill, ToU16, ToU32, ChunkOffset, Paste;
    ChunkInside(C, data, m);
    if m == 65535 { NumberZero(C); } else { OffsetExact(C, m); }
  }

  lemma {:induction false} OverrunLost(C: Chunk, data: seq<byte>, m: nat, k: nat, st: Assembly, rbuf: seq<byte>)
    requires Exact(data) && |rbuf| >= PREFIX_SIZE && k <= m && Overruns(C, data, m, |rbuf|)
    requires k > 0 ==> |st.buffer| == |data|
    ensures RunBuffers(C, st, Buffers(rbuf, EncodeAll(Split(C, IMAGE, data))[k..])) == Failed
    decreases m - k
  {
    hide Packets, Size, Step, Fill, Receive, Encode, Parsed, Fragment, Buffers, RunBuffers, LastSize;
    var ds := EncodeAll(Split(C, IMAGE, data));
    RunOneMore(C, st, rbuf, ds[k..]);
    var p := Fragment(C, IMAGE, data, k);
    assert ds[k..][0] == Encode(p) && ds[k..][1..] == ds[k + 1..];
    SplitImages(C, data);
    assert p == Split(C, IMAGE, data)[k];
    WholeStep(C, st, rbuf, p);
    if k == m {
      StepOverruns(C, data, m, st, rbuf);
    } else {
      StepKeepsLength(C, data, k, st, rbuf);
      var s := Step(C, st, Parsed(rbuf, p));
      if s.Stepped? { OverrunLost(C, data, m, k + 1, s.st, Fill(rbuf, Encode(p))); }
    }
  }

  /** The message with zeros behind the first K bytes of each chunk. */
  function Blanked(C: Chunk, K: int, data: seq<byte>): (r: seq<byte>)
    ensures |r| == |data|
  {
    seq(|data|, j requires 0 <= j < |data| => if j % C < K then data[j] else 0)
  }

  /** Blanking changes nothing exactly when the bytes it would blank are zero; it changes nothing twice. */
  lemma BlankedSame(C: Chunk, K: int, data: seq<byte>)
    ensures Blanked(C, K, data) == data <==> forall j | 0 <= j < |data| && j % C >= K :: data[j] == 0
    ensures Blanked(C, K, Blanked(C, K, data)) == Blanked(C, K, data)
  {
    var r := Blanked(C, K, data);
    forall j | 0 <= j < |data| ensures r[j] == if j % C < K then data[j] else 0 {}
  }

  /** The messages whose copies stay in bounds when K payload bytes are parsed from every datagram. */
  predicate Fits(C: Chunk, K: int, data: seq<byte>) {
    1 <= |data| <= 65535 * C && Packets(C, data) >= 1 && LastSize(C, data) >= K
  }

  /** Parsing the whole buffer of R = K + 17 bytes: all copies stay in bounds exactly when there are at most
      65535 chunks and the last one has at least K bytes; then one image is handed on, equal to the message in the
      first K bytes of each chunk and zero in the others. */
  lemma WholeBuffer(C: Chunk, K: int, data: seq<byte>, st: Assembly, rbuf: seq<byte>)
    requires K >= 1 && |rbuf| == PREFIX_SIZE + K && Exact(data) && data != []
    ensures RunBuffers(C, st, Buffers(rbuf, EncodeAll(Split(C, IMAGE, data)))) ==
            if Fits(C, K, data) then Ran(IDLE, [Blanked(C, K, data)]) else Failed
  {
    CountBounds(C, Total(data));
    hide Packets, Size, Run, RunBuffers, Buffers, Patch, EncodeAll, Pick, AllChunks, CutAllPackets, ImagePackets, Count,
         LastSize;
    PacketsIsCount(C, data);
    if Fits(C, K, data) {
      SizesAtLeast(C, K, data);
      SplitImages(C, data);
      RunWholeIsRun(C, K, st, rbuf, Split(C, IMAGE, data));
      CutSplit(C, K, data);
      InOrderCut(C, K, data, st);
      var S :| AllChunks(C, data, S) &&
        Run(C, st, Pick(C, K, data, UpTo(Packets(C, data)))) == Ran(IDLE, [Patch(C, K, data, S)]);
      PatchAll(C, K, data, S);
      assert Patch(C, K, data, S) == Blanked(C, K, data);
    } else {
      var ds := EncodeAll(Split(C, IMAGE, data));
      assert ds[0..] == ds;
      var n := Packets(C, data);
      OverrunLost(C, data, if n > 65535 then 65535 else n - 1, 0, st, rbuf);
    }
  }

  lemma PacketsIsCount(C: Chunk, data: seq<byte>)
    ensures Packets(C, data) == Count(C, Total(data))
  {}

  /** Whether a message fits depends on its length only. */
  lemma FitsByLength(C: Chunk, K: int, a: seq<byte>, b: seq<byte>)
    requires |a| == |b|
    ensures Fits(C, K, a) == Fits(C, K, b)
  {}

  /** Each parsed buffer is some earlier content with the datagram over it. */
  lemma {:induction false} BuffersLast(rbuf: seq<byte>, ds: seq<seq<byte>>) returns (before: seq<byte>)
    requires ds != []
    ensures |before| == |rbuf| && |Buffers(rbuf, ds)| == |ds|
    ensures Buffers(rbuf, ds)[|ds| - 1] == Fill(before, ds[|ds| - 1])
    decreases |ds|
  {
    hide Fill;
    var r := Fill(rbuf, ds[0]);
    if |ds| == 1 {
      assert Buffers(rbuf, ds) == [r];
      before := rbuf;
    } else {
      before := BuffersLast(r, ds[1..]);
    }
  }

  /** What the receiver with the shipped buffer makes of a message cut into the shipped chunks. */
  ghost function ShippedRun(data: seq<byte>, st: Assembly, rbuf: seq<byte>): RunResult
    requires Sendable(data)
  {
    RunBuffers(MAX_SIZE_UDP, st, Buffers(rbuf, EncodeAll(Split(MAX_SIZE_UDP, IMAGE, data))))
  }

  /** The shipped constants: chunks of 1472 bytes parsed from a buffer of 1472 bytes. Only messages whose last
      chunk has at least 1455 bytes survive, and the last 17 bytes of every full chunk come out as zero. */
  lemma ShippedConstants(data: seq<byte>, st: Assembly, rbuf: seq<byte>)
    requires |rbuf| == BUFFER_SIZE && Exact(data) && data != []
    ensures var w := ShippedRun(data, st, rbuf);
            && (w.Ran? <==> Fits(MAX_SIZE_UDP, 1455, data))
            && (w.Ran? ==>
                  && |w.images| == 1 && |w.images[0]| == |data|
                  && forall j | 0 <= j < |data| :: w.images[0][j] == if j % 1472 < 1455 then data[j] else 0)
  {
    hide Fits;
    WholeBuffer(MAX_SIZE_UDP, 1455, data, st, rbuf);
  }

  /** The shipped constants bring a message across exactly when its last chunk has at least 1455 bytes and the
      last 17 bytes of every full chunk are zero already. */
  lemma ShippedExactly(data: seq<byte>, st: Assembly, rbuf: seq<byte>)
    requires |rbuf| == BUFFER_SIZE && Exact(data)
    ensures var w := ShippedRun(data, st, rbuf);
            (w.Ran? && w.images == [data]) <==>
            Fits(MAX_SIZE_UDP, 1455, data) && forall j | 0 <= j < |data| && j % 1472 >= 1455 :: data[j] == 0
  {
    if data == [] {
      assert Split(MAX_SIZE_UDP, IMAGE, data) == [] && !Fits(MAX_SIZE_UDP, 1455, data);
    } else {
      hide Fits, Split;
      WholeBuffer(MAX_SIZE_UDP, 1455, data, st, rbuf);
      BlankedSame(MAX_SIZE_UDP, 1455, data);
    }
  }

  /** A message of one byte is copied out of bounds. */
  lemma OneByteLost(st: Assembly, rbuf: seq<byte>)
    requires |rbuf| == BUFFER_SIZE
    ensures Exact([7]) && ShippedRun([7], st, rbuf) == Failed
  {
    NumberedIsExact(MAX_SIZE_UDP, [7]);
    hide Size, Packets, ShippedRun;
    OneChunk([7]);
    ShippedConstants([7], st, rbuf);
  }

  function Sevens(n: nat): (s: seq<byte>)
    ensures |s| == n
  {
    seq(n, _ => 7)
  }

  /** One full chunk of sevens comes out with a zero at its end. */
  lemma FullChunkBlanked(st: Assembly, rbuf: seq<byte>)
    requires |rbuf| == BUFFER_SIZE
    ensures Exact(Sevens(1472))
    ensures var w := ShippedRun(Sevens(1472), st, rbuf);
            w.Ran? && |w.images| == 1 && |w.images[0]| == 1472 && w.images[0][1471] == 0
  {
    NumberedIsExact(MAX_SIZE_UDP, Sevens(1472));
    hide Size, Packets, ShippedRun, Sevens;
    OneChunk(Sevens(1472));
    ShippedConstants(Sevens(1472), st, rbuf);
  }

  lemma OneChunk(data: seq<byte>)
    requires 1 <= |data| <= MAX_SIZE_UDP
    ensures Exact(data) && Packets(MAX_SIZE_UDP, data) == 1 && LastSize(MAX_SIZE_UDP, data) == |data|
    ensures Fits(MAX_SIZE_UDP, 1455, data) <==> |data| >= 1455
  {
    NumberedIsExact(MAX_SIZE_UDP, data);
    hide Size, Packets, Count;
    PacketsIsCount(MAX_SIZE_UDP, data);
    CountBounds(MAX_SIZE_UDP, Total(data));
    ChunkInside(MAX_SIZE_UDP, data, 0);
  }
}
