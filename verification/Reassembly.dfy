/** The image reassembly shared by AsioUdpManager::processPacket and BoostUdpConnection::prcsPacket. */
module Reassembly {
  import opened Products
  import opened Wire
  import opened Packet
  import opened Fragments

  /** assembly_buffer and assembly_total_size. */
  datatype Assembly = Assembly(buffer: seq<byte>, total: u32)

  const IDLE := Assembly([], 0)

  /** One image packet: the copy leaves the buffer's bounds (undefined in the source), or the new state
      and the image handed on when the packet is flagged last. */
  datatype StepResult = OutOfBounds | Stepped(st: Assembly, image: Option<seq<byte>>)

  function Zeros(n: nat): (z: seq<byte>)
    ensures |z| == n
  {
    seq(n, _ => 0)
  }

  function ChunkOffset(C: Chunk, number: u16): u32 {
    ToU32((number as int - 1) * C)
  }

  function Paste(buf: seq<byte>, o: nat, payload: seq<byte>): (r: seq<byte>)
    requires o + |payload| <= |buf|
    ensures |r| == |buf|
  {
    buf[..o] + payload + buf[o + |payload|..]
  }

  /** The state in which the copy is made. */
  function Begin(st: Assembly, h: PacketHeader): Assembly {
    if h.isFirst == 1 then Assembly(Zeros(h.total_data_size), h.total_data_size) else st
  }

  function Step(C: Chunk, st: Assembly, p: Packet): StepResult {
    var st1 := Begin(st, p.header);
    var o := ChunkOffset(C, p.header.cur_packet_number);
    if o + |p.buffer| > |st1.buffer| then OutOfBounds
    else
      var buffer := Paste(st1.buffer, o, p.buffer);
      if p.header.isLast == 1 then Stepped(IDLE, Some(buffer))
      else Stepped(Assembly(buffer, st1.total), None)
  }

  /** One image packet, byte by byte: where the copy goes, when it leaves the buffer, what the buffer then holds, and
      what the two flags do. Only the value 1 of a flag counts. */
  lemma StepBytes(C: Chunk, st: Assembly, p: Packet)
    ensures var h, s := p.header, Step(C, st, p);
            var o := (h.cur_packet_number as int - 1) * C % 0x1_0000_0000;
            var n := if h.isFirst == 1 then h.total_data_size as int else |st.buffer|;
            && (s == OutOfBounds <==> o + |p.buffer| > n)
            && (s.Stepped? && h.isLast == 1 ==> s.st == Assembly([], 0) && s.image.Some?)
            && (s.Stepped? && h.isLast != 1 ==>
                  s.image == None && s.st.total == if h.isFirst == 1 then h.total_data_size else st.total)
            && (s.Stepped? ==>
                  var now := if h.isLast == 1 then s.image.value else s.st.buffer;
                  && |now| == n
                  && forall j | 0 <= j < n ::
                       now[j] == if o <= j < o + |p.buffer| then p.buffer[j - o]
                                 else if h.isFirst == 1 then 0 else st.buffer[j])
  {}

  datatype RunResult = Failed | Ran(st: Assembly, images: seq<seq<byte>>)

  function Images(image: Option<seq<byte>>): seq<seq<byte>> {
    if image.Some? then [image.value] else []
  }

  /** Packets one after the other, with the images handed on. */
  function Run(C: Chunk, st: Assembly, ps: seq<Packet>): RunResult
    decreases |ps|
  {
    if ps == [] then Ran(st, [])
    else
      match Step(C, st, ps[0])
      case OutOfBounds => Failed
      case Stepped(st1, image) =>
        (match Run(C, st1, ps[1..])
         case Failed => Failed
         case Ran(st2, images) => Ran(st2, Images(image) + images))
  }

  lemma {:induction false} RunAppend(C: Chunk, st: Assembly, a: seq<Packet>, b: seq<Packet>)
    ensures Run(C, st, a + b) ==
            match Run(C, st, a)
            case Failed => Failed
            case Ran(st1, images1) =>
              (match Run(C, st1, b)
               case Failed => Failed
               case Ran(st2, images2) => Ran(st2, images1 + images2))
    decreases |a|
  {
    hide Step, Images;
    if a == [] {
      assert a + b == b;
      if Run(C, st, b).Ran? { assert [] + Run(C, st, b).images == Run(C, st, b).images; }
    } else {
      assert (a + b)[1..] == a[1..] + b;
      var s := Step(C, st, a[0]);
      if s.Stepped? {
        RunAppend(C, s.st, a[1..], b);
        var r := Run(C, s.st, a[1..]);
        if r.Ran? {
          var q := Run(C, r.st, b);
          if q.Ran? { assert Images(s.image) + (r.images + q.images) == (Images(s.image) + r.images) + q.images; }
        }
      }
    }
  }

  lemma RunOne(C: Chunk, st: Assembly, p: Packet)
    requires Step(C, st, p).Stepped?
    ensures Run(C, st, [p]) == Ran(Step(C, st, p).st, Images(Step(C, st, p).image))
  {
    hide Step, Images;
    var s := Step(C, st, p);
    assert Run(C, s.st, []) == Ran(s.st, []);
    assert [p][1..] == [];
    assert Images(s.image) + [] == Images(s.image);
  }

  // ---- What the buffer holds ----

  /** The message restricted to the first K bytes of each chunk in S, zero elsewhere. */
  function Patch(C: Chunk, K: int, data: seq<byte>, S: set<nat>): (r: seq<byte>)
    ensures |r| == |data|
  {
    seq(|data|, j requires 0 <= j < |data| => if j / C in S && j % C < K then data[j] else 0)
  }

  /** A payload cut to its first K bytes. */
  function Cut(p: Packet, K: int): Packet
    requires K >= 1
  {
    p.(buffer := if K < |p.buffer| then p.buffer[..K] else p.buffer)
  }

  /** The declared size is the real one. */
  predicate Exact(data: seq<byte>) {
    Sendable(data) && Total(data) == |data|
  }

  /** Copying the first K bytes of chunk k, which starts at o, adds k to the chunks that are there. */
  lemma PasteChunk(C: Chunk, K: int, data: seq<byte>, S: set<nat>, k: nat, o: nat, size: nat, n: nat)
    requires K >= 1 && o == k * C && size <= C && o + size <= |data|
    requires size < C ==> o + size == |data|
    requires n == if K < size then K else size
    ensures Paste(Patch(C, K, data, S), o, data[o..o + n]) == Patch(C, K, data, S + {k})
  {
    var before, after := Patch(C, K, data, S), Patch(C, K, data, S + {k});
    forall j | 0 <= j < |data| ensures Paste(before, o, data[o..o + n])[j] == after[j] {
      Quotient(j, C, k);
    }
  }

  /** Packet k, payload cut, as the receiver sees it. */
  function Sent(C: Chunk, K: int, data: seq<byte>, k: nat): Packet
    requires K >= 1 && Exact(data) && k < Packets(C, data)
  {
    Cut(Fragment(C, IMAGE, data, k), K)
  }

  lemma SentShape(C: Chunk, K: int, data: seq<byte>, k: nat)
    requires K >= 1 && Exact(data) && k < Packets(C, data)
    ensures var p, size := Sent(C, K, data, k), Size(C, data, k);
            var n := if K < size then K else size;
            && 0 <= k * C <= k * C + n <= k * C + size <= |data|
            && p.buffer == data[k * C..k * C + n]
            && p.header.total_data_size == |data|
            && p.header.cur_packet_number == ToU16(k + 1)
            && p.header.isFirst == (if k == 0 then 1 else 0)
            && p.header.isLast == (if k + 1 == Packets(C, data) then 1 else 0)
  {
    hide Packets, Size, ToU16, ToU32;
    ChunkInside(C, data, k);
    FragmentPayload(C, IMAGE, data, k);
  }

  lemma PastePatch(C: Chunk, K: int, data: seq<byte>, S: set<nat>, k: nat)
    requires K >= 1 && Exact(data) && k < Packets(C, data)
    ensures var payload := Sent(C, K, data, k).buffer;
            && k * C + |payload| <= |data|
            && Paste(Patch(C, K, data, S), k * C, payload) == Patch(C, K, data, S + {k})
  {
    hide Packets, Size, Sent, Patch, Paste;
    SentShape(C, K, data, k);
    ChunkInside(C, data, k);
    var size := Size(C, data, k);
    PasteChunk(C, K, data, S, k, k * C, size, if K < size then K else size);
  }

  lemma OffsetExact(C: Chunk, k: nat)
    requires k < 65535
    ensures ChunkOffset(C, ToU16(k + 1)) == k * C
  {
    MulLess(k, 65535, C);
    MulNonNegative(k, C);
    NumberExact(k + 1);
    SmallProduct(C, k * C);
    hide ToU16, ToU32;
  }

  lemma NumberExact(n: nat)
    requires n <= 65535
    ensures ToU16(n) == n
  {}

  lemma SmallProduct(C: Chunk, n: nat)
    requires n <= 65535 * C
    ensures ToU32(n) == n
  {}

  /** What the buffer holds after packet k: the first packet starts afresh. */
  function After(S: set<nat>, k: nat): set<nat> {
    (if k == 0 then {} else S) + {k}
  }

  /** Packet k of a message arrives at a buffer that holds the chunks in S. */
  lemma StepPatch(C: Chunk, K: int, data: seq<byte>, S: set<nat>, k: nat, st: Assembly)
    requires K >= 1 && Exact(data) && k < Packets(C, data) && k < 65535
    requires k > 0 ==> st.buffer == Patch(C, K, data, S)
    ensures var now := Patch(C, K, data, After(S, k));
            Step(C, st, Sent(C, K, data, k)) ==
            if k + 1 == Packets(C, data) then Stepped(IDLE, Some(now))
            else Stepped(Assembly(now, if k == 0 then |data| else st.total), None)
  {
    hide Packets, Size, Sent, Patch, Paste, ChunkOffset, Zeros, ToU16;
    FirstPatch(C, K, data);
    PastePatch(C, K, data, if k == 0 then {} else S, k);
    OffsetExact(C, k);
    SentShape(C, K, data, k);
  }

  lemma FirstPatch(C: Chunk, K: int, data: seq<byte>)
    ensures Zeros(|data|) == Patch(C, K, data, {})
  {}

  // ---- One message, any order of the middle packets ----

  /** The packets of `data` with the given indices, in the given order, payloads cut to K bytes. */
  function Pick(C: Chunk, K: int, data: seq<byte>, ks: seq<nat>): (ps: seq<Packet>)
    requires K >= 1 && Exact(data)
    requires forall i | 0 <= i < |ks| :: ks[i] < Packets(C, data)
    ensures |ps| == |ks|
  {
    seq(|ks|, i requires 0 <= i < |ks| => Sent(C, K, data, ks[i]))
  }

  function Indices(ks: seq<nat>): set<nat> {
    set k | k in ks
  }

  /** Indices strictly between the first and the last packet. */
  predicate Middles(C: Chunk, data: seq<byte>, ks: seq<nat>) {
    forall i | 0 <= i < |ks| :: 0 < ks[i] < 65535 && ks[i] + 1 < Packets(C, data)
  }

  lemma {:induction false} RunMiddles(C: Chunk, K: int, data: seq<byte>, S: set<nat>, ks: seq<nat>, st: Assembly)
    requires K >= 1 && Exact(data) && Middles(C, data, ks)
    requires st.buffer == Patch(C, K, data, S)
    ensures Run(C, st, Pick(C, K, data, ks)) == Ran(Assembly(Patch(C, K, data, S + Indices(ks)), st.total), [])
    decreases |ks|
  {
    hide Packets, Patch, Step, Sent, Exact;
    if ks == [] {
      assert S + Indices(ks) == S;
    } else {
      var ps := Pick(C, K, data, ks);
      StepPatch(C, K, data, S, ks[0], st);
      var st1 := Step(C, st, ps[0]).st;
      RunMiddles(C, K, data, S + {ks[0]}, ks[1..], st1);
      assert ps[1..] == Pick(C, K, data, ks[1..]);
      assert S + {ks[0]} + Indices(ks[1..]) == S + Indices(ks) by { assert ks == [ks[0]] + ks[1..]; }
    }
  }

  /** The first packet and any middle packets leave an unfinished image, whatever was there before. */
  lemma RunUnfinished(C: Chunk, K: int, data: seq<byte>, ks: seq<nat>, st: Assembly)
    requires K >= 1 && Exact(data) && Middles(C, data, ks) && Packets(C, data) >= 2
    ensures Run(C, st, Pick(C, K, data, [0] + ks)) ==
            Ran(Assembly(Patch(C, K, data, {0} + Indices(ks)), |data|), [])
  {
    hide Packets, Patch, Step, Sent, Exact;
    var ps := Pick(C, K, data, [0] + ks);
    StepPatch(C, K, data, {}, 0, st);
    var st1 := Step(C, st, ps[0]).st;
    assert {} + {0} == {0};
    RunMiddles(C, K, data, {0}, ks, st1);
    assert ps[1..] == Pick(C, K, data, ks);
    assert Images(None) + [] == [];
  }

  /** First packet first, last packet last, any middle packets in any order and number in between:
      exactly one image is handed on, holding the chunks that arrived and zeros for those that did not. */
  lemma RunComplete(C: Chunk, K: int, data: seq<byte>, ks: seq<nat>, st: Assembly)
    requires K >= 1 && Exact(data) && Middles(C, data, ks) && 2 <= Packets(C, data) <= 65535
    ensures var last := Packets(C, data) - 1;
            Run(C, st, Pick(C, K, data, [0] + ks + [last])) ==
            Ran(IDLE, [Patch(C, K, data, {0} + Indices(ks) + {last})])
  {
    hide Packets, Patch, Step, Sent, Exact;
    var last := Packets(C, data) - 1;
    RunUnfinished(C, K, data, ks, st);
    var a, b := Pick(C, K, data, [0] + ks), Pick(C, K, data, [last]);
    assert Pick(C, K, data, [0] + ks + [last]) == a + b;
    RunAppend(C, st, a, b);
    var S := {0} + Indices(ks);
    var st1 := Assembly(Patch(C, K, data, S), |data|);
    StepPatch(C, K, data, S, last, st1);
    assert b == [b[0]];
    RunOne(C, st1, b[0]);
    assert [] + [Patch(C, K, data, S + {last})] == [Patch(C, K, data, S + {last})];
  }

  lemma RunSingle(C: Chunk, K: int, data: seq<byte>, st: Assembly)
    requires K >= 1 && Exact(data) && Packets(C, data) == 1
    ensures Run(C, st, Pick(C, K, data, [0])) == Ran(IDLE, [Patch(C, K, data, {0})])
  {
    hide Packets, Patch, Step, Sent, Exact;
    var ps := Pick(C, K, data, [0]);
    StepPatch(C, K, data, {}, 0, st);
    assert {} + {0} == {0};
    assert ps == [ps[0]];
    RunOne(C, st, ps[0]);
  }

  // ---- What a patch says ----

  /** A chunk that arrived is there, a chunk that did not is zero, byte by byte. */
  lemma PatchChunks(C: Chunk, data: seq<byte>, S: set<nat>, k: nat, j: nat)
    requires k * C <= j < k * C + C && j < |data|
    ensures Patch(C, C, data, S)[j] == if k in S then data[j] else 0
  {
    Quotient(j, C, k);
  }

  /** The chunks of a message. */
  predicate AllChunks(C: Chunk, data: seq<byte>, S: set<nat>) {
    forall k: nat | k < Packets(C, data) :: k in S
  }

  /** All chunks together are the message, as far as the cut leaves them. */
  lemma PatchAll(C: Chunk, K: int, data: seq<byte>, S: set<nat>)
    requires Exact(data) && AllChunks(C, data, S)
    ensures forall j | 0 <= j < |data| :: Patch(C, K, data, S)[j] == if j % C < K then data[j] else 0
    ensures K >= C ==> Patch(C, K, data, S) == data
  {
    forall j | 0 <= j < |data| ensures Patch(C, K, data, S)[j] == if j % C < K then data[j] else 0 {
      ChunkOfByte(C, data, j);
    }
    if K >= C {
      forall j | 0 <= j < |data| ensures Patch(C, K, data, S)[j] == data[j] {
        DivMod(j, C);
      }
    }
  }

  lemma ChunkOfByte(C: Chunk, data: seq<byte>, j: nat)
    requires Exact(data) && j < |data|
    ensures 0 <= j / C < Packets(C, data)
  {
    CountBounds(C, Total(data));
    hide Count, ToU32;
    DivBounds(j, C);
    if j / C >= Packets(C, data) { MulLess(Packets(C, data), j / C, C); }
  }

  /** Any permutation of the middle packets, with any repetitions, reassembles to the message. */
  lemma OrderIndependent(C: Chunk, data: seq<byte>, ks: seq<nat>, st: Assembly)
    requires Exact(data) && Middles(C, data, ks) && 2 <= Packets(C, data) <= 65535
    requires AllChunks(C, data, {0} + Indices(ks) + {Packets(C, data) - 1})
    ensures Run(C, st, Pick(C, C, data, [0] + ks + [Packets(C, data) - 1])) == Ran(IDLE, [data])
  {
    hide Patch, Step, Sent, Run, Packets, Exact;
    RunComplete(C, C, data, ks, st);
    PatchAll(C, C, data, {0} + Indices(ks) + {Packets(C, data) - 1});
  }

  // ---- Many messages, lost packets ----

  /** One message on its way: the middle packets that arrive, in arrival order, and whether the last one does. */
  datatype Transmission = Transmission(data: seq<byte>, middles: seq<nat>, lastArrives: bool)

  predicate ValidTransmission(C: Chunk, t: Transmission) {
    && 1 <= |t.data| <= 65535 * C
    && Middles(C, t.data, t.middles)
    && (Packets(C, t.data) == 1 ==> t.middles == [] && t.lastArrives)
  }

  lemma TransmissionExact(C: Chunk, t: Transmission)
    requires ValidTransmission(C, t)
    ensures Exact(t.data) && 1 <= Packets(C, t.data) <= 65535
  {
    NumberedIsExact(C, t.data);
    CountBounds(C, Total(t.data));
  }

  /** The indices of the packets that arrive; the first one always does. */
  function Arriving(C: Chunk, t: Transmission): seq<nat>
    requires ValidTransmission(C, t)
  {
    TransmissionExact(C, t);
    if Packets(C, t.data) == 1 then [0]
    else [0] + t.middles + if t.lastArrives then [Packets(C, t.data) - 1] else []
  }

  lemma ArrivingBounds(C: Chunk, t: Transmission)
    requires ValidTransmission(C, t)
    ensures Exact(t.data)
    ensures forall i | 0 <= i < |Arriving(C, t)| :: Arriving(C, t)[i] < Packets(C, t.data)
  {
    TransmissionExact(C, t);
    hide Packets, Exact;
  }

  function Arrivals(C: Chunk, t: Transmission): seq<Packet>
    requires ValidTransmission(C, t)
  {
    ArrivingBounds(C, t);
    Pick(C, C, t.data, Arriving(C, t))
  }

  function AllArrivals(C: Chunk, ts: seq<Transmission>): seq<Packet>
    requires forall i | 0 <= i < |ts| :: ValidTransmission(C, ts[i])
  {
    if ts == [] then [] else Arrivals(C, ts[0]) + AllArrivals(C, ts[1..])
  }

  /** The image a transmission is expected to produce. */
  function Expected(C: Chunk, t: Transmission): seq<byte>
    requires ValidTransmission(C, t)
  {
    Patch(C, C, t.data, Indices(Arriving(C, t)))
  }

  /** The images of the transmissions whose last packet arrived. */
  function ExpectedImages(C: Chunk, ts: seq<Transmission>): seq<seq<byte>>
    requires forall i | 0 <= i < |ts| :: ValidTransmission(C, ts[i])
  {
    if ts == [] then []
    else (if ts[0].lastArrives then [Expected(C, ts[0])] else []) + ExpectedImages(C, ts[1..])
  }

  lemma IndicesJoin(ks: seq<nat>, last: nat)
    ensures Indices([0] + ks + [last]) == {0} + Indices(ks) + {last}
    ensures Indices([0]) == {0}
  {}

  lemma RunTransmission(C: Chunk, t: Transmission, st: Assembly)
    requires ValidTransmission(C, t)
    ensures var r := Run(C, st, Arrivals(C, t));
            r.Ran? && r.images == if t.lastArrives then [Expected(C, t)] else []
  {
    ArrivingBounds(C, t);
    TransmissionExact(C, t);
    IndicesJoin(t.middles, Packets(C, t.data) - 1);
    hide Packets, Exact, Patch, Pick, Run, Middles, Indices;
    if Packets(C, t.data) == 1 {
      RunSingle(C, C, t.data, st);
    } else if t.lastArrives {
      RunComplete(C, C, t.data, t.middles, st);
    } else {
      RunUnfinished(C, C, t.data, t.middles, st);
      assert [0] + t.middles + [] == [0] + t.middles;
    }
  }

  /** Whatever non-first packets are lost or reordered, the images handed on are, in order, exactly those of
      the messages whose last packet arrived, and no byte comes from an abandoned message. */
  lemma {:induction false} LossyRun(C: Chunk, ts: seq<Transmission>, st: Assembly)
    requires forall i | 0 <= i < |ts| :: ValidTransmission(C, ts[i])
    ensures var r := Run(C, st, AllArrivals(C, ts));
            r.Ran? && r.images == ExpectedImages(C, ts)
    decreases |ts|
  {
    hide ValidTransmission, Arrivals, Expected;
    if ts == [] {
      assert AllArrivals(C, ts) == [];
    } else {
      RunTransmission(C, ts[0], st);
      var st1 := Run(C, st, Arrivals(C, ts[0])).st;
      LossyRun(C, ts[1..], st1);
      RunAppend(C, st, Arrivals(C, ts[0]), AllArrivals(C, ts[1..]));
    }
  }

  /** Each expected image has the declared length, its own bytes where chunks arrived and zeros elsewhere. */
  lemma ExpectedBytes(C: Chunk, t: Transmission, j: nat)
    requires ValidTransmission(C, t) && j < |t.data|
    ensures |Expected(C, t)| == |t.data|
    ensures Expected(C, t)[j] == if j / C in Arriving(C, t) then t.data[j] else 0
  {
    DivMod(j, C);
    hide Arriving, Packets;
  }

  // ---- The whole message in order: exactly when it works ----

  function UpTo(n: nat): (s: seq<nat>)
    ensures |s| == n
  {
    seq(n, i requires 0 <= i < n => i)
  }

  lemma CutAll(C: Chunk, data: seq<byte>, k: nat)
    requires Exact(data) && k < Packets(C, data)
    ensures Sent(C, C, data, k) == Fragment(C, IMAGE, data, k)
  {
    hide Packets, Size;
    ChunkInside(C, data, k);
    FragmentPayload(C, IMAGE, data, k);
  }

  lemma FragmentsAsPick(C: Chunk, data: seq<byte>)
    requires Exact(data)
    ensures Split(C, IMAGE, data) == Pick(C, C, data, UpTo(Packets(C, data)))
  {
    hide Packets, Sent, Fragment, Total;
    forall k | 0 <= k < Packets(C, data) ensures Split(C, IMAGE, data)[k] == Sent(C, C, data, k) {
      CutAll(C, data, k);
    }
  }

  /** Every message of 1 to 65535 * C bytes is reassembled from its packets, from any earlier state. */
  lemma InOrder(C: Chunk, data: seq<byte>, st: Assembly)
    requires 1 <= |data| <= 65535 * C
    ensures Sendable(data)
    ensures Run(C, st, Split(C, IMAGE, data)) == Ran(IDLE, [data])
  {
    NumberedIsExact(C, data);
    CountBounds(C, Total(data));
    FragmentsAsPick(C, data);
    hide Packets, Sent, Patch, Run, Exact, Total;
    var n := Packets(C, data);
    if n == 1 {
      RunSingle(C, C, data, st);
      PatchAll(C, C, data, {0});
      assert UpTo(1) == [0];
    } else {
      var ks: seq<nat> := seq(n - 2, i requires 0 <= i < n - 2 => i + 1);
      assert UpTo(n) == [0] + ks + [n - 1];
      forall k: nat | 0 < k && k + 1 < n ensures k in ks { assert ks[k - 1] == k; }
      OrderIndependent(C, data, ks, st);
    }
  }

  /** The image is handed on by the last packet, and nothing before it. */
  lemma LastPacketFlushes(C: Chunk, data: seq<byte>, st: Assembly)
    requires 1 <= |data| <= 65535 * C
    ensures Sendable(data) && Packets(C, data) >= 1
    ensures var n := Packets(C, data);
            var before := Run(C, st, Split(C, IMAGE, data)[..n - 1]);
            && before.Ran? && before.images == []
            && Step(C, before.st, Split(C, IMAGE, data)[n - 1]) == Stepped(IDLE, Some(data))
  {
    NumberedIsExact(C, data);
    CountBounds(C, Total(data));
    var n := Packets(C, data);
    var ps := Split(C, IMAGE, data);
    assert ps[n - 1].header.isLast == 1;
    InOrder(C, data, st);
    hide Packets, Fragment, Total, Split;
    assert ps == ps[..n - 1] + [ps[n - 1]];
    RunAppend(C, st, ps[..n - 1], [ps[n - 1]]);
    var before := Run(C, st, ps[..n - 1]);
    assert before.Ran? && Run(C, before.st, [ps[n - 1]]).Ran?;
    LastImage(C, before.st, ps[n - 1]);
    var after := Run(C, before.st, [ps[n - 1]]);
    assert before.images + after.images == [data];
    assert |before.images| + |after.images| == 1;
    assert before.images == [];
    assert after.images == [data] by { assert [] + after.images == after.images; }
  }

  lemma LastImage(C: Chunk, st: Assembly, p: Packet)
    requires p.header.isLast == 1 && Run(C, st, [p]).Ran?
    ensures Step(C, st, p).Stepped? && Step(C, st, p).st == IDLE && Step(C, st, p).image.Some?
    ensures Run(C, st, [p]).images == [Step(C, st, p).image.value]
  {
    RunOne(C, st, p);
  }

  /** Packet 65536 is numbered 0, so its offset is below zero and its copy out of bounds. */
  lemma UnnumberedStep(C: Chunk, data: seq<byte>, st: Assembly)
    requires Exact(data) && Packets(C, data) > 65535 && |st.buffer| == |data|
    ensures Step(C, st, Sent(C, C, data, 65535)) == OutOfBounds
  {
    hide Packets, Size, Sent, ToU16, ChunkOffset;
    SentShape(C, C, data, 65535);
    NumberZero(C);
  }

  lemma NumberZero(C: Chunk)
    ensures ToU16(65536) == 0 && ChunkOffset(C, 0) == 0x1_0000_0000 - C
  {}

  lemma TooLong(C: Chunk, data: seq<byte>, st: Assembly)
    requires Exact(data) && Packets(C, data) > 65535
    ensures Run(C, st, Split(C, IMAGE, data)) == Failed
  {
    var ks, rest := Numbered(C, data);
    hide Packets, Sent, Patch, Exact, Step, Total, Split, Pick, Run;
    RunUnfinished(C, C, data, ks, st);
    var st1 := Run(C, st, Pick(C, C, data, [0] + ks)).st;
    UnnumberedStep(C, data, st1);
    RunFails(C, st1, rest);
    RunAppend(C, st, Pick(C, C, data, [0] + ks), rest);
  }

  lemma RunFails(C: Chunk, st: Assembly, ps: seq<Packet>)
    requires ps != [] && Step(C, st, ps[0]) == OutOfBounds
    ensures Run(C, st, ps) == Failed
  {}

  /** The packets that have numbers of their own, and those from number 65536 on. */
  lemma Numbered(C: Chunk, data: seq<byte>) returns (ks: seq<nat>, rest: seq<Packet>)
    requires Exact(data) && Packets(C, data) > 65535
    ensures Middles(C, data, ks) && Split(C, IMAGE, data) == Pick(C, C, data, [0] + ks) + rest
    ensures rest != [] && rest[0] == Sent(C, C, data, 65535)
  {
    FragmentsAsPick(C, data);
    hide Packets, Sent, Exact, Split, Total;
    ks := seq(65534, i requires 0 <= i < 65534 => i + 1);
    var ps := Split(C, IMAGE, data);
    rest := ps[65535..];
    assert Pick(C, C, data, [0] + ks) == ps[..65535];
  }

  /** With payloads delivered whole and in order, a message reaches the other side, and nothing else happens,
      exactly when it has at least one byte and at most 65535 chunks. */
  lemma RoundTripExactly(C: Chunk, data: seq<byte>, st: Assembly)
    requires Sendable(data)
    ensures (Run(C, st, Split(C, IMAGE, data)).Ran? && Run(C, st, Split(C, IMAGE, data)).images == [data]) <==>
            1 <= |data| <= 65535 * C
  {
    if 1 <= |data| <= 65535 * C {
      InOrder(C, data, st);
    } else {
      var short := data[..Total(data)];
      FragmentsOfPrefix(C, IMAGE, data);
      ShortOutcome(C, data, short, st);
    }
  }

  lemma ShortOutcome(C: Chunk, data: seq<byte>, short: seq<byte>, st: Assembly)
    requires Sendable(data) && short == data[..Total(data)] && !(1 <= |data| <= 65535 * C)
    ensures Exact(short)
    ensures var r := Run(C, st, Split(C, IMAGE, short)); !(r.Ran? && r.images == [data])
  {
    assert Exact(short);
    CountBounds(C, Total(short));
    if short == [] {
      assert Split(C, IMAGE, short) == [];
    } else if |short| <= 65535 * C {
      InOrder(C, short, st);
    } else {
      TooLong(C, short, st);
    }
  }
}
