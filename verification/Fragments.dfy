/** How sendData and broadCast cut a byte string into packets. */
module Fragments {
  import opened Products
  import opened Wire
  import opened Packet

  const IMAGE: u16 := 1

  /** Chunk sizes (MAX_SIZE_UDP) for which the int products of the loop are exact up to packet 65536. */
  type Chunk = c: int | 1 <= c <= 0x7FFF witness 1

  /** sendTotalSize: only the low 32 bits of the size. */
  function Total(data: seq<byte>): u32 {
    ToU32(|data|)
  }

  /** From 2^31 on the int product idx * MAX_SIZE_UDP overflows, which leaves the loop undefined. */
  predicate Sendable(data: seq<byte>) {
    Total(data) < 0x8000_0000
  }

  /** cnt in the code; the sum is an unsigned 32-bit sum. */
  function Count(C: Chunk, total: u32): nat {
    ToU32(total + C - 1) / C
  }

  function Packets(C: Chunk, data: seq<byte>): nat {
    Count(C, Total(data))
  }

  /** The size of chunk k. */
  function Size(C: Chunk, data: seq<byte>, k: nat): int {
    if k + 1 == Packets(C, data) then Total(data) - C * k else C
  }

  /** Chunk k lies inside the message, and the last chunk ends it. */
  lemma ChunkInside(C: Chunk, data: seq<byte>, k: nat)
    requires Sendable(data) && k < Packets(C, data)
    ensures 1 <= Size(C, data, k) <= C
    ensures 0 <= k * C <= k * C + Size(C, data, k) <= Total(data) <= |data|
    ensures k + 1 == Packets(C, data) ==> k * C + Size(C, data, k) == Total(data)
    ensures k + 1 < Packets(C, data) ==> Size(C, data, k) == C
  {
    CountBounds(C, Total(data));
    var cnt := Packets(C, data);
    hide Packets, Count, Total;
    MulNonNegative(k, C);
    MulLess(k, cnt, C);
    assert C * k == k * C;
    if k + 1 == cnt {
      assert cnt * C == k * C + C by { MulAdd(k, 1, C); }
    } else {
      assert k * C + C + C <= cnt * C by { MulAdd(k, 1, C); MulLess(k + 1, cnt, C); }
    }
  }

  /** The packet count is the rounded-up quotient; at most 65535 * C bytes give at most 65535 packets.
      When the 32-bit sum wraps, nothing is sent at all. */
  lemma CountExactly(C: Chunk, total: u32)
    ensures if total + C > MAX32 then Count(C, total) == 0 else total <= Count(C, total) * C < total + C
    ensures Count(C, total) == 0 <==> total == 0 || total + C > MAX32
    ensures total + C <= MAX32 ==> (Count(C, total) <= 65535 <==> total <= 65535 * C)
  {
    var cnt := Count(C, total);
    if total + C > MAX32 {
      assert ToU32(total + C - 1) == total + C - 1 - MAX32;
      hide Count, ToU32;
      Quotient(total + C - 1 - MAX32, C, 0);
    } else {
      assert ToU32(total + C - 1) == total + C - 1;
      hide Count, ToU32;
      DivBounds(total + C - 1, C);
      if cnt <= 65535 { MulLess(cnt, 65535, C); } else { MulLess(65535, cnt, C); }
      if cnt > 0 { MulLess(0, cnt, C); }
    }
  }

  lemma CountBounds(C: Chunk, total: u32)
    requires total < 0x8000_0000
    ensures total <= Count(C, total) * C < total + C
    ensures Count(C, total) <= 65535 <==> total <= 65535 * C
    ensures Count(C, total) == 0 <==> total == 0
  {
    hide Count;
    CountExactly(C, total);
  }

  /** makeHeader and the rest of the loop body, for packet k. */
  function Fragment(C: Chunk, d_type: u16, data: seq<byte>, k: nat): Packet
    requires Sendable(data) && k < Packets(C, data)
  {
    ChunkInside(C, data, k);
    var cnt, chunk := Packets(C, data), Size(C, data, k);
    Packet(PacketHeader(SERVER_HASH, Total(data), ToU16(cnt), ToU16(k + 1), ToU16(PREFIX_SIZE + chunk),
                        if k == 0 then 1 else 0, if k + 1 == cnt then 1 else 0, 0),
           d_type, data[k * C..k * C + chunk])
  }

  /** The fields of packet k of any message: numbers, counts and sizes modulo the width of their fields. */
  lemma FragmentFields(C: Chunk, d_type: u16, data: seq<byte>, k: nat)
    requires Sendable(data) && k < Packets(C, data)
    ensures var p := Fragment(C, d_type, data, k);
            && p.header.server_hash == 1337
            && p.header.total_data_size as int == |data| % 0x1_0000_0000
            && p.header.total_cnt_packets as int == Packets(C, data) % 0x1_0000
            && p.header.cur_packet_number as int == (k + 1) % 0x1_0000
            && p.header.cur_packet_size as int == (17 + |p.buffer|) % 0x1_0000
            && p.header.isFirst == (if k == 0 then 1 else 0)
            && p.header.isLast == (if k + 1 == Packets(C, data) then 1 else 0)
            && p.header.isCompressed == 0
            && p.d_type == d_type
            && k * C + |p.buffer| <= |data| && p.buffer == data[k * C..k * C + |p.buffer|]
  {
    FragmentPayload(C, d_type, data, k);
    ChunkInside(C, data, k);
    hide Packets, Size;
  }

  function Split(C: Chunk, d_type: u16, data: seq<byte>): (ps: seq<Packet>)
    requires Sendable(data)
    ensures |ps| == Packets(C, data)
  {
    seq(Packets(C, data), k requires 0 <= k < Packets(C, data) => Fragment(C, d_type, data, k))
  }

  function EncodeAll(ps: seq<Packet>): (bs: seq<seq<byte>>)
    ensures |bs| == |ps|
  {
    seq(|ps|, i requires 0 <= i < |ps| => Encode(ps[i]))
  }

  // ---- The packets partition the message ----

  function Payloads(ps: seq<Packet>): seq<byte> {
    if ps == [] then [] else Payloads(ps[..|ps| - 1]) + ps[|ps| - 1].buffer
  }

  lemma FragmentPayload(C: Chunk, d_type: u16, data: seq<byte>, k: nat)
    requires Sendable(data) && k < Packets(C, data)
    ensures 0 <= k * C <= k * C + Size(C, data, k) <= |data|
    ensures Fragment(C, d_type, data, k).buffer == data[k * C..k * C + Size(C, data, k)]
  {
    hide Packets, Size;
    ChunkInside(C, data, k);
  }

  /** The bytes the first k packets carry. */
  function Covered(C: Chunk, data: seq<byte>, k: nat): (n: nat)
    requires Sendable(data) && k <= Packets(C, data)
    ensures n <= |data|
  {
    if k == 0 then 0
    else
      ChunkInside(C, data, k - 1);
      (k - 1) * C + Size(C, data, k - 1)
  }

  lemma CoveredGrows(C: Chunk, data: seq<byte>, k: nat)
    requires Sendable(data) && k < Packets(C, data)
    ensures Covered(C, data, k) == k * C
    ensures Covered(C, data, k + 1) == k * C + Size(C, data, k)
  {
    hide Packets, Size;
    if k > 0 {
      ChunkInside(C, data, k - 1);
      MulAdd(k - 1, 1, C);
    }
  }

  lemma {:induction false} PayloadsPrefix(C: Chunk, d_type: u16, data: seq<byte>, k: nat)
    requires Sendable(data) && k <= Packets(C, data)
    ensures Payloads(Split(C, d_type, data)[..k]) == data[..Covered(C, data, k)]
  {
    hide Packets, Size, Fragment, Total;
    var ps := Split(C, d_type, data);
    if k > 0 {
      PayloadsPrefix(C, d_type, data, k - 1);
      CoveredGrows(C, data, k - 1);
      assert ps[..k][..k - 1] == ps[..k - 1];
      FragmentPayload(C, d_type, data, k - 1);
    }
  }

  /** The payloads of the packets are the message, up to its low 32 bits of size. */
  lemma PayloadsAll(C: Chunk, d_type: u16, data: seq<byte>)
    requires Sendable(data)
    ensures Payloads(Split(C, d_type, data)) == data[..Total(data)]
  {
    CountBounds(C, Total(data));
    if Packets(C, data) > 0 { ChunkInside(C, data, Packets(C, data) - 1); }
    hide Packets, Size, Fragment, Total, Payloads;
    var ps := Split(C, d_type, data);
    PayloadsPrefix(C, d_type, data, |ps|);
    assert ps[..|ps|] == ps;
  }

  /** Packet k of a message of n bytes cut into cnt packets: no field has wrapped. */
  predicate ExactFragment(p: Packet, C: Chunk, d_type: u16, n: nat, cnt: nat, k: nat) {
    && 1 <= |p.buffer| <= C
    && (k + 1 < cnt ==> |p.buffer| == C)
    && p.header.server_hash == SERVER_HASH
    && p.header.total_data_size == n
    && p.header.total_cnt_packets == cnt
    && p.header.cur_packet_number == k + 1
    && p.header.cur_packet_size == PREFIX_SIZE + |p.buffer|
    && p.header.isFirst == (if k == 0 then 1 else 0)
    && p.header.isLast == (if k + 1 == cnt then 1 else 0)
    && p.header.isCompressed == 0
    && p.d_type == d_type
  }

  lemma FragmentIsExact(C: Chunk, d_type: u16, data: seq<byte>, k: nat)
    requires Sendable(data) && k < Packets(C, data) <= 65535
    ensures ExactFragment(Fragment(C, d_type, data, k), C, d_type, Total(data), Packets(C, data), k)
  {
    hide Packets, Size, Total;
    ChunkInside(C, data, k);
    FragmentPayload(C, d_type, data, k);
  }

  lemma AllExact(C: Chunk, d_type: u16, data: seq<byte>)
    requires Sendable(data) && Packets(C, data) <= 65535
    ensures var ps := Split(C, d_type, data);
            forall k | 0 <= k < |ps| :: ExactFragment(ps[k], C, d_type, Total(data), |ps|, k)
  {
    hide Packets, Size, Fragment, ExactFragment, Total;
    var ps := Split(C, d_type, data);
    forall k | 0 <= k < |ps| ensures ExactFragment(ps[k], C, d_type, Total(data), |ps|, k) {
      FragmentIsExact(C, d_type, data, k);
    }
  }

  /** Messages small enough to be numbered lose nothing to the 32-bit size. */
  lemma NumberedIsExact(C: Chunk, data: seq<byte>)
    requires |data| <= 65535 * C
    ensures Sendable(data) && Total(data) == |data|
  {}

  /** The fragments of a message of at most 65535 * C bytes are its consecutive pieces of 1 to C bytes,
      with exact totals, counts, numbers and sizes, and the two flags on the two ends only. */
  lemma FragmentsPartition(C: Chunk, d_type: u16, data: seq<byte>)
    requires |data| <= 65535 * C
    ensures Sendable(data)
    ensures var ps := Split(C, d_type, data);
            && Payloads(ps) == data
            && (|ps| == 0 <==> data == [])
            && |data| <= |ps| * C < |data| + C
            && forall k | 0 <= k < |ps| :: ExactFragment(ps[k], C, d_type, |data|, |ps|, k)
  {
    NumberedIsExact(C, data);
    CountBounds(C, Total(data));
    hide Count, ExactFragment, Payloads, Total, ToU32;
    PayloadsAll(C, d_type, data);
    AllExact(C, d_type, data);
    assert data[..|data|] == data;
  }

  /** A longer string is sent as if it were cut off at its low 32 bits of size. */
  lemma FragmentsOfPrefix(C: Chunk, d_type: u16, data: seq<byte>)
    requires Sendable(data)
    ensures Sendable(data[..Total(data)])
    ensures Split(C, d_type, data) == Split(C, d_type, data[..Total(data)])
  {
    assert Total(data[..Total(data)]) == Total(data);
    hide Count, Total;
    var short := data[..Total(data)];
    forall k | 0 <= k < Packets(C, data) ensures Fragment(C, d_type, data, k) == Fragment(C, d_type, short, k) {
      ChunkInside(C, data, k);
    }
  }

  // ---- The loop ----

  /** The fragmentation loop of sendData and broadCast: the datagrams handed to the socket. */
  method SendFragments(C: Chunk, d_type: u16, data: seq<byte>) returns (out: seq<seq<byte>>)
    requires Sendable(data)
    ensures out == EncodeAll(Split(C, d_type, data))
  {
    var total := ToU32(|data|);
    var cnt := ToU32(total + C - 1) / C;
    assert total == Total(data) && cnt == Packets(C, data);
    hide Packets, Encode, Total;
    out := [];
    for idx := 0 to cnt
      invariant |out| == idx
      invariant forall i | 0 <= i < idx :: out[i] == Encode(Fragment(C, d_type, data, i))
    {
      ChunkInside(C, data, idx);
      var last := idx + 1 == cnt;
      var chunk := if last then total - C * idx else C;
      var offset := idx * C;
      var H := PacketHeader(SERVER_HASH, total, ToU16(cnt), ToU16(idx + 1), ToU16(PREFIX_SIZE + chunk),
                            if idx == 0 then 1 else 0, if last then 1 else 0, 0);
      var pkt := Packet(H, d_type, data[offset..offset + chunk]);
      assert pkt == Fragment(C, d_type, data, idx);
      var full_packet := Serialize(pkt);
      out := out + [full_packet];
    }
  }
}
