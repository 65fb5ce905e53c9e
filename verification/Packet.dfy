/** The packet of ClientSession.h: a 15-byte header, a data type and a payload. */
module Packet {
  import opened Wire

  const SERVER_HASH: u16 := 1337
  const HEADER_SIZE := 15
  const PREFIX_SIZE := 17   // header and d_type

  datatype PacketHeader = PacketHeader(
    server_hash: u16, total_data_size: u32, total_cnt_packets: u16, cur_packet_number: u16,
    cur_packet_size: u16, isFirst: byte, isLast: byte, isCompressed: byte)

  datatype Packet = Packet(header: PacketHeader, d_type: u16, buffer: seq<byte>)

  function EncodeHeader(h: PacketHeader): (b: seq<byte>)
    ensures |b| == HEADER_SIZE
  {
    Le16(h.server_hash) + Le32(h.total_data_size) + Le16(h.total_cnt_packets) + Le16(h.cur_packet_number)
    + Le16(h.cur_packet_size) + [h.isFirst, h.isLast, h.isCompressed]
  }

  function Encode(p: Packet): (b: seq<byte>)
    ensures |b| == PREFIX_SIZE + |p.buffer|
  {
    EncodeHeader(p.header) + Le16(p.d_type) + p.buffer
  }

  function DecodeHeader(b: seq<byte>): PacketHeader
    requires |b| >= HEADER_SIZE
  {
    PacketHeader(FromLe16(b[0..2]), FromLe32(b[2..6]), FromLe16(b[6..8]), FromLe16(b[8..10]),
                 FromLe16(b[10..12]), b[12], b[13], b[14])
  }

  /** The packet in a buffer; None when the header would be read past the buffer's end. */
  function Decode(b: seq<byte>): Option<Packet> {
    if |b| < PREFIX_SIZE then None
    else Some(Packet(DecodeHeader(b), FromLe16(b[15..17]), b[PREFIX_SIZE..]))
  }

  lemma DecodeHeaderEncode(h: PacketHeader, tail: seq<byte>)
    ensures DecodeHeader(EncodeHeader(h) + tail) == h
  {
    hide Le16, Le32, FromLe16, FromLe32;
    Le16RoundTrip(h.server_hash, []);
    Le32RoundTrip(h.total_data_size, []);
    Le16RoundTrip(h.total_cnt_packets, []);
    Le16RoundTrip(h.cur_packet_number, []);
    Le16RoundTrip(h.cur_packet_size, []);
    var b := EncodeHeader(h) + tail;
    assert b[0..2] == Le16(h.server_hash);
    assert b[2..6] == Le32(h.total_data_size);
    assert b[6..8] == Le16(h.total_cnt_packets);
    assert b[8..10] == Le16(h.cur_packet_number);
    assert b[10..12] == Le16(h.cur_packet_size);
  }

  lemma EncodeHeaderDecode(b: seq<byte>)
    requires |b| >= HEADER_SIZE
    ensures EncodeHeader(DecodeHeader(b)) == b[..HEADER_SIZE]
  {
    hide Le16, Le32, FromLe16, FromLe32;
    Le16RoundTrip(0, b[0..2]);
    Le32RoundTrip(0, b[2..6]);
    Le16RoundTrip(0, b[6..8]);
    Le16RoundTrip(0, b[8..10]);
    Le16RoundTrip(0, b[10..12]);
  }

  /** Parsing inverts serialization. */
  lemma DecodeEncode(p: Packet)
    ensures Decode(Encode(p)) == Some(p)
  {
    hide Le16, FromLe16, DecodeHeader, EncodeHeader;
    var h, b := EncodeHeader(p.header), Encode(p);
    DecodeHeaderEncode(p.header, Le16(p.d_type) + p.buffer);
    assert h + (Le16(p.d_type) + p.buffer) == b;
    Le16RoundTrip(p.d_type, []);
    assert b[15..17] == Le16(p.d_type);
    assert b[17..] == p.buffer;
  }

  /** Every buffer of at least 17 bytes is the serialization of the packet parsed from it. */
  lemma EncodeDecode(b: seq<byte>)
    requires |b| >= PREFIX_SIZE
    ensures Decode(b).Some? && Encode(Decode(b).value) == b
  {
    hide Le16, FromLe16, DecodeHeader, EncodeHeader;
    EncodeHeaderDecode(b);
    Le16RoundTrip(0, b[15..17]);
  }

  /** Where the fields of a serialized packet lie. */
  lemma Layout(p: Packet)
    ensures var b, h := Encode(p), p.header;
            && b[0] as int + 0x100 * (b[1] as int) == h.server_hash
            && b[2] as int + 0x100 * (b[3] as int) + 0x1_0000 * (b[4] as int) + 0x100_0000 * (b[5] as int)
               == h.total_data_size
            && b[6] as int + 0x100 * (b[7] as int) == h.total_cnt_packets
            && b[8] as int + 0x100 * (b[9] as int) == h.cur_packet_number
            && b[10] as int + 0x100 * (b[11] as int) == h.cur_packet_size
            && b[12] == h.isFirst && b[13] == h.isLast && b[14] == h.isCompressed
            && b[15] as int + 0x100 * (b[16] as int) == p.d_type
            && b[17..] == p.buffer
  {
    var h := p.header;
    Le16Places(h.server_hash);
    Le32Places(h.total_data_size);
    Le16Places(h.total_cnt_packets);
    Le16Places(h.cur_packet_number);
    Le16Places(h.cur_packet_size);
    Le16Places(p.d_type);
    hide Le16, Le32;
  }

  /** The fields that are read from any buffer of at least 17 bytes. */
  lemma ParsedLayout(b: seq<byte>)
    requires |b| >= 17
    ensures Decode(b).Some?
    ensures var p, h := Decode(b).value, Decode(b).value.header;
            && h.server_hash == b[0] as int + 0x100 * (b[1] as int)
            && h.total_data_size
               == b[2] as int + 0x100 * (b[3] as int) + 0x1_0000 * (b[4] as int) + 0x100_0000 * (b[5] as int)
            && h.total_cnt_packets == b[6] as int + 0x100 * (b[7] as int)
            && h.cur_packet_number == b[8] as int + 0x100 * (b[9] as int)
            && h.cur_packet_size == b[10] as int + 0x100 * (b[11] as int)
            && h.isFirst == b[12] && h.isLast == b[13] && h.isCompressed == b[14]
            && p.d_type == b[15] as int + 0x100 * (b[16] as int)
            && p.buffer == b[17..]
  {
    EncodeDecode(b);
    hide Encode, Decode;
    Layout(Decode(b).value);
  }

  /** Packet::serialize: the fields one after the other. */
  method Serialize(pkt: Packet) returns (buf: seq<byte>)
    ensures buf == Encode(pkt)
  {
    buf := [];
    buf := buf + Le16(pkt.header.server_hash);
    buf := buf + Le32(pkt.header.total_data_size);
    buf := buf + Le16(pkt.header.total_cnt_packets);
    buf := buf + Le16(pkt.header.cur_packet_number);
    buf := buf + Le16(pkt.header.cur_packet_size);
    buf := buf + [pkt.header.isFirst];
    buf := buf + [pkt.header.isLast];
    buf := buf + [pkt.header.isCompressed];
    buf := buf + Le16(pkt.d_type);
    buf := buf + pkt.buffer;
  }

  /** The parse shared by the four receivers: fields at a running offset, the rest is the payload. */
  method Parse(buf: seq<byte>) returns (pkt: Packet)
    requires |buf| >= PREFIX_SIZE
    ensures Decode(buf) == Some(pkt)
    ensures Encode(pkt) == buf
  {
    var offset := 0;
    var server_hash := FromLe16(buf[offset..offset + 2]);
    offset := offset + 2;
    var total_data_size := FromLe32(buf[offset..offset + 4]);
    offset := offset + 4;
    var total_cnt_packets := FromLe16(buf[offset..offset + 2]);
    offset := offset + 2;
    var cur_packet_number := FromLe16(buf[offset..offset + 2]);
    offset := offset + 2;
    var cur_packet_size := FromLe16(buf[offset..offset + 2]);
    offset := offset + 2;
    var isFirst := buf[offset];
    offset := offset + 1;
    var isLast := buf[offset];
    offset := offset + 1;
    var isCompressed := buf[offset];
    offset := offset + 1;
    var d_type := FromLe16(buf[offset..offset + 2]);
    offset := offset + 2;
    var header := PacketHeader(server_hash, total_data_size, total_cnt_packets, cur_packet_number,
                               cur_packet_size, isFirst, isLast, isCompressed);
    pkt := Packet(header, d_type, buf[offset..]);
    EncodeDecode(buf);
  }
}
