/** Bytes, fixed-width integers and their byte orders. */
module Wire {

  type byte = x: int | 0 <= x < 0x100
  type u16 = x: int | 0 <= x < 0x1_0000
  type u32 = x: int | 0 <= x < 0x1_0000_0000
  type i32 = x: int | -0x8000_0000 <= x < 0x8000_0000

  const MAX32 := 0x1_0000_0000

  datatype Option<+T> = None | Some(value: T)

  /** The conversions to narrower unsigned types. */
  function ToU16(x: int): u16 { x % 0x1_0000 }
  function ToU32(x: int): u32 { x % 0x1_0000_0000 }

  /** Host order of the fields that are copied as they lie in memory. */
  function Le16(x: u16): (b: seq<byte>)
    ensures |b| == 2
  {
    [x % 0x100, x / 0x100]
  }

  function Le32(x: u32): (b: seq<byte>)
    ensures |b| == 4
  {
    Le16(x % 0x1_0000) + Le16(x / 0x1_0000)
  }

  /** Network order, the effect of htonl. */
  function Be32(x: u32): (b: seq<byte>)
    ensures |b| == 4
  {
    var b := Le32(x);
    [b[3], b[2], b[1], b[0]]
  }

  function FromLe16(b: seq<byte>): u16
    requires |b| == 2
  {
    b[0] as int + 0x100 * (b[1] as int)
  }

  function FromLe32(b: seq<byte>): u32
    requires |b| == 4
  {
    FromLe16(b[..2]) as int + 0x1_0000 * (FromLe16(b[2..]) as int)
  }

  function FromBe32(b: seq<byte>): u32
    requires |b| == 4
  {
    FromLe32([b[3], b[2], b[1], b[0]])
  }

  /** int and uint32_t with the same two's-complement pattern. */
  function Unsigned(x: i32): u32 {
    if x < 0 then x + 0x1_0000_0000 else x
  }

  function Signed(x: u32): i32 {
    if x >= 0x8000_0000 then x - 0x1_0000_0000 else x
  }

  // ---- The place values ----

  /** Host order puts the low byte first. */
  lemma Le16Places(x: u16)
    ensures x == Le16(x)[0] as int + 0x100 * (Le16(x)[1] as int)
  {}

  lemma Le32Places(x: u32)
    ensures var b := Le32(x);
            x == b[0] as int + 0x100 * (b[1] as int) + 0x1_0000 * (b[2] as int) + 0x100_0000 * (b[3] as int)
  {
    Le16Places(x % 0x1_0000);
    Le16Places(x / 0x1_0000);
    hide Le16;
  }

  /** Network order puts the high byte first. */
  lemma Be32Places(x: u32)
    ensures var b := Be32(x);
            x == 0x100_0000 * (b[0] as int) + 0x1_0000 * (b[1] as int) + 0x100 * (b[2] as int) + b[3] as int
  {
    Le32Places(x);
    hide Le32;
  }

  /** What the four readers make of any bytes. */
  lemma ReadPlaces(b: seq<byte>)
    requires |b| == 4
    ensures FromLe16(b[..2]) as int == b[0] as int + 0x100 * (b[1] as int)
    ensures FromLe32(b) as int
            == b[0] as int + 0x100 * (b[1] as int) + 0x1_0000 * (b[2] as int) + 0x100_0000 * (b[3] as int)
    ensures FromBe32(b) as int
            == 0x100_0000 * (b[0] as int) + 0x1_0000 * (b[1] as int) + 0x100 * (b[2] as int) + b[3] as int
  {}

  /** The two's-complement pattern of an int is its value modulo 2^32. */
  lemma SignPlaces(x: i32, y: u32)
    ensures Unsigned(x) as int == x % 0x1_0000_0000
    ensures -0x8000_0000 <= Signed(y) < 0x8000_0000 && (Signed(y) - y) % 0x1_0000_0000 == 0
  {}

  lemma Le16RoundTrip(x: u16, b: seq<byte>)
    ensures FromLe16(Le16(x)) == x
    ensures |b| == 2 ==> Le16(FromLe16(b)) == b
  {
    if |b| == 2 {
      var y: int := FromLe16(b);
      assert y % 0x100 == b[0] && y / 0x100 == b[1];
    }
  }

  lemma Le32RoundTrip(x: u32, b: seq<byte>)
    ensures FromLe32(Le32(x)) == x
    ensures |b| == 4 ==> Le32(FromLe32(b)) == b
  {
    hide Le16, FromLe16;
    var lo, hi := x % 0x1_0000, x / 0x1_0000;
    Le16RoundTrip(lo, []);
    Le16RoundTrip(hi, []);
    assert (Le16(lo) + Le16(hi))[..2] == Le16(lo) && (Le16(lo) + Le16(hi))[2..] == Le16(hi);
    if |b| == 4 {
      Le16RoundTrip(0, b[..2]);
      Le16RoundTrip(0, b[2..]);
      var y: int := FromLe32(b);
      assert y % 0x1_0000 == FromLe16(b[..2]) && y / 0x1_0000 == FromLe16(b[2..]);
      assert b == b[..2] + b[2..];
    }
  }

  lemma Be32RoundTrip(x: u32, b: seq<byte>)
    ensures FromBe32(Be32(x)) == x
    ensures |b| == 4 ==> Be32(FromBe32(b)) == b
  {
    hide Le32, FromLe32;
    Le32RoundTrip(x, []);
    var l := Le32(x);
    assert [l[0], l[1], l[2], l[3]] == l;
    if |b| == 4 {
      Le32RoundTrip(0, [b[3], b[2], b[1], b[0]]);
    }
  }

  lemma SignRoundTrip(x: i32, y: u32)
    ensures Signed(Unsigned(x)) == x
    ensures Unsigned(Signed(y)) == y
  {}
}
