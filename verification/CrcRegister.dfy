/** The checksum register as a polynomial of degree below 16 over GF(2), fed by bytes or by single bits. */
module CrcRegister {
  import opened Gf2
  import opened Iteration

  /** One shift multiplies by x and, when x^16 appears, subtracts the generator. */
  function Shift(r: Poly): Poly {
    if 15 in r then Add(Times(r, 1), {16, 12, 5, 0}) else Times(r, 1)
  }

  function ShiftN(n: nat, r: Poly): Poly {
    Iterate(n, Shift, r)
  }

  /** A register has the 16 stages 0..15. */
  ghost predicate IsRegister(r: Poly) {
    forall e :: e in r ==> e < 16
  }

  /** A bit string of at most 16 bits, left-aligned in a register. */
  function Window(w: seq<bool>): Poly
    requires |w| <= 16
  {
    set i: int | 0 <= i < |w| && w[i] :: 15 - i
  }

  const BYTE_MASKS: seq<bv8> := [0x80, 0x40, 0x20, 0x10, 0x08, 0x04, 0x02, 0x01]

  predicate ByteBit(b: bv8, m: bv8) {
    b & m != 0
  }

  /** The bits of a byte in the order they are processed, high bit first. */
  function ByteBits(b: bv8): (bits: seq<bool>)
    ensures |bits| == 8
  {
    seq(8, i requires 0 <= i < 8 => ByteBit(b, BYTE_MASKS[i]))
  }

  /** Bit 7 comes first. */
  lemma BitsOfByte(b: bv8)
    ensures ByteBits(b) == [b & 0x80 != 0, b & 0x40 != 0, b & 0x20 != 0, b & 0x10 != 0,
                            b & 0x08 != 0, b & 0x04 != 0, b & 0x02 != 0, b & 0x01 != 0]
  {
    hide ByteBits;
    BitsByMask(b);
  }

  lemma BitsByMask(b: bv8)
    ensures ByteBits(b) == [ByteBit(b, 0x80), ByteBit(b, 0x40), ByteBit(b, 0x20), ByteBit(b, 0x10),
                            ByteBit(b, 0x08), ByteBit(b, 0x04), ByteBit(b, 0x02), ByteBit(b, 0x01)]
  {
    hide ByteBit;
  }

  function Bits(bytes: seq<bv8>): (bits: seq<bool>)
    ensures |bits| == 8 * |bytes|
  {
    if bytes == [] then [] else ByteBits(bytes[0]) + Bits(bytes[1..])
  }

  /** The register after one message byte. */
  function ByteStep(r: Poly, b: bv8): Poly {
    ShiftN(8, Add(r, Window(ByteBits(b))))
  }

  /** The register after a byte string, started from `init`. */
  function Crc(init: Poly, bytes: seq<bv8>): Poly
    decreases |bytes|
  {
    if bytes == [] then init else Crc(ByteStep(init, bytes[0]), bytes[1..])
  }

  /** The register after one message bit. */
  function BitStep(r: Poly, b: bool): Poly {
    Shift(Add(r, Window([b])))
  }

  function BitCrc(r: Poly, bits: seq<bool>): Poly
    decreases |bits|
  {
    if bits == [] then r else BitCrc(BitStep(r, bits[0]), bits[1..])
  }

  // ---- Linearity and injectivity of the shift ----

  lemma ShiftIsRegister(r: Poly)
    requires IsRegister(r)
    ensures IsRegister(Shift(r))
  {}

  lemma ShiftLinear(a: Poly, b: Poly)
    ensures Shift(Add(a, b)) == Add(Shift(a), Shift(b))
  {
    assert Times(Add(a, b), 1) == Add(Times(a, 1), Times(b, 1));
  }

  lemma ShiftNLinear(n: nat, a: Poly, b: Poly)
    ensures ShiftN(n, Add(a, b)) == Add(ShiftN(n, a), ShiftN(n, b))
  {
    forall p, q ensures Shift(Add(p, q)) == Add(Shift(p), Shift(q)) { ShiftLinear(p, q); }
    IterateAdditive(n, Shift, Add, a, b);
  }

  lemma ShiftInjective(a: Poly, b: Poly)
    requires IsRegister(a) && IsRegister(b) && Shift(a) == Shift(b)
    ensures a == b
  {
    assert 15 in a <==> 0 in Shift(a);
    assert 15 in b <==> 0 in Shift(b);
    assert Times(a, 1) == Times(b, 1);
    forall e: nat ensures e in a <==> e in b {
      assert e in a <==> e + 1 in Times(a, 1);
      assert e in b <==> e + 1 in Times(b, 1);
    }
  }

  /** The shift is injective on registers, so no difference between two registers is ever lost. */
  lemma ShiftNInjective(n: nat, a: Poly, b: Poly)
    requires IsRegister(a) && IsRegister(b) && ShiftN(n, a) == ShiftN(n, b)
    ensures a == b
  {
    forall p | IsRegister(p) ensures IsRegister(Shift(p)) { ShiftIsRegister(p); }
    forall p, q | IsRegister(p) && IsRegister(q) && Shift(p) == Shift(q) ensures p == q { ShiftInjective(p, q); }
    IterateInjective(n, Shift, IsRegister, a, b);
  }

  lemma ShiftNIsRegister(n: nat, r: Poly)
    requires IsRegister(r)
    ensures IsRegister(ShiftN(n, r))
  {
    forall p | IsRegister(p) ensures IsRegister(Shift(p)) { ShiftIsRegister(p); }
    IterateKeeps(n, Shift, IsRegister, r);
  }

  lemma {:induction false} BitCrcIsRegister(r: Poly, w: seq<bool>)
    requires IsRegister(r)
    ensures IsRegister(BitCrc(r, w))
    decreases |w|
  {
    if w != [] {
      ShiftIsRegister(Add(r, Window(w[..1])));
      assert w[..1] == [w[0]];
      BitCrcIsRegister(BitStep(r, w[0]), w[1..]);
    }
  }

  // ---- A window of bits is one addition followed by plain shifts ----

  lemma WindowStage(w: seq<bool>, e: nat)
    requires |w| <= 16
    ensures e in Window(w) <==> e < 16 && 15 - e < |w| && w[15 - e]
  {
    if e < 16 && 15 - e < |w| && w[15 - e] {
      var i := 15 - e;
      assert 15 - i == e && w[i];
    }
  }

  /** Two windows of one length hold the same bits when they are the same register. */
  lemma WindowInjective(v: seq<bool>, w: seq<bool>)
    requires |v| == |w| <= 16 && Window(v) == Window(w)
    ensures v == w
  {
    forall j | 0 <= j < |v| ensures v[j] == w[j] {
      WindowStage(v, 15 - j);
      WindowStage(w, 15 - j);
    }
  }

  lemma WindowSplits(w: seq<bool>)
    requires 0 < |w| <= 16
    ensures Shift(Window(w)) == Add(Shift(Window([w[0]])), Window(w[1..]))
  {
    var head, tail := Window([w[0]]), Window(w[1..]);
    forall e: nat ensures e in Times(Window(w), 1) <==> e in Add(Times(head, 1), tail) {
      WindowStage(w[1..], e);
      if e > 0 {
        WindowStage(w, e - 1);
        WindowStage([w[0]], e - 1);
      }
    }
    WindowStage(w, 15);
    WindowStage([w[0]], 15);
    AddAssociates(Times(head, 1), tail, {16, 12, 5, 0});
    AddAssociates(Times(head, 1), {16, 12, 5, 0}, tail);
    AddCommutes(tail, {16, 12, 5, 0});
  }

  /** Feeding up to 16 bits one at a time gives what adding them all at the top and then shifting gives. */
  lemma {:induction false} BitCrcWindow(r: Poly, w: seq<bool>)
    requires |w| <= 16
    ensures BitCrc(r, w) == ShiftN(|w|, Add(r, Window(w)))
    decreases |w|
  {
    if w == [] {
      assert Add(r, Window(w)) == r;
    } else {
      var head, tail := Window([w[0]]), Window(w[1..]);
      BitCrcWindow(BitStep(r, w[0]), w[1..]);
      WindowSplits(w);
      ShiftLinear(r, Window(w));
      ShiftLinear(r, head);
      AddAssociates(Shift(r), Shift(head), tail);
    }
  }

  lemma {:induction false} BitCrcAppend(r: Poly, v: seq<bool>, w: seq<bool>)
    ensures BitCrc(r, v + w) == BitCrc(BitCrc(r, v), w)
    decreases |v|
  {
    if v == [] {
      assert v + w == w;
    } else {
      assert (v + w)[1..] == v[1..] + w;
      BitCrcAppend(BitStep(r, v[0]), v[1..], w);
    }
  }

  /** The byte-wise register is the bit-wise register over the message's bits. */
  lemma {:induction false} CrcIsBitCrc(init: Poly, bytes: seq<bv8>)
    ensures Crc(init, bytes) == BitCrc(init, Bits(bytes))
    decreases |bytes|
  {
    if bytes != [] {
      var w := ByteBits(bytes[0]);
      BitCrcWindow(init, w);
      CrcIsBitCrc(ByteStep(init, bytes[0]), bytes[1..]);
      BitCrcAppend(init, w, Bits(bytes[1..]));
    }
  }

  lemma CrcIsRegister(init: Poly, bytes: seq<bv8>)
    requires IsRegister(init)
    ensures IsRegister(Crc(init, bytes))
  {
    CrcIsBitCrc(init, bytes);
    BitCrcIsRegister(init, Bits(bytes));
  }
}
