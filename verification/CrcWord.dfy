/** The machine word of the checksum and its step functions, tied to the register. */
module CrcWord {
  import opened Gf2
  import opened Iteration
  import opened CrcRegister

  const MASKS: seq<bv16> :=
    [0x8000, 0x4000, 0x2000, 0x1000, 0x0800, 0x0400, 0x0200, 0x0100,
     0x0080, 0x0040, 0x0020, 0x0010, 0x0008, 0x0004, 0x0002, 0x0001]

  predicate HasBit(w: bv16, m: bv16) {
    w & m != 0
  }

  /** The bits of a word, bit 15 first. */
  function WordBits(w: bv16): (bits: seq<bool>)
    ensures |bits| == 16
  {
    seq(16, i requires 0 <= i < 16 => HasBit(w, MASKS[i]))
  }

  /** The register held in a word. */
  function Load(w: bv16): Poly {
    Window(WordBits(w))
  }

  function XorWord(v: bv16, w: bv16): bv16 {
    v ^ w
  }

  /** The body of the bit loop. */
  function ShiftWord(w: bv16): bv16 {
    if w & 0x8000 != 0 then (w << 1) ^ 0x1021 else w << 1
  }

  /** A message byte moved to the high half of a word. */
  function HighWord(b: bv8): bv16 {
    (b as bv16) << 8
  }

  // ---- Single bits ----

  predicate OneBit(m: bv16) {
    m != 0 && m & (m - 1) == 0
  }

  function Double(m: bv16): bv16 {
    m << 1
  }

  lemma Masks(i: nat)
    requires i < 16
    ensures OneBit(MASKS[i])
    ensures i < 15 ==> MASKS[i] == Double(MASKS[i + 1]) && !HasBit(MASKS[i + 1], 0x8000)
    ensures HasBit(0x1020, MASKS[i]) <==> i == 3 || i == 10
  {}

  lemma XorBit(v: bv16, w: bv16, m: bv16)
    requires OneBit(m)
    ensures HasBit(XorWord(v, w), m) <==> (HasBit(v, m) != HasBit(w, m))
  {
    XorBitRaw(v, w, m);
  }

  lemma XorBitRaw(v: bv16, w: bv16, m: bv16)
    requires OneBit(m)
    ensures (v ^ w) & m != 0 <==> ((v & m != 0) != (w & m != 0))
  {}

  /** A bit of a shifted word is the bit below it, changed where the generator has a term. */
  lemma ShiftBit(w: bv16, m: bv16)
    requires OneBit(m) && !HasBit(m, 0x8000)
    ensures HasBit(ShiftWord(w), Double(m)) <==> (HasBit(w, m) != (HasBit(w, 0x8000) && HasBit(0x1020, Double(m))))
  {
    ShiftBitRaw(w, m, m << 1);
  }

  lemma ShiftBitRaw(w: bv16, m: bv16, d: bv16)
    requires OneBit(m) && m & 0x8000 == 0 && d == m << 1
    ensures (w << 1) & d != 0 <==> w & m != 0
    ensures ((w << 1) ^ 0x1021) & d != 0 <==> ((w & m != 0) != (0x1020 & d != 0))
  {
    assert d & 1 == 0 && OneBit(d);
    assert 0x1021 & d == 0x1020 & d;
    XorBitRaw(w << 1, 0x1021, d);
  }

  lemma ShiftLowBit(w: bv16)
    ensures HasBit(ShiftWord(w), 1) <==> HasBit(w, 0x8000)
  {
    assert (w << 1) & 1 == 0;
    XorBit(w << 1, 0x1021, 1);
  }

  lemma WindowsEqual(a: seq<bool>, b: seq<bool>)
    requires |a| <= 16 && |b| <= 16
    requires forall i | 0 <= i < 16 :: (i < |a| && a[i]) == (i < |b| && b[i])
    ensures Window(a) == Window(b)
  {
    forall e: nat ensures e in Window(a) <==> e in Window(b) {
      WindowStage(a, e);
      WindowStage(b, e);
    }
  }

  lemma LoadInjective(v: bv16, w: bv16)
    requires Load(v) == Load(w)
    ensures v == w
  {
    WindowInjective(WordBits(v), WordBits(w));
    assert MaskedEqual(v, w) by {
      hide HasBit;
      forall i | 0 <= i < 16 ensures HasBit(v, MASKS[i]) == HasBit(w, MASKS[i]) {
        assert WordBits(v)[i] == WordBits(w)[i];
      }
      MasksListed(v, w);
    }
    MaskedEqualIsEqual(v, w);
  }

  predicate MaskedEqual(v: bv16, w: bv16) {
    && HasBit(v, 0x8000) == HasBit(w, 0x8000) && HasBit(v, 0x4000) == HasBit(w, 0x4000)
    && HasBit(v, 0x2000) == HasBit(w, 0x2000) && HasBit(v, 0x1000) == HasBit(w, 0x1000)
    && HasBit(v, 0x0800) == HasBit(w, 0x0800) && HasBit(v, 0x0400) == HasBit(w, 0x0400)
    && HasBit(v, 0x0200) == HasBit(w, 0x0200) && HasBit(v, 0x0100) == HasBit(w, 0x0100)
    && HasBit(v, 0x0080) == HasBit(w, 0x0080) && HasBit(v, 0x0040) == HasBit(w, 0x0040)
    && HasBit(v, 0x0020) == HasBit(w, 0x0020) && HasBit(v, 0x0010) == HasBit(w, 0x0010)
    && HasBit(v, 0x0008) == HasBit(w, 0x0008) && HasBit(v, 0x0004) == HasBit(w, 0x0004)
    && HasBit(v, 0x0002) == HasBit(w, 0x0002) && HasBit(v, 0x0001) == HasBit(w, 0x0001)
  }

  lemma MaskedEqualIsEqual(v: bv16, w: bv16)
    requires MaskedEqual(v, w)
    ensures v == w
  {}

  lemma MasksListed(v: bv16, w: bv16)
    requires forall i | 0 <= i < 16 :: HasBit(v, MASKS[i]) == HasBit(w, MASKS[i])
    ensures MaskedEqual(v, w)
  {
    hide HasBit;
    assert MASKS[0] == 0x8000;
    assert MASKS[1] == 0x4000;
    assert MASKS[2] == 0x2000;
    assert MASKS[3] == 0x1000;
    assert MASKS[4] == 0x0800;
    assert MASKS[5] == 0x0400;
    assert MASKS[6] == 0x0200;
    assert MASKS[7] == 0x0100;
    assert MASKS[8] == 0x0080;
    assert MASKS[9] == 0x0040;
    assert MASKS[10] == 0x0020;
    assert MASKS[11] == 0x0010;
    assert MASKS[12] == 0x0008;
    assert MASKS[13] == 0x0004;
    assert MASKS[14] == 0x0002;
    assert MASKS[15] == 0x0001;
  }

  /** Bit e of a word is the coefficient of x^e. */
  lemma LoadHighBits(w: bv16)
    ensures 15 in Load(w) <==> w & 0x8000 != 0
    ensures 14 in Load(w) <==> w & 0x4000 != 0
    ensures 13 in Load(w) <==> w & 0x2000 != 0
    ensures 12 in Load(w) <==> w & 0x1000 != 0
    ensures 11 in Load(w) <==> w & 0x0800 != 0
    ensures 10 in Load(w) <==> w & 0x0400 != 0
    ensures 9 in Load(w) <==> w & 0x0200 != 0
    ensures 8 in Load(w) <==> w & 0x0100 != 0
  {
    hide Load;
    LoadAt(w, 15, 0x8000);
    LoadAt(w, 14, 0x4000);
    LoadAt(w, 13, 0x2000);
    LoadAt(w, 12, 0x1000);
    LoadAt(w, 11, 0x0800);
    LoadAt(w, 10, 0x0400);
    LoadAt(w, 9, 0x0200);
    LoadAt(w, 8, 0x0100);
  }

  lemma LoadLowBits(w: bv16)
    ensures 7 in Load(w) <==> w & 0x0080 != 0
    ensures 6 in Load(w) <==> w & 0x0040 != 0
    ensures 5 in Load(w) <==> w & 0x0020 != 0
    ensures 4 in Load(w) <==> w & 0x0010 != 0
    ensures 3 in Load(w) <==> w & 0x0008 != 0
    ensures 2 in Load(w) <==> w & 0x0004 != 0
    ensures 1 in Load(w) <==> w & 0x0002 != 0
    ensures 0 in Load(w) <==> w & 0x0001 != 0
  {
    hide Load;
    LoadAt(w, 7, 0x0080);
    LoadAt(w, 6, 0x0040);
    LoadAt(w, 5, 0x0020);
    LoadAt(w, 4, 0x0010);
    LoadAt(w, 3, 0x0008);
    LoadAt(w, 2, 0x0004);
    LoadAt(w, 1, 0x0002);
    LoadAt(w, 0, 0x0001);
  }

  lemma LoadAt(w: bv16, e: nat, m: bv16)
    requires e < 16 && m == MASKS[15 - e]
    ensures e in Load(w) <==> w & m != 0
  {
    hide WordBits;
    WindowStage(WordBits(w), e);
    BitOf(w, 15 - e);
  }

  lemma LoadIsRegister(w: bv16)
    ensures IsRegister(Load(w))
    ensures Load(0) == {}
  {
    forall e: nat ensures e !in Load(0) { WindowStage(WordBits(0), e); }
  }

  // ---- Words follow the register ----

  lemma LoadXor(v: bv16, w: bv16)
    ensures Load(XorWord(v, w)) == Add(Load(v), Load(w))
  {
    hide HasBit, XorWord, OneBit;
    forall e: nat ensures e in Load(XorWord(v, w)) <==> e in Add(Load(v), Load(w)) {
      WindowStage(WordBits(XorWord(v, w)), e);
      WindowStage(WordBits(v), e);
      WindowStage(WordBits(w), e);
      if e < 16 {
        Masks(15 - e);
        XorBit(v, w, MASKS[15 - e]);
      }
    }
  }

  /** Where the feedback of a shift lands. */
  predicate Tap(i: nat) {
    i == 3 || i == 10 || i == 15
  }

  lemma BitOf(w: bv16, i: nat)
    requires i < 16
    ensures WordBits(w)[i] == HasBit(w, MASKS[i])
  {
    hide HasBit;
  }

  lemma ShiftWordBit(w: bv16, i: nat)
    requires i < 15
    ensures WordBits(ShiftWord(w))[i] == (WordBits(w)[i + 1] != (WordBits(w)[0] && Tap(i)))
  {
    hide HasBit, ShiftWord, OneBit, Double, WordBits;
    Masks(i);
    Masks(i + 1);
    ShiftBit(w, MASKS[i + 1]);
    BitOf(w, 0);
    BitOf(w, i + 1);
    BitOf(ShiftWord(w), i);
  }

  lemma ShiftWordLast(w: bv16)
    ensures WordBits(ShiftWord(w))[15] == WordBits(w)[0]
  {
    hide HasBit, ShiftWord;
    ShiftLowBit(w);
  }

  /** One pass of the bit loop on words is one shift of the register. */
  lemma LoadShift(w: bv16)
    ensures Load(ShiftWord(w)) == Shift(Load(w))
  {
    hide WordBits, ShiftWord;
    var b, s := WordBits(w), WordBits(ShiftWord(w));
    WindowStage(b, 15);
    forall e: nat ensures e in Window(s) <==> e in Shift(Window(b)) {
      WindowStage(s, e);
      if 0 < e { WindowStage(b, e - 1); }
      if 0 < e < 16 { ShiftWordBit(w, 15 - e); }
      if e == 0 { ShiftWordLast(w); }
    }
  }

  lemma ByteMasks(i: nat)
    requires i < 16
    ensures i < 8 ==> MASKS[i] == HighWord(BYTE_MASKS[i])
    ensures i >= 8 ==> !HasBit(0xFF00, MASKS[i])
  {}

  lemma HighBit(b: bv8, m: bv8)
    ensures HasBit(HighWord(b), HighWord(m)) <==> ByteBit(b, m)
  {}

  lemma LowHalf(b: bv8, m: bv16)
    requires !HasBit(0xFF00, m)
    ensures !HasBit(HighWord(b), m)
  {}

  lemma HighWordBit(b: bv8, i: nat)
    requires i < 16
    ensures WordBits(HighWord(b))[i] == (i < 8 && ByteBits(b)[i])
  {
    hide HasBit, HighWord, ByteBit;
    ByteMasks(i);
    if i < 8 {
      HighBit(b, BYTE_MASKS[i]);
    } else {
      LowHalf(b, MASKS[i]);
    }
  }

  lemma LoadHigh(b: bv8)
    ensures Load(HighWord(b)) == Window(ByteBits(b))
  {
    hide HighWord, ByteBits, WordBits;
    forall i | 0 <= i < 16 ensures WordBits(HighWord(b))[i] == (i < 8 && ByteBits(b)[i]) { HighWordBit(b, i); }
    WindowsEqual(ByteBits(b), WordBits(HighWord(b)));
  }

  lemma LoadShiftN(n: nat, w: bv16)
    ensures Load(Iterate(n, ShiftWord, w)) == ShiftN(n, Load(w))
  {
    hide ShiftWord, Shift, Load;
    forall v ensures Load(ShiftWord(v)) == Shift(Load(v)) { LoadShift(v); }
    IterateMaps(n, ShiftWord, Shift, Load, w);
  }

  /** The word form of a byte step. */
  lemma LoadByteStep(w: bv16, b: bv8)
    ensures Load(Iterate(8, ShiftWord, XorWord(w, HighWord(b)))) == ByteStep(Load(w), b)
  {
    hide ShiftWord, Shift, Load, XorWord, HighWord;
    LoadShiftN(8, XorWord(w, HighWord(b)));
    LoadXor(w, HighWord(b));
    LoadHigh(b);
  }
}
