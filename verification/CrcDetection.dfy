/** What the checksum guarantees: chaining, self-check, bursts, parity and double errors. */
module CrcDetection {
  import opened Gf2
  import opened Iteration
  import opened CrcRegister
  import opened CrcWord

  // ---- Chaining ----

  lemma {:induction false} CrcChains(init: Poly, a: seq<bv8>, b: seq<bv8>)
    ensures Crc(init, a + b) == Crc(Crc(init, a), b)
    decreases |a|
  {
    if a == [] {
      assert a + b == b;
    } else {
      assert (a + b)[1..] == a[1..] + b;
      CrcChains(ByteStep(init, a[0]), a[1..], b);
    }
  }

  // ---- Appending the checksum ----

  lemma ShiftNZero(n: nat)
    ensures ShiftN(n, {}) == {}
  {
    assert Shift({}) == {} by { assert Times({}, 1) == {}; }
    IterateKeeps(n, Shift, r => r == {}, {});
  }

  lemma BitsOfTwo(h: bv8, l: bv8)
    ensures Bits([h, l]) == ByteBits(h) + ByteBits(l)
  {
    assert [h, l][1..] == [l] && [l][1..] == [];
    assert Bits([l]) == ByteBits(l);
  }

  /** Two appended bytes bring the register to zero exactly when they are the checksum, high byte first. */
  lemma AppendedChecksum(init: Poly, m: seq<bv8>, h: bv8, l: bv8)
    requires IsRegister(init)
    ensures Crc(init, m + [h, l]) == {} <==> Window(ByteBits(h) + ByteBits(l)) == Crc(init, m)
  {
    var r, w := Crc(init, m), ByteBits(h) + ByteBits(l);
    CrcChains(init, m, [h, l]);
    CrcIsBitCrc(r, [h, l]);
    BitsOfTwo(h, l);
    BitCrcWindow(r, w);
    CrcIsRegister(init, m);
    var sum := Add(r, Window(w));
    assert IsRegister(sum) by { forall e: nat | e >= 16 ensures e !in Window(w) { WindowStage(w, e); } }
    ShiftNZero(16);
    if ShiftN(16, sum) == {} { ShiftNInjective(16, sum, {}); }
    assert Add(Window(w), Window(w)) == {};
    if sum == {} { AddCancels(r, Window(w), Window(w)); }
  }

  function HighHalf(w: bv16): bv8 {
    (w >> 8) as bv8
  }

  function LowHalf(w: bv16): bv8 {
    (w & 0xFF) as bv8
  }

  lemma WordHalves(w: bv16)
    ensures Window(ByteBits(HighHalf(w)) + ByteBits(LowHalf(w))) == Load(w)
  {
    var h, l := HighHalf(w), LowHalf(w);
    hide HasBit, ByteBit, HighHalf, LowHalf, HighWord;
    forall i | 0 <= i < 16 ensures (ByteBits(h) + ByteBits(l))[i] == WordBits(w)[i] {
      HalfMasks(i);
      if i < 8 { HighHalfBit(w, BYTE_MASKS[i]); } else { LowHalfBit(w, BYTE_MASKS[i - 8]); }
    }
    WindowsEqual(ByteBits(h) + ByteBits(l), WordBits(w));
  }

  lemma HalfMasks(i: nat)
    requires i < 16
    ensures MASKS[i] == if i < 8 then HighWord(BYTE_MASKS[i]) else BYTE_MASKS[i - 8] as bv16
  {}

  lemma HighHalfBit(w: bv16, m: bv8)
    ensures ByteBit(HighHalf(w), m) <==> HasBit(w, HighWord(m))
  {}

  lemma LowHalfBit(w: bv16, m: bv8)
    ensures ByteBit(LowHalf(w), m) <==> HasBit(w, m as bv16)
  {}

  /** A word's own two bytes are the ones that cancel it. */
  lemma SelfCheck(init: Poly, m: seq<bv8>, w: bv16)
    requires IsRegister(init) && Load(w) == Crc(init, m)
    ensures Crc(init, m + [HighHalf(w), LowHalf(w)]) == {}
  {
    WordHalves(w);
    AppendedChecksum(init, m, HighHalf(w), LowHalf(w));
  }

  // ---- Bursts ----

  lemma {:induction false} BitCrcInjective(a: Poly, b: Poly, w: seq<bool>)
    requires IsRegister(a) && IsRegister(b) && a != b
    ensures BitCrc(a, w) != BitCrc(b, w)
    decreases |w|
  {
    if w != [] {
      var c := Window([w[0]]);
      assert IsRegister(c) by { forall e: nat | e >= 16 ensures e !in c { WindowStage([w[0]], e); } }
      if Shift(Add(a, c)) == Shift(Add(b, c)) {
        ShiftInjective(Add(a, c), Add(b, c));
        AddCancels(a, b, c);
      }
      ShiftIsRegister(Add(a, c));
      ShiftIsRegister(Add(b, c));
      BitCrcInjective(BitStep(a, w[0]), BitStep(b, w[0]), w[1..]);
    }
  }

  lemma AddCancels(a: Poly, b: Poly, c: Poly)
    requires Add(a, c) == Add(b, c)
    ensures a == b
  {
    forall e: nat ensures e in a <==> e in b {
      assert e in Add(a, c) <==> e in Add(b, c);
    }
  }

  /** Bit strings that differ only inside one window of at most 16 bits have different checksums. */
  lemma BurstDetected(init: Poly, p: seq<bool>, v: seq<bool>, w: seq<bool>, s: seq<bool>)
    requires IsRegister(init) && |v| == |w| <= 16 && v != w
    ensures BitCrc(init, p + v + s) != BitCrc(init, p + w + s)
  {
    var r := BitCrc(init, p);
    BitCrcIsRegister(init, p);
    BitCrcWindow(r, v);
    BitCrcWindow(r, w);
    var a, b := Add(r, Window(v)), Add(r, Window(w));
    assert IsRegister(a) && IsRegister(b) by {
      forall e: nat | e >= 16 ensures e !in Window(v) && e !in Window(w) { WindowStage(v, e); WindowStage(w, e); }
    }
    if BitCrc(r, v) == BitCrc(r, w) {
      ShiftNInjective(|v|, a, b);
      AddCommutes(r, Window(v));
      AddCommutes(r, Window(w));
      AddCancels(Window(v), Window(w), r);
      WindowInjective(v, w);
    }
    BitCrcIsRegister(r, v);
    BitCrcIsRegister(r, w);
    BitCrcInjective(BitCrc(r, v), BitCrc(r, w), s);
    BitCrcAppend(init, p + v, s);
    BitCrcAppend(init, p, v);
    BitCrcAppend(init, p + w, s);
    BitCrcAppend(init, p, w);
  }

  /** Messages of one length that differ, and only at bits from `at` on for at most 16 bits, have different CRCs. */
  lemma BurstErrorDetected(init: Poly, a: seq<bv8>, b: seq<bv8>, at: nat, len: nat)
    requires IsRegister(init) && |a| == |b| && len <= 16 && at + len <= 8 * |a|
    requires Bits(a) != Bits(b)
    requires forall i | 0 <= i < 8 * |a| && Bits(a)[i] != Bits(b)[i] :: at <= i < at + len
    ensures Crc(init, a) != Crc(init, b)
  {
    hide Bits, BitCrc, Crc, IsRegister;
    var p, v, w, s := DifferInWindow(Bits(a), Bits(b), at, len);
    BurstDetected(init, p, v, w, s);
    CrcIsBitCrc(init, a);
    CrcIsBitCrc(init, b);
  }

  lemma DifferInWindow(x: seq<bool>, y: seq<bool>, at: nat, len: nat)
    returns (p: seq<bool>, v: seq<bool>, w: seq<bool>, s: seq<bool>)
    requires |x| == |y| && x != y && at + len <= |x|
    requires forall i | 0 <= i < |x| && x[i] != y[i] :: at <= i < at + len
    ensures x == p + v + s && y == p + w + s && |v| == |w| == len && v != w
  {
    p, v, w, s := x[..at], x[at..at + len], y[at..at + len], x[at + len..];
    assert x == p + v + s;
    assert y == p + w + s;
  }

  // ---- Parity ----

  predicate Odd(n: nat) {
    n % 2 == 1
  }

  lemma OddSum(m: nat, n: nat)
    ensures Odd(m + n) <==> Odd(m) != Odd(n)
  {}

  /** The register has an odd number of ones. */
  predicate OddWeight(p: Poly) {
    Odd(|p|)
  }

  lemma OddUnits()
    ensures Odd(1) && !Odd(0)
  {}

  lemma AddParity(p: Poly, q: Poly)
    ensures OddWeight(Add(p, q)) <==> OddWeight(p) != OddWeight(q)
  {
    assert p == (p - q) + (p * q) && q == (q - p) + (p * q);
    assert |p| == |p - q| + |p * q| && |q| == |q - p| + |p * q|;
    assert (p - q) !! (q - p);
    assert |Add(p, q)| == |p - q| + |q - p|;
  }

  lemma {:induction false} TimesSize(p: Poly, k: nat)
    ensures |Times(p, k)| == |p|
    decreases |p|
  {
    if p == {} {
      assert Times(p, k) == {};
    } else {
      var d :| d in p;
      TimesSize(p - {d}, k);
      assert Times(p, k) == Times(p - {d}, k) + {d + k};
      assert d + k !in Times(p - {d}, k);
    }
  }

  /** The generator has an even number of terms, so a shift keeps the register's parity. */
  lemma ShiftParity(r: Poly)
    ensures OddWeight(Shift(r)) <==> OddWeight(r)
  {
    TimesSize(r, 1);
    var g: Poly := {16, 12, 5, 0};
    assert !OddWeight(g);
    assert OddWeight(Times(r, 1)) == OddWeight(r);
    hide OddWeight;
    AddParity(Times(r, 1), g);
  }

  function Ones(w: seq<bool>): nat {
    if w == [] then 0 else (if w[0] then 1 else 0) + Ones(w[1..])
  }

  lemma BitSize(b: bool)
    ensures OddWeight(Window([b])) <==> b
  {
    forall e: nat ensures e in Window([b]) <==> e == 15 && b { WindowStage([b], e); }
    assert Window([b]) == if b then {15} else {};
  }

  lemma BitStepParity(r: Poly, b: bool)
    ensures OddWeight(BitStep(r, b)) <==> OddWeight(r) != b
  {
    hide OddWeight, Shift, Add, Window;
    BitSize(b);
    AddParity(r, Window([b]));
    ShiftParity(Add(r, Window([b])));
  }

  /** The parity of the register is that of the initial register and all message bits. */
  lemma {:induction false} BitCrcParity(r: Poly, w: seq<bool>)
    ensures OddWeight(BitCrc(r, w)) <==> OddWeight(r) != Odd(Ones(w))
    decreases |w|
  {
    OddUnits();
    hide Odd, OddWeight, BitStep;
    if w != [] {
      BitStepParity(r, w[0]);
      BitCrcParity(BitStep(r, w[0]), w[1..]);
      OddSum(if w[0] then 1 else 0, Ones(w[1..]));
    }
  }

  /** The checksum has the parity of the message. */
  lemma CrcParity(bytes: seq<bv8>)
    ensures OddWeight(Crc({}, bytes)) <==> Odd(Ones(Bits(bytes)))
  {
    assert !OddWeight({});
    hide Odd, OddWeight;
    CrcIsBitCrc({}, bytes);
    BitCrcParity({}, Bits(bytes));
  }

  /** The number of positions at which two bit strings differ. */
  function Distance(v: seq<bool>, w: seq<bool>): nat
    requires |v| == |w|
  {
    if v == [] then 0 else (if v[0] != w[0] then 1 else 0) + Distance(v[1..], w[1..])
  }

  lemma {:induction false} DistanceParity(v: seq<bool>, w: seq<bool>)
    requires |v| == |w|
    ensures Odd(Distance(v, w)) <==> Odd(Ones(v)) != Odd(Ones(w))
  {
    OddUnits();
    hide Odd;
    if v != [] {
      DistanceParity(v[1..], w[1..]);
      OddSum(if v[0] then 1 else 0, Ones(v[1..]));
      OddSum(if w[0] then 1 else 0, Ones(w[1..]));
      OddSum(if v[0] != w[0] then 1 else 0, Distance(v[1..], w[1..]));
    }
  }

  /** Any odd number of flipped bits changes the checksum. */
  lemma OddErrorDetected(init: Poly, a: seq<bv8>, b: seq<bv8>)
    requires |a| == |b| && Odd(Distance(Bits(a), Bits(b)))
    ensures Crc(init, a) != Crc(init, b)
  {
    hide Odd;
    DistanceParity(Bits(a), Bits(b));
    CrcIsBitCrc(init, a);
    CrcIsBitCrc(init, b);
    BitCrcParity(init, Bits(a));
    BitCrcParity(init, Bits(b));
  }
}
