/** The checksum is the remainder of the division process of ITU-T V.41, section 2. */
module CrcRemainder {
  import opened Gf2
  import opened CrcRegister

  /** A message as a polynomial: its first bit has the highest exponent. */
  function Message(w: seq<bool>): Poly {
    set i: int | 0 <= i < |w| && w[i] :: |w| - 1 - i
  }

  lemma MessageTerm(w: seq<bool>, e: nat)
    ensures e in Message(w) <==> e < |w| && w[|w| - 1 - e]
  {
    if e < |w| && w[|w| - 1 - e] {
      var i := |w| - 1 - e;
      assert |w| - 1 - i == e && w[i];
    }
  }

  /** What the bit loop divides: the register ahead of the message, both scaled by x^16. */
  function Dividend(r: Poly, w: seq<bool>): Poly {
    Add(Times(r, |w|), Times(Message(w), 16))
  }

  /** The quotient bit of one shift: the bit that falls out. */
  function QuotientBit(p: Poly): Poly {
    if 15 in p then {0} else {}
  }

  lemma ShiftDivides(p: Poly)
    ensures Times(p, 1) == Add(Mul(QuotientBit(p), G), Shift(p))
  {
    MulOne();
    var g: Poly := {16, 12, 5, 0};
    assert Add(g, Add(Times(p, 1), g)) == Times(p, 1);
    assert Add({}, Times(p, 1)) == Times(p, 1);
  }

  /** A message bit joins the register at the top: b * x^16 is b * x^15 shifted. */
  lemma DividendSplits(r: Poly, b: bool, w: seq<bool>)
    ensures Dividend(r, [b] + w) ==
            Add(Times(Times(Add(r, Window([b])), 1), |w|), Times(Message(w), 16))
  {
    var n := |w|;
    forall e: nat
      ensures e in Dividend(r, [b] + w) <==>
              e in Add(Times(Times(Add(r, Window([b])), 1), n), Times(Message(w), 16))
    {
      if e >= 16 {
        MessageTerm([b] + w, e - 16);
        MessageTerm(w, e - 16);
      }
      if e >= n + 1 { WindowStage([b], e - n - 1); }
    }
  }

  lemma DividendStep(r: Poly, b: bool, w: seq<bool>)
    ensures Dividend(r, [b] + w) ==
            Add(Mul(Times(QuotientBit(Add(r, Window([b]))), |w|), G), Dividend(BitStep(r, b), w))
  {
    var n, p := |w|, Add(r, Window([b]));
    var q, s := QuotientBit(p), Shift(p);
    DividendSplits(r, b, w);
    ShiftDivides(p);
    var qg := Mul(q, G);
    assert Times(Add(qg, s), n) == Add(Times(qg, n), Times(s, n));
    MulShifts(q, n, G);
    AddAssociates(Times(qg, n), Times(s, n), Times(Message(w), 16));
  }

  /** The bit loop divides: some quotient and the final register account for the dividend. */
  lemma {:induction false} BitCrcDivides(r: Poly, w: seq<bool>) returns (q: Poly)
    requires IsRegister(r)
    ensures Divides(Dividend(r, w), q, BitCrc(r, w))
    decreases |w|
  {
    BitCrcIsRegister(r, w);
    if w == [] {
      q := {};
      MulOne();
      assert Message(w) == {};
      assert Dividend(r, w) == r == Add({}, r);
    } else {
      var s := BitStep(r, w[0]);
      assert IsRegister(s) by {
        assert w[..1] == [w[0]];
        BitCrcIsRegister(r, w[..1]);
      }
      var q' := BitCrcDivides(s, w[1..]);
      DividendStep(r, w[0], w[1..]);
      assert w == [w[0]] + w[1..];
      var p := Times(QuotientBit(Add(r, Window([w[0]]))), |w| - 1);
      AddMultiple(Dividend(s, w[1..]), q', BitCrc(r, w), p);
      q := Add(p, q');
    }
  }

  /** A register is the checksum of a byte string exactly when it is the remainder of M(x) * x^16 by G(x). */
  lemma CrcIsRemainder(bytes: seq<bv8>, reg: Poly)
    ensures (exists q :: Divides(Times(Message(Bits(bytes)), 16), q, reg)) <==> reg == Crc({}, bytes)
  {
    var w := Bits(bytes);
    var q := BitCrcDivides({}, w);
    CrcIsBitCrc({}, bytes);
    assert Dividend({}, w) == Times(Message(w), 16);
    if q' :| Divides(Times(Message(w), 16), q', reg) {
      DivisionUnique(Times(Message(w), 16), q, Crc({}, bytes), q', reg);
    }
  }

  /** Started from any register, the remainder is that of init * x^(8n) + M(x) * x^16. */
  lemma SeededCrcIsRemainder(init: Poly, bytes: seq<bv8>, reg: Poly)
    requires IsRegister(init)
    ensures (exists q :: Divides(Dividend(init, Bits(bytes)), q, reg)) <==> reg == Crc(init, bytes)
  {
    var w := Bits(bytes);
    var q := BitCrcDivides(init, w);
    CrcIsBitCrc(init, bytes);
    if q' :| Divides(Dividend(init, w), q', reg) {
      DivisionUnique(Dividend(init, w), q, Crc(init, bytes), q', reg);
    }
  }

  // ---- Errors that go unnoticed ----

  predicate IsMultiple(p: Poly, q: Poly) {
    p == Mul(q, G)
  }

  /** Two messages of one length have the same checksum exactly when G divides the difference of their
      polynomials, scaled by x^16. */
  lemma UndetectedExactly(init: Poly, a: seq<bv8>, b: seq<bv8>)
    requires IsRegister(init) && |a| == |b|
    ensures Crc(init, a) == Crc(init, b)
            <==> exists q :: IsMultiple(Times(Add(Message(Bits(a)), Message(Bits(b))), 16), q)
  {
    var v, w := Bits(a), Bits(b);
    var e := Times(Add(Message(v), Message(w)), 16);
    var q1 := BitCrcDivides(init, v);
    var q2 := BitCrcDivides(init, w);
    CrcIsBitCrc(init, a);
    CrcIsBitCrc(init, b);
    var r1, r2 := Crc(init, a), Crc(init, b);
    DividendDifference(init, v, w);
    DivideSum(Dividend(init, v), q1, r1, Dividend(init, w), q2, r2);
    hide Bits, Crc, Mul, Message, Times, BitCrc, Dividend;
    if r1 == r2 {
      NothingLeft(r1);
      assert IsMultiple(e, Add(q1, q2));
    }
    if q :| IsMultiple(e, q) {
      assert Divides(e, q, {}) by { NothingAdded(Mul(q, G)); }
      DivisionUnique(e, Add(q1, q2), Add(r1, r2), q, {});
      SumOfEqual(r1, r2);
    }
  }

  lemma DividendDifference(r: Poly, v: seq<bool>, w: seq<bool>)
    requires |v| == |w|
    ensures Add(Dividend(r, v), Dividend(r, w)) == Times(Add(Message(v), Message(w)), 16)
  {
    hide Message;
    var p, x, y := Times(r, |v|), Times(Message(v), 16), Times(Message(w), 16);
    assert Add(Add(p, x), Add(p, y)) == Add(x, y);
    assert Add(x, y) == Times(Add(Message(v), Message(w)), 16);
  }

  lemma NothingLeft(r: Poly)
    ensures Add(r, r) == {} && forall p: Poly :: Add(p, {}) == p
  {}

  lemma NothingAdded(p: Poly)
    ensures Add(p, {}) == p
  {}

  lemma SumOfEqual(p: Poly, q: Poly)
    requires Add(p, q) == {}
    ensures p == q
  {
    forall e: nat ensures e in p <==> e in q { assert e !in Add(p, q); }
  }
}
