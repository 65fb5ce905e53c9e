/** Polynomials over GF(2).

A polynomial is the finite set of the exponents whose coefficient is 1, so equality of
polynomials is equality of sets and there is no normal form to keep. */
module Gf2 {

  type Poly = set<nat>

  function Add(p: Poly, q: Poly): (r: Poly)
    ensures forall e: nat :: e in r <==> ((e in p) != (e in q))
  {
    (p - q) + (q - p)
  }

  /** p * x^k */
  function Times(p: Poly, k: nat): (r: Poly)
    ensures forall e: nat :: e in r <==> k <= e && e - k in p
  {
    var r := set e | e in p :: e + k;
    assert forall e: nat | k <= e && e - k in p :: e in r by {
      forall e: nat | k <= e && e - k in p ensures e in r {
        var d := e - k;
        assert d in p && d + k == e;
      }
    }
    r
  }

  /** p * g, where g lists the exponents of the second factor. */
  function Mul(p: Poly, g: seq<nat>): Poly
  {
    if g == [] then {} else Add(Times(p, g[0]), Mul(p, g[1..]))
  }

  lemma {:induction false} MulDistributes(p: Poly, q: Poly, g: seq<nat>)
    ensures Mul(Add(p, q), g) == Add(Mul(p, g), Mul(q, g))
  {
    if g != [] {
      MulDistributes(p, q, g[1..]);
      assert Times(Add(p, q), g[0]) == Add(Times(p, g[0]), Times(q, g[0]));
    }
  }

  lemma {:induction false} MulShifts(p: Poly, k: nat, g: seq<nat>)
    ensures Mul(Times(p, k), g) == Times(Mul(p, g), k)
  {
    if g != [] {
      MulShifts(p, k, g[1..]);
      assert Times(Times(p, k), g[0]) == Times(Times(p, g[0]), k);
    }
  }

  /** The largest exponent of a non-zero polynomial. */
  lemma {:induction false} Degree(p: Poly) returns (d: nat)
    requires p != {}
    ensures d in p && forall e :: e in p ==> e <= d
  {
    var x :| x in p;
    if p == {x} {
      d := x;
    } else {
      var d' := Degree(p - {x});
      d := if x > d' then x else d';
      assert p == (p - {x}) + {x};
    }
  }

  /** The generator of ITU-T Recommendation V.41, section 2: x^16 + x^12 + x^5 + 1. */
  const G: seq<nat> := [16, 12, 5, 0]

  lemma MulGExpanded(p: Poly)
    ensures Mul(p, G) == Add(Times(p, 16), Add(Times(p, 12), Add(Times(p, 5), p)))
  {
    MulLast(p);
    assert G[1..] == [12, 5, 0] && [12, 5, 0][1..] == [5, 0] && [5, 0][1..] == [0];
    assert Mul(p, [5, 0]) == Add(Times(p, 5), p);
    assert Mul(p, [12, 5, 0]) == Add(Times(p, 12), Mul(p, [5, 0]));
  }

  lemma MulLast(p: Poly)
    ensures Mul(p, [0]) == p
  {
    assert [0][1..] == [];
    assert Mul(p, [0]) == Add(Times(p, 0), {});
  }

  lemma MulG(p: Poly, e: nat)
    ensures e in Mul(p, G) <==>
            ((16 <= e && e - 16 in p) != ((12 <= e && e - 12 in p) != ((5 <= e && e - 5 in p) != (e in p))))
  {
    MulGExpanded(p);
    InSum(p, e);
  }

  lemma InSum(p: Poly, e: nat)
    ensures e in Add(Times(p, 16), Add(Times(p, 12), Add(Times(p, 5), p))) <==>
            ((16 <= e && e - 16 in p) != ((12 <= e && e - 12 in p) != ((5 <= e && e - 5 in p) != (e in p))))
  {
    var s5 := Add(Times(p, 5), p);
    var s12 := Add(Times(p, 12), s5);
    assert e in s5 <==> ((5 <= e && e - 5 in p) != (e in p));
    assert e in s12 <==> ((12 <= e && e - 12 in p) != (e in s5));
    assert e in Add(Times(p, 16), s12) <==> ((16 <= e && e - 16 in p) != (e in s12));
  }

  /** Division with remainder: m = q * G + r with deg r < 16. */
  ghost predicate Divides(m: Poly, q: Poly, r: Poly) {
    (forall e :: e in r ==> e < 16) && m == Add(Mul(q, G), r)
  }

  /** Quotient and remainder of a division by G are unique: a non-zero multiple of G has degree at least 16. */
  lemma DivisionUnique(m: Poly, q1: Poly, r1: Poly, q2: Poly, r2: Poly)
    requires Divides(m, q1, r1) && Divides(m, q2, r2)
    ensures q1 == q2 && r1 == r2
  {
    var q := Add(q1, q2);
    MulDistributes(q1, q2, G);
    assert Mul(q, G) == Add(r1, r2) by {
      assert forall e: nat :: (e in m) == ((e in Mul(q1, G)) != (e in r1));
      assert forall e: nat :: (e in m) == ((e in Mul(q2, G)) != (e in r2));
    }
    if q != {} {
      var d := Degree(q);
      MulG(q, d + 16);
      assert false;
    }
    assert forall e: nat :: (e in q1) == (e in q2) by {
      assert forall e: nat :: e in q <==> ((e in q1) != (e in q2));
    }
    assert q1 == q2;
    assert forall e: nat :: (e in r1) == (e in r2);
  }

  lemma DivideSum(m1: Poly, q1: Poly, r1: Poly, m2: Poly, q2: Poly, r2: Poly)
    requires Divides(m1, q1, r1) && Divides(m2, q2, r2)
    ensures Divides(Add(m1, m2), Add(q1, q2), Add(r1, r2))
  {
    MulDistributes(q1, q2, G);
    var a, b := Mul(q1, G), Mul(q2, G);
    assert Add(Add(a, r1), Add(b, r2)) == Add(Add(a, b), Add(r1, r2));
  }

  /** Adding a multiple of G leaves the remainder as it was. */
  lemma AddMultiple(m: Poly, q: Poly, r: Poly, p: Poly)
    requires Divides(m, q, r)
    ensures Divides(Add(Mul(p, G), m), Add(p, q), r)
  {
    MulDistributes(p, q, G);
    var a, b := Mul(p, G), Mul(q, G);
    assert Add(a, Add(b, r)) == Add(Add(a, b), r);
  }

  lemma MulOne()
    ensures Mul({0}, G) == {16, 12, 5, 0} && Mul({}, G) == {}
  {
    forall e: nat ensures e in Mul({0}, G) <==> e in {16, 12, 5, 0} { MulG({0}, e); }
    forall e: nat ensures e !in Mul({}, G) { MulG({}, e); }
  }

  lemma ZeroDivision()
    ensures Divides({}, {}, {})
  {
    MulOne();
  }

  lemma AddCommutes(p: Poly, q: Poly)
    ensures Add(p, q) == Add(q, p)
  {}

  lemma AddAssociates(p: Poly, q: Poly, r: Poly)
    ensures Add(Add(p, q), r) == Add(p, Add(q, r))
  {}

  /** Every polynomial has a quotient and a remainder by G. */
  lemma {:induction false} DivisionExists(m: Poly) returns (q: Poly, r: Poly)
    ensures Divides(m, q, r)
    decreases |m|
  {
    if m == {} {
      q, r := {}, {};
      ZeroDivision();
    } else {
      var d: nat :| d in m;
      var rest: Poly := m - {d};
      assert m == Add(rest, {d}) && |rest| < |m|;
      var q1, r1 := DivisionExists(rest);
      var q2, r2 := MonomialDivision(d);
      q, r := Add(q1, q2), Add(r1, r2);
      DivideSum(rest, q1, r1, {d}, q2, r2);
    }
  }

  /** Division of x^d, by reducing x * (remainder of x^(d-1)). */
  lemma {:induction false} MonomialDivision(d: nat) returns (q: Poly, r: Poly)
    ensures Divides({d}, q, r)
  {
    if d == 0 {
      MulOne();
      q, r := {}, {0};
    } else {
      var q', r' := MonomialDivision(d - 1);
      q, r := ShiftDivision({d - 1}, q', r');
      assert Times({d - 1}, 1) == {d};
    }
  }

  /** x * r has degree at most 16; when it is 16, one more multiple of G is taken out. */
  lemma ShiftDivision(m: Poly, q: Poly, r: Poly) returns (q': Poly, r': Poly)
    requires Divides(m, q, r)
    ensures Divides(Times(m, 1), q', r')
  {
    var t := Times(q, 1);
    var a, s := Mul(t, G), Times(r, 1);
    assert Times(m, 1) == Add(a, s) by {
      MulShifts(q, 1, G);
      assert Times(Add(Mul(q, G), r), 1) == Add(Times(Mul(q, G), 1), Times(r, 1));
    }
    q', r' := t, s;
    if 15 in r {
      var g: Poly := {16, 12, 5, 0};
      q', r' := Add(t, {0}), Add(s, g);
      assert Mul(q', G) == Add(a, g) by { MulOne(); MulDistributes(t, {0}, G); }
      assert Add(g, r') == s;
      AddAssociates(a, g, r');
    }
  }
}
