/**
 * What the packet error code means (section 5.4 of the SMBus Specification 2.0):
 * the remainder, over GF(2), of the message polynomial times x^8 divided by
 * x^8 + x^2 + x + 1.  Polynomials are the sets of their exponents.
 */
module PecPolynomial {
  import opened Bytes
  import opened PecRegister
  import opened Pec

  type Poly = set<nat>

  function Add(p: Poly, q: Poly): (r: Poly)
    ensures forall e: nat :: e in r <==> (e in p) != (e in q)
  {
    (p - q) + (q - p)
  }

  // x^k times p.
  function Shift(p: Poly, k: nat): (r: Poly)
    ensures forall e: nat :: e in r <==> e >= k && e - k in p
  {
    set e: nat | e in p :: e + k
  }

  // (x^8 + x^2 + x + 1) times q.
  function TimesG(q: Poly): Poly {
    Add(Shift(q, 8), Add(Shift(q, 2), Add(Shift(q, 1), q)))
  }

  // p = q * (x^8 + x^2 + x + 1) + r for some q, and r has degree below 8.
  ghost predicate IsRemainder(r: Poly, p: Poly) {
    (forall e <- r :: e < 8) && exists q: Poly :: p == Add(TimesG(q), r)
  }

  function PolyOf(v: bv8): Poly {
    set e: nat | e < 8 && Coefficient(v, e)
  }

  // Bytes are sent first to last, each with its highest bit first.
  predicate MessageBitAt(m: seq<byte>, e: nat) {
    e < 8 * |m| && Coefficient(m[|m| - 1 - e / 8] as bv8, e % 8)
  }

  function MessagePoly(m: seq<byte>): Poly {
    set e: nat | e < 8 * |m| && MessageBitAt(m, e)
  }

  lemma PolyOfInjective(v: bv8, w: bv8)
    requires PolyOf(v) == PolyOf(w)
    ensures v == w
  {
    assert forall e: nat | e < 8 :: Coefficient(v, e) == (e in PolyOf(v));
    assert forall e: nat | e < 8 :: Coefficient(w, e) == (e in PolyOf(w));
    CoefficientsDetermine(v, w);
  }

  lemma PolyOfXor(v: bv8, w: bv8)
    ensures PolyOf(Xor(v, w)) == Add(PolyOf(v), PolyOf(w))
  {
    forall e: nat {
      CoefficientXor(v, w, e);
    }
  }

  // What a round of the shift loop adds to the quotient.
  function Carry(v: bv8): Poly {
    if Coefficient(v, 7) then {0} else {}
  }

  lemma TimesGCarry(v: bv8, e: nat)
    ensures e in TimesG(Carry(v)) <==> Coefficient(v, 7) && (e < 3 || e == 8)
  {
  }

  lemma XTimeStep(v: bv8)
    ensures Shift(PolyOf(v), 1) == Add(TimesG(Carry(v)), PolyOf(XTime(v)))
  {
    var left, right := Shift(PolyOf(v), 1), PolyOf(XTime(v));
    forall e: nat
      ensures (e in left) == ((e in TimesG(Carry(v))) != (e in right))
    {
      TimesGCarry(v, e);
      CoefficientXTime(v, e);
      assert e in left <==> e > 0 && e - 1 < 8 && Coefficient(v, e - 1);
    }
  }

  lemma ShiftAdd(p: Poly, q: Poly, k: nat)
    ensures Shift(Add(p, q), k) == Add(Shift(p, k), Shift(q, k))
  {
  }

  lemma ShiftShift(p: Poly, j: nat, k: nat)
    ensures Shift(Shift(p, j), k) == Shift(p, j + k)
  {
  }

  lemma AddAssociative(p: Poly, q: Poly, r: Poly)
    ensures Add(Add(p, q), r) == Add(p, Add(q, r))
  {
  }

  lemma AddShuffle(p: Poly, q: Poly, r: Poly, s: Poly)
    ensures Add(Add(p, q), Add(r, s)) == Add(Add(p, r), Add(q, s))
  {
  }

  lemma TimesGAdd(p: Poly, q: Poly)
    ensures TimesG(Add(p, q)) == Add(TimesG(p), TimesG(q))
  {
    ShiftAdd(p, q, 8);
    ShiftAdd(p, q, 2);
    ShiftAdd(p, q, 1);
    AddShuffle(Shift(p, 1), Shift(q, 1), p, q);
    AddShuffle(Shift(p, 2), Shift(q, 2), Add(Shift(p, 1), p), Add(Shift(q, 1), q));
    AddShuffle(Shift(p, 8), Shift(q, 8), Add(Shift(p, 2), Add(Shift(p, 1), p)), Add(Shift(q, 2), Add(Shift(q, 1), q)));
  }

  lemma TimesGShift(q: Poly, k: nat)
    ensures TimesG(Shift(q, k)) == Shift(TimesG(q), k)
  {
    ShiftShift(q, k, 8); ShiftShift(q, 8, k);
    ShiftShift(q, k, 2); ShiftShift(q, 2, k);
    ShiftShift(q, k, 1); ShiftShift(q, 1, k);
    ShiftAdd(Shift(q, 1), q, k);
    ShiftAdd(Shift(q, 2), Add(Shift(q, 1), q), k);
    ShiftAdd(Shift(q, 8), Add(Shift(q, 2), Add(Shift(q, 1), q)), k);
  }

  // Multiplying a division p = q * G + r by x^k, when x^k * r = c * G + r'.
  lemma ScaleDivision(q: Poly, r: Poly, k: nat, c: Poly, r': Poly)
    requires Shift(r, k) == Add(TimesG(c), r')
    ensures Shift(Add(TimesG(q), r), k) == Add(TimesG(Add(Shift(q, k), c)), r')
  {
    ShiftAdd(TimesG(q), r, k);
    TimesGShift(q, k);
    AddAssociative(TimesG(Shift(q, k)), TimesG(c), r');
    TimesGAdd(Shift(q, k), c);
  }

  lemma NextDivision(p: Poly, n: nat, q: Poly, w: bv8)
    requires Shift(p, n) == Add(TimesG(q), PolyOf(w))
    ensures Shift(p, n + 1) == Add(TimesG(Add(Shift(q, 1), Carry(w))), PolyOf(XTime(w)))
  {
    XTimeStep(w);
    ShiftShift(p, n, 1);
    ScaleDivision(q, PolyOf(w), 1, Carry(w), PolyOf(XTime(w)));
  }

  lemma {:induction false} XTimesStep(v: bv8, n: nat) returns (q: Poly)
    ensures Shift(PolyOf(v), n) == Add(TimesG(q), PolyOf(XTimes(v, n)))
  {
    if n == 0 {
      q := {};
      assert TimesG(q) == {};
    } else {
      var p := XTimesStep(v, n - 1);
      var w := XTimes(v, n - 1);
      q := Add(Shift(p, 1), Carry(w));
      NextDivision(PolyOf(v), n - 1, p, w);
    }
  }

  lemma MessagePolySnoc(m: seq<byte>, b: byte)
    ensures MessagePoly(m + [b]) == Add(Shift(MessagePoly(m), 8), PolyOf(b as bv8))
  {
    forall e: nat
      ensures e in MessagePoly(m + [b]) <==> e in Add(Shift(MessagePoly(m), 8), PolyOf(b as bv8))
    {
      MessageTerm(m, b, e);
    }
  }

  lemma MessageTerm(m: seq<byte>, b: byte, e: nat)
    ensures e in MessagePoly(m + [b]) <==> e in Add(Shift(MessagePoly(m), 8), PolyOf(b as bv8))
  {
    MessageBit(m, b, e);
  }

  lemma MessageBit(m: seq<byte>, b: byte, e: nat)
    ensures MessageBitAt(m + [b], e) <==>
      if e < 8 then Coefficient(b as bv8, e) else MessageBitAt(m, e - 8)
  {
  }

  lemma {:induction false} PecDivides(m: seq<byte>) returns (q: Poly)
    ensures Shift(MessagePoly(m), 8) == Add(TimesG(q), PolyOf(PecOf(m) as bv8))
  {
    if m == [] {
      q := {};
      assert PolyOf(0) == {} && TimesG(q) == {} && MessagePoly(m) == {};
    } else {
      var k := |m| - 1;
      var front, b := m[..k], m[k] as bv8;
      assert m == front + [m[k]];
      var c := PecOf(front) as bv8;
      var p := PecDivides(front);
      var t := XTimesStep(Xor(c, b), 8);
      q := Add(Shift(p, 8), t);
      MessagePolySnoc(front, m[k]);
      PolyOfXor(c, b);
      AddAssociative(TimesG(p), PolyOf(c), PolyOf(b));
      PecSnoc(front, m[k]);
      ScaleDivision(p, PolyOf(Xor(c, b)), 8, t, PolyOf(XTimes(Xor(c, b), 8)));
    }
  }

  // A nonzero multiple of x^8 + x^2 + x + 1 has degree at least 8.
  lemma MultipleIsLarge(q: Poly)
    requires q != {}
    ensures exists e :: e in TimesG(q) && e >= 8
  {
    var top := Largest(q);
    assert top + 8 in TimesG(q);
  }

  lemma {:induction false} Largest(q: Poly) returns (top: nat)
    requires q != {}
    ensures top in q && forall e <- q :: e <= top
  {
    var x :| x in q;
    if q == {x} {
      top := x;
    } else {
      var rest := Largest(q - {x});
      top := if rest < x then x else rest;
      assert forall e <- q :: e == x || e in q - {x};
    }
  }

  lemma RemainderUnique(r: Poly, r': Poly, p: Poly)
    requires IsRemainder(r, p) && IsRemainder(r', p)
    ensures r == r'
  {
    var q: Poly :| p == Add(TimesG(q), r);
    var q': Poly :| p == Add(TimesG(q'), r');
    TimesGAdd(q, q');
    assert Add(TimesG(q), TimesG(q')) == Add(r, r');
    if Add(q, q') != {} {
      MultipleIsLarge(Add(q, q'));
    } else {
      assert q == q';
    }
  }

  // The byte pec_crc computes is the remainder, and no other byte is.
  lemma PecIsRemainder(m: seq<byte>, r: byte)
    ensures IsRemainder(PolyOf(r as bv8), Shift(MessagePoly(m), 8)) <==> r == PecOf(m)
  {
    var p := Shift(MessagePoly(m), 8);
    var q := PecDivides(m);
    assert IsRemainder(PolyOf(PecOf(m) as bv8), p);
    if IsRemainder(PolyOf(r as bv8), p) {
      RemainderUnique(PolyOf(r as bv8), PolyOf(PecOf(m) as bv8), p);
      PolyOfInjective(r as bv8, PecOf(m) as bv8);
      ByteRoundTrip(r);
      ByteRoundTrip(PecOf(m));
    }
  }

  // The receiver's test: a message and the byte after it have residue 0 exactly
  // when that byte is the message's PEC.
  lemma ResidueZero(m: seq<byte>, b: byte)
    ensures PecOf(m + [b]) == 0 <==> b == PecOf(m)
  {
    var c, d := PecOf(m) as bv8, b as bv8;
    PecSnoc(m, b);
    ByteRoundTrip(b);
    ByteRoundTrip(PecOf(m));
    ByteRoundTrip(PecOf(m + [b]));
    XTimesZero(8);
    XorZero(c, d);
    if XTimes(Xor(c, d), 8) == 0 {
      XTimesInjective(Xor(c, d), 0, 8);
    }
  }
}
