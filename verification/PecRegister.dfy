/** Bit-level facts about the shift register of pec_crc. */
module PecRegister {
  // One round of the shift loop: multiplication by x in GF(2)[x] / (x^8 + x^2 + x + 1).
  function XTime(v: bv8): bv8 {
    if v & 0x80 != 0 then (v << 1) ^ 0x07 else v << 1
  }

  function Xor(v: bv8, w: bv8): bv8 {
    v ^ w
  }

  // The coefficient of x^e in the polynomial that v holds.
  predicate Coefficient(v: bv8, e: nat) {
    match e
    case 0 => v & 0x01 != 0
    case 1 => v & 0x02 != 0
    case 2 => v & 0x04 != 0
    case 3 => v & 0x08 != 0
    case 4 => v & 0x10 != 0
    case 5 => v & 0x20 != 0
    case 6 => v & 0x40 != 0
    case 7 => v & 0x80 != 0
    case _ => false
  }

  lemma ShiftXor(v: bv8, w: bv8)
    ensures (v ^ w) << 1 == (v << 1) ^ (w << 1)
  {
  }

  lemma TopXor(v: bv8, w: bv8)
    ensures ((v ^ w) & 0x80 != 0) == ((v & 0x80 != 0) != (w & 0x80 != 0))
  {
  }

  lemma XorShuffle(a: bv8, b: bv8, c: bv8)
    ensures (a ^ c) ^ (b ^ c) == a ^ b
    ensures (a ^ c) ^ b == (a ^ b) ^ c
    ensures a ^ (b ^ c) == (a ^ b) ^ c
  {
  }

  lemma XTimeLinear(v: bv8, w: bv8)
    ensures XTime(Xor(v, w)) == Xor(XTime(v), XTime(w))
  {
    ShiftXor(v, w);
    TopXor(v, w);
    XorShuffle(v << 1, w << 1, 0x07);
  }

  lemma XTimeInjective(v: bv8, w: bv8)
    requires XTime(v) == XTime(w)
    ensures v == w
  {
  }

  lemma XorZero(v: bv8, w: bv8)
    ensures Xor(v, w) == 0 <==> v == w
  {
  }

  lemma CoefficientXor(v: bv8, w: bv8, e: nat)
    ensures Coefficient(Xor(v, w), e) == (Coefficient(v, e) != Coefficient(w, e))
  {
    if e == 0 {
    } else if e == 1 {
    } else if e == 2 {
    } else if e == 3 {
    } else if e == 4 {
    } else if e == 5 {
    } else if e == 6 {
    } else if e == 7 {
    } else {
    }
  }

  lemma CoefficientXTime(v: bv8, e: nat)
    ensures Coefficient(XTime(v), e) ==
      (e < 8 && ((e > 0 && Coefficient(v, e - 1)) != (Coefficient(v, 7) && e < 3)))
  {
  }

  lemma CoefficientsDetermine(v: bv8, w: bv8)
    requires forall e: nat | e < 8 :: Coefficient(v, e) == Coefficient(w, e)
    ensures v == w
  {
    assert Coefficient(v, 0) == Coefficient(w, 0) && Coefficient(v, 1) == Coefficient(w, 1);
    assert Coefficient(v, 2) == Coefficient(w, 2) && Coefficient(v, 3) == Coefficient(w, 3);
    assert Coefficient(v, 4) == Coefficient(w, 4) && Coefficient(v, 5) == Coefficient(w, 5);
    assert Coefficient(v, 6) == Coefficient(w, 6) && Coefficient(v, 7) == Coefficient(w, 7);
  }

  // The register fed one message bit: eight such rounds are pec_crc.
  function Top(bit: bool): bv8 {
    if bit then 0x80 else 0
  }

  function Step(v: bv8, bit: bool): bv8 {
    XTime(Xor(v, Top(bit)))
  }

  lemma StepZero(v: bv8)
    ensures Step(v, false) == XTime(v)
    ensures XTime(0) == 0
  {
  }

  lemma XorNothing(v: bv8)
    ensures Xor(v, 0) == v && Xor(0, v) == v
  {
  }

  lemma XorAssociative(a: bv8, b: bv8, c: bv8)
    ensures Xor(a, Xor(b, c)) == Xor(Xor(a, b), c)
    ensures Xor(Xor(a, c), b) == Xor(Xor(a, b), c)
    ensures Xor(Xor(a, c), Xor(b, c)) == Xor(a, b)
  {
  }

  lemma XorInterchange(a: bv8, b: bv8, c: bv8, d: bv8)
    ensures Xor(Xor(a, b), Xor(c, d)) == Xor(Xor(a, c), Xor(b, d))
  {
    XorAssociative(Xor(a, b), c, d);
    XorAssociative(a, c, b);
    XorAssociative(Xor(a, c), b, d);
  }

  lemma TopXorTop(p: bool, q: bool)
    ensures Xor(Top(p), Top(q)) == Top(p != q)
  {
  }

  function Differ(p: bool, q: bool): bool {
    p != q
  }

  lemma StepLinear(v: bv8, w: bv8, p: bool, q: bool)
    ensures Step(Xor(v, w), Differ(p, q)) == Xor(Step(v, p), Step(w, q))
  {
    TopXorTop(p, q);
    XorInterchange(v, w, Top(p), Top(q));
    XTimeLinear(Xor(v, Top(p)), Xor(w, Top(q)));
  }

  lemma DropTop(r: bv8)
    ensures XTime(Xor(r, Top(Coefficient(r, 7)))) == r << 1
  {
  }

  lemma StepShift(s: bv8, r: bv8)
    ensures Xor(Step(s, Coefficient(r, 7)), r << 1) == XTime(Xor(s, r))
  {
    var t := Top(Coefficient(r, 7));
    DropTop(r);
    XTimeLinear(Xor(s, t), Xor(r, t));
    XorAssociative(s, r, t);
  }

  // The bits of d still to be fed after the first k.
  function Remaining(d: bv8, k: nat): bv8 {
    if k == 0 then d else Remaining(d, k - 1) << 1
  }

  lemma CoefficientShift(v: bv8, e: nat)
    ensures Coefficient(v << 1, e) <==> 0 < e < 8 && Coefficient(v, e - 1)
  {
  }

  lemma {:induction false} CoefficientRemaining(d: bv8, k: nat, e: nat)
    ensures Coefficient(Remaining(d, k), e) <==> k <= e < 8 && Coefficient(d, e - k)
  {
    if k > 0 {
      CoefficientShift(Remaining(d, k - 1), e);
      if e > 0 {
        CoefficientRemaining(d, k - 1, e - 1);
      }
    }
  }

  lemma RemainingStep(s: bv8, d: bv8, k: nat)
    requires k < 8
    ensures Xor(Step(s, Coefficient(d, 7 - k)), Remaining(d, k + 1)) == XTime(Xor(s, Remaining(d, k)))
  {
    CoefficientRemaining(d, k, 7);
    StepShift(s, Remaining(d, k));
  }

  lemma NothingRemains(d: bv8)
    ensures Remaining(d, 8) == 0
  {
    forall e: nat | e < 8
      ensures Coefficient(Remaining(d, 8), e) == Coefficient(0, e)
    {
      CoefficientRemaining(d, 8, e);
    }
    CoefficientsDetermine(Remaining(d, 8), 0);
  }

  predicate Parity(v: bv8) {
    ((Coefficient(v, 0) != Coefficient(v, 1)) != (Coefficient(v, 2) != Coefficient(v, 3)))
    != ((Coefficient(v, 4) != Coefficient(v, 5)) != (Coefficient(v, 6) != Coefficient(v, 7)))
  }

  // The divisor has four terms, so a round keeps the parity.
  lemma ParityStep(v: bv8, bit: bool)
    ensures Parity(Step(v, bit)) == (Parity(v) != bit)
  {
  }

  // x^8 = x^2 + x + 1.
  lemma Reduce(v: bv8)
    ensures XTime(XTime(XTime(XTime(XTime(XTime(XTime(XTime(v)))))))) == Xor(Xor(XTime(XTime(v)), XTime(v)), v)
  {
  }

  function ByteOfBits(w: seq<bool>): bv8
    requires |w| == 8
  {
    (if w[0] then 0x80 else 0) | (if w[1] then 0x40 else 0) | (if w[2] then 0x20 else 0) | (if w[3] then 0x10 else 0) |
    (if w[4] then 0x08 else 0) | (if w[5] then 0x04 else 0) | (if w[6] then 0x02 else 0) | (if w[7] then 0x01 else 0)
  }

  lemma BitsOfByteOfBits(w: seq<bool>, i: nat)
    requires |w| == 8 && i < 8
    ensures Coefficient(ByteOfBits(w), 7 - i) == w[i]
  {
  }
}
