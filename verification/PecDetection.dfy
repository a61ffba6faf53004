/**
 * Which transmission errors the packet error code detects.  Two messages of equal length,
 * each followed by its PEC, are compared bit by bit in transmission order.
 */
module PecDetection {
  import opened Bytes
  import opened Iteration
  import opened PecRegister
  import opened Pec

  // Bit i of a message: bytes first to last, each with its highest bit first.
  predicate BitAt(m: seq<byte>, i: nat)
    requires i < 8 * |m|
  {
    Coefficient(m[i / 8] as bv8, 7 - i % 8)
  }

  // The positions at which two messages differ.
  function Differences(a: seq<byte>, b: seq<byte>): set<nat>
    requires |a| == |b|
  {
    set i: nat | i < 8 * |a| && BitAt(a, i) != BitAt(b, i)
  }

  function Bits(m: seq<byte>): (s: seq<bool>)
    ensures |s| == 8 * |m|
  {
    if m == [] then [] else Bits(m[..|m| - 1]) + ByteBits(m[|m| - 1] as bv8)
  }

  function ByteBits(d: bv8): seq<bool> {
    seq(8, i requires 0 <= i < 8 => Coefficient(d, 7 - i))
  }

  // The shift register fed one bit at a time.
  function Feed(v: bv8, bits: seq<bool>): bv8 {
    Fold(Step, v, bits)
  }

  // Eight rounds on one bit each are eight rounds on the whole byte.
  lemma FeedByte(v: bv8, d: bv8)
    ensures Feed(v, ByteBits(d)) == XTimes(Xor(v, d), 8)
  {
    var rest := (k: nat) => Remaining(d, k);
    forall t, k: nat | k < 8
      ensures Xor(Step(t, ByteBits(d)[k]), rest(k + 1)) == XTime(Xor(t, rest(k)))
    {
      RemainingStep(t, d, k);
    }
    FoldMixed(Step, XTime, Xor, v, ByteBits(d), rest, 8);
    NothingRemains(d);
    XorNothing(Feed(v, ByteBits(d)));
    assert ByteBits(d)[..8] == ByteBits(d);
  }

  lemma BitAtSnoc(m: seq<byte>, b: byte, i: nat)
    requires i < 8 * |m| + 8
    ensures BitAt(m + [b], i) == if i < 8 * |m| then BitAt(m, i) else Coefficient(b as bv8, 7 - (i - 8 * |m|))
  {
  }

  lemma BitsSnoc(m: seq<byte>, b: byte)
    ensures Bits(m + [b]) == Bits(m) + ByteBits(b as bv8)
  {
  }

  lemma {:induction false} BitsAt(m: seq<byte>, i: nat)
    requires i < 8 * |m|
    ensures Bits(m)[i] == BitAt(m, i)
  {
    var k := |m| - 1;
    var front, last := m[..k], m[k];
    assert m == front + [last];
    BitsSnoc(front, last);
    BitAtSnoc(front, last, i);
    if i < 8 * k {
      BitsAt(front, i);
      assert Bits(m)[i] == Bits(front)[i];
    } else {
      assert Bits(m)[i] == ByteBits(last as bv8)[i - 8 * k];
    }
  }

  lemma {:induction false} PecIsFeed(m: seq<byte>)
    ensures PecOf(m) as bv8 == Feed(0, Bits(m))
  {
    if m != [] {
      var k := |m| - 1;
      assert m == m[..k] + [m[k]];
      PecIsFeed(m[..k]);
      PecIsFeedSnoc(m[..k], m[k]);
    }
  }

  lemma PecIsFeedSnoc(m: seq<byte>, b: byte)
    requires PecOf(m) as bv8 == Feed(0, Bits(m))
    ensures PecOf(m + [b]) as bv8 == Feed(0, Bits(m + [b]))
  {
    BitsSnoc(m, b);
    PecSnoc(m, b);
    FoldConcat(Step, 0, Bits(m), ByteBits(b as bv8));
    FeedByte(PecOf(m) as bv8, b as bv8);
  }

  lemma ResidueIsFeed(m: seq<byte>)
    ensures PecOf(m) == 0 <==> Feed(0, Bits(m)) == 0
  {
    PecIsFeed(m);
    ByteRoundTrip(PecOf(m));
  }

  lemma {:induction false} FeedLinear(x: seq<bool>, y: seq<bool>, z: seq<bool>)
    requires |x| == |y| == |z| && forall k | 0 <= k < |z| :: z[k] == Differ(x[k], y[k])
    ensures Feed(0, z) == Xor(Feed(0, x), Feed(0, y))
  {
    if z == [] {
      XorNothing(0);
    } else {
      var k := |z| - 1;
      FeedLinear(x[..k], y[..k], z[..k]);
      StepLinear(Feed(0, x[..k]), Feed(0, y[..k]), x[k], y[k]);
    }
  }

  // The error pattern between two messages, the first of which carries its PEC.
  lemma ErrorPattern(a: seq<byte>, b: seq<byte>) returns (e: seq<bool>)
    requires |a| == |b| && PecOf(a) == 0
    ensures |e| == 8 * |a|
    ensures forall i: nat | i < |e| :: e[i] == (i in Differences(a, b))
    ensures PecOf(b) == 0 <==> Feed(0, e) == 0
  {
    e := seq(8 * |a|, i requires 0 <= i < 8 * |a| => Differ(BitAt(a, i), BitAt(b, i)));
    forall k: nat | k < 8 * |a|
      ensures e[k] == Differ(Bits(a)[k], Bits(b)[k])
    {
      BitsAt(a, k);
      BitsAt(b, k);
    }
    FeedLinear(Bits(a), Bits(b), e);
    ResidueIsFeed(a);
    ResidueIsFeed(b);
    XorZero(Feed(0, Bits(a)), Feed(0, Bits(b)));
  }

  // Zero bits in, and what they do to the register.
  lemma FeedZeros(v: bv8, zeros: seq<bool>)
    requires forall i | 0 <= i < |zeros| :: !zeros[i]
    ensures Feed(v, zeros) == XTimes(v, |zeros|)
    ensures Feed(v, zeros) == 0 <==> v == 0
  {
    forall w
      ensures Step(w, false) == XTime(w)
    {
      StepZero(w);
    }
    FoldConstant(Step, XTime, v, false, zeros);
    Survives(v, |zeros|);
  }

  // Zero bits never clear a register.
  lemma Survives(v: bv8, n: nat)
    ensures XTimes(v, n) == 0 <==> v == 0
  {
    XTimesZero(n);
    if XTimes(v, n) == 0 {
      XTimesInjective(v, 0, n);
    }
  }

  // ----- Odd numbers of errors

  function Ones(bits: seq<bool>): set<nat> {
    set i: nat | i < |bits| && bits[i]
  }

  lemma {:induction false} FoldParity<S(!new)>(step: (S, bool) -> S, parity: S -> bool, s: S, bits: seq<bool>)
    requires forall t, bit :: parity(step(t, bit)) == (parity(t) != bit)
    ensures parity(Fold(step, s, bits)) == (parity(s) != (|Ones(bits)| % 2 == 1))
  {
    if bits == [] {
      assert Ones(bits) == {};
    } else {
      var k := |bits| - 1;
      FoldParity(step, parity, s, bits[..k]);
      OnesSnoc(bits[..k], bits[k]);
      assert bits == bits[..k] + [bits[k]];
    }
  }

  lemma OnesSnoc(bits: seq<bool>, bit: bool)
    ensures |Ones(bits + [bit])| == |Ones(bits)| + if bit then 1 else 0
  {
    assert Ones(bits + [bit]) == Ones(bits) + if bit then {|bits|} else {};
  }

  // Two valid messages never differ in an odd number of bits.
  lemma OddErrorsDetected(a: seq<byte>, b: seq<byte>)
    requires |a| == |b| && PecOf(a) == 0 && PecOf(b) == 0
    ensures |Differences(a, b)| % 2 == 0
  {
    var e := ErrorPattern(a, b);
    forall v, bit
      ensures Parity(Step(v, bit)) == (Parity(v) != bit)
    {
      ParityStep(v, bit);
    }
    FoldParity(Step, Parity, 0, e);
    assert Ones(e) == Differences(a, b);
  }

  // ----- Bursts

  // Eight bits fed into an empty register empty it only if they are all zero.
  lemma WindowVanishes(w: seq<bool>)
    requires |w| == 8 && Feed(0, w) == 0
    ensures forall i | 0 <= i < 8 :: !w[i]
  {
    var d := ByteOfBits(w);
    forall i: nat | i < 8
      ensures Coefficient(d, 7 - i) == w[i]
    {
      BitsOfByteOfBits(w, i);
    }
    assert ByteBits(d) == w;
    FeedByte(0, d);
    XorNothing(d);
    Survives(d, 8);
    assert forall e: nat :: !Coefficient(0, e);
  }

  lemma FeedBurst(e: seq<bool>, k: nat)
    requires k + 8 <= |e| && Feed(0, e) == 0
    requires forall i: nat | i < |e| && e[i] :: k <= i < k + 8
    ensures forall i: nat | i < |e| :: !e[i]
  {
    var front, window, rest := e[..k], e[k..k + 8], e[k + 8..];
    assert e == (front + window) + rest;
    FoldConcat(Step, 0, front + window, rest);
    FoldConcat(Step, 0, front, window);
    FeedZeros(0, front);
    FeedZeros(Feed(0, window), rest);
    WindowVanishes(window);
    assert forall i: nat | k <= i < k + 8 :: e[i] == window[i - k];
  }

  lemma SameBit(a: seq<byte>, b: seq<byte>, j: nat, c: nat)
    requires |a| == |b| && Differences(a, b) == {}
    requires j < |a| && c < 8
    ensures Coefficient(a[j] as bv8, c) == Coefficient(b[j] as bv8, c)
  {
    var i := 8 * j + 7 - c;
    assert i / 8 == j && 7 - i % 8 == c;
    assert i !in Differences(a, b);
    assert BitAt(a, i) == BitAt(b, i);
  }

  lemma SameBits(a: seq<byte>, b: seq<byte>)
    requires |a| == |b| && Differences(a, b) == {}
    ensures a == b
  {
    forall j: nat | j < |a|
      ensures a[j] == b[j]
    {
      var v, w := a[j] as bv8, b[j] as bv8;
      forall c: nat | c < 8
        ensures Coefficient(v, c) == Coefficient(w, c)
      {
        SameBit(a, b, j, c);
      }
      CoefficientsDetermine(v, w);
      ByteRoundTrip(a[j]);
      ByteRoundTrip(b[j]);
    }
  }

  // Two valid messages whose differences lie within eight consecutive bits are equal.
  lemma BurstDetected(a: seq<byte>, b: seq<byte>, k: nat)
    requires |a| == |b| && PecOf(a) == 0 && PecOf(b) == 0
    requires forall i <- Differences(a, b) :: k <= i < k + 8
    ensures a == b
  {
    if a != [] {
      var e := ErrorPattern(a, b);
      FeedBurst(e, Min(k, |e| - 8));
      assert Differences(a, b) == {};
    }
    SameBits(a, b);
  }

  // ----- Pairs of errors

  lemma Advance(n: nat, v: bv8, w: bv8)
    requires XTimes(0x80, n) == v
    requires w == Xor(Xor(XTime(XTime(v)), XTime(v)), v)
    ensures XTimes(0x80, n + 8) == w
  {
    IterateAdd(XTime, 0x80, n, 8);
    EightRounds(v);
  }

  lemma EightSteps(v: bv8)
    ensures XTimes(v, 8) == XTime(XTime(XTime(XTime(XTime(XTime(XTime(XTime(v))))))))
  {
  }

  lemma EightRounds(v: bv8)
    ensures XTimes(v, 8) == Xor(Xor(XTime(XTime(v)), XTime(v)), v)
  {
    EightSteps(v);
    Reduce(v);
  }

  lemma Period127()
    ensures XTimes(0x80, 127) == 0x80
  {
    Advance(0, 0x80, 0x89);
    Advance(8, 0x89, 0xb6);
    Advance(16, 0xb6, 0xb);
    Advance(24, 0xb, 0x31);
    Advance(32, 0x31, 0x97);
    Advance(40, 0x97, 0xec);
    Advance(48, 0xec, 0x8a);
    Advance(56, 0x8a, 0xbf);
    Advance(64, 0xbf, 0x34);
    Advance(72, 0x34, 0x8c);
    Advance(80, 0x8c, 0xad);
    Advance(88, 0xad, 0x4a);
    Advance(96, 0x4a, 0xf1);
    Advance(104, 0xf1, 0xd9);
    Advance(112, 0xd9, 0x1);
    Advance(120, 0x1, 0x7);
    assert XTimes(0x80, 128) == XTime(0x80);
    XTimeInjective(XTimes(0x80, 127), 0x80);
  }

  lemma Prime127(k: nat)
    requires 2 <= k < 127
    ensures 127 % k != 0
  {
  }

  lemma ReturnsEvery127(d: nat)
    ensures XTimes(0x80, d) == 0x80 <==> d % 127 == 0
  {
    Period127();
    forall k: nat | 2 <= k < 127
      ensures 127 % k != 0
    {
      Prime127(k);
    }
    forall v, w | XTime(v) == XTime(w)
      ensures v == w
    {
      XTimeInjective(v, w);
    }
    PrimePeriod(XTime, 0x80, 127, d);
  }

  // The register after two bits i < j of an otherwise zero pattern.
  lemma FeedPair(e: seq<bool>, i: nat, j: nat)
    requires i < j < |e|
    requires forall n: nat | n < |e| :: e[n] <==> n == i || n == j
    ensures Feed(0, e) == 0 <==> (j - i) % 127 == 0
  {
    var a, b, c := e[..i], e[i + 1..j], e[j + 1..];
    assert e == (((a + [true]) + b) + [true]) + c;
    FeedZeros(0, a);
    FoldSnoc(Step, 0, a, true);
    FoldConcat(Step, 0, a + [true], b);
    FeedZeros(Step(0, true), b);
    var v := XTimes(Step(0, true), |b|);
    FoldSnoc(Step, 0, (a + [true]) + b, true);
    FoldConcat(Step, 0, ((a + [true]) + b) + [true], c);
    FeedZeros(Step(v, true), c);
    SecondError(j - i);
  }

  lemma SecondError(d: nat)
    requires d > 0
    ensures Step(XTimes(Step(0, true), d - 1), true) == 0 <==> d % 127 == 0
  {
    XorNothing(0x80);
    IterateAdd(XTime, 0x80, 1, d - 1);
    assert Iterate(XTime, 0x80, 1) == XTime(Iterate(XTime, 0x80, 0));
    var w := XTimes(0x80, d);
    XorZero(w, 0x80);
    StepZero(0);
    if Step(w, true) == 0 {
      XTimeInjective(Xor(w, 0x80), 0);
    }
    ReturnsEvery127(d);
  }

  // Two flipped bits go unnoticed exactly when their distance is a multiple of 127.
  lemma PairDetected(a: seq<byte>, b: seq<byte>, i: nat, j: nat)
    requires |a| == |b| && PecOf(a) == 0
    requires i < j && Differences(a, b) == {i, j}
    ensures PecOf(b) == 0 <==> (j - i) % 127 == 0
  {
    var e := ErrorPattern(a, b);
    assert i in Differences(a, b) && j in Differences(a, b);
    FeedPair(e, i, j);
  }
}
