/** The packet error code: pec_crc, folded over messages. */
module Pec {
  import opened Bytes
  import opened Iteration
  import opened PecRegister

  function XTimes(v: bv8, n: nat): bv8 {
    Iterate(XTime, v, n)
  }

  // The value pec_crc returns.
  function Crc8(crc: byte, data: byte): byte {
    XTimes(Xor(crc as bv8, data as bv8), 8) as byte
  }

  // pec_crc folded over a message.
  function CrcFrom(crc: byte, message: seq<byte>): byte {
    if message == [] then crc
    else Crc8(CrcFrom(crc, message[..|message| - 1]), message[|message| - 1])
  }

  function PecOf(message: seq<byte>): byte {
    CrcFrom(0, message)
  }

  method PecCrc(crc: byte, data: byte) returns (r: byte)
    ensures r == Crc8(crc, data)
  {
    var d: bv8 := (crc as bv8) ^ (data as bv8);
    var i := 0;
    while i < 8
      invariant 0 <= i <= 8
      invariant d == XTimes(Xor(crc as bv8, data as bv8), i)
    {
      if d & 0x80 != 0 {
        d := d << 1;
        d := d ^ 0x07;
      } else {
        d := d << 1;
      }
      i := i + 1;
    }
    r := d as byte;
  }

  lemma CrcSnoc(crc: byte, message: seq<byte>, b: byte)
    ensures CrcFrom(crc, message + [b]) == Crc8(CrcFrom(crc, message), b)
  {
  }

  lemma PecSnoc(message: seq<byte>, b: byte)
    ensures PecOf(message + [b]) as bv8 == XTimes(Xor(PecOf(message) as bv8, b as bv8), 8)
  {
  }

  // pec_crc inside a loop: byte k of a message whose first k bytes are already folded.
  method FoldNext(b: byte, pec: byte, ghost crc: byte, ghost message: seq<byte>, ghost k: nat) returns (r: byte)
    requires k < |message| && message[k] == b && pec == CrcFrom(crc, message[..k])
    ensures r == CrcFrom(crc, message[..k + 1])
  {
    CrcSnoc(crc, message[..k], b);
    assert message[..k + 1] == message[..k] + [b];
    r := PecCrc(pec, b);
  }

  // pec_crc applied to one byte after the other.
  method AddToPec(pec: byte, bytes: seq<byte>) returns (r: byte)
    ensures r == CrcFrom(pec, bytes)
  {
    r := pec;
    for i := 0 to |bytes|
      invariant r == CrcFrom(pec, bytes[..i])
    {
      r := FoldNext(bytes[i], r, pec, bytes, i);
    }
    assert bytes[..|bytes|] == bytes;
  }

  lemma PecOfThree(a: byte, b: byte, c: byte)
    ensures PecOf([a, b, c]) == Crc8(Crc8(Crc8(0, a), b), c)
  {
    CrcSnoc(0, [], a);
    CrcSnoc(0, [a], b);
    CrcSnoc(0, [a, b], c);
    assert [] + [a] == [a] && [a] + [b] == [a, b] && [a, b] + [c] == [a, b, c];
  }

  // A message may be folded in parts: chunk boundaries do not matter.
  lemma {:induction false} CrcConcat(crc: byte, m: seq<byte>, n: seq<byte>)
    ensures CrcFrom(crc, m + n) == CrcFrom(CrcFrom(crc, m), n)
    decreases |n|
  {
    if n == [] {
      assert m + n == m;
    } else {
      var k := |n| - 1;
      assert m + n == (m + n[..k]) + [n[k]];
      CrcSnoc(crc, m + n[..k], n[k]);
      CrcConcat(crc, m, n[..k]);
    }
  }

  lemma XTimesInjective(v: bv8, w: bv8, n: nat)
    requires XTimes(v, n) == XTimes(w, n)
    ensures v == w
  {
    forall a, b | XTime(a) == XTime(b)
      ensures a == b
    {
      XTimeInjective(a, b);
    }
    IterateInjective(XTime, v, w, n);
  }

  lemma XTimesZero(n: nat)
    ensures XTimes(0, n) == 0
  {
    IterateFixpoint(XTime, 0, n);
  }
}
