/** Machine integers of the firmware and of the host driver, and optional values. */
module Bytes {
  // BYTE and WORD of the 8051 toolchain; unsigned char on the host.
  type byte = x: int | 0 <= x < 0x100
  type word = x: int | 0 <= x < 0x1_0000

  datatype Option<+T> = None | Some(value: T)

  // The conversion a C assignment to BYTE makes.
  function Low(x: int): (b: byte)
    ensures 0 <= x < 0x100 ==> b == x
  {
    x % 0x100
  }

  function Min(x: int, y: int): (m: int)
    ensures m <= x && m <= y && (m == x || m == y)
  {
    if x < y then x else y
  }

  lemma Successor(v: bv8)
    requires v != 0xFF
    ensures (v + 1) as int == v as int + 1
  {
  }

  lemma BvRoundTrip(v: bv8)
    ensures (v as byte) as bv8 == v
  {
  }

  lemma {:induction false} ByteRoundTrip(b: byte)
    ensures (b as bv8) as int == b
  {
    if b > 0 {
      ByteRoundTrip(b - 1);
      var v := (b - 1) as bv8;
      Successor(v);
      BvRoundTrip(v + 1);
    }
  }

  // memcpy into the caller's buffer.
  method CopyOut(data: array<byte>, at: nat, tmp: seq<byte>)
    requires at + |tmp| <= data.Length
    modifies data
    ensures data[..at + |tmp|] == old(data[..at]) + tmp
  {
    forall j | 0 <= j < |tmp| {
      data[at + j] := tmp[j];
    }
  }
}
