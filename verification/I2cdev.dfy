/**
 * The second driver, on top of the kernel's I2C interface, and its agreement with the
 * firmware: the bytes of a block write, and the level a command can be written at.
 */
module I2cdev {
  import opened Bytes
  import opened Wire
  import opened BlockBuffer
  import opened BlockWrite
  import opened Probing

  // The address byte of a write message for a slave address given with the direction bit.
  function WriteAddress(address: byte): (a: byte)
    ensures a % 2 == 0 && (a == address || a == address - 1)
  {
    address / 2 * 2
  }

  // One write message through the kernel: negative unless every byte is acknowledged.
  function Xfer(s: Slave, h: History, address: byte, message: seq<byte>): Result {
    WriteTransaction(s, h, [WriteAddress(address)] + message)
  }

  method WriteBlock(s: Slave, h: History, address: byte, command: byte, length: byte, values: array<byte>)
      returns (status: int, wire: History)
    requires length <= values.Length
    ensures status == 0 || status == -1
    ensures Result(wire, status == 0) ==
      WriteTransaction(s, h, [WriteAddress(address), command, length] + values[..length])
  {
    var buffer := new byte[259](_ => 0);
    buffer[0] := command;
    buffer[1] := length;
    forall j | 0 <= j < length {
      buffer[2 + j] := values[j];
    }
    assert [WriteAddress(address)] + buffer[..length as int + 2] ==
      [WriteAddress(address), command, length] + values[..length];
    var sent := Xfer(s, h, address, buffer[..length as int + 2]);
    wire := sent.wire;
    status := if sent.ok then 0 else -1;
  }

  // The block write of the FX2LP driver, with PEC off and nothing left over, and of this one:
  // the same for every slave if the address is even and the length not 64, and only then on a
  // bus where every byte is acknowledged.
  lemma BlockWritesAgree(s: Slave, d: Device, address: byte, command: byte, data: seq<byte>)
    requires |data| <= 192 && d.Valid() && d.ok && d.block == EMPTY
    ensures
      var fx2lp := TakeFrame(s, d, [address, command], false, [|data| as byte] + data, 0);
      var i2cdev := WriteTransaction(s, d.wire, [WriteAddress(address), command, |data| as byte] + data);
      && (address % 2 == 0 && |data| != PACKET ==> Result(fx2lp.wire, fx2lp.ok) == i2cdev)
      && (s.Obliging(d.wire) ==>
          (fx2lp.wire == i2cdev.wire && fx2lp.block == EMPTY <==> address % 2 == 0 && |data| != PACKET))
  {
    var len := |data| as byte;
    EvenAddress(address);
    HeaderAndFrame(WriteAddress(address), command, len, data);
    if |data| != PACKET {
      PacketsInvisible(s, d, [address, command], false, [len] + data);
    }
    if s.Obliging(d.wire) {
      AgreeOnlyIf(s, d, address, WriteAddress(address), command, [len] + data);
    }
  }

  lemma EvenAddress(address: byte)
    ensures WriteAddress(address) == address <==> address % 2 == 0
  {
  }

  lemma AgreeOnlyIf(s: Slave, d: Device, address: byte, other: byte, command: byte, frame: seq<byte>)
    requires s.Obliging(d.wire) && IsFrame(frame) && d.Valid() && d.ok && d.block == EMPTY
    ensures var r := TakeFrame(s, d, [address, command], false, frame, 0);
      r.wire == WriteTransaction(s, d.wire, [other, command] + frame).wire && r.block == EMPTY <==>
        address == other && frame[0] != PACKET
  {
    if frame[0] == PACKET {
      SixtyFour(s, d, [address, command], false, frame);
      SameLength(s, d.wire, [address, command] + frame, [other, command] + frame);
    } else {
      PacketsInvisible(s, d, [address, command], false, frame);
      AddressesDiffer(s, d.wire, address, other, command, frame);
    }
  }

  lemma AddressesDiffer(s: Slave, h: History, address: byte, other: byte, command: byte, rest: seq<byte>)
    requires s.Obliging(h)
    ensures WriteTransaction(s, h, [address, command] + rest).ok
    ensures var x := WriteTransaction(s, h, [address, command] + rest);
      x.wire == WriteTransaction(s, h, [other, command] + rest).wire <==> address == other
  {
    WriteTransactionObliging(s, h, [address, command] + rest);
    WriteTransactionObliging(s, h, [other, command] + rest);
    assert (h + [Start] + AckedBytes([address, command] + rest) + [Stop])[|h| + 1] == Tx(address, Acked);
    assert (h + [Start] + AckedBytes([other, command] + rest) + [Stop])[|h| + 1] == Tx(other, Acked);
  }

  lemma SameLength(s: Slave, h: History, bytes: seq<byte>, others: seq<byte>)
    requires s.Obliging(h) && |bytes| == |others|
    ensures |WriteTransaction(s, h, bytes).wire| == |WriteTransaction(s, h, others).wire|
  {
    WriteTransactionObliging(s, h, bytes);
    WriteTransactionObliging(s, h, others);
  }

  // ----- How much of a write a slave takes

  // Bytes sent since the last START or STOP.
  function SinceStart(h: History): nat {
    if h == [] then 0
    else
      var k := |h| - 1;
      match h[k]
      case Start => 0
      case Stop => 0
      case Tx(_, _) => SinceStart(h[..k]) + 1
      case _ => SinceStart(h[..k])
  }

  // A slave that takes the first depth bytes of every write and refuses what follows.
  ghost predicate Takes(s: Slave, depth: nat) {
    && (forall h :: !s.losesStart(h))
    && (forall h, b :: s.answer(h, b) == if SinceStart(h) < depth then Acked else Nacked)
  }

  lemma SinceStartSnoc(h: History, e: Event)
    ensures SinceStart(h + [e]) ==
      if e == Start || e == Stop then 0 else if e.Tx? then SinceStart(h) + 1 else SinceStart(h)
  {
  }

  lemma {:induction false} TakesOfSend(s: Slave, depth: nat, h: History, bytes: seq<byte>)
    requires Takes(s, depth) && SinceStart(h) == 0
    ensures var r := Send(s, h, bytes);
      r.sent == Min(depth, |bytes|) && (r.sent == |bytes| ==> SinceStart(r.wire) == |bytes|)
  {
    if bytes != [] {
      var k := |bytes| - 1;
      TakesOfSend(s, depth, h, bytes[..k]);
      var r := Send(s, h, bytes[..k]);
      SinceStartSnoc(r.wire, Tx(bytes[k], Acked));
      assert SinceStart(r.wire) < depth ==> Put(s, r.wire, bytes[k]).wire == r.wire + [Tx(bytes[k], Acked)];
    }
  }

  // The lengths tried: to find a command, a byte, a word, a block, a longer block.
  const SIZE_CHECKS: seq<nat> := [1, 2, 3, 5, 6]

  // One message after the other, longer and longer, until one is refused; the result is the
  // level the firmware finds in a single write, for every depth.
  method TestCommandWrite(s: Slave, h: History, address: byte, command: byte, ghost depth: nat)
      returns (result: int, wire: History)
    requires Takes(s, depth)
    ensures result == WriteLevel(Probe(s, h, [WriteAddress(address), command, 3, 0, 0, 0, 0]).sent)
  {
    ghost var probe := [WriteAddress(address), command, 3, 0, 0, 0, 0];
    SinceStartSnoc(h, Start);
    TakesOfSend(s, depth, h + [Start], probe);
    var outbuf: seq<byte> := [command, 3, 0, 0, 0, 0];
    result, wire := 0, h;
    for i := 0 to 5
      invariant result == i && (i > 0 ==> SIZE_CHECKS[i - 1] < depth)
    {
      var message := outbuf[..SIZE_CHECKS[i]];
      SinceStartSnoc(wire, Start);
      TakesOfSend(s, depth, wire + [Start], [WriteAddress(address)] + message);
      var sent := Xfer(s, wire, address, message);
      wire := sent.wire;
      if !sent.ok {
        return;
      }
      result := result + 1;
    }
  }
}
