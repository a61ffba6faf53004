/** The FX2LP host driver: transfers cut into 64-byte control packets. */
module Fx2lp {
  import opened Bytes
  import opened Pec
  import opened PecPolynomial
  import opened Wire
  import opened BlockBuffer
  import opened Reception
  import opened BlockRead
  import opened BlockWrite
  import opened Transfer
  import opened Commands
  import opened FirmwareModule

  // What a control transfer returns when the device refuses it.
  const LIBUSB_ERROR_PIPE := -9

  // Ticks that pass after the first packet up to packet k, ticks(k) passing before packet k.
  ghost function Elapsed(ticks: nat -> nat, k: nat): nat {
    if k == 0 then 0 else Elapsed(ticks, k - 1) + ticks(k)
  }

  // No packet comes too late for the firmware.
  ghost predicate InTime(ticks: nat -> nat) {
    forall k :: Prompt(ticks, k)
  }

  ghost predicate Prompt(ticks: nat -> nat, k: nat) {
    Elapsed(ticks, k) <= BLOCK_SEQ_TIMEOUT
  }

  ghost function DeviceOf(fw: Firmware, ok: bool): Device
    requires fw.Layout() && fw.tempptr <= fw.templen && fw.tempptr <= 192
    reads fw, fw.temp, fw.ep0buf
  {
    Device(fw.wire, fw.Store(), fw.ep0buf[..], ok)
  }

  // The device as a block command finds it some ticks later.
  ghost function DeviceAt(fw: Firmware, now: nat): Device
    requires fw.Layout() && fw.tempptr <= fw.templen && fw.tempptr <= 192
    reads fw, fw.temp, fw.ep0buf
  {
    DeviceOf(fw, true).(block := AfterPause(fw.Store(), (fw.count + now) % 0x1_0000))
  }

  // ----- Block write

  predicate InRange(fw: Firmware)
    reads fw`tempptr, fw`templen
  {
    fw.Layout() && fw.tempptr <= fw.templen <= 0xFF && fw.tempptr <= 192
  }

  // Before packet i: if the store is in use, it has been for no longer than this.
  ghost predicate Timely(len: nat, count: nat, ticks: nat -> nat, i: nat) {
    len > 0 ==> i > 0 && count <= Elapsed(ticks, i - 1)
  }

  // Between the packets nothing expires.
  lemma Unexpired(fw: Firmware, ticks: nat -> nat, i: nat)
    requires InRange(fw) && InTime(ticks) && Timely(fw.templen, fw.count, ticks, i)
    ensures DeviceAt(fw, ticks(i)) == DeviceOf(fw, true)
  {
    assert Prompt(ticks, i);
  }

  // temp is large enough for a packet.
  predicate Fits(d: Device, packet: seq<byte>) {
    d.Valid() && |packet| <= PACKET && |Accept(d.block, packet + d.ep0[|packet|..]).next.stored| <= 192
  }

  // One SMB_WRITE_BLOCK control transfer.
  method SendPacket(fw: Firmware, address: word, command: byte, packet: seq<byte>, now: nat, ghost ticks: nat -> nat,
      ghost i: nat)
      returns (status: int)
    requires InRange(fw) && 0 < |packet| <= PACKET
    requires InTime(ticks) && now == ticks(i) && Fits(DeviceAt(fw, now), packet)
    requires if i == 0 then Leftover(DeviceAt(fw, now).block) else Timely(fw.templen, fw.count, ticks, i)
    modifies fw`wire, fw`count, fw`tempptr, fw`templen, fw.ep0buf, fw.temp
    ensures InRange(fw)
    ensures status == |packet| || status == LIBUSB_ERROR_PIPE
    ensures DeviceOf(fw, status == |packet|) ==
      TakePacket(fw.slave, old(DeviceAt(fw, now)), [Low(address), command], fw.pecEnabled, packet)
    ensures status == |packet| ==> Timely(fw.templen, fw.count, ticks, i + 1)
  {
    ghost var block := DeviceAt(fw, now).block;
    assert Prompt(ticks, i);
    fw.Deliver(packet, now);
    assert fw.ep0buf[..] == packet + old(fw.ep0buf[..])[|packet|..];
    assert fw.StoreAfterPause() == block;
    var ok := fw.WriteBlock(address, command);
    status := if ok then |packet| else LIBUSB_ERROR_PIPE;
  }

  // Packet i of a frame.
  function PacketOf(frame: seq<byte>, i: nat): (packet: seq<byte>)
    requires 64 * i < |frame|
    ensures 0 < |packet| <= PACKET
  {
    frame[64 * i..Min(64 * i + 64, |frame|)]
  }

  // The device after the first i packets of a frame, up to the first that is refused.
  function Packets(s: Slave, d: Device, header: seq<byte>, pec: bool, frame: seq<byte>, i: nat): (r: Device)
    requires d.Valid() && d.ok && 64 * i < |frame| + 64
    ensures r.Valid()
  {
    if i == 0 then d
    else
      var r := Packets(s, d, header, pec, frame, i - 1);
      if r.ok then TakePacket(s, r, header, pec, PacketOf(frame, i - 1)) else r
  }

  lemma {:induction false} RoomForPackets(s: Slave, d: Device, header: seq<byte>, pec: bool, frame: seq<byte>, i: nat)
    requires IsFrame(frame) && frame[0] <= 192 && Room(d.block, 0)
    requires d.Valid() && d.ok && 64 * i < |frame| + 64 && Packets(s, d, header, pec, frame, i).ok
    ensures Room(Packets(s, d, header, pec, frame, i).block, i)
  {
    if i > 0 {
      RoomForPackets(s, d, header, pec, frame, i - 1);
      var r := Packets(s, d, header, pec, frame, i - 1);
      PacketFits(s, r, header, pec, frame, i - 1, PacketOf(frame, i - 1));
    }
  }

  // Where packet i begins.
  function Position(frame: seq<byte>, i: nat): (p: nat)
    ensures p <= |frame|
  {
    Min(64 * i, |frame|)
  }

  predicate LeadsTo(s: Slave, r: Device, header: seq<byte>, pec: bool, frame: seq<byte>, i: nat, end: Device) {
    r.Valid() && TakeFrame(s, r, header, pec, frame, Position(frame, i)) == end
  }

  lemma FrameOn(s: Slave, r: Device, next: Device, header: seq<byte>, pec: bool, frame: seq<byte>, i: nat, end: Device)
    requires 64 * i < |frame| && LeadsTo(s, r, header, pec, frame, i, end)
    requires next == if r.ok then TakePacket(s, r, header, pec, PacketOf(frame, i)) else r
    ensures LeadsTo(s, next, header, pec, frame, i + 1, end)
  {
  }

  lemma PacketsNext(s: Slave, d: Device, header: seq<byte>, pec: bool, frame: seq<byte>, i: nat)
    requires d.Valid() && d.ok && 64 * i < |frame|
    ensures var r := Packets(s, d, header, pec, frame, i);
      Packets(s, d, header, pec, frame, i + 1) == if r.ok then TakePacket(s, r, header, pec, PacketOf(frame, i)) else r
  {
  }

  lemma PacketsLead(s: Slave, d: Device, header: seq<byte>, pec: bool, frame: seq<byte>, i: nat, end: Device)
    requires d.Valid() && d.ok && 64 * i < |frame|
    requires LeadsTo(s, Packets(s, d, header, pec, frame, i), header, pec, frame, i, end)
    ensures LeadsTo(s, Packets(s, d, header, pec, frame, i + 1), header, pec, frame, i + 1, end)
  {
    var r, next := Packets(s, d, header, pec, frame, i), Packets(s, d, header, pec, frame, i + 1);
    PacketsNext(s, d, header, pec, frame, i);
    FrameOn(s, r, next, header, pec, frame, i, end);
  }

  // Where the packets lead is where the frame leads.
  lemma PacketsAre(s: Slave, d: Device, header: seq<byte>, pec: bool, frame: seq<byte>, n: nat, end: Device)
    requires d.Valid() && d.ok && 64 * n < |frame| + 64 && LeadsTo(s, d, header, pec, frame, 0, end)
    ensures LeadsTo(s, Packets(s, d, header, pec, frame, n), header, pec, frame, n, end)
  {
    var i := 0;
    while i < n
      invariant i <= n && LeadsTo(s, Packets(s, d, header, pec, frame, i), header, pec, frame, i, end)
    {
      PacketsLead(s, d, header, pec, frame, i, end);
      i := i + 1;
    }
  }

  // path(i) is the device after i packets: the next one fits, and leads on.
  ghost predicate StepsOn(s: Slave, header: seq<byte>, pec: bool, frame: seq<byte>, path: nat -> Device, i: nat) {
    64 * i < |frame| && path(i).ok ==>
      Fits(path(i), PacketOf(frame, i)) && path(i + 1) == TakePacket(s, path(i), header, pec, PacketOf(frame, i))
  }

  // The last packet leads to the end, and so does one that is refused.
  ghost predicate EndsWell(frame: seq<byte>, path: nat -> Device, i: nat, end: Device) {
    64 * i < |frame| + 64 && (64 * i >= |frame| || !path(i).ok) ==> path(i) == end
  }

  ghost predicate IsPath(s: Slave, header: seq<byte>, pec: bool, frame: seq<byte>, path: nat -> Device, end: Device) {
    (forall i :: StepsOn(s, header, pec, frame, path, i)) && forall i :: EndsWell(frame, path, i, end)
  }

  lemma PacketOn(s: Slave, d: Device, header: seq<byte>, pec: bool, frame: seq<byte>, i: nat)
    requires IsFrame(frame) && frame[0] <= 192 && Room(d.block, 0) && d.Valid() && d.ok
    requires 64 * i < |frame| && Packets(s, d, header, pec, frame, i).ok
    ensures Fits(Packets(s, d, header, pec, frame, i), PacketOf(frame, i))
    ensures Packets(s, d, header, pec, frame, i + 1) ==
      TakePacket(s, Packets(s, d, header, pec, frame, i), header, pec, PacketOf(frame, i))
  {
    RoomForPackets(s, d, header, pec, frame, i);
    PacketFits(s, Packets(s, d, header, pec, frame, i), header, pec, frame, i, PacketOf(frame, i));
  }

  lemma PacketsEnd(s: Slave, d: Device, header: seq<byte>, pec: bool, frame: seq<byte>, i: nat)
    requires d.Valid() && d.ok && 64 * i < |frame| + 64
    requires 64 * i >= |frame| || !Packets(s, d, header, pec, frame, i).ok
    ensures TakeFrame(s, d, header, pec, frame, 0) == Packets(s, d, header, pec, frame, i)
  {
    var end := TakeFrame(s, d, header, pec, frame, 0);
    assert LeadsTo(s, d, header, pec, frame, 0, end);
    PacketsAre(s, d, header, pec, frame, i, end);
  }

  function PathAt(s: Slave, d: Device, header: seq<byte>, pec: bool, frame: seq<byte>, i: nat): Device
    requires d.Valid() && d.ok
  {
    if 64 * i < |frame| + 64 then Packets(s, d, header, pec, frame, i) else d
  }

  lemma PathSteps(s: Slave, d: Device, header: seq<byte>, pec: bool, frame: seq<byte>, path: nat -> Device, i: nat)
    requires IsFrame(frame) && frame[0] <= 192 && d.Valid() && d.ok && Room(d.block, 0)
    requires path(i) == PathAt(s, d, header, pec, frame, i) && path(i + 1) == PathAt(s, d, header, pec, frame, i + 1)
    ensures StepsOn(s, header, pec, frame, path, i)
  {
    if 64 * i < |frame| && path(i).ok {
      PacketOn(s, d, header, pec, frame, i);
    }
  }

  lemma PathEnds(s: Slave, d: Device, header: seq<byte>, pec: bool, frame: seq<byte>, path: nat -> Device, i: nat)
    requires d.Valid() && d.ok && path(i) == PathAt(s, d, header, pec, frame, i)
    ensures EndsWell(frame, path, i, TakeFrame(s, d, header, pec, frame, 0))
  {
    if 64 * i < |frame| + 64 && (64 * i >= |frame| || !path(i).ok) {
      PacketsEnd(s, d, header, pec, frame, i);
    }
  }

  lemma PathOf(s: Slave, d: Device, header: seq<byte>, pec: bool, frame: seq<byte>) returns (path: nat -> Device)
    requires IsFrame(frame) && frame[0] <= 192 && d.Valid() && d.ok && Room(d.block, 0)
    ensures IsPath(s, header, pec, frame, path, TakeFrame(s, d, header, pec, frame, 0)) && path(0) == d
  {
    path := (i: nat) => PathAt(s, d, header, pec, frame, i);
    forall i: nat
      ensures StepsOn(s, header, pec, frame, path, i)
    {
      PathSteps(s, d, header, pec, frame, path, i);
    }
    forall i: nat
      ensures EndsWell(frame, path, i, TakeFrame(s, d, header, pec, frame, 0))
    {
      PathEnds(s, d, header, pec, frame, path, i);
    }
  }

  // The device is as packet i will find it; d is what it comes to.  Before the first packet a
  // block that was refused may be left over.
  ghost predicate Facing(fw: Firmware, ticks: nat -> nat, i: nat, d: Device)
    reads fw, fw.temp, fw.ep0buf
  {
    && InRange(fw)
    && if i == 0 then DeviceAt(fw, ticks(0)) == d && Leftover(d.block)
       else DeviceOf(fw, true) == d && Timely(fw.templen, fw.count, ticks, i)
  }

  // Packet i; r is where it leads.
  method SendNextPacket(fw: Firmware, address: word, command: byte, packet: seq<byte>, now: nat,
      ghost ticks: nat -> nat, ghost i: nat, ghost d: Device, ghost r: Device) returns (status: int)
    requires InTime(ticks) && now == ticks(i) && Facing(fw, ticks, i, d) && packet != [] && Fits(d, packet)
    requires r == TakePacket(fw.slave, d, [Low(address), command], fw.pecEnabled, packet)
    modifies fw`wire, fw`count, fw`tempptr, fw`templen, fw.ep0buf, fw.temp
    ensures status == if r.ok then |packet| else LIBUSB_ERROR_PIPE
    ensures InRange(fw) && DeviceOf(fw, r.ok) == r && (r.ok ==> Facing(fw, ticks, i + 1, r))
  {
    if i > 0 {
      Unexpired(fw, ticks, i);
    }
    status := SendPacket(fw, address, command, packet, now, ticks, i);
  }

  // The length byte and the data, as they lie in the transfer buffer.
  method BuildFrame(data: array<byte>, len: byte) returns (frame: seq<byte>)
    requires len <= data.Length
    ensures frame == [len] + data[..len]
  {
    var tmp := new byte[256](_ => 0);
    tmp[0] := len;
    forall j | 0 <= j < len {
      tmp[1 + j] := data[j];
    }
    frame := tmp[..len as int + 1];
  }

  // Packet i of a frame.
  method SendPacketOf(fw: Firmware, address: word, command: byte, frame: seq<byte>, i: nat, ticks: nat -> nat,
      ghost path: nat -> Device, ghost end: Device) returns (status: int)
    requires 64 * i < |frame| && InTime(ticks) && Facing(fw, ticks, i, path(i)) && path(i).ok
    requires IsPath(fw.slave, [Low(address), command], fw.pecEnabled, frame, path, end)
    modifies fw`wire, fw`count, fw`tempptr, fw`templen, fw.ep0buf, fw.temp
    ensures InRange(fw) && DeviceOf(fw, path(i + 1).ok) == path(i + 1)
    ensures status == if path(i + 1).ok then Min(64, |frame| - 64 * i) else LIBUSB_ERROR_PIPE
    ensures path(i + 1).ok ==> Facing(fw, ticks, i + 1, path(i + 1))
  {
    assert StepsOn(fw.slave, [Low(address), command], fw.pecEnabled, frame, path, i);
    status := SendNextPacket(fw, address, command, PacketOf(frame, i), ticks(i), ticks, i, path(i), path(i + 1));
  }

  // The full packets, up to the first that is refused.
  method SendWholePackets(fw: Firmware, address: word, command: byte, frame: seq<byte>, wholeWrites: nat,
      ticks: nat -> nat, ghost path: nat -> Device, ghost end: Device) returns (status: int)
    requires 64 * wholeWrites <= |frame| && InTime(ticks) && Facing(fw, ticks, 0, path(0)) && path(0).ok
    requires IsPath(fw.slave, [Low(address), command], fw.pecEnabled, frame, path, end)
    modifies fw`wire, fw`count, fw`tempptr, fw`templen, fw.ep0buf, fw.temp
    ensures InRange(fw) && (status == 64 || status == LIBUSB_ERROR_PIPE)
    ensures status == 64 ==> Facing(fw, ticks, wholeWrites, path(wholeWrites)) && path(wholeWrites).ok
    ensures status != 64 ==> DeviceOf(fw, false) == end
  {
    var i := 0;
    while i < wholeWrites
      invariant 0 <= i <= wholeWrites && Facing(fw, ticks, i, path(i)) && path(i).ok
    {
      status := SendPacketOf(fw, address, command, frame, i, ticks, path, end);
      if status != 64 {
        assert EndsWell(frame, path, i + 1, end);
        return;
      }
      i := i + 1;
    }
    status := 64;
  }

  // All packets of a frame, up to the first that is refused.
  method SendPackets(fw: Firmware, address: word, command: byte, frame: seq<byte>, ticks: nat -> nat,
      ghost path: nat -> Device, ghost end: Device) returns (status: int)
    requires IsFrame(frame) && InTime(ticks) && Facing(fw, ticks, 0, path(0)) && path(0).ok
    requires IsPath(fw.slave, [Low(address), command], fw.pecEnabled, frame, path, end)
    modifies fw`wire, fw`count, fw`tempptr, fw`templen, fw.ep0buf, fw.temp
    ensures InRange(fw)
    ensures status == frame[0] || status == LIBUSB_ERROR_PIPE
    ensures DeviceOf(fw, status == frame[0]) == end
  {
    var wholeWrites := |frame| / 64;
    var remainder := |frame| - 64 * wholeWrites;
    status := SendWholePackets(fw, address, command, frame, wholeWrites, ticks, path, end);
    if status != 64 {
      return;
    }
    assert remainder == 0 ==> EndsWell(frame, path, wholeWrites, end);
    if remainder > 0 {
      status := SendPacketOf(fw, address, command, frame, wholeWrites, ticks, path, end);
      assert EndsWell(frame, path, wholeWrites + 1, end);
      if status != remainder {
        return;
      }
    }
    status := frame[0];
  }

  // What a frame comes to if nothing was left over.
  lemma WholeFrame(s: Slave, d: Device, address: byte, command: byte, pec: bool, len: byte, data: seq<byte>)
    requires d.Valid() && d.ok && d.block == EMPTY && |data| == len != PACKET
    ensures var end := TakeFrame(s, d, [address, command], pec, [len] + data, 0);
      && Result(end.wire, end.ok) == WriteTransaction(s, d.wire, WithPec(pec, [address, command, len] + data))
      && end.block == if end.ok || len < PACKET then EMPTY else Block(len, data)
  {
    PacketsInvisible(s, d, [address, command], pec, [len] + data);
    HeaderAndFrame(address, command, len, data);
  }

  // A frame, sent to a device that is as d by then.
  method SendWholeFrame(fw: Firmware, address: word, command: byte, frame: seq<byte>, ticks: nat -> nat,
      ghost d: Device) returns (status: int)
    requires InRange(fw) && InTime(ticks) && d == DeviceAt(fw, ticks(0)) && Leftover(d.block)
    requires IsFrame(frame) && frame[0] <= 192 && d.Valid() && Room(d.block, 0)
    modifies fw`wire, fw`count, fw`tempptr, fw`templen, fw.ep0buf, fw.temp
    ensures InRange(fw)
    ensures status == frame[0] || status == LIBUSB_ERROR_PIPE
    ensures DeviceOf(fw, status == frame[0]) ==
      TakeFrame(fw.slave, d, [Low(address), command], fw.pecEnabled, frame, 0)
  {
    ghost var path := PathOf(fw.slave, d, [Low(address), command], fw.pecEnabled, frame);
    ghost var end := TakeFrame(fw.slave, d, [Low(address), command], fw.pecEnabled, frame, 0);
    status := SendPackets(fw, address, command, frame, ticks, path, end);
  }

  // A block that was refused earlier may be left over.
  method WriteBlock(fw: Firmware, address: word, command: byte, data: array<byte>, len: byte, ticks: nat -> nat)
      returns (status: int)
    requires InRange(fw) && Leftover(fw.Store()) && InTime(ticks)
    requires len <= data.Length && len <= 192
    modifies fw`wire, fw`count, fw`tempptr, fw`templen, fw.ep0buf, fw.temp
    ensures status == len || status == LIBUSB_ERROR_PIPE
    ensures InRange(fw)
    ensures DeviceOf(fw, status == len) == TakeFrame(fw.slave, old(DeviceAt(fw, ticks(0))), [Low(address), command],
      fw.pecEnabled, [len] + old(data[..len]), 0)
    ensures old(DeviceAt(fw, ticks(0))).block == EMPTY && len != PACKET ==>
      && Result(fw.wire, status == len) ==
         WriteTransaction(fw.slave, old(fw.wire),
           WithPec(fw.pecEnabled, [Low(address), command, len] + old(data[..len])))
      && fw.Store() == if status == len || len < PACKET then EMPTY else Block(len, old(data[..len]))
  {
    ghost var payload, d := data[..len], DeviceAt(fw, ticks(0));
    var frame := BuildFrame(data, len);
    if d.block == EMPTY && len != PACKET {
      WholeFrame(fw.slave, d, Low(address), command, fw.pecEnabled, len, payload);
    }
    status := SendWholeFrame(fw, address, command, frame, ticks, d);
  }

  // A long block that fails, and another one after it: on a bus where every byte is acknowledged
  // from then on, that is the transaction asked for, with nothing left behind, exactly if its
  // length is not 64 and it comes late, by the firmware's tick counter.
  method WriteTwice(fw: Firmware, address: word, command: byte, data: array<byte>, len: byte, ticks: nat -> nat,
      address2: word, command2: byte, data2: array<byte>, len2: byte, ticks2: nat -> nat)
      returns (status: int, status2: int, late: bool)
    requires InRange(fw) && fw.Idle() && InTime(ticks) && InTime(ticks2)
    requires PACKET < len <= data.Length && len2 <= data2.Length && len <= 192 && len2 <= 192
    requires data2 != fw.temp && data2 != fw.ep0buf
    modifies fw`wire, fw`count, fw`tempptr, fw`templen, fw.ep0buf, fw.temp
    ensures var failed := WriteTransaction(fw.slave, old(fw.wire),
        WithPec(fw.pecEnabled, [Low(address), command] + ([len] + old(data[..len]))));
      var wanted := WriteTransaction(fw.slave, failed.wire,
        WithPec(fw.pecEnabled, [Low(address2), command2] + ([len2] + data2[..len2])));
      && (status == len <==> failed.ok)
      && (!failed.ok && fw.slave.Obliging(failed.wire) ==>
          (fw.wire == wanted.wire && fw.Idle() <==> len2 != PACKET && late))
      && (!failed.ok && !late ==> WriteTransaction(fw.slave, failed.wire,
          WithPec(fw.pecEnabled, [Low(address2), command2] + ([len] + old(data[..len])))).wire <= fw.wire)
  {
    ghost var header, frame := [Low(address2), command2], [len2] + data2[..len2];
    HeaderAndFrame(Low(address), command, len, data[..len]);
    status := WriteBlock(fw, address, command, data, len, ticks);
    late := (fw.count + ticks2(0)) % 0x1_0000 > BLOCK_SEQ_TIMEOUT;
    ghost var d := DeviceOf(fw, true);
    status2 := WriteBlock(fw, address2, command2, data2, len2, ticks2);
    if status != len {
      RetryTells(fw.slave, d, header, fw.pecEnabled, frame, late);
    }
  }

  lemma RetryTells(s: Slave, d: Device, header: seq<byte>, pec: bool, frame: seq<byte>, late: bool)
    requires IsFrame(frame) && d.Valid() && d.ok && Leftover(d.block) && d.block != EMPTY
    ensures var r := TakeFrame(s, if late then d.(block := EMPTY) else d, header, pec, frame, 0);
      && (s.Obliging(d.wire) ==>
          (r.wire == WriteTransaction(s, d.wire, WithPec(pec, header + frame)).wire && r.block == EMPTY <==>
            frame[0] != PACKET && late))
      && (!late ==> WriteTransaction(s, d.wire, Resent(d.block, header, pec)).wire <= r.wire)
  {
    if s.Obliging(d.wire) {
      RetryIff(s, d, if late then BLOCK_SEQ_TIMEOUT + 1 else 0, header, pec, frame);
    }
    if !late {
      RetryBegins(s, d, header, pec, frame);
    }
  }

  // ----- Block read

  // The store owes these bytes to the host.
  ghost predicate Owes(fw: Firmware, bytes: seq<byte>)
    reads fw`tempptr, fw`templen, fw.temp
  {
    && fw.Layout() && fw.tempptr <= fw.templen <= 192
    && fw.Outstanding() == bytes && (bytes == [] ==> fw.Idle())
  }

  // A block read whose answer has arrived is split between the endpoint and the store.
  lemma KeptSplits(fw: Firmware, data: seq<byte>, before: seq<byte>)
    requires fw.Layout() && |data| <= 255 && |before| == 192 && fw.Kept(data, before)
    requires if |data| > 64 then fw.templen == |data| - 64 && fw.tempptr == 0 else fw.Idle()
    ensures Head(data) == fw.ep0buf[..Min(|data|, PACKET)]
    ensures Owes(fw, Tail(data))
  {
  }

  // The block read of a command, were it to begin now.
  ghost function FetchOf(fw: Firmware, address: word, command: byte): Fetch
    reads fw`wire, fw`i2dat, fw`lastrd, fw`pecEnabled
  {
    Fetched(fw.slave, fw.Bus(), fw.pecEnabled, HeaderOf(address, command))
  }

  // The command stage: a block is read from the slave if nothing is owed.
  method CommandBlock(fw: Firmware, address: word, command: byte, ghost owed: seq<byte>) returns (ok: bool)
    requires Owes(fw, owed) && (owed != [] ==> fw.count <= BLOCK_SEQ_TIMEOUT)
    modifies fw`wire, fw`i2dat, fw`lastrd, fw`count, fw`ep0bcl, fw`pecFailed, fw`notes, fw`tempptr, fw`templen
    modifies fw.ep0buf, fw.temp
    ensures owed == [] ==>
      var f := old(FetchOf(fw, address, command));
      && fw.Bus() == f.bus && ok == f.ok && Owes(fw, Tail(f.data)) && (Tail(f.data) != [] ==> fw.count == 0)
      && (ok && f.data != [] ==> fw.Replied(Head(f.data)))
    ensures owed != [] ==>
      && ok && fw.Bus() == old(fw.Bus()) && fw.count == old(fw.count)
      && fw.Replied(Head(owed)) && Owes(fw, Tail(owed))
  {
    ghost var f, before := FetchOf(fw, address, command), fw.temp[..];
    ok := fw.ReadBlock(address, command);
    if owed == [] {
      KeptSplits(fw, f.data, before);
    }
  }

  // One SMB_READ_BLOCK control transfer.  If nothing is owed, it begins a block; otherwise the
  // next bytes come, without the bus.
  method Request(fw: Firmware, address: word, command: byte, now: nat, ghost owed: seq<byte>)
      returns (status: int, tmp: seq<byte>)
    requires Owes(fw, owed) && (owed != [] ==> fw.count + now <= BLOCK_SEQ_TIMEOUT)
    requires var f := FetchOf(fw, address, command); owed == [] && f.ok ==> f.data != []
    modifies fw`wire, fw`i2dat, fw`lastrd, fw`count, fw`ep0bcl, fw`pecFailed, fw`notes, fw`tempptr, fw`templen
    modifies fw.ep0buf, fw.temp
    ensures owed == [] ==>
      var f := old(FetchOf(fw, address, command));
      && fw.Bus() == f.bus && Owes(fw, Tail(f.data)) && (Tail(f.data) != [] ==> fw.count == 0)
      && if f.ok then tmp == Head(f.data) && status == |tmp| else status == LIBUSB_ERROR_PIPE
    ensures owed != [] ==>
      && fw.Bus() == old(fw.Bus()) && fw.count == old(fw.count) + now
      && tmp == Head(owed) && status == |tmp| && Owes(fw, Tail(owed))
  {
    fw.Deliver([], now);
    var ok := CommandBlock(fw, address, command, owed);
    if !ok {
      return LIBUSB_ERROR_PIPE, [];
    }
    tmp := fw.ep0buf[..Min(fw.ep0bcl, PACKET)];
    status := |tmp|;
  }

  // The further transfers needed for a payload of n bytes: one for every 64 bytes beyond 63.
  function FollowUps(n: nat): nat {
    n / 64
  }

  // After i further transfers rcvd bytes of the payload have arrived and owed are to come.
  predicate Arriving(payload: seq<byte>, got: seq<byte>, owed: seq<byte>, i: nat) {
    got + owed == payload && (owed != [] ==> |got| == 63 + 64 * i) && (owed == [] ==> i == FollowUps(|payload|))
  }

  lemma ArrivingStarts(block: seq<byte>)
    requires block != []
    ensures Head(block) != [] && Head(block)[0] == block[0]
    ensures Arriving(block[1..], Head(block)[1..], Tail(block), 0)
  {
  }

  lemma ArrivingStep(payload: seq<byte>, got: seq<byte>, owed: seq<byte>, i: nat)
    requires owed != [] && Arriving(payload, got, owed, i)
    ensures Head(owed) != [] && Arriving(payload, got + Head(owed), Tail(owed), i + 1)
  {
  }

  // The rest of a block, as long as the host lacks bytes; got have arrived.
  method ReadRest(fw: Firmware, address: word, command: byte, data: array<byte>, total: byte, got: nat,
      ticks: nat -> nat, ghost payload: seq<byte>, ghost owed: seq<byte>) returns (status: int, requests: nat)
    requires |payload| == total && got <= data.Length && Arriving(payload, data[..got], owed, 0)
    requires data.Length >= 255 && data != fw.temp && data != fw.ep0buf
    requires Owes(fw, owed) && InTime(ticks) && (owed != [] ==> fw.count == 0)
    modifies fw`wire, fw`i2dat, fw`lastrd, fw`count, fw`ep0bcl, fw`pecFailed, fw`notes, fw`tempptr, fw`templen
    modifies fw.ep0buf, fw.temp, data
    ensures status == total && data[..total] == payload && requests == FollowUps(total)
    ensures fw.Layout() && fw.Idle() && fw.Bus() == old(fw.Bus())
  {
    ghost var left := owed;
    var rcvd := got;
    requests := 0;
    while rcvd < total
      invariant 0 <= rcvd <= data.Length && Arriving(payload, data[..rcvd], left, requests)
      invariant Owes(fw, left) && (left != [] ==> fw.count <= Elapsed(ticks, requests))
      invariant fw.Bus() == old(fw.Bus())
      decreases |left|
    {
      assert Prompt(ticks, requests + 1);
      var tmp;
      status, tmp := Request(fw, address, command, ticks(requests + 1), left);
      ArrivingStep(payload, data[..rcvd], left, requests);
      left, requests := Tail(left), requests + 1;
      CopyOut(data, rcvd, tmp);
      rcvd := rcvd + status;
    }
    status := total;
  }

  // A block read; f is what it comes to on the bus.
  method ReadBlockAs(fw: Firmware, address: word, command: byte, data: array<byte>, ticks: nat -> nat, ghost f: Fetch)
      returns (status: int, requests: nat)
    requires data.Length >= 255 && data != fw.temp && data != fw.ep0buf && InTime(ticks)
    requires Owes(fw, []) && f == FetchOf(fw, address, command)
    requires f.ok ==> f.data != [] && |f.data| == f.data[0] as int + 1 <= 0xFE
    modifies fw`wire, fw`i2dat, fw`lastrd, fw`count, fw`ep0bcl, fw`pecFailed, fw`notes, fw`tempptr, fw`templen
    modifies fw.ep0buf, fw.temp, data
    ensures fw.Bus() == f.bus && Owes(fw, if f.ok then [] else Tail(f.data))
    ensures !f.ok && Tail(f.data) != [] ==> fw.count == 0
    ensures if f.ok then status == f.data[0] && data[..status] == f.data[1..] && requests == FollowUps(status)
      else status == LIBUSB_ERROR_PIPE
  {
    var tmp;
    requests := 0;
    status, tmp := Request(fw, address, command, ticks(0), []);
    if status <= 0 {
      return;
    }
    ArrivingStarts(f.data);
    var total := tmp[0];
    CopyOut(data, 0, tmp[1..]);
    status, requests := ReadRest(fw, address, command, data, total, status - 1, ticks, f.data[1..], Tail(f.data));
  }

  method ReadBlock(fw: Firmware, address: word, command: byte, data: array<byte>, ticks: nat -> nat)
      returns (status: int, requests: nat)
    requires data.Length >= 255 && data != fw.temp && data != fw.ep0buf && InTime(ticks)
    requires Owes(fw, [])
    requires var f := FetchOf(fw, address, command); f.ok ==> f.data != []
    modifies fw`wire, fw`i2dat, fw`lastrd, fw`count, fw`ep0bcl, fw`pecFailed, fw`notes, fw`tempptr, fw`templen
    modifies fw.ep0buf, fw.temp, data
    ensures var f := old(FetchOf(fw, address, command));
      && fw.Bus() == f.bus && Owes(fw, if f.ok then [] else Tail(f.data))
      && (!f.ok && Tail(f.data) != [] ==> fw.count == 0)
      && if f.ok then status == f.data[0] && data[..status] == f.data[1..] && requests == FollowUps(status)
         else status == LIBUSB_ERROR_PIPE
  {
    ghost var f := FetchOf(fw, address, command);
    FetchedShape(fw.slave, fw.Bus(), fw.pecEnabled, HeaderOf(address, command));
    status, requests := ReadBlockAs(fw, address, command, data, ticks, f);
  }

  // The next request, if owed is still to come; next is what it would be if nothing were.
  method RequestNext(fw: Firmware, address: word, command: byte, now: nat, ghost owed: seq<byte>, ghost next: Fetch)
      returns (status: int, tmp: seq<byte>)
    requires Owes(fw, owed) && (owed != [] ==> fw.count + now <= BLOCK_SEQ_TIMEOUT)
    requires next == FetchOf(fw, address, command) && (next.ok ==> next.data != []) && next.bus != fw.Bus()
    modifies fw`wire, fw`i2dat, fw`lastrd, fw`count, fw`ep0bcl, fw`pecFailed, fw`notes, fw`tempptr, fw`templen
    modifies fw.ep0buf, fw.temp
    ensures fw.Bus() == next.bus <==> owed == []
    ensures if owed == [] then
        if next.ok then tmp == Head(next.data) && status == |tmp| else status == LIBUSB_ERROR_PIPE
      else fw.Bus() == old(fw.Bus()) && tmp == Head(owed) && status == |tmp| > 0
  {
    status, tmp := Request(fw, address, command, now, owed);
  }

  // A block read, and a request after it; f is what the first comes to, and next what the second
  // does if nothing is left behind.
  method ReadThenRequest(fw: Firmware, address: word, command: byte, data: array<byte>, ticks: nat -> nat,
      other: word, otherCommand: byte, now: nat, ghost f: Fetch, ghost next: Fetch)
      returns (status: int, tmp: seq<byte>)
    requires data.Length >= 255 && data != fw.temp && data != fw.ep0buf && InTime(ticks)
    requires Owes(fw, []) && now <= BLOCK_SEQ_TIMEOUT && f == FetchOf(fw, address, command)
    requires f.ok ==> f.data != [] && |f.data| == f.data[0] as int + 1 <= 0xFE
    requires next == Fetched(fw.slave, f.bus, fw.pecEnabled, HeaderOf(other, otherCommand))
    requires (next.ok ==> next.data != []) && next.bus != f.bus
    modifies fw`wire, fw`i2dat, fw`lastrd, fw`count, fw`ep0bcl, fw`pecFailed, fw`notes, fw`tempptr, fw`templen
    modifies fw.ep0buf, fw.temp, data
    ensures fw.Bus() == next.bus <==> f.ok || |f.data| <= PACKET
    ensures if f.ok || |f.data| <= PACKET then
        if next.ok then tmp == Head(next.data) && status == |tmp| else status == LIBUSB_ERROR_PIPE
      else fw.Bus() == f.bus && tmp == Head(Tail(f.data)) && status == |tmp| > 0
  {
    ghost var owed := if f.ok then [] else Tail(f.data);
    var requests;
    status, requests := ReadBlockAs(fw, address, command, data, ticks, f);
    status, tmp := RequestNext(fw, other, otherCommand, now, owed, next);
  }

  // A block read, and the next request in time after it, for whatever device.  It goes to that
  // device exactly if the first read has succeeded or has left nothing behind; otherwise it
  // gets what is left of a long block that was refused for its PEC, as if that were a block.
  method ReadAgain(fw: Firmware, address: word, command: byte, data: array<byte>, ticks: nat -> nat,
      other: word, otherCommand: byte, now: nat) returns (status: int, tmp: seq<byte>)
    requires data.Length >= 255 && data != fw.temp && data != fw.ep0buf && InTime(ticks)
    requires Owes(fw, []) && now <= BLOCK_SEQ_TIMEOUT
    requires var f := FetchOf(fw, address, command); f.ok ==> f.data != []
    requires var f := FetchOf(fw, address, command);
      var next := Fetched(fw.slave, f.bus, fw.pecEnabled, HeaderOf(other, otherCommand)); next.ok ==> next.data != []
    modifies fw`wire, fw`i2dat, fw`lastrd, fw`count, fw`ep0bcl, fw`pecFailed, fw`notes, fw`tempptr, fw`templen
    modifies fw.ep0buf, fw.temp, data
    ensures var f := old(FetchOf(fw, address, command));
      var next := Fetched(fw.slave, f.bus, fw.pecEnabled, HeaderOf(other, otherCommand));
      && (fw.Bus() == next.bus <==> f.ok || |f.data| <= PACKET)
      && if f.ok || |f.data| <= PACKET then
           if next.ok then tmp == Head(next.data) && status == |tmp| else status == LIBUSB_ERROR_PIPE
         else fw.Bus() == f.bus && tmp == Head(Tail(f.data)) && status == |tmp| > 0
  {
    ghost var f := FetchOf(fw, address, command);
    ghost var next := Fetched(fw.slave, f.bus, fw.pecEnabled, HeaderOf(other, otherCommand));
    FetchedShape(fw.slave, fw.Bus(), fw.pecEnabled, HeaderOf(address, command));
    FetchedGrows(fw.slave, f.bus, fw.pecEnabled, HeaderOf(other, otherCommand));
    status, tmp := ReadThenRequest(fw, address, command, data, ticks, other, otherCommand, now, f, next);
  }

  // ----- Arbitrary writes

  // One SMB_WRITE control transfer.
  method SendChunk(fw: Firmware, chunk: seq<byte>, start: bool, restart: bool, stop: bool, now: nat)
      returns (status: int)
    requires fw.Layout() && 0 < |chunk| <= PACKET
    modifies fw`wire, fw`count, fw`mrqPec, fw`notes, fw.ep0buf
    ensures status == |chunk| || status == LIBUSB_ERROR_PIPE
    ensures Result(fw.wire, status == |chunk|) ==
      PartialWrite(fw.slave, old(fw.wire), WriteFlags(start, restart, stop), chunk, fw.pecEnabled, old(fw.mrqPec))
    ensures status == |chunk| ==>
      fw.mrqPec == PecAfterWrite(WriteFlags(start, restart, stop), fw.pecEnabled, old(fw.mrqPec), chunk)
  {
    fw.Deliver(chunk, now);
    var ok := fw.Write(|chunk|, WriteFlags(start, restart, stop));
    assert chunk[..|chunk|] == chunk;
    status := if ok then |chunk| else LIBUSB_ERROR_PIPE;
  }

  // What is left of a write, and where all of it leads.
  ghost predicate Writing(s: Slave, wire: History, mrqPec: byte, pec: bool, start: bool, restart: bool, stop: bool,
      left: seq<byte>, goal: Result, pecGoal: byte)
  {
    if left == [] then goal == Result(wire, true) && pecGoal == mrqPec
    else
      && goal == PartialWrite(s, wire, WriteFlags(start, restart, stop), left, pec, mrqPec)
      && pecGoal == PecAfterWrite(WriteFlags(start, restart, stop), pec, mrqPec, left)
  }

  lemma WritingStep(s: Slave, wire: History, mrqPec: byte, pec: bool, start: bool, restart: bool, stop: bool,
      left: seq<byte>, goal: Result, pecGoal: byte)
    requires left != [] && Writing(s, wire, mrqPec, pec, start, restart, stop, left, goal, pecGoal)
    ensures var flags := WriteFlags(start, restart, stop && Tail(left) == []);
      var r := PartialWrite(s, wire, flags, Head(left), pec, mrqPec);
      var p := PecAfterWrite(flags, pec, mrqPec, Head(left));
      if r.ok then Writing(s, r.wire, p, pec, false, false, stop, Tail(left), goal, pecGoal) else r == goal
  {
    assert Head(left) + Tail(left) == left;
    if Tail(left) == [] {
      assert Head(left) == left;
    } else {
      WriteSplit(s, wire, start, restart, stop, Head(left), Tail(left), pec, mrqPec);
      PecAfterWriteSplit(start, restart, stop, Head(left), Tail(left), pec, mrqPec);
    }
  }

  // The next chunk of a write.
  method SendNextChunk(fw: Firmware, chunk: seq<byte>, start: bool, restart: bool, stop: bool, isLast: bool, now: nat,
      ghost left: seq<byte>, ghost goal: Result, ghost pecGoal: byte) returns (status: int)
    requires fw.Layout() && left != [] && chunk == Head(left) && isLast == (Tail(left) == [])
    requires Writing(fw.slave, fw.wire, fw.mrqPec, fw.pecEnabled, start, restart, stop, left, goal, pecGoal)
    modifies fw`wire, fw`count, fw`mrqPec, fw`notes, fw.ep0buf
    ensures status == |chunk| || status == LIBUSB_ERROR_PIPE
    ensures status == |chunk| ==>
      Writing(fw.slave, fw.wire, fw.mrqPec, fw.pecEnabled, false, false, stop, Tail(left), goal, pecGoal)
    ensures status != |chunk| ==> goal == Result(fw.wire, false)
  {
    WritingStep(fw.slave, fw.wire, fw.mrqPec, fw.pecEnabled, start, restart, stop, left, goal, pecGoal);
    status := SendChunk(fw, chunk, start, restart, isLast && stop, now);
  }

  // Chunk i of n whole ones, r bytes following them.
  lemma WholeChunk(bytes: seq<byte>, i: nat, n: nat)
    requires i < n && 64 * n <= |bytes|
    ensures Head(bytes[64 * i..]) == bytes[64 * i..64 * i + 64] && Tail(bytes[64 * i..]) == bytes[64 * (i + 1)..]
    ensures Tail(bytes[64 * i..]) == [] <==> i == n - 1 && |bytes| == 64 * n
  {
  }

  lemma LastChunk(bytes: seq<byte>, n: nat)
    requires 64 * n < |bytes| < 64 * n + 64
    ensures Head(bytes[64 * n..]) == bytes[64 * n..] && Tail(bytes[64 * n..]) == []
  {
  }

  method Write(fw: Firmware, start: bool, restart: bool, stop: bool, data: seq<byte>, ticks: nat -> nat)
      returns (status: int)
    requires fw.Layout() && data != []
    modifies fw`wire, fw`count, fw`mrqPec, fw`notes, fw.ep0buf
    ensures status == |data| || status == LIBUSB_ERROR_PIPE
    ensures Result(fw.wire, status == |data|) ==
      PartialWrite(fw.slave, old(fw.wire), WriteFlags(start, restart, stop), data, fw.pecEnabled, old(fw.mrqPec))
    ensures status == |data| ==>
      fw.mrqPec == PecAfterWrite(WriteFlags(start, restart, stop), fw.pecEnabled, old(fw.mrqPec), data)
  {
    ghost var goal := PartialWrite(fw.slave, fw.wire, WriteFlags(start, restart, stop), data, fw.pecEnabled, fw.mrqPec);
    ghost var pecGoal := PecAfterWrite(WriteFlags(start, restart, stop), fw.pecEnabled, fw.mrqPec, data);
    var wholeWrites := |data| / 64;
    var remainder := |data| - 64 * wholeWrites;
    var rsStart, rsRestart := start, restart;
    var i := 0;
    status := 0;
    while i < wholeWrites
      invariant 0 <= i <= wholeWrites && (status > 0 || remainder > 0 || i == 0)
      invariant Writing(fw.slave, fw.wire, fw.mrqPec, fw.pecEnabled, rsStart, rsRestart, stop, data[64 * i..], goal,
        pecGoal)
    {
      WholeChunk(data, i, wholeWrites);
      var isLast := i == wholeWrites - 1 && remainder == 0;
      status := SendNextChunk(fw, data[64 * i..64 * i + 64], rsStart, rsRestart, stop, isLast, ticks(i),
        data[64 * i..], goal, pecGoal);
      rsStart, rsRestart := false, false;
      if status < 64 {
        return;
      }
      i := i + 1;
    }
    if remainder > 0 {
      LastChunk(data, wholeWrites);
      status := SendNextChunk(fw, data[64 * wholeWrites..], rsStart, rsRestart, stop, true, ticks(i), data[64 * i..],
        goal, pecGoal);
    }
    if status > 0 {
      status := |data|;
    }
  }

  // ----- Arbitrary reads

  // One SMB_READ control transfer.
  method RequestChunk(fw: Firmware, n: nat, first: bool, last: bool, now: nat) returns (status: int, tmp: seq<byte>)
    requires fw.Layout() && 0 < n <= PACKET
    modifies fw`wire, fw`i2dat, fw`lastrd, fw`count, fw`ep0bcl, fw`mrqPec, fw`rcvPec, fw`notes, fw.ep0buf
    ensures status == |tmp| == n
    ensures var t := PartialRead(fw.slave, old(fw.Bus()), ReadFlags(first, last), n, fw.pecEnabled);
      && fw.Bus() == t.e && tmp == t.got[..n] && (|t.got| > n ==> fw.rcvPec == t.got[n])
      && fw.mrqPec == PecThrough(old(fw.mrqPec), tmp, fw.pecEnabled)
  {
    fw.Deliver([], now);
    fw.Read(n, ReadFlags(first, last));
    tmp := fw.ep0buf[..n];
    status := fw.ep0bcl;
  }

  // The device after t, of which got has been delivered, the running PEC having been crc before.
  ghost predicate HasRead(fw: Firmware, t: Taken, got: seq<byte>, crc: byte)
    reads fw`wire, fw`i2dat, fw`lastrd, fw`pecEnabled, fw`mrqPec, fw`rcvPec
  {
    ReadSoFar(t, fw.Bus(), got, fw.pecEnabled, crc, fw.mrqPec, fw.rcvPec)
  }

  // The next chunk of a read, into the caller's buffer.
  method FetchChunk(fw: Firmware, data: array<byte>, at: nat, n: nat, isFirst: bool, isLast: bool, now: nat,
      ghost t: Taken, ghost crc: byte) returns (status: int)
    requires fw.Layout() && data != fw.ep0buf && 0 < n <= PACKET && at + n <= data.Length
    requires |t.got| == at && HasRead(fw, t, data[..at], crc)
    modifies fw`wire, fw`i2dat, fw`lastrd, fw`count, fw`ep0bcl, fw`mrqPec, fw`rcvPec, fw`notes, fw.ep0buf, data
    ensures status == n
    ensures HasRead(fw, ChunkOnto(fw.slave, t, isFirst, isLast, n, fw.pecEnabled), data[..at + n], crc)
  {
    ghost var got, mrqPec, rcvPec := data[..at], fw.mrqPec, fw.rcvPec;
    var tmp;
    status, tmp := RequestChunk(fw, n, isFirst, isLast, now);
    CopyOut(data, at, tmp);
    ReadSoFarStep(fw.slave, t, got, isFirst, isLast, fw.pecEnabled, crc, mrqPec, rcvPec, n, tmp, fw.rcvPec);
  }

  // path(at) is what at bytes come to: the chunk after them leads on.
  ghost predicate ReadsOn(s: Slave, last: bool, len: nat, pec: bool, path: nat -> Taken, at: nat, n: nat) {
    at % 64 == 0 && 0 < n <= 64 && at + n <= len ==>
      |path(at).got| == at && path(at + n) == ChunkOnto(s, path(at), at == 0, last && at + n == len, n, pec)
  }

  ghost predicate IsReadPath(s: Slave, last: bool, len: nat, pec: bool, path: nat -> Taken) {
    forall at, n :: ReadsOn(s, last, len, pec, path, at, n)
  }

  lemma ReadChunksNext(s: Slave, e: Engine, last: bool, len: nat, pec: bool, at: nat, n: nat)
    requires at % 64 == 0 && 0 < n <= 64 && at + n <= len
    ensures var t := ReadChunks(s, e, last, len, pec, at);
      |t.got| == at &&
      ReadChunks(s, e, last, len, pec, at + n) == ChunkOnto(s, t, at == 0, last && at + n == len, n, pec)
  {
    ChunkAfter(at, n);
  }

  lemma ReadsOnAt(s: Slave, e: Engine, last: bool, len: nat, pec: bool, path: nat -> Taken, at: nat, n: nat)
    requires path(at) == ReadChunks(s, e, last, len, pec, at)
    requires path(at + n) == ReadChunks(s, e, last, len, pec, at + n)
    ensures ReadsOn(s, last, len, pec, path, at, n)
  {
    if at % 64 == 0 && 0 < n <= 64 && at + n <= len {
      ReadChunksNext(s, e, last, len, pec, at, n);
    }
  }

  lemma ReadPath(s: Slave, e: Engine, last: bool, len: nat, pec: bool) returns (path: nat -> Taken)
    ensures IsReadPath(s, last, len, pec, path)
    ensures path(0) == Taken(e, []) && path(len) == ReadChunks(s, e, last, len, pec, len)
  {
    path := (at: nat) => ReadChunks(s, e, last, len, pec, at);
    forall at: nat, n: nat
      ensures ReadsOn(s, last, len, pec, path, at, n)
    {
      ReadsOnAt(s, e, last, len, pec, path, at, n);
    }
  }

  // A chunk of n bytes after at bytes.
  method FetchNext(fw: Firmware, data: array<byte>, at: nat, n: nat, isFirst: bool, isLast: bool, now: nat,
      ghost path: nat -> Taken, ghost len: nat, ghost last: bool, ghost crc: byte) returns (status: int)
    requires fw.Layout() && data != fw.ep0buf && 0 < n <= PACKET && at % 64 == 0 && at + n <= len <= data.Length
    requires isFirst == (at == 0) && isLast == (last && at + n == len)
    requires IsReadPath(fw.slave, last, len, fw.pecEnabled, path) && HasRead(fw, path(at), data[..at], crc)
    modifies fw`wire, fw`i2dat, fw`lastrd, fw`count, fw`ep0bcl, fw`mrqPec, fw`rcvPec, fw`notes, fw.ep0buf, data
    ensures status == n && HasRead(fw, path(at + n), data[..at + n], crc)
  {
    assert ReadsOn(fw.slave, last, len, fw.pecEnabled, path, at, n);
    status := FetchChunk(fw, data, at, n, isFirst, isLast, now, path(at), crc);
  }

  // The full chunks.
  method ReadWhole(fw: Firmware, len: nat, data: array<byte>, lastRead: bool, ticks: nat -> nat, wholeReads: nat,
      ghost path: nat -> Taken, ghost crc: byte) returns (status: int)
    requires fw.Layout() && 0 < len <= data.Length && data != fw.ep0buf && 64 * wholeReads <= len
    requires IsReadPath(fw.slave, lastRead, len, fw.pecEnabled, path) && HasRead(fw, path(0), [], crc)
    modifies fw`wire, fw`i2dat, fw`lastrd, fw`count, fw`ep0bcl, fw`mrqPec, fw`rcvPec, fw`notes, fw.ep0buf, data
    ensures status == 64 && HasRead(fw, path(64 * wholeReads), data[..64 * wholeReads], crc)
  {
    var first := true;
    var i := 0;
    status := 64;
    while i < wholeReads
      invariant 0 <= i <= wholeReads && first == (i == 0) && status == 64
      invariant HasRead(fw, path(64 * i), data[..64 * i], crc)
    {
      var last := lastRead && 64 * i + 64 == len;
      status := FetchNext(fw, data, 64 * i, 64, first, last, ticks(i), path, len, lastRead, crc);
      assert 64 * i + 64 == 64 * (i + 1);
      first := false;
      if status < 64 {
        return;
      }
      i := i + 1;
    }
  }

  // All chunks.
  method ReadAll(fw: Firmware, len: nat, data: array<byte>, lastRead: bool, ticks: nat -> nat,
      ghost path: nat -> Taken, ghost crc: byte) returns (status: int)
    requires fw.Layout() && 0 < len <= data.Length && data != fw.ep0buf
    requires IsReadPath(fw.slave, lastRead, len, fw.pecEnabled, path) && HasRead(fw, path(0), [], crc)
    modifies fw`wire, fw`i2dat, fw`lastrd, fw`count, fw`ep0bcl, fw`mrqPec, fw`rcvPec, fw`notes, fw.ep0buf, data
    ensures status == if len % 64 == 0 then 64 else len % 64
    ensures HasRead(fw, path(len), data[..len], crc)
  {
    var wholeReads := len / 64;
    var remainder := len - 64 * wholeReads;
    status := ReadWhole(fw, len, data, lastRead, ticks, wholeReads, path, crc);
    if remainder > 0 {
      var at, first := 64 * wholeReads, wholeReads == 0;
      assert at + remainder == len;
      status := FetchNext(fw, data, at, remainder, first, lastRead, ticks(wholeReads), path, len, lastRead, crc);
    }
  }

  method Read(fw: Firmware, len: nat, data: array<byte>, lastRead: bool, ticks: nat -> nat) returns (status: int)
    requires fw.Layout() && 0 < len <= data.Length && data != fw.ep0buf
    modifies fw`wire, fw`i2dat, fw`lastrd, fw`count, fw`ep0bcl, fw`mrqPec, fw`rcvPec, fw`notes, fw.ep0buf, data
    ensures status == if len % 64 == 0 then 64 else len % 64
    ensures var t := ReadChunks(fw.slave, old(fw.Bus()), lastRead, len, fw.pecEnabled, len);
      HasRead(fw, t, data[..len], old(fw.mrqPec))
  {
    ghost var path := ReadPath(fw.slave, fw.Bus(), lastRead, len, fw.pecEnabled);
    status := ReadAll(fw, len, data, lastRead, ticks, path, fw.mrqPec);
  }

  // The bus at the end of a read that ends its transfer.
  predicate TransferEnded(s: Slave, wire: History, h: History, len: nat, pec: bool)
    requires len > 0
  {
    var all := Stream(s, h, if pec then len + 1 else len);
    && (wire == h + AckedReads(all) + [Stop] || wire == h + FinalReads(all) + [Stop])
    && (wire == h + FinalReads(all) + [Stop] <==> pec || len == 1 || len % 64 != 1)
  }

  // What a read is for a slave that answers, and an engine without a LASTRD left over: the next
  // bytes of its stream, the PEC behind them, and the end of the transfer if it is asked for.
  lemma ReadStreams(s: Slave, e: Engine, last: bool, len: nat, pec: bool)
    requires s.Responsive() && !e.lastrd && len > 0
    ensures var t := ReadChunks(s, e, last, len, pec, len);
      && t.got == Stream(s, e.wire, if pec && last then len + 1 else len) && t.got[..len] == Stream(s, e.wire, len)
      && !t.e.lastrd
      && if last then TransferEnded(s, t.e.wire, e.wire, len, pec) else t.e.wire == Resumed(s, e.wire, len)
  {
    var t := ReadChunks(s, e, last, len, pec, len);
    ChunksStream(s, e, last, len, pec, len);
    StreamPrefix(s, e.wire, len, |t.got|);
    if last {
      LastByteRefused(s, t.e, e.wire, len, pec);
    } else {
      ResumedAt(s, t.e, e.wire, len, pec);
    }
  }

  // Two reads in a row: each call starts with FIRST_READ, so the second goes on where the bus
  // stands; with a slave that answers, a byte too late.
  method ReadTwice(fw: Firmware, len: nat, data: array<byte>, more: nat, rest: array<byte>, lastRead: bool,
      ticks: nat -> nat)
    requires fw.Layout()
    requires 0 < len <= data.Length && 0 < more <= rest.Length && data != rest && data != fw.ep0buf && rest != fw.ep0buf
    modifies fw`wire, fw`i2dat, fw`lastrd, fw`count, fw`ep0bcl, fw`mrqPec, fw`rcvPec, fw`notes, fw.ep0buf, data, rest
    ensures var t := ReadChunks(fw.slave, old(fw.Bus()), false, len, fw.pecEnabled, len);
      var t' := ReadChunks(fw.slave, t.e, lastRead, more, fw.pecEnabled, more);
      data[..len] == t.got && rest[..more] == t'.got[..more] && fw.Bus() == t'.e
    ensures fw.slave.Responsive() && old(fw.Quiet()) ==>
      TwoReads(fw.slave, old(fw.wire), len, more, data[..len], rest[..more])
  {
    ghost var e := fw.Bus();
    ghost var t := ReadChunks(fw.slave, e, false, len, fw.pecEnabled, len);
    var status := Read(fw, len, data, false, ticks);
    assert data[..len] == t.got;
    status := Read(fw, more, rest, lastRead, ticks);
    assert data[..len] == t.got;
    if fw.slave.Responsive() && !e.lastrd {
      TwoReadsTold(fw.slave, e, len, more, lastRead, fw.pecEnabled);
    }
  }

  // What two reads deliver, and when together they deliver what one would.
  ghost predicate TwoReads(s: Slave, h: History, len: nat, more: nat, first: seq<byte>, second: seq<byte>)
    requires len > 0
  {
    && first == Stream(s, h, len) && second == Stream(s, Resumed(s, h, len), more)
    && (len > 1 || IgnoresRefusal(s) ==>
        (first + second == Stream(s, h, len + more) <==> Repeating(s, h, len, more)))
  }

  lemma TwoReadsTold(s: Slave, e: Engine, len: nat, more: nat, last: bool, pec: bool)
    requires s.Responsive() && !e.lastrd && len > 0 && more > 0
    ensures var t := ReadChunks(s, e, false, len, pec, len);
      var t' := ReadChunks(s, t.e, last, more, pec, more);
      TwoReads(s, e.wire, len, more, t.got, t'.got[..more])
  {
    ReadStreams(s, e, false, len, pec);
    ReadStreams(s, ReadChunks(s, e, false, len, pec, len).e, last, more, pec);
    if len > 1 || IgnoresRefusal(s) {
      ContiguousIff(s, e.wire, len, more);
    }
  }

  // ----- The running and the received PEC

  // A short, sign extended into an unsigned int.
  function Widened(low: byte, high: byte): (r: nat)
    ensures r % 0x100 == low && r / 0x100 % 0x100 == high && r / 0x1_0000 == if high >= 0x80 then 0xFFFF else 0
  {
    low + 0x100 * high as int + if high >= 0x80 then 0xFFFF_0000 else 0
  }

  method GetArbPec(fw: Firmware) returns (pecs: nat)
    requires fw.Layout()
    modifies fw`ep0bcl, fw.ep0buf
    ensures pecs % 0x100 == fw.mrqPec && pecs / 0x100 % 0x100 == fw.rcvPec
    ensures pecs / 0x1_0000 == if fw.rcvPec >= 0x80 then 0xFFFF else 0
  {
    fw.GetMrqPecs();
    pecs := Widened(fw.ep0buf[0], fw.ep0buf[1]);
  }

  // After a read that was begun with the running PEC of m, the two are equal exactly if the
  // bytes received complete m to a message with a valid PEC.
  lemma PecsAgree(m: seq<byte>, got: seq<byte>, rcvPec: byte)
    ensures CrcFrom(PecOf(m), got) == rcvPec <==> PecOf(m + got + [rcvPec]) == 0
  {
    CrcConcat(0, m, got);
    ResidueZero(m + got, rcvPec);
  }
}
