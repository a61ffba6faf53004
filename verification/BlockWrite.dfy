/**
 * Block writes seen from the host: a frame (length byte and data) cut into 64-byte packets,
 * and what the firmware makes of them.
 */
module BlockWrite {
  import opened Bytes
  import opened Wire
  import opened BlockBuffer

  // The device between two packets: bus, store, endpoint memory, and whether it stalled.
  datatype Device = Device(wire: History, block: Block, ep0: seq<byte>, ok: bool) {
    predicate Valid() {
      |ep0| == 2 * PACKET && |block.stored| <= block.len <= 0xFF
    }
  }

  // A packet that arrives in time.
  function TakePacket(s: Slave, d: Device, header: seq<byte>, pec: bool, packet: seq<byte>): (r: Device)
    requires d.Valid() && |packet| <= PACKET
    ensures r.Valid()
  {
    var ep0 := packet + d.ep0[|packet|..];
    var step := Accept(d.block, ep0);
    match step.frame
    case None => Device(d.wire, step.next, ep0, true)
    case Some(frame) =>
      var r := WriteTransaction(s, d.wire, WithPec(pec, header + frame));
      Device(r.wire, if r.ok then EMPTY else step.next, ep0, r.ok)
  }

  // The packets of a frame from position p on, up to the first that is refused.
  function TakeFrame(s: Slave, d: Device, header: seq<byte>, pec: bool, frame: seq<byte>, p: nat): Device
    requires d.Valid() && p <= |frame|
    decreases |frame| - p
  {
    if p == |frame| || !d.ok then d
    else
      var q := Min(p + PACKET, |frame|);
      TakeFrame(s, TakePacket(s, d, header, pec, frame[p..q]), header, pec, frame, q)
  }

  predicate IsFrame(frame: seq<byte>) {
    frame != [] && |frame| == frame[0] as int + 1
  }

  // The store once p bytes of a long frame have arrived.
  function Partial(frame: seq<byte>, p: nat): Block
    requires IsFrame(frame) && p <= |frame|
  {
    if p == 0 then EMPTY else Block(frame[0], frame[1..p])
  }

  lemma AcceptPart(frame: seq<byte>, p: nat, ep0: seq<byte>)
    requires IsFrame(frame) && frame[0] > PACKET && p < |frame| && p % 64 == 0
    requires |ep0| == 2 * PACKET
    requires var q := Min(p + PACKET, |frame|); ep0[..q - p] == frame[p..q]
    ensures var q := Min(p + PACKET, |frame|);
      Accept(Partial(frame, p), ep0) == Accepted(Partial(frame, q), if q == |frame| then Some(frame) else None)
  {
    var q := Min(p + PACKET, |frame|);
    if p == 0 {
      assert ep0[0] == ep0[..q][0] == frame[0];
      assert ep0[1..PACKET] == ep0[..q][1..] == frame[1..q];
    } else {
      var block := Partial(frame, p);
      assert Min(block.len - |block.stored|, PACKET) == q - p;
      assert block.stored + ep0[..q - p] == frame[1..q];
      assert q == |frame| ==> [frame[0]] + frame[1..q] == frame;
    }
  }

  lemma AcceptWhole(frame: seq<byte>, ep0: seq<byte>)
    requires IsFrame(frame) && |frame| <= PACKET
    requires |ep0| == 2 * PACKET && ep0[..|frame|] == frame
    ensures Accept(EMPTY, ep0) == Accepted(EMPTY, Some(frame))
  {
  }

  // A long frame, p bytes of which have arrived.
  lemma {:induction false} LongFrame(s: Slave, d: Device, header: seq<byte>, pec: bool, frame: seq<byte>, p: nat)
    requires IsFrame(frame) && frame[0] > PACKET && p < |frame| && p % 64 == 0
    requires d.Valid() && d.ok && d.block == Partial(frame, p)
    ensures var r := TakeFrame(s, d, header, pec, frame, p);
      && Result(r.wire, r.ok) == WriteTransaction(s, d.wire, WithPec(pec, header + frame))
      && r.block == if r.ok then EMPTY else Partial(frame, |frame|)
    decreases |frame| - p
  {
    var q := Min(p + PACKET, |frame|);
    var packet := frame[p..q];
    var ep0 := packet + d.ep0[|packet|..];
    assert ep0[..q - p] == packet;
    AcceptPart(frame, p, ep0);
    var d' := TakePacket(s, d, header, pec, packet);
    if q < |frame| {
      LongFrame(s, d', header, pec, frame, q);
    }
  }

  // Whatever the slave does, a frame of 0 to 63 or of 65 or more data bytes is one write
  // transaction on the bus; when it succeeds the store is empty again, and when it does not, a
  // long block is still in it.
  lemma PacketsInvisible(s: Slave, d: Device, header: seq<byte>, pec: bool, frame: seq<byte>)
    requires IsFrame(frame) && frame[0] != PACKET
    requires d.Valid() && d.ok && d.block == EMPTY
    ensures var r := TakeFrame(s, d, header, pec, frame, 0);
      && Result(r.wire, r.ok) == WriteTransaction(s, d.wire, WithPec(pec, header + frame))
      && r.block == if r.ok || frame[0] < PACKET then EMPTY else Block(frame[0], frame[1..])
  {
    if frame[0] > PACKET {
      LongFrame(s, d, header, pec, frame, 0);
    } else {
      var ep0 := frame + d.ep0[|frame|..];
      assert frame[0..|frame|] == frame && ep0[..|frame|] == frame;
      AcceptWhole(frame, ep0);
      var d' := TakePacket(s, d, header, pec, frame[0..|frame|]);
      assert TakeFrame(s, d', header, pec, frame, |frame|) == d';
    }
  }

  // Packets that cause no event leave something in the store.
  lemma {:induction false} SilentPackets(s: Slave, d: Device, header: seq<byte>, pec: bool, frame: seq<byte>, p: nat)
    requires d.Valid() && d.ok && p < |frame|
    requires d.block.len > 0 ==> |d.block.stored| < d.block.len
    ensures var r := TakeFrame(s, d, header, pec, frame, p);
      d.wire <= r.wire && (r.wire == d.wire ==> r.block != EMPTY)
    decreases |frame| - p
  {
    var q := Min(p + PACKET, |frame|);
    var d' := TakePacket(s, d, header, pec, frame[p..q]);
    StepGrows(s, d, header, pec, frame[p..q]);
    if q < |frame| && d'.ok {
      SilentPackets(s, d', header, pec, frame, q);
    }
  }

  lemma StepGrows(s: Slave, d: Device, header: seq<byte>, pec: bool, packet: seq<byte>)
    requires d.Valid() && |packet| <= PACKET
    requires d.block.len > 0 ==> |d.block.stored| < d.block.len
    ensures var r := TakePacket(s, d, header, pec, packet);
      && (r.ok && r.block.len > 0 ==> |r.block.stored| < r.block.len)
      && if r.wire == d.wire then r.ok && r.block != EMPTY else d.wire < r.wire
  {
    var step := Accept(d.block, packet + d.ep0[|packet|..]);
    match step.frame
    case Some(frame) => TransactionGrows(s, d.wire, WithPec(pec, header + frame));
    case None =>
  }

  // The first packet of a block of 64 goes out with the byte that happens to follow it in memory.
  lemma FirstOfSixtyFour(s: Slave, d: Device, header: seq<byte>, pec: bool, first: seq<byte>)
    requires s.Obliging(d.wire) && |first| == PACKET && first[0] == PACKET
    requires d.Valid() && d.ok && d.block == EMPTY
    ensures var ep0 := first + d.ep0[PACKET..];
      var bytes := WithPec(pec, header + ep0[..1 + PACKET]);
      TakePacket(s, d, header, pec, first) ==
        Device(d.wire + [Start] + AckedBytes(bytes) + [Stop], EMPTY, ep0, true)
  {
    var ep0 := first + d.ep0[PACKET..];
    assert ep0[0] == first[0];
    WriteTransactionObliging(s, d.wire, WithPec(pec, header + ep0[..1 + PACKET]));
  }

  // A length of 64 does not fit one packet but is not taken for a long one either, and the
  // second packet is taken for a new block.
  lemma SixtyFour(s: Slave, d: Device, header: seq<byte>, pec: bool, frame: seq<byte>)
    requires s.Obliging(d.wire) && IsFrame(frame) && frame[0] == PACKET
    requires d.Valid() && d.ok && d.block == EMPTY
    ensures var r := TakeFrame(s, d, header, pec, frame, 0);
      |r.wire| > |WriteTransaction(s, d.wire, WithPec(pec, header + frame)).wire| || r.block != EMPTY
  {
    var first := frame[0..PACKET];
    FirstOfSixtyFour(s, d, header, pec, first);
    WriteTransactionObliging(s, d.wire, WithPec(pec, header + frame));
    var d' := TakePacket(s, d, header, pec, first);
    SilentPackets(s, d', header, pec, frame, PACKET);
    assert TakeFrame(s, d, header, pec, frame, 0) == TakeFrame(s, d', header, pec, frame, PACKET);
  }

  // On a bus where every byte is acknowledged, the packets come out as one write
  // transaction, and nothing is left in the store, exactly when the length is not 64.
  lemma OneTransactionUnless64(s: Slave, d: Device, header: seq<byte>, pec: bool, frame: seq<byte>)
    requires s.Obliging(d.wire) && IsFrame(frame)
    requires d.Valid() && d.ok && d.block == EMPTY
    ensures var r := TakeFrame(s, d, header, pec, frame, 0);
      r.wire == WriteTransaction(s, d.wire, WithPec(pec, header + frame)).wire && r.block == EMPTY <==>
        frame[0] != PACKET
  {
    if frame[0] == PACKET {
      SixtyFour(s, d, header, pec, frame);
    } else {
      PacketsInvisible(s, d, header, pec, frame);
      WriteTransactionObliging(s, d.wire, WithPec(pec, header + frame));
    }
  }

  // What a write can leave in the store: nothing, or a whole long block that was refused.
  predicate Leftover(block: Block) {
    block == EMPTY || |block.stored| == block.len > PACKET
  }

  // What may be in the store when packet i of a frame of at most 192 bytes arrives.
  predicate Room(block: Block, i: nat) {
    block.len <= 192 || (i > 0 && |block.stored| <= 64 * (i - 1))
  }

  // temp is large enough for every such packet, whatever was left over before the first.
  lemma PacketFits(s: Slave, d: Device, header: seq<byte>, pec: bool, frame: seq<byte>, i: nat, packet: seq<byte>)
    requires IsFrame(frame) && frame[0] <= 192 && 64 * i < |frame|
    requires packet == frame[64 * i..Min(64 * i + 64, |frame|)] && d.Valid() && Room(d.block, i)
    ensures |Accept(d.block, packet + d.ep0[|packet|..]).next.stored| <= 192
    ensures Room(TakePacket(s, d, header, pec, packet).block, i + 1)
  {
  }

  // ----- After a refused write

  function Resent(block: Block, header: seq<byte>, pec: bool): seq<byte>
    requires block.len <= 0xFF
  {
    WithPec(pec, header + ([block.len as byte] + block.stored))
  }

  // A block that was refused goes out again with the next packet, whatever that holds.
  lemma LeftoverResent(s: Slave, d: Device, header: seq<byte>, pec: bool, packet: seq<byte>)
    requires d.Valid() && |packet| <= PACKET && Leftover(d.block) && d.block != EMPTY
    ensures var r := TakePacket(s, d, header, pec, packet);
      && Result(r.wire, r.ok) == WriteTransaction(s, d.wire, Resent(d.block, header, pec))
      && r.block == if r.ok then EMPTY else d.block
  {
    assert d.block.stored + [] == d.block.stored;
  }

  // Whatever the slave does, a retry in time begins with the old block.
  lemma RetryBegins(s: Slave, d: Device, header: seq<byte>, pec: bool, frame: seq<byte>)
    requires IsFrame(frame) && d.Valid() && d.ok && Leftover(d.block) && d.block != EMPTY
    ensures WriteTransaction(s, d.wire, Resent(d.block, header, pec)).wire <=
      TakeFrame(s, d, header, pec, frame, 0).wire
  {
    var q := Min(PACKET, |frame|);
    var d' := TakePacket(s, d, header, pec, frame[0..q]);
    LeftoverResent(s, d, header, pec, frame[0..q]);
    assert TakeFrame(s, d, header, pec, frame, 0) == TakeFrame(s, d', header, pec, frame, q);
    if q < |frame| && d'.ok {
      SilentPackets(s, d', header, pec, frame, q);
    }
  }

  // A slave that does not acknowledge its address once, and everything from then on, brings
  // this about.
  lemma RefusedOnce(header: seq<byte>, pec: bool, frame: seq<byte>, d: Device) returns (s: Slave)
    requires header != [] && IsFrame(frame) && frame[0] > PACKET
    requires d.Valid() && d.ok && d.block == EMPTY && d.wire == []
    ensures var r := TakeFrame(s, d, header, pec, frame, 0);
      !r.ok && r.block == Block(frame[0], frame[1..]) && Leftover(r.block) && s.Obliging(r.wire)
  {
    s := Slave(_ => false, (h: History, b) => if |h| == 1 then Nacked else Acked, _ => None);
    var bytes := WithPec(pec, header + frame);
    PacketsInvisible(s, d, header, pec, frame);
    assert StartUp(s, [], 0) == Result([Start], true);
    assert bytes[..1][..0] == [];
    SendSnoc(s, [Start], bytes, 0);
    SendStuck(s, [Start], bytes, 0);
  }

  // A refused block goes out first when a retry comes in time, so on a bus where every byte is
  // acknowledged the retry is what the host wants exactly if nothing was left over, or more
  // than BLOCK_SEQ_TIMEOUT ticks have passed, and the length is not 64.
  lemma RetryIff(s: Slave, d: Device, count: nat, header: seq<byte>, pec: bool, frame: seq<byte>)
    requires s.Obliging(d.wire) && IsFrame(frame) && d.Valid() && d.ok && Leftover(d.block)
    ensures var r := TakeFrame(s, d.(block := AfterPause(d.block, count)), header, pec, frame, 0);
      r.wire == WriteTransaction(s, d.wire, WithPec(pec, header + frame)).wire && r.block == EMPTY <==>
        frame[0] != PACKET && (d.block.len == 0 || count > BLOCK_SEQ_TIMEOUT)
  {
    if d.block.len == 0 || count > BLOCK_SEQ_TIMEOUT {
      OneTransactionUnless64(s, d.(block := EMPTY), header, pec, frame);
    } else {
      RetryFails(s, d, header, pec, frame);
    }
  }

  lemma LeftoverSent(s: Slave, d: Device, header: seq<byte>, pec: bool, packet: seq<byte>)
    requires s.Obliging(d.wire) && d.Valid() && |packet| <= PACKET && Leftover(d.block) && d.block != EMPTY
    ensures var r := TakePacket(s, d, header, pec, packet);
      && r.wire == d.wire + [Start] + AckedBytes(Resent(d.block, header, pec)) + [Stop]
      && r.ok && r.block == EMPTY
  {
    LeftoverResent(s, d, header, pec, packet);
    WriteTransactionObliging(s, d.wire, Resent(d.block, header, pec));
  }

  lemma RetryFails(s: Slave, d: Device, header: seq<byte>, pec: bool, frame: seq<byte>)
    requires s.Obliging(d.wire) && IsFrame(frame) && d.Valid() && d.ok && Leftover(d.block) && d.block != EMPTY
    ensures var r := TakeFrame(s, d, header, pec, frame, 0);
      r.wire != WriteTransaction(s, d.wire, WithPec(pec, header + frame)).wire || r.block != EMPTY
  {
    var q := Min(PACKET, |frame|);
    var stale := Resent(d.block, header, pec);
    var wanted := WithPec(pec, header + frame);
    var d' := TakePacket(s, d, header, pec, frame[0..q]);
    LeftoverSent(s, d, header, pec, frame[0..q]);
    WriteTransactionObliging(s, d.wire, wanted);
    var r := TakeFrame(s, d', header, pec, frame, q);
    assert TakeFrame(s, d, header, pec, frame, 0) == r;
    RetryDiffers(s, d', header, pec, frame, q, d.wire, stale, wanted);
  }

  // Where the rest of the frame leads.
  lemma RetryDiffers(s: Slave, d: Device, header: seq<byte>, pec: bool, frame: seq<byte>, q: nat, h: History,
      stale: seq<byte>, wanted: seq<byte>)
    requires d.Valid() && d.ok && d.block == EMPTY && q <= |frame| && d.wire == h + [Start] + AckedBytes(stale) + [Stop]
    requires q == |frame| ==> |stale| > |wanted|
    ensures var r := TakeFrame(s, d, header, pec, frame, q);
      r.wire != h + [Start] + AckedBytes(wanted) + [Stop] || r.block != EMPTY
  {
    var r := TakeFrame(s, d, header, pec, frame, q);
    if q == |frame| {
      assert r == d && |r.wire| > |h + [Start] + AckedBytes(wanted) + [Stop]|;
    } else {
      SilentPackets(s, d, header, pec, frame, q);
      if r.wire == h + [Start] + AckedBytes(wanted) + [Stop] {
        StopsOnce(h, stale, wanted, r.wire);
      }
    }
  }

  // What begins with one transaction and is another one is that transaction.
  lemma StopsOnce(h: History, x: seq<byte>, y: seq<byte>, wire: History)
    requires h + [Start] + AckedBytes(x) + [Stop] <= wire == h + [Start] + AckedBytes(y) + [Stop]
    ensures wire == h + [Start] + AckedBytes(x) + [Stop]
  {
    var k := |h| + 1 + |x|;
    assert (h + [Start] + AckedBytes(x) + [Stop])[k] == Stop == wire[k];
  }
}
