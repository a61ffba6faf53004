/**
 * Recovery from an abandoned chunked transfer: a block command that comes more than
 * BLOCK_SEQ_TIMEOUT ticks after the last one is served as if nothing had been left over.
 */
module Recovery {
  import opened Bytes
  import opened BlockBuffer
  import opened BlockRead
  import opened Commands
  import opened FirmwareModule
  import opened Fx2lp

  // Exactly then is nothing left over.
  lemma LeftoversExpire(block: Block, count: nat)
    requires |block.stored| <= block.len
    ensures AfterPause(block, count) == EMPTY <==> block.len == 0 || count > BLOCK_SEQ_TIMEOUT
  {
  }

  // Two devices on equal buses with equal settings: a, whatever its store holds, and b, idle.
  ghost predicate Alike(a: Firmware, b: Firmware)
    reads a, b, a.ep0buf, b.ep0buf
  {
    && a.Valid() && b.Valid() && a != b && {a.temp, a.ep0buf} !! {b.temp, b.ep0buf}
    && a.slave == b.slave && a.Bus() == b.Bus() && a.pecEnabled == b.pecEnabled
    && a.ep0buf[..] == b.ep0buf[..]
    && a.count > BLOCK_SEQ_TIMEOUT && b.Idle()
  }

  method WriteBlockRecovers(a: Firmware, b: Firmware, smbAddr: word, smbCmd: word) returns (okA: bool, okB: bool)
    requires Alike(a, b) && a.ep0buf[0] <= 192
    modifies a, a.temp, b, b.temp
    ensures okA == okB && a.wire == b.wire
    ensures a.templen == b.templen && a.tempptr == b.tempptr <= 192 && a.temp[..a.tempptr] == b.temp[..b.tempptr]
  {
    LeftoversExpire(a.Store(), a.count);
    assert b.Store() == EMPTY;
    okA := a.WriteBlock(smbAddr, smbCmd);
    okB := b.WriteBlock(smbAddr, smbCmd);
    assert a.Store() == b.Store();
  }

  method ReadBlockRecovers(a: Firmware, b: Firmware, smbAddr: word, smbCmd: word) returns (okA: bool, okB: bool)
    requires Alike(a, b)
    modifies a, a.temp, a.ep0buf, b, b.temp, b.ep0buf
    ensures okA == okB && a.Bus() == b.Bus()
    ensures a.templen == b.templen && a.tempptr == b.tempptr <= a.templen <= 192
    ensures a.Outstanding() == b.Outstanding()
    ensures okA ==> a.ep0bcl == b.ep0bcl
    ensures okA && a.ep0bcl <= PACKET ==> a.ep0buf[..a.ep0bcl] == b.ep0buf[..b.ep0bcl]
  {
    ghost var f := Fetched(a.slave, a.Bus(), a.pecEnabled, HeaderOf(smbAddr, smbCmd));
    ghost var beforeA, beforeB := a.temp[..], b.temp[..];
    okA := a.ReadBlock(smbAddr, smbCmd);
    okB := b.ReadBlock(smbAddr, smbCmd);
    KeptSplits(a, f.data, beforeA);
    KeptSplits(b, f.data, beforeB);
  }
}
