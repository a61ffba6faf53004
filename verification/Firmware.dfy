/** The firmware: I2C engine, block buffer, running PEC and the vendor command arms. */
module FirmwareModule {
  import opened Bytes
  import opened Pec
  import opened Wire
  import opened Reception
  import opened BlockBuffer
  import opened BlockRead
  import opened Transfer
  import opened PecNotes
  import opened Probing
  import opened Commands
  import opened Runs

  class Firmware {
    const slave: Slave
    var wire: History

    // I2DAT and I2CS: the last byte clocked in, and LASTRD.
    var i2dat: byte
    var lastrd: bool

    var count: word
    var pecEnabled: bool
    var pecFailed: bool

    const temp: array<byte>
    var tempptr: word
    var templen: word
    var mrqPec: byte
    var rcvPec: byte

    // EP0BUF and the 64 bytes that follow it in the endpoint memory.
    const ep0buf: array<byte>
    var ep0bcl: byte

    ghost var notes: seq<Note>

    predicate Layout() {
      temp.Length == 192 && ep0buf.Length == 128 && temp != ep0buf
    }

    ghost predicate Valid()
      reads `tempptr, `templen, `mrqPec, `notes, `pecEnabled, `pecFailed
    {
      && Layout()
      && tempptr <= templen <= 192
      && Consistent(pecEnabled, mrqPec, pecFailed, notes)
    }

    constructor (slave: Slave)
      ensures Valid() && fresh(temp) && fresh(ep0buf) && this.slave == slave
      ensures wire == [] && Quiet() && Idle() && pecEnabled
    {
      this.slave := slave;
      wire := [];
      i2dat, lastrd := 0, false;
      count, pecEnabled, pecFailed := 0, true, false;
      temp := new byte[192](_ => 0);
      tempptr, templen, mrqPec, rcvPec := 0, 0, 0, 0;
      ep0buf := new byte[128](_ => 0);
      ep0bcl := 0;
      notes := [];
    }

    // No chunked transfer is under way.
    predicate Idle()
      reads `templen, `tempptr
    {
      templen == 0 && tempptr == 0
    }

    function Bus(): Engine
      reads `wire, `i2dat, `lastrd
    {
      Engine(wire, i2dat, lastrd)
    }

    // LASTRD is not left over from a byte that did not come.
    predicate Quiet()
      reads `lastrd
    {
      !lastrd
    }

    // ----- I2C

    method I2cStart() returns (ok: bool)
      modifies `wire, `count
      ensures Result(wire, ok) == StartUp(slave, old(wire), 0)
      ensures var lost := Losses(slave, old(wire), 0);
        wire == old(wire) + LostStarts(lost) + (if lost < 5 then [Start] else []) && (ok <==> lost < 5)
    {
      StartUpExact(slave, wire);
      var tries := 0;
      while tries < I2C_MAX_RETRIES
        invariant tries <= I2C_MAX_RETRIES
        invariant StartUp(slave, old(wire), 0) == StartUp(slave, wire, tries)
      {
        if slave.losesStart(wire) {
          wire := wire + [LostStart];
          count := *;
          tries := tries + 1;
        } else {
          wire := wire + [Start];
          return true;
        }
      }
      return false;
    }

    method I2cRestart()
      modifies `wire
      ensures wire == old(wire) + [Restart]
    {
      wire := wire + [Restart];
    }

    method I2cStop()
      modifies `wire, `count
      ensures wire == old(wire) + [Stop]
    {
      wire := wire + [Stop];
      count := *;
    }

    method I2cByteOut(outb: byte) returns (ack: bool)
      modifies `wire, `count
      ensures Result(wire, ack) == Put(slave, old(wire), outb)
      ensures var outcome := slave.answer(old(wire), outb);
        && (ack <==> outcome == Acked)
        && wire == old(wire) + if outcome == Hung then [Tx(outb, Hung), Stop] else [Tx(outb, outcome)]
    {
      var outcome := slave.answer(wire, outb);
      wire := wire + [Tx(outb, outcome)];
      count := *;
      if outcome.Hung? {
        I2cStop();
        return false;
      }
      return outcome.Acked?;
    }

    // The next byte of a transmission whose first k bytes, sent after h, were acknowledged.
    method SendNext(outb: byte, ghost h: History, ghost bytes: seq<byte>, ghost k: nat) returns (ack: bool)
      requires k < |bytes| && bytes[k] == outb
      requires Send(slave, h, bytes[..k]) == Run(wire, k)
      modifies `wire, `count
      ensures ack ==> Send(slave, h, bytes[..k + 1]) == Run(wire, k + 1)
      ensures !ack ==> Send(slave, h, bytes) == Run(wire, k)
    {
      ack := I2cByteOut(outb);
      SendSnoc(slave, h, bytes, k);
      if !ack {
        SendStuck(slave, h, bytes, k);
      }
    }

    // A byte clocked in behind the buffered one.  done: DONE arrives.
    method ReadI2dat() returns (b: byte, done: bool)
      modifies `wire, `i2dat, `lastrd, `count
      ensures b == old(i2dat) && Clocked(Bus(), done) == Clock(slave, old(Bus()))
    {
      b := i2dat;
      count := *;
      match slave.next(wire)
      case Some(v) =>
        wire := wire + [Rx(v, !lastrd)];
        i2dat, lastrd := v, false;
        return b, true;
      case None =>
        wire := wire + [Hang];
        return b, false;
    }

    method I2cByteIn(isFirst: bool, isSingle: bool, isBeforeLast: bool, isLast: bool) returns (b: byte)
      modifies `wire, `i2dat, `lastrd, `count
      ensures Received(Bus(), b) == ByteIn(slave, old(Bus()), isFirst, isSingle, isBeforeLast, isLast)
    {
      var done;
      if isSingle {
        lastrd := true;
      }
      if isFirst {
        b, done := ReadI2dat();
        if !done {
          I2cStop();
          return 0;
        }
      }
      if isLast {
        wire := wire + [Stop];
      }
      if isBeforeLast {
        lastrd := true;
      }
      if isLast {
        b := i2dat;
        count := *;
        return;
      }
      b, done := ReadI2dat();
      if !done {
        I2cStop();
        return 0;
      }
    }

    // Bytes sent in turn, up to the first that is not acknowledged.
    method Transmit(bytes: seq<byte>) returns (ack: bool)
      modifies `wire, `count
      ensures Send(slave, old(wire), bytes).wire == wire
      ensures ack <==> Send(slave, old(wire), bytes).sent == |bytes|
    {
      for k := 0 to |bytes|
        invariant Send(slave, old(wire), bytes[..k]) == Run(wire, k)
      {
        ack := SendNext(bytes[k], old(wire), bytes, k);
        if !ack {
          return;
        }
      }
      assert bytes[..|bytes|] == bytes;
      return true;
    }

    // n bytes of a buffer sent in turn, folded into pec as they are acknowledged.
    method TransmitFrom(a: array<byte>, from: nat, n: nat, pec: byte) returns (ack: bool, r: byte)
      requires from + n <= a.Length
      modifies `wire, `count
      ensures Send(slave, old(wire), a[from..from + n]).wire == wire
      ensures ack <==> Send(slave, old(wire), a[from..from + n]).sent == n
      ensures ack && pecEnabled ==> r == CrcFrom(pec, a[from..from + n])
    {
      ghost var bytes := a[from..from + n];
      r := pec;
      var i := 0;
      while i < n
        invariant i <= n
        invariant Send(slave, old(wire), bytes[..i]) == Run(wire, i)
        invariant pecEnabled ==> r == CrcFrom(pec, bytes[..i])
      {
        ack := SendNext(a[from + i], old(wire), bytes, i);
        if !ack {
          return;
        }
        if pecEnabled {
          r := FoldNext(a[from + i], r, pec, bytes, i);
        }
        i := i + 1;
      }
      assert bytes[..n] == bytes;
      ack := true;
    }

    // A header, n bytes of a buffer and, with PEC on, the PEC of all these.
    method TransmitWithPec(head: seq<byte>, a: array<byte>, from: nat, n: nat) returns (ack: bool)
      requires from + n <= a.Length && head != []
      modifies `wire, `count
      ensures var bytes := WithPec(pecEnabled, head + a[from..from + n]);
        Send(slave, old(wire), bytes).wire == wire && (ack <==> Send(slave, old(wire), bytes).sent == |bytes|)
    {
      ghost var data := a[from..from + n];
      SendWithPec(slave, wire, head, data, pecEnabled);
      ack := Transmit(head);
      if !ack {
        return;
      }
      var pec: byte := 0;
      if pecEnabled {
        pec := AddToPec(pec, head);
      }
      ack, pec := TransmitFrom(a, from, n, pec);
      if ack && pecEnabled {
        CrcConcat(0, head, data);
        ack := Transmit([pec]);
      }
    }

    // ----- Byte and word commands

    method SendByte(smbAddr: word, smbCmd: word) returns (ok: bool)
      modifies `wire, `count, `ep0bcl
      ensures var up := StartUp(slave, old(wire), 0);
        Result(wire, ok) == if up.ok then WriteTransaction(slave, old(wire), [Low(smbAddr), Low(smbCmd)]) else up
    {
      var ack := I2cStart();
      if !ack {
        return false;
      }
      ack := Transmit([Low(smbAddr), Low(smbCmd)]);
      I2cStop();
      if !ack {
        return false;
      }
      ep0bcl := 0;
      return true;
    }

    method WriteByte(smbAddr: word, smbCmd: word) returns (ok: bool)
      requires Layout()
      modifies `wire, `count
      ensures Result(wire, ok) ==
        WriteTransaction(slave, old(wire), WithPec(pecEnabled, [Low(smbAddr), Low(smbCmd), ep0buf[0]]))
    {
      assert [Low(smbAddr), Low(smbCmd)] + ep0buf[0..0 + 1] == [Low(smbAddr), Low(smbCmd), ep0buf[0]];
      ok := I2cStart();
      if ok {
        ok := TransmitWithPec([Low(smbAddr), Low(smbCmd)], ep0buf, 0, 1);
      }
      I2cStop();
    }

    method WriteWord(smbAddr: word, smbCmd: word) returns (ok: bool)
      requires Layout()
      modifies `wire, `count
      ensures Result(wire, ok) ==
        WriteTransaction(slave, old(wire), WithPec(pecEnabled, [Low(smbAddr), Low(smbCmd), ep0buf[0], ep0buf[1]]))
    {
      assert [Low(smbAddr), Low(smbCmd)] + ep0buf[0..0 + 2] == [Low(smbAddr), Low(smbCmd), ep0buf[0], ep0buf[1]];
      ok := I2cStart();
      if ok {
        ok := TransmitWithPec([Low(smbAddr), Low(smbCmd)], ep0buf, 0, 2);
      }
      I2cStop();
    }

    // The bus since h begins with START, perhaps after some that were lost, address, command,
    // repeated START and read address, all of them acknowledged.
    predicate Opens(h: History, header: seq<byte>)
      requires |header| == 3
      reads `wire
    {
      h + LostStarts(Losses(slave, h, 0)) +
      [Start, Tx(header[0], Acked), Tx(header[1], Acked), Restart, Tx(header[2], Acked)] <= wire
    }

    // That is the opening of every read.
    method SelectForRead(smbAddr: word, smbCmd: word) returns (started: bool, ok: bool)
      modifies `wire, `count
      ensures var header := HeaderOf(smbAddr, smbCmd);
        && ok == Addressed(slave, old(wire), header) && started == (Losses(slave, old(wire), 0) < 5)
        && wire == if ok then AddressedBus(slave, old(wire), header) else RefusedBus(slave, old(wire), header)
    {
      SelectExact(slave, wire, HeaderOf(smbAddr, smbCmd));
      started := I2cStart();
      if !started {
        return false, false;
      }
      ok := Transmit([Low(smbAddr), Low(smbCmd)]);
      if ok {
        I2cRestart();
        ok := I2cByteOut(Low(smbAddr + 1));
      }
    }

    // A PEC error: the flag stays up until it is queried.
    method PecError()
      modifies `pecFailed, `notes
      ensures pecFailed && notes == old(notes) + [Mismatch]
    {
      pecFailed := true;
      notes := notes + [Mismatch];
    }

    // The flag and the notes after a read.
    ghost predicate Judged(f: Fetch, failedBefore: bool, notesBefore: seq<Note>)
      reads `pecFailed, `notes
    {
      pecFailed == (failedBefore || f.mismatch) && notes == notesBefore + ReadNotes(f.mismatch)
    }

    // What the host gets.
    ghost predicate Replied(bytes: seq<byte>)
      requires Layout()
      reads `ep0bcl, ep0buf
    {
      |bytes| <= 64 && ep0bcl == |bytes| && ep0buf[..|bytes|] == bytes
    }

    // The data byte of a Read Byte, and whether its PEC was right.
    method CollectByte(smbAddr: word, smbCmd: word) returns (b: byte, good: bool)
      modifies `wire, `i2dat, `lastrd, `count
      ensures var j := if pecEnabled then 2 else 1;
        var t := Take(slave, old(Bus()), true, true, j, j);
        Bus() == t.e && [b] == t.got[..1] && good == PecMatches(pecEnabled, HeaderOf(smbAddr, smbCmd), t.got)
    {
      TakeTwo(slave, Bus());
      if pecEnabled {
        b := I2cByteIn(true, false, true, false);
        var pec := AddToPec(0, [Low(smbAddr), Low(smbCmd), Low(smbAddr + 1)] + [b]);
        var rpec := I2cByteIn(false, false, false, true);
        good := rpec == pec;
      } else {
        b := I2cByteIn(true, true, false, true);
        good := true;
      }
    }

    method ReplyByte(b: byte, good: bool) returns (ok: bool)
      requires Layout()
      modifies `ep0bcl, `pecFailed, `notes, ep0buf
      ensures ok == good && (ok ==> Replied([b]))
      ensures pecFailed == (old(pecFailed) || !good) && notes == old(notes) + ReadNotes(!good)
    {
      if !good {
        ep0bcl := 0;
        PecError();
        return false;
      }
      ep0buf[0] := b;
      ep0bcl := 1;
      return true;
    }

    method AttemptByte(smbAddr: word, smbCmd: word, ghost f: Fetch) returns (ok: bool)
      requires Layout() && FixedOutcome(slave, Bus(), pecEnabled, HeaderOf(smbAddr, smbCmd), 1, f)
      modifies `wire, `i2dat, `lastrd, `count, `ep0bcl, `pecFailed, `notes, ep0buf
      ensures Bus() == f.bus && ok == f.ok && Judged(f, old(pecFailed), old(notes)) && (ok ==> Replied(f.data))
      ensures !Addressed(slave, old(wire), HeaderOf(smbAddr, smbCmd)) ==>
        ep0bcl == old(ep0bcl) && ep0buf[..] == old(ep0buf[..])
    {
      label fail: {
        var started, selected := SelectForRead(smbAddr, smbCmd);
        if !selected { break fail; }
        var b, good := CollectByte(smbAddr, smbCmd);
        ok := ReplyByte(b, good);
        if !ok { break fail; }
        return true;
      }
      I2cStop();
      return false;
    }

    method ReadByte(smbAddr: word, smbCmd: word) returns (ok: bool)
      requires Layout()
      modifies `wire, `i2dat, `lastrd, `count, `ep0bcl, `pecFailed, `notes, ep0buf
      ensures var f := FixedRead(slave, old(Bus()), pecEnabled, HeaderOf(smbAddr, smbCmd), 1);
        && Bus() == f.bus && ok == f.ok && Judged(f, old(pecFailed), old(notes))
        && (ok ==> Replied(f.data))
      ensures var header := [smbAddr % 0x100, smbCmd % 0x100, (smbAddr + 1) % 0x100];
        Addressed(slave, old(wire), header) ==> Opens(old(wire), header)
      // not addressed: STOP and no answer
      ensures var header := [smbAddr % 0x100, smbCmd % 0x100, (smbAddr + 1) % 0x100];
        !Addressed(slave, old(wire), header) ==>
          && !ok && wire == RefusedBus(slave, old(wire), header) + [Stop]
          && pecFailed == old(pecFailed) && notes == old(notes)
          && ep0bcl == old(ep0bcl) && ep0buf[..] == old(ep0buf[..])
    {
      ghost var header := HeaderOf(smbAddr, smbCmd);
      ghost var f := FixedRead(slave, Bus(), pecEnabled, header, 1);
      FixedReadExact(slave, Bus(), pecEnabled, header, 1);
      if Addressed(slave, wire, header) {
        FixedReadOpens(slave, Bus(), pecEnabled, header, 1, f);
      }
      ok := AttemptByte(smbAddr, smbCmd, f);
    }

    // The data bytes of a Read Word, and whether their PEC was right.
    method CollectWord(smbAddr: word, smbCmd: word) returns (lo: byte, hi: byte, good: bool)
      modifies `wire, `i2dat, `lastrd, `count
      ensures var j := if pecEnabled then 3 else 2;
        var t := Take(slave, old(Bus()), true, true, j, j);
        Bus() == t.e && [lo, hi] == t.got[..2] && good == PecMatches(pecEnabled, HeaderOf(smbAddr, smbCmd), t.got)
    {
      TakeTwo(slave, Bus());
      TakeThree(slave, Bus());
      if pecEnabled {
        lo := I2cByteIn(true, false, false, false);
        hi := I2cByteIn(false, false, true, false);
        var pec := AddToPec(0, [Low(smbAddr), Low(smbCmd), Low(smbAddr + 1)] + [lo, hi]);
        var rpec := I2cByteIn(false, false, false, true);
        good := rpec == pec;
      } else {
        lo := I2cByteIn(true, false, true, false);
        hi := I2cByteIn(false, false, false, true);
        good := true;
      }
    }

    method ReplyWord(lo: byte, hi: byte, good: bool) returns (ok: bool)
      requires Layout()
      modifies `ep0bcl, `pecFailed, `notes, ep0buf
      ensures ok == good && (ok ==> Replied([lo, hi]))
      ensures pecFailed == (old(pecFailed) || !good) && notes == old(notes) + ReadNotes(!good)
    {
      ep0buf[0] := lo;
      ep0buf[1] := hi;
      if !good {
        ep0bcl := 0;
        PecError();
        return false;
      }
      ep0bcl := 2;
      return true;
    }

    method AttemptWord(smbAddr: word, smbCmd: word, ghost f: Fetch) returns (ok: bool)
      requires Layout() && FixedOutcome(slave, Bus(), pecEnabled, HeaderOf(smbAddr, smbCmd), 2, f)
      modifies `wire, `i2dat, `lastrd, `count, `ep0bcl, `pecFailed, `notes, ep0buf
      ensures Bus() == f.bus && ok == f.ok && Judged(f, old(pecFailed), old(notes)) && (ok ==> Replied(f.data))
      ensures !Addressed(slave, old(wire), HeaderOf(smbAddr, smbCmd)) ==>
        ep0bcl == old(ep0bcl) && ep0buf[..] == old(ep0buf[..])
    {
      label fail: {
        var started, selected := SelectForRead(smbAddr, smbCmd);
        if !selected { break fail; }
        var lo, hi, good := CollectWord(smbAddr, smbCmd);
        ok := ReplyWord(lo, hi, good);
        if !ok { break fail; }
        return true;
      }
      I2cStop();
      return false;
    }

    method ReadWord(smbAddr: word, smbCmd: word) returns (ok: bool)
      requires Layout()
      modifies `wire, `i2dat, `lastrd, `count, `ep0bcl, `pecFailed, `notes, ep0buf
      ensures var f := FixedRead(slave, old(Bus()), pecEnabled, HeaderOf(smbAddr, smbCmd), 2);
        && Bus() == f.bus && ok == f.ok && Judged(f, old(pecFailed), old(notes))
        && (ok ==> Replied(f.data))
      ensures var header := [smbAddr % 0x100, smbCmd % 0x100, (smbAddr + 1) % 0x100];
        Addressed(slave, old(wire), header) ==> Opens(old(wire), header)
      // not addressed: STOP and no answer
      ensures var header := [smbAddr % 0x100, smbCmd % 0x100, (smbAddr + 1) % 0x100];
        !Addressed(slave, old(wire), header) ==>
          && !ok && wire == RefusedBus(slave, old(wire), header) + [Stop]
          && pecFailed == old(pecFailed) && notes == old(notes)
          && ep0bcl == old(ep0bcl) && ep0buf[..] == old(ep0buf[..])
    {
      ghost var header := HeaderOf(smbAddr, smbCmd);
      ghost var f := FixedRead(slave, Bus(), pecEnabled, header, 2);
      FixedReadExact(slave, Bus(), pecEnabled, header, 2);
      if Addressed(slave, wire, header) {
        FixedReadOpens(slave, Bus(), pecEnabled, header, 2, f);
      }
      ok := AttemptWord(smbAddr, smbCmd, f);
    }

    // ----- Block write

    // The store as a value.
    ghost function Store(): Block
      requires Layout() && tempptr <= templen && tempptr <= 192
      reads `tempptr, `templen, temp
    {
      Block(templen, temp[..tempptr])
    }

    // The store as the next block command will find it.
    ghost function StoreAfterPause(): Block
      requires Layout() && tempptr <= templen && tempptr <= 192
      reads `tempptr, `templen, `count, temp
    {
      AfterPause(Store(), count)
    }

    // A chunked transfer that was left unfinished for too long.
    predicate Expired()
      reads `templen, `count
    {
      templen > 0 && count > BLOCK_SEQ_TIMEOUT
    }

    method DropStale()
      modifies `tempptr, `templen
      ensures if old(Expired()) then Idle() else templen == old(templen) && tempptr == old(tempptr)
    {
      if templen > 0 && count > BLOCK_SEQ_TIMEOUT {
        templen, tempptr := 0, 0;
      }
    }

    // One block write on the bus, its data taken from a buffer.
    method SendFrame(smbAddr: word, smbCmd: word, len: byte, a: array<byte>, from: nat, ghost data: seq<byte>)
        returns (ok: bool)
      requires from + len <= a.Length && data == a[from..from + len]
      modifies `wire, `count
      ensures Result(wire, ok) == WriteTransaction(slave, old(wire),
        WithPec(pecEnabled, [Low(smbAddr), Low(smbCmd)] + ([len] + data)))
    {
      HeaderAndFrame(Low(smbAddr), Low(smbCmd), len, data);
      ok := I2cStart();
      if ok {
        ok := TransmitWithPec([Low(smbAddr), Low(smbCmd), len], a, from, len);
      }
      I2cStop();
    }

    // The complete block goes out; it stays in the store if that fails.
    method SendStored(smbAddr: word, smbCmd: word) returns (ok: bool)
      requires Layout() && tempptr == templen <= 192
      modifies `wire, `count, `tempptr, `templen
      ensures Result(wire, ok) == WriteTransaction(slave, old(wire),
        WithPec(pecEnabled, [Low(smbAddr), Low(smbCmd)] + ([old(templen) as byte] + temp[..old(tempptr)])))
      ensures if ok then Idle() else tempptr == templen == old(templen)
    {
      ok := SendFrame(smbAddr, smbCmd, templen, temp, 0, temp[..tempptr]);
      if ok {
        tempptr, templen := 0, 0;
      }
    }

    // The first packet of a long block: its length, and 63 bytes of data.
    method StoreFirst()
      requires Layout()
      modifies `tempptr, `templen, `count, temp
      ensures templen == ep0buf[0] && tempptr == 63 && count == 0
      ensures temp[..63] == ep0buf[1..PACKET]
    {
      templen := ep0buf[0];
      tempptr := 0;
      while tempptr < 63
        invariant 0 <= tempptr <= 63 && templen == ep0buf[0]
        invariant temp[..tempptr] == ep0buf[1..1 + tempptr]
      {
        temp[tempptr] := ep0buf[1 + tempptr];
        tempptr := tempptr + 1;
      }
      count := 0;
    }

    // A further packet of a long block.
    method StoreMore()
      requires Layout() && tempptr <= templen <= 0xFF && tempptr + Min(templen - tempptr, PACKET) <= 192
      modifies `tempptr, temp
      ensures var n := Min(templen - old(tempptr), PACKET);
        tempptr == old(tempptr) + n && temp[..tempptr] == old(temp[..tempptr]) + ep0buf[..n]
    {
      if tempptr < templen {
        var blocklen := if templen - tempptr > 64 then 64 else templen - tempptr;
        var i, j := 0, tempptr;
        while i < blocklen
          invariant 0 <= i <= blocklen && tempptr == old(tempptr) && j == tempptr + i
          invariant temp[..j] == old(temp[..tempptr]) + ep0buf[..i]
        {
          temp[j] := ep0buf[i];
          i, j := i + 1, j + 1;
        }
        tempptr := tempptr + i;
      }
    }

    // Where the packet at hand would leave the end of the stored data.
    ghost function StoredAfterPacket(): nat
      requires Layout() && tempptr <= templen <= 0xFF && tempptr <= 192
      reads `tempptr, `templen, `count, temp, ep0buf
    {
      |Accept(StoreAfterPause(), ep0buf[..]).next.stored|
    }

    method WriteBlock(smbAddr: word, smbCmd: word) returns (ok: bool)
      requires Layout() && tempptr <= templen <= 0xFF && tempptr <= 192
      requires StoredAfterPacket() <= 192
      modifies `wire, `count, `tempptr, `templen, temp
      ensures tempptr <= templen <= 0xFF && tempptr <= 192
      ensures
        var step := Accept(old(StoreAfterPause()), old(ep0buf[..]));
        match step.frame
        case None =>
          ok && wire == old(wire) && Store() == step.next &&
          count == if old(StoreAfterPause()) == EMPTY then 0 else old(count)
        case Some(frame) =>
          && Result(wire, ok) == WriteTransaction(slave, old(wire),
            WithPec(pecEnabled, [Low(smbAddr), Low(smbCmd)] + frame))
          && Store() == if ok then EMPTY else step.next
    {
      ghost var start := StoreAfterPause();
      DropStale();
      assert Store() == start;
      if templen == 0 && ep0buf[0] > 64 {
        StoreFirst();
        return true;
      }
      if templen > 0 {
        StoreMore();
        if tempptr == templen {
          ok := SendStored(smbAddr, smbCmd);
          return;
        }
        return true;
      }
      assert [ep0buf[0]] + ep0buf[1..1 + ep0buf[0]] == ep0buf[..][..1 + ep0buf[0]];
      ok := SendFrame(smbAddr, smbCmd, ep0buf[0], ep0buf, 1, ep0buf[1..1 + ep0buf[0]]);
    }

    // ----- Block read

    // The bytes of a block read as they are kept: 64 in EP0BUF, the rest in temp, which held
    // before.
    ghost predicate Kept(bytes: seq<byte>, before: seq<byte>)
      requires Layout() && |bytes| <= 256 && |before| == 192
      reads ep0buf, temp
    {
      && (forall k | 0 <= k < |bytes| && k < 64 :: ep0buf[k] == bytes[k])
      && (forall k | 0 <= k < 192 :: temp[k] == if k + 64 < |bytes| then bytes[k + 64] else before[k])
    }

    method CheckByte(b: byte, i: nat, blocklen: byte, pec: byte, rpec: byte, ghost header: seq<byte>,
        ghost got: seq<byte>)
        returns (pec': byte, rpec': byte)
      requires i == |got| && (i == 0 || i < blocklen)
      requires pecEnabled ==> Checked(header, got, blocklen, pec, rpec)
      ensures pecEnabled ==> Checked(header, got + [b], blocklen, pec', rpec')
    {
      CheckedSnoc(header, got, b, blocklen, pec, rpec);
      pec', rpec' := pec, rpec;
      if pecEnabled && i < blocklen - 1 {
        pec' := PecCrc(pec, b);
      }
      if pecEnabled && i == blocklen - 1 {
        rpec' := b;
      }
    }

    method KeepByte(b: byte, i: nat, blocklen: byte, ghost got: seq<byte>, ghost before: seq<byte>)
      requires Layout() && i == |got| < 256 && (i == 0 || i < blocklen)
      requires |before| == 192 && Kept(Payload(got, blocklen), before)
      modifies ep0buf, temp
      ensures Kept(Payload(got + [b], blocklen), before)
    {
      PayloadSnoc(got, b, blocklen);
      if i < blocklen - 1 {
        if i < 64 {
          ep0buf[i] := b;
        } else {
          temp[i - 64] := b;
        }
      }
    }

    method HeaderPec(smbAddr: word, smbCmd: word) returns (pec: byte)
      ensures pecEnabled ==> pec == PecOf(HeaderOf(smbAddr, smbCmd))
    {
      pec := 0;
      if pecEnabled {
        pec := AddToPec(0, [Low(smbAddr), Low(smbCmd), Low(smbAddr + 1)]);
      }
    }

    // The first turn of the receive loop: the length byte fixes how many bytes there will be,
    // PEC included.
    method FirstOfBlock() returns (b: byte, valid: bool, blocklen: byte)
      modifies `wire, `i2dat, `lastrd, `count
      ensures Received(Bus(), b) == ByteIn(slave, old(Bus()), true, false, false, false)
      ensures valid <==> 0 < b < 0xFF
      ensures valid ==> blocklen == Low(b as int + 2)
    {
      b := I2cByteIn(true, false, false, false);
      blocklen, valid := 255, true;
      if b > 0xFE || b == 0 {
        valid := false;
      } else {
        blocklen := Low(b as int + 2);
      }
    }

    // The state at the head of the receive loop once the length is known; the block has been
    // read from the engine e on.
    ghost predicate InBlock(e: Engine, before: seq<byte>, header: seq<byte>, blocklen: byte, got: seq<byte>, pec: byte,
        rpec: byte)
      requires Layout() && |before| == 192
      reads `wire, `i2dat, `lastrd, `pecEnabled, ep0buf, temp
    {
      && 0 < |got| <= blocklen && Kept(Payload(got, blocklen), before)
      && (pecEnabled ==> Checked(header, got, blocklen, pec, rpec))
      && Taken(Bus(), got) == Take(slave, e, true, true, blocklen, |got|)
    }

    // One further turn.
    method NextOfBlock(blocklen: byte, pec: byte, rpec: byte, ghost e: Engine, ghost before: seq<byte>,
        ghost header: seq<byte>, i: nat, ghost got: seq<byte>)
        returns (b: byte, pec': byte, rpec': byte)
      requires Layout() && |before| == 192 && i == |got| < blocklen
      requires InBlock(e, before, header, blocklen, got, pec, rpec)
      modifies `wire, `i2dat, `lastrd, `count, ep0buf, temp
      ensures InBlock(e, before, header, blocklen, got + [b], pec', rpec')
    {
      b := I2cByteIn(i == 0, false, i == blocklen - 2, i == blocklen - 1);
      assert Taken(Bus(), got + [b]) == TakeNext(slave, Taken(old(Bus()), got), true, true, blocklen, i);
      pec', rpec' := CheckByte(b, i, blocklen, pec, rpec, header, got);
      KeepByte(b, i, blocklen, got, before);
    }

    method RestOfBlock(blocklen: byte, pec: byte, rpec: byte, ghost e: Engine, ghost before: seq<byte>,
        ghost header: seq<byte>, ghost first: byte)
        returns (pec': byte, rpec': byte, ghost got: seq<byte>)
      requires Layout() && |before| == 192 && InBlock(e, before, header, blocklen, [first], pec, rpec)
      modifies `wire, `i2dat, `lastrd, `count, ep0buf, temp
      ensures |got| == blocklen && InBlock(e, before, header, blocklen, got, pec', rpec')
    {
      pec', rpec' := pec, rpec;
      got := [first];
      var i := 1;
      while i < blocklen
        invariant 0 < i == |got| <= blocklen && InBlock(e, before, header, blocklen, got, pec', rpec')
      {
        var b;
        b, pec', rpec' := NextOfBlock(blocklen, pec', rpec', e, before, header, i, got);
        got := got + [b];
        i := i + 1;
      }
    }

    // The first byte of a block that has a PEC, checked and kept.
    method StartBlock(b: byte, blocklen: byte, pec: byte, ghost e: Engine, ghost before: seq<byte>,
        ghost header: seq<byte>)
        returns (pec': byte, rpec': byte)
      requires Layout() && 2 < blocklen && before == temp[..] && (pecEnabled ==> pec == PecOf(header))
      requires Received(Bus(), b) == ByteIn(slave, e, true, false, false, false)
      modifies ep0buf, temp
      ensures InBlock(e, before, header, blocklen, [b], pec', rpec')
    {
      CheckedStart(header, blocklen, pec);
      TakeOne(slave, e, blocklen);
      assert [] + [b] == [b];
      pec', rpec' := CheckByte(b, 0, blocklen, pec, 0, header, []);
      KeepByte(b, 0, blocklen, [], before);
    }

    // The receive loop, for a slave that has been selected.  good: the PEC is right, or off.
    method GetBlock(smbAddr: word, smbCmd: word) returns (valid: bool, blocklen: byte, good: bool)
      requires Layout()
      modifies `wire, `i2dat, `lastrd, `count, ep0buf, temp
      ensures var f := Collected(slave, old(Bus()), pecEnabled, HeaderOf(smbAddr, smbCmd));
        && Kept(f.data, old(temp[..])) && valid == (f.ok || f.mismatch)
        && Fetch(if valid then Bus() else Halted(Bus()), valid && good, valid && !good, f.data) == f
        && if !valid || blocklen == 0 then f.data == [] else blocklen > 2 && |f.data| == blocklen - 1
    {
      ghost var e, before, header := Bus(), temp[..], HeaderOf(smbAddr, smbCmd);
      var pec, rpec, b;
      pec := HeaderPec(smbAddr, smbCmd);
      rpec := 0;
      b, valid, blocklen := FirstOfBlock();
      if valid && blocklen > 0 {
        pec, rpec := StartBlock(b, blocklen, pec, e, before, header);
        ghost var got;
        pec, rpec, got := RestOfBlock(blocklen, pec, rpec, e, before, header, b);
        BlockCollected(e, before, header, b, blocklen, got, pec, rpec);
      }
      good := !pecEnabled || rpec == pec;
    }

    lemma BlockCollected(e: Engine, before: seq<byte>, header: seq<byte>, b: byte, blocklen: byte, got: seq<byte>,
        pec: byte, rpec: byte)
      requires Layout() && |before| == 192 && 0 < b <= 253 && blocklen == b + 2 == |got|
      requires b == ByteIn(slave, e, true, false, false, false).b
      requires InBlock(e, before, header, blocklen, got, pec, rpec)
      ensures var good := !pecEnabled || rpec == pec;
        Collected(slave, e, pecEnabled, header) == Fetch(Bus(), good, !good, got[..b + 1]) && Kept(got[..b + 1], before)
    {
      if pecEnabled {
        CheckedMatches(header, got, blocklen, pec, rpec);
      }
    }

    // The firmware's own state after a block read: what is in EP0BUF and the store.
    ghost predicate Delivered(f: Fetch, len: nat, ptr: nat, before: seq<byte>)
      requires Layout() && |before| == 192
      reads `ep0bcl, `templen, `tempptr, `count, ep0buf, temp
    {
      && |f.data| <= 0xFE && Kept(f.data, before)
      && Divided(|f.data|, len, ptr)
      && (f.ok ==> if f.data == [] then ep0bcl == 0xFF else Replied(Head(f.data)))
    }

    lemma KeptHead(bytes: seq<byte>, before: seq<byte>)
      requires Layout() && |bytes| <= 256 && |before| == 192 && Kept(bytes, before)
      ensures ep0buf[..Min(|bytes|, PACKET)] == Head(bytes)
      ensures |bytes| <= 64 ==> temp[..] == before
    {
    }

    // What of n bytes the packet at hand does not carry is left in the store, which was used
    // up to len and ptr.
    predicate Divided(n: nat, len: nat, ptr: nat)
      reads `templen, `tempptr, `count
    {
      if n > 64 then templen == n - 64 && tempptr == 0 && count == 0 else templen == len && tempptr == ptr
    }

    // blocklen counts the bytes received, PEC included; it is 0 after a length of 254.
    method Divide(blocklen: byte) returns (packet: byte)
      modifies `count, `tempptr, `templen
      ensures var n := if blocklen == 0 then 0 else blocklen as nat - 1;
        Divided(n, old(templen), old(tempptr)) && packet == if blocklen == 0 then 0xFF else Min(PACKET, n)
    {
      var kept: int := blocklen as int - 1;
      if kept > 64 {
        templen, tempptr := kept - 64, 0;
        count := 0;
      }
      packet := if kept > 64 then 64 else Low(kept);
    }

    // What comes after the receive loop.
    method FinishBlock(valid: bool, blocklen: byte, good: bool, ghost f: Fetch, ghost before: seq<byte>)
        returns (ok: bool)
      requires Layout() && |before| == 192 && |f.data| <= 0xFE && Kept(f.data, before) && valid == (f.ok || f.mismatch)
      requires f == Fetch(if valid then Bus() else Halted(Bus()), valid && good, valid && !good, f.data)
      requires if !valid || blocklen == 0 then f.data == [] else blocklen > 2 && |f.data| == blocklen - 1
      modifies `wire, `count, `ep0bcl, `pecFailed, `notes, `tempptr, `templen
      ensures Bus() == f.bus && ok == f.ok && Judged(f, old(pecFailed), old(notes))
      ensures Delivered(f, old(templen), old(tempptr), before)
    {
      if !valid {
        I2cStop();
        return false;
      }
      var packet := Divide(blocklen);
      if !good {
        PecError();
        return false;
      }
      ep0bcl := packet;
      KeptHead(f.data, before);
      return true;
    }

    // A block read once the slave is selected.
    method ReceiveBlock(smbAddr: word, smbCmd: word) returns (ok: bool)
      requires Layout() && tempptr <= templen <= 192
      modifies `wire, `i2dat, `lastrd, `count, `ep0bcl, `pecFailed, `notes, `tempptr, `templen, ep0buf, temp
      ensures var f := Collected(slave, old(Bus()), pecEnabled, HeaderOf(smbAddr, smbCmd));
        && Bus() == f.bus && ok == f.ok && Judged(f, old(pecFailed), old(notes))
        && Delivered(f, old(templen), old(tempptr), old(temp[..]))
    {
      ghost var f, before := Collected(slave, Bus(), pecEnabled, HeaderOf(smbAddr, smbCmd)), temp[..];
      var valid, blocklen, good := GetBlock(smbAddr, smbCmd);
      ok := FinishBlock(valid, blocklen, good, f, before);
    }

    method AttemptBlock(smbAddr: word, smbCmd: word, ghost f: Fetch) returns (ok: bool)
      requires Layout() && tempptr <= templen <= 192
      requires BlockOutcome(slave, Bus(), pecEnabled, HeaderOf(smbAddr, smbCmd), f)
      modifies `wire, `i2dat, `lastrd, `count, `ep0bcl, `pecFailed, `notes, `tempptr, `templen, ep0buf, temp
      ensures Bus() == f.bus && ok == f.ok && Judged(f, old(pecFailed), old(notes))
      ensures Delivered(f, old(templen), old(tempptr), old(temp[..]))
      ensures !Addressed(slave, old(wire), HeaderOf(smbAddr, smbCmd)) ==>
        ep0buf[..] == old(ep0buf[..]) && temp[..] == old(temp[..])
    {
      var started, selected := SelectForRead(smbAddr, smbCmd);
      if selected {
        ok := ReceiveBlock(smbAddr, smbCmd);
        return;
      }
      if started {
        I2cStop();
      }
      assert wire + [] == wire;
      ok := false;
    }

    // A block read from the slave.
    method FetchBlock(smbAddr: word, smbCmd: word) returns (ok: bool)
      requires Layout() && tempptr <= templen <= 192
      modifies `wire, `i2dat, `lastrd, `count, `ep0bcl, `pecFailed, `notes, `tempptr, `templen, ep0buf, temp
      ensures var f := Fetched(slave, old(Bus()), pecEnabled, HeaderOf(smbAddr, smbCmd));
        && Bus() == f.bus && ok == f.ok && Judged(f, old(pecFailed), old(notes))
        && Delivered(f, old(templen), old(tempptr), old(temp[..]))
      ensures !ok ==> ep0bcl == 0
      ensures var header := [smbAddr % 0x100, smbCmd % 0x100, (smbAddr + 1) % 0x100];
        Addressed(slave, old(wire), header) ==> Opens(old(wire), header)
      // not addressed: nothing is kept, and STOP is sent unless START was lost five times
      ensures var header := [smbAddr % 0x100, smbCmd % 0x100, (smbAddr + 1) % 0x100];
        !Addressed(slave, old(wire), header) ==>
          && !ok && pecFailed == old(pecFailed) && notes == old(notes)
          && wire == RefusedBus(slave, old(wire), header) + (if Losses(slave, old(wire), 0) == 5 then [] else [Stop])
          && templen == old(templen) && tempptr == old(tempptr)
          && ep0buf[..] == old(ep0buf[..]) && temp[..] == old(temp[..])
    {
      ghost var f := Fetched(slave, Bus(), pecEnabled, HeaderOf(smbAddr, smbCmd));
      FetchedExact(slave, Bus(), pecEnabled, HeaderOf(smbAddr, smbCmd));
      if Addressed(slave, wire, HeaderOf(smbAddr, smbCmd)) {
        BlockOpens(slave, Bus(), pecEnabled, HeaderOf(smbAddr, smbCmd), f);
      }
      ok := AttemptBlock(smbAddr, smbCmd, f);
      if !ok {
        ep0bcl := 0;
      }
    }

    // What the store still owes the host.
    ghost function Outstanding(): seq<byte>
      requires Layout() && tempptr <= templen <= 192
      reads `tempptr, `templen, temp
    {
      temp[tempptr..templen]
    }

    // Up to 64 of the bytes kept back by an earlier block read.
    method ReturnOutstanding()
      requires Layout() && tempptr < templen <= 192
      modifies `tempptr, `templen, `ep0bcl, ep0buf
      ensures tempptr <= templen <= 192
      ensures var n := Min(old(templen) - old(tempptr), PACKET);
        && Replied(Head(old(Outstanding()))) && Outstanding() == Tail(old(Outstanding()))
        && if old(tempptr) + n == old(templen) then Idle() else templen == old(templen) && tempptr == old(tempptr) + n
    {
      OutstandingSplits(temp[..], tempptr, templen);
      var blocklen := if templen - tempptr > 64 then 64 else templen - tempptr;
      var i, j := tempptr, 0;
      while j < blocklen
        invariant 0 <= j <= blocklen && i == tempptr + j && tempptr == old(tempptr) && templen == old(templen)
        invariant ep0buf[..j] == temp[tempptr..i]
      {
        ep0buf[j] := temp[i];
        i, j := i + 1, j + 1;
      }
      tempptr := tempptr + j;
      ep0bcl := blocklen;
      if templen - tempptr == 0 {
        templen, tempptr := 0, 0;
      }
    }

    method ReadBlock(smbAddr: word, smbCmd: word) returns (ok: bool)
      requires Layout() && tempptr <= templen <= 192
      modifies `wire, `i2dat, `lastrd, `count, `ep0bcl, `pecFailed, `notes, `tempptr, `templen, ep0buf, temp
      ensures tempptr <= templen <= 192
      // data from an earlier block read comes first
      ensures !old(Expired()) && old(Outstanding()) != [] ==>
        && ok && Bus() == old(Bus()) && count == old(count) && notes == old(notes) && pecFailed == old(pecFailed)
        && temp[..] == old(temp[..])
        && Replied(Head(old(Outstanding()))) && Outstanding() == Tail(old(Outstanding()))
        && if Outstanding() == [] then Idle() else templen == old(templen)
      // otherwise the block is read from the slave
      ensures old(Expired()) || old(Outstanding()) == [] ==>
        var f := Fetched(slave, old(Bus()), pecEnabled, HeaderOf(smbAddr, smbCmd));
        && Bus() == f.bus && ok == f.ok && Judged(f, old(pecFailed), old(notes)) && (!ok ==> ep0bcl == 0)
        && if old(Expired()) then Delivered(f, 0, 0, old(temp[..]))
           else Delivered(f, old(templen), old(tempptr), old(temp[..]))
    {
      DropStale();
      if templen - tempptr > 0 {
        ReturnOutstanding();
        return true;
      }
      ok := FetchBlock(smbAddr, smbCmd);
    }

    // ----- Arbitrary transfers

    // START and repeated START as asked for; START also clears the running PEC.
    method OpenWrite(smbCmd: word) returns (ok: bool)
      modifies `wire, `count, `mrqPec
      ensures Result(wire, ok) == Opening(slave, old(wire), smbCmd)
      ensures mrqPec == BasePec(smbCmd, pecEnabled, old(mrqPec))
    {
      if StartFirst(smbCmd) {
        if pecEnabled {
          mrqPec := 0;
        }
        ok := I2cStart();
        if !ok {
          return;
        }
      }
      if RestartFirst(smbCmd) {
        I2cRestart();
      }
      ok := true;
    }

    // Byte i of the payload of a write, which began at h with the running PEC crc.
    method WriteNext(outb: byte, i: nat, ghost h: History, ghost bytes: seq<byte>, ghost crc: byte) returns (ack: bool)
      requires i < |bytes| && bytes[i] == outb && Send(slave, h, bytes[..i]) == Run(wire, i)
      requires mrqPec == if pecEnabled then CrcFrom(crc, bytes[..i]) else crc
      modifies `wire, `count, `mrqPec
      ensures ack ==> Send(slave, h, bytes[..i + 1]) == Run(wire, i + 1)
      ensures ack ==> mrqPec == if pecEnabled then CrcFrom(crc, bytes[..i + 1]) else crc
      ensures !ack ==> Send(slave, h, bytes) == Run(wire, i) && mrqPec == old(mrqPec)
    {
      ack := SendNext(outb, h, bytes, i);
      if ack && pecEnabled {
        mrqPec := FoldNext(outb, mrqPec, crc, bytes, i);
      }
    }

    // The payload of a write, folded into the running PEC byte by byte as it is acknowledged.
    method WritePayload(n: nat) returns (ack: bool, ghost sent: nat)
      requires Layout() && n <= PACKET
      modifies `wire, `count, `mrqPec
      ensures sent <= n && Send(slave, old(wire), ep0buf[..n]) == Run(wire, sent) && ack == (sent == n)
      ensures mrqPec == if pecEnabled then CrcFrom(old(mrqPec), ep0buf[..n][..sent]) else old(mrqPec)
    {
      ghost var bytes := ep0buf[..n];
      var i := 0;
      while i < n
        invariant i <= n && Send(slave, old(wire), bytes[..i]) == Run(wire, i)
        invariant mrqPec == if pecEnabled then CrcFrom(old(mrqPec), bytes[..i]) else old(mrqPec)
      {
        ack := WriteNext(ep0buf[i], i, old(wire), bytes, old(mrqPec));
        if !ack {
          sent := i;
          return;
        }
        i := i + 1;
      }
      assert bytes[..n] == bytes;
      ack, sent := true, n;
    }

    // PEC and STOP as asked for.
    method CloseWrite(smbCmd: word) returns (ok: bool)
      modifies `wire, `count
      ensures Closing(slave, old(wire), smbCmd, pecEnabled, mrqPec) ==
        if ok then Result(wire, ok) else Result(wire + [Stop], ok)
    {
      if StopAfter(smbCmd) {
        if pecEnabled {
          ok := I2cByteOut(mrqPec);
          if !ok {
            return;
          }
        }
        I2cStop();
      }
      ok := true;
    }

    // The write itself; sent counts the bytes acknowledged.
    method PerformWrite(n: nat, flags: word) returns (ok: bool, ghost sent: nat)
      requires Layout() && n <= PACKET
      modifies `wire, `count, `mrqPec
      ensures Result(wire, ok) == PartialWrite(slave, old(wire), flags, ep0buf[..n], pecEnabled, old(mrqPec))
      ensures sent == PartlySent(slave, old(wire), flags, ep0buf[..n])
      ensures var acked := ep0buf[..n][..sent];
        mrqPec == if pecEnabled then CrcFrom(BasePec(flags, true, old(mrqPec)), acked) else old(mrqPec)
    {
      sent := 0;
      label fail: {
        var ack := OpenWrite(flags);
        if !ack { break fail; }
        ack, sent := WritePayload(n);
        if !ack { break fail; }
        assert ep0buf[..n][..sent] == ep0buf[..n];
        ack := CloseWrite(flags);
        if !ack { break fail; }
        return true, sent;
      }
      I2cStop();
      ok := false;
    }

    // smbAddr is the number of bytes, smbCmd the flags.
    method Write(smbAddr: word, smbCmd: word) returns (ok: bool)
      requires Layout() && smbAddr <= PACKET
      modifies `wire, `count, `mrqPec, `notes
      ensures Result(wire, ok) == PartialWrite(slave, old(wire), smbCmd, ep0buf[..smbAddr], pecEnabled, old(mrqPec))
      ensures var bytes := ep0buf[..smbAddr];
        var acked := bytes[..PartlySent(slave, old(wire), smbCmd, bytes)];
        && mrqPec == (if pecEnabled then CrcFrom(BasePec(smbCmd, true, old(mrqPec)), acked) else old(mrqPec))
        && notes == old(notes) + WriteNotes(smbCmd, pecEnabled, acked)
    {
      ghost var before, sent := notes, 0;
      ok, sent := PerformWrite(smbAddr, smbCmd);
      notes := before + WriteNotes(smbCmd, pecEnabled, ep0buf[..smbAddr][..sent]);
    }

    // What has become of the bytes of a partial read: n of them at most go to the host and
    // into the running PEC, which was crc; what follows is the PEC.
    ghost predicate Stored(n: nat, got: seq<byte>, crc: byte)
      requires Layout() && n <= PACKET
      reads `pecEnabled, `mrqPec, `rcvPec, ep0buf
    {
      && (forall m :: 0 <= m < Min(|got|, n) ==> ep0buf[m] == got[m])
      && (|got| > n ==> rcvPec == got[n])
      && mrqPec == RunningPec(crc, got, n, pecEnabled)
    }

    method StoreRead(b: byte, i: nat, n: nat, ghost got: seq<byte>, ghost crc: byte)
      requires Layout() && i == |got| <= n <= PACKET && Stored(n, got, crc)
      modifies `mrqPec, `rcvPec, ep0buf
      ensures Stored(n, got + [b], crc)
    {
      RunningPecStep(crc, got, b, n, pecEnabled);
      if i == n {
        rcvPec := b;
      } else {
        ep0buf[i] := b;
        if pecEnabled {
          mrqPec := PecCrc(mrqPec, b);
        }
      }
    }

    // i of j bytes have been read from the engine e on, with the running PEC crc before them.
    ghost predicate InRead(e: Engine, first: bool, last: bool, n: nat, j: nat, i: nat, got: seq<byte>, crc: byte)
      requires Layout() && n <= PACKET && i <= j
      reads `wire, `i2dat, `lastrd, `pecEnabled, `mrqPec, `rcvPec, ep0buf
    {
      Taken(Bus(), got) == Take(slave, e, first, last, j, i) && Stored(n, got, crc)
    }

    method ReadNext(i: nat, n: nat, j: nat, first: bool, last: bool, ghost e: Engine, ghost got: seq<byte>,
        ghost crc: byte)
        returns (b: byte)
      requires Layout() && i < j <= n + 1 <= PACKET + 1 && i == |got| && InRead(e, first, last, n, j, i, got, crc)
      modifies `wire, `i2dat, `lastrd, `count, `mrqPec, `rcvPec, ep0buf
      ensures InRead(e, first, last, n, j, i + 1, got + [b], crc)
    {
      var isFirst := first && i == 0;
      b := I2cByteIn(isFirst, isFirst && j == 1, last && i == j - 2, last && i == j - 1);
      StoreRead(b, i, n, got, crc);
    }

    method ReadLoop(n: nat, j: nat, first: bool, last: bool) returns (ghost got: seq<byte>)
      requires Layout() && n <= PACKET && n <= j <= n + 1
      modifies `wire, `i2dat, `lastrd, `count, `mrqPec, `rcvPec, ep0buf
      ensures |got| == j && InRead(old(Bus()), first, last, n, j, j, got, old(mrqPec))
    {
      var i := 0;
      got := [];
      while i < j
        invariant 0 <= i == |got| <= j && InRead(old(Bus()), first, last, n, j, i, got, old(mrqPec))
      {
        var b := ReadNext(i, n, j, first, last, old(Bus()), got, old(mrqPec));
        got := got + [b];
        i := i + 1;
      }
    }

    method ReplyRead(n: byte, ghost got: seq<byte>, ghost crc: byte)
      requires Layout() && n <= PACKET && n <= |got| && Stored(n, got, crc)
      modifies `ep0bcl, `notes
      ensures Replied(got[..n]) && (|got| > n ==> rcvPec == got[n])
      ensures mrqPec == if pecEnabled then CrcFrom(crc, got[..n]) else crc
      ensures notes == old(notes) + if pecEnabled then [Folded(got[..n])] else []
    {
      ep0bcl := n;
      if pecEnabled {
        notes := notes + [Folded(got[..n])];
      }
    }

    // smbAddr is the number of bytes, smbCmd the flags.
    method Read(smbAddr: word, smbCmd: word)
      requires Layout() && smbAddr <= PACKET
      modifies `wire, `i2dat, `lastrd, `count, `ep0bcl, `mrqPec, `rcvPec, `notes, ep0buf
      ensures var t := PartialRead(slave, old(Bus()), smbCmd, smbAddr, pecEnabled);
        && Bus() == t.e && Replied(t.got[..smbAddr])
        && (|t.got| > smbAddr ==> rcvPec == t.got[smbAddr])
        && mrqPec == (if pecEnabled then CrcFrom(old(mrqPec), t.got[..smbAddr]) else old(mrqPec))
        && notes == old(notes) + if pecEnabled then [Folded(t.got[..smbAddr])] else []
    {
      var j: int := smbAddr;
      if pecEnabled && LastRead(smbCmd) {
        j := j + 1;
      }
      ghost var got := ReadLoop(smbAddr, j, FirstRead(smbCmd), LastRead(smbCmd));
      ReplyRead(smbAddr, got, old(mrqPec));
    }

    // ----- Settings and queries

    method EnablePec(smbAddr: word)
      modifies `ep0bcl, `pecEnabled, `mrqPec, `rcvPec, `notes
      ensures pecEnabled == (smbAddr > 0) && ep0bcl == 0
      ensures if pecEnabled
        then mrqPec == old(mrqPec) && rcvPec == old(rcvPec) && notes == old(notes)
        else mrqPec == 0 && rcvPec == 0 && notes == old(notes) + [Cleared]
    {
      ep0bcl := 0;
      pecEnabled := smbAddr > 0;
      if !pecEnabled {
        mrqPec, rcvPec := 0, 0;
        notes := notes + [Cleared];
      }
    }

    // The answer tells of mismatches since the last query.
    method GetClearPecFail()
      requires Layout()
      modifies `ep0bcl, `pecFailed, `notes, ep0buf
      ensures ep0bcl == 1 && ep0buf[0] == (if old(pecFailed) then 0xFF else 0)
      ensures !pecFailed && notes == old(notes) + [Queried]
    {
      if pecFailed {
        ep0buf[0] := 0xFF;
        pecFailed := false;
      } else {
        ep0buf[0] := 0;
      }
      ep0bcl := 1;
      notes := notes + [Queried];
    }

    method GetMrqPecs()
      requires Layout()
      modifies `ep0bcl, ep0buf
      ensures ep0bcl == 2 && ep0buf[0] == mrqPec && ep0buf[1] == rcvPec
    {
      ep0buf[0] := mrqPec;
      ep0buf[1] := rcvPec;
      ep0bcl := 2;
    }

    method ResetInterface()
      modifies `wire, `count, `tempptr, `templen, `mrqPec, `rcvPec, `notes
      ensures Idle() && mrqPec == 0 && rcvPec == 0 && notes == old(notes) + [Cleared]
      ensures wire == old(wire) + [Stop]
    {
      mrqPec, rcvPec, templen, tempptr := 0, 0, 0, 0;
      notes := notes + [Cleared];
      I2cStop();
    }

    // ----- Probes

    method TestAddressAck(smbAddr: word) returns (ok: bool)
      requires Layout()
      modifies `wire, `count, `ep0bcl, ep0buf
      ensures ok == StartUp(slave, old(wire), 0).ok
      ensures var probe := Probe(slave, old(wire), [Low(smbAddr)]);
        wire == probe.wire && (ok ==> ep0bcl == 1 && ep0buf[0] == if probe.sent == 1 then 0xFF else 0)
    {
      var up := I2cStart();
      if !up {
        return false;
      }
      var ack := Transmit([Low(smbAddr)]);
      I2cStop();
      ep0buf[0] := if ack then 0xFF else 0;
      ep0bcl := 1;
      return true;
    }

    method TestCommandAck(smbAddr: word, smbCmd: word) returns (ok: bool)
      requires Layout()
      modifies `wire, `count, `ep0bcl, ep0buf
      ensures ok == StartUp(slave, old(wire), 0).ok
      ensures var probe := Probe(slave, old(wire), [Low(smbAddr), Low(smbCmd)]);
        wire == probe.wire && (ok ==> ep0bcl == 1 && ep0buf[0] == if probe.sent == 2 then 0xFF else 0)
    {
      var up := I2cStart();
      if !up {
        return false;
      }
      var ack := Transmit([Low(smbAddr), Low(smbCmd)]);
      I2cStop();
      ep0buf[0] := if ack then 0xFF else 0;
      ep0bcl := 1;
      return true;
    }

    // How much can be written to a command: nothing, a byte, a word, a block, a longer block.
    method TestCommandWrite(smbAddr: word, smbCmd: word) returns (ok: bool)
      requires Layout()
      modifies `wire, `count, `ep0bcl, ep0buf
      ensures ok == StartUp(slave, old(wire), 0).ok
      ensures var probe := Probe(slave, old(wire), [Low(smbAddr), Low(smbCmd), 3, 0, 0, 0, 0]);
        wire == probe.wire && (ok ==> ep0bcl == 1 && ep0buf[0] == [0, 0, 1, 2, 3, 3, 4, 5][probe.sent])
    {
      ep0buf[0] := 0;
      var up := I2cStart();
      if !up {
        return false;
      }
      var bytes := [Low(smbAddr), Low(smbCmd), 3, 0, 0, 0, 0];
      ghost var h := wire;
      var k := 0;
      while k < 7
        invariant 0 <= k <= 7 && |bytes| == 7
        invariant Send(slave, h, bytes[..k]) == Run(wire, k)
        invariant ep0buf[0] == WriteLevel(k)
      {
        var ack := SendNext(bytes[k], h, bytes, k);
        if !ack {
          break;
        }
        // neither the address nor the third data byte adds to the level
        if k != 0 && k != 4 {
          ep0buf[0] := ep0buf[0] + 1;
        }
        k := k + 1;
      }
      assert k == 7 ==> bytes[..k] == bytes;
      I2cStop();
      ep0bcl := 1;
      return true;
    }

    // ----- Identification and inspection

    method Identify()
      requires Layout()
      modifies `ep0bcl, ep0buf
      ensures ep0bcl == 3 && ep0buf[..3] == [0x55, 0x53, 0x4D]
    {
      ep0buf[0], ep0buf[1], ep0buf[2] := 0x55, 0x53, 0x4D;
      ep0bcl := 3;
    }

    method Version()
      requires Layout()
      modifies `ep0bcl, ep0buf
      ensures ep0bcl == 3 && ep0buf[..3] == [1, 0, 1]
    {
      ep0buf[0], ep0buf[1], ep0buf[2] := 1, 0, 1;
      ep0bcl := 3;
    }

    method ShowStore()
      requires Layout()
      modifies `ep0bcl, ep0buf
      ensures ep0bcl == 64 && ep0buf[..64] == temp[..64]
    {
      var i := 0;
      while i < 64
        invariant 0 <= i <= 64 && ep0buf[..i] == temp[..i]
      {
        ep0buf[i] := temp[i];
        i := i + 1;
      }
      ep0bcl := 64;
    }

    method ShowCount()
      requires Layout()
      modifies `ep0bcl, ep0buf
      ensures ep0bcl == 2 && ep0buf[0] as int + 0x100 * ep0buf[1] as int == count
    {
      ep0buf[0] := count % 0x100;
      ep0buf[1] := count / 0x100;
      ep0bcl := 2;
    }

    // ----- The command switch

    // What a command finds.
    ghost function Now(): (a: Situation)
      requires Layout() && tempptr <= templen <= 192
      reads `wire, `i2dat, `lastrd, `pecEnabled, `mrqPec, `tempptr, `templen, `count, `notes, temp, ep0buf
      ensures a.Valid()
    {
      Situation(Bus(), pecEnabled, mrqPec, ep0buf[..], Store(), count, notes)
    }

    // What callers have to keep to: partial transfers fit EP0BUF, and the length that opens a
    // block write fits temp.
    predicate Admissible(cmd: byte, smbAddr: word)
      requires Layout()
      reads `templen, `count, ep0buf
    {
      && (IsPartial(cmd) ==> smbAddr <= PACKET)
      && (cmd == SMB_WRITE_BLOCK && (templen == 0 || Expired()) ==> ep0buf[0] <= 192)
    }

    ghost predicate Does(o: Effect, ok: bool, notesBefore: seq<Note>)
      reads `wire, `i2dat, `lastrd, `notes, ep0buf
    {
      Bus() == o.bus && ok == o.ok && notes == notesBefore + o.notes && o.reply <= ep0buf[..]
    }

    // A block read in the terms of its effect.
    method ServeReadBlock(smbAddr: word, smbCmd: word) returns (ok: bool)
      requires Layout() && tempptr <= templen <= 192
      modifies `wire, `i2dat, `lastrd, `count, `ep0bcl, `pecFailed, `notes, `tempptr, `templen, ep0buf, temp
      ensures tempptr <= templen <= 192
      ensures var o := OfReadBlock(slave, old(Bus()), pecEnabled, old(StoreAfterPause()), smbAddr, smbCmd);
        Does(o, ok, old(notes)) && pecFailed == (old(pecFailed) || o.notes != [])
      ensures ReadStore(slave, old(Bus()), pecEnabled, old(StoreAfterPause()), smbAddr, smbCmd, Store())
      ensures if Owed(old(StoreAfterPause())) > 0 then count == old(count)
        else |Fetched(slave, old(Bus()), pecEnabled, HeaderOf(smbAddr, smbCmd)).data| > PACKET ==> count == 0
    {
      ghost var before, n := temp[..], |Fetched(slave, Bus(), pecEnabled, HeaderOf(smbAddr, smbCmd)).data|;
      assert notes + [] == notes;
      ok := ReadBlock(smbAddr, smbCmd);
      assert n <= 64 ==> temp[..] == before;
    }

    method HandleReadBlock(smbAddr: word, smbCmd: word) returns (ok: bool)
      requires Valid()
      modifies `wire, `i2dat, `lastrd, `count, `ep0bcl, `pecFailed, `notes, `tempptr, `templen, ep0buf, temp
      ensures Valid()
      ensures Does(OfReadBlock(slave, old(Bus()), pecEnabled, old(StoreAfterPause()), smbAddr, smbCmd), ok, old(notes))
      ensures ReadStore(slave, old(Bus()), pecEnabled, old(StoreAfterPause()), smbAddr, smbCmd, Store())
      ensures if Owed(old(StoreAfterPause())) > 0 then count == old(count)
        else |Fetched(slave, old(Bus()), pecEnabled, HeaderOf(smbAddr, smbCmd)).data| > PACKET ==> count == 0
    {
      ghost var o := OfReadBlock(slave, Bus(), pecEnabled, StoreAfterPause(), smbAddr, smbCmd);
      ok := ServeReadBlock(smbAddr, smbCmd);
      JudgedKeeps(pecEnabled, mrqPec, old(pecFailed), old(notes), o.notes != []);
    }

    method HandleWriteBlock(smbAddr: word, smbCmd: word) returns (ok: bool)
      requires Valid() && Admissible(SMB_WRITE_BLOCK, smbAddr)
      modifies `wire, `count, `tempptr, `templen, temp
      ensures Valid()
      ensures var o := OfWriteBlock(slave, old(Bus()), pecEnabled, old(StoreAfterPause()), ep0buf[..], smbAddr, smbCmd);
        Does(o, ok, old(notes))
      ensures Store() == WriteStore(slave, old(Bus()), pecEnabled, old(StoreAfterPause()), ep0buf[..], smbAddr, smbCmd)
      ensures Accept(old(StoreAfterPause()), ep0buf[..]).frame.None? ==>
        count == if old(StoreAfterPause()) == EMPTY then 0 else old(count)
    {
      assert notes + [] == notes;
      ok := WriteBlock(smbAddr, smbCmd);
    }

    method HandleWriteCommand(cmd: byte, smbAddr: word, smbCmd: word) returns (ok: bool)
      requires Valid() && IsWrite(cmd)
      modifies `wire, `count, `ep0bcl
      ensures Does(OfWrite(slave, old(Now()), cmd, smbAddr, smbCmd), ok, old(notes))
    {
      assert notes + [] == notes;
      if cmd == SMB_SEND_BYTE {
        ok := SendByte(smbAddr, smbCmd);
      } else if cmd == SMB_WRITE_BYTE {
        ok := WriteByte(smbAddr, smbCmd);
      } else {
        ok := WriteWord(smbAddr, smbCmd);
      }
    }

    // A byte or a word; f is what the read comes to.
    method ReadCommand(cmd: byte, smbAddr: word, smbCmd: word, ghost f: Fetch) returns (ok: bool)
      requires Layout() && IsRead(cmd)
      requires var n := if cmd == SMB_READ_BYTE then 1 else 2;
        f == FixedRead(slave, Bus(), pecEnabled, HeaderOf(smbAddr, smbCmd), n)
      modifies `wire, `i2dat, `lastrd, `count, `ep0bcl, `pecFailed, `notes, ep0buf
      ensures Does(OfFetch(f), ok, old(notes)) && pecFailed == (old(pecFailed) || f.mismatch)
    {
      if cmd == SMB_READ_BYTE {
        ok := ReadByte(smbAddr, smbCmd);
      } else {
        ok := ReadWord(smbAddr, smbCmd);
      }
    }

    method HandleReadCommand(cmd: byte, smbAddr: word, smbCmd: word) returns (ok: bool)
      requires Valid() && IsRead(cmd)
      modifies `wire, `i2dat, `lastrd, `count, `ep0bcl, `pecFailed, `notes, ep0buf
      ensures Valid()
      ensures Does(OfRead(slave, old(Bus()), pecEnabled, cmd, smbAddr, smbCmd), ok, old(notes))
    {
      ghost var n := if cmd == SMB_READ_BYTE then 1 else 2;
      ghost var f := FixedRead(slave, Bus(), pecEnabled, HeaderOf(smbAddr, smbCmd), n);
      ok := ReadCommand(cmd, smbAddr, smbCmd, f);
      JudgedKeeps(pecEnabled, mrqPec, old(pecFailed), old(notes), f.mismatch);
    }

    method HandleProbe(cmd: byte, smbAddr: word, smbCmd: word) returns (ok: bool)
      requires Valid() && IsProbe(cmd)
      modifies `wire, `count, `ep0bcl, ep0buf
      ensures Does(OfProbe(slave, old(Bus()), cmd, smbAddr, smbCmd), ok, old(notes))
    {
      assert notes + [] == notes;
      if cmd == SMB_TEST_ADDRESS_ACK {
        ok := TestAddressAck(smbAddr);
      } else if cmd == SMB_TEST_COMMAND_ACK {
        ok := TestCommandAck(smbAddr, smbCmd);
      } else {
        ok := TestCommandWrite(smbAddr, smbCmd);
      }
    }

    method ServeShort(cmd: byte, smbAddr: word, smbCmd: word) returns (ok: bool)
      requires Valid() && (IsWrite(cmd) || IsRead(cmd) || IsProbe(cmd))
      modifies `wire, `i2dat, `lastrd, `count, `ep0bcl, `pecFailed, `notes, ep0buf
      ensures Valid()
      ensures Does(OfShort(slave, old(Now()), cmd, smbAddr, smbCmd), ok, old(notes))
      ensures IsWrite(cmd) ==> ep0buf[..] == old(ep0buf[..])
    {
      if IsWrite(cmd) {
        ok := HandleWriteCommand(cmd, smbAddr, smbCmd);
      } else if IsRead(cmd) {
        ok := HandleReadCommand(cmd, smbAddr, smbCmd);
      } else {
        ok := HandleProbe(cmd, smbAddr, smbCmd);
      }
    }

    method HandleShortCommand(cmd: byte, smbAddr: word, smbCmd: word) returns (ok: bool)
      requires Valid() && (IsWrite(cmd) || IsRead(cmd) || IsProbe(cmd))
      modifies `wire, `i2dat, `lastrd, `count, `ep0bcl, `pecFailed, `notes, ep0buf
      ensures Valid() && ok == EffectOf(slave, old(Now()), cmd, smbAddr, smbCmd).ok
      ensures Leaves(slave, old(Now()), cmd, smbAddr, smbCmd, Now())
    {
      ghost var a := Now();
      ok := ServeShort(cmd, smbAddr, smbCmd);
      ShortLeaves(slave, a, cmd, smbAddr, smbCmd, Now());
    }

    method HandleWrite(smbAddr: word, smbCmd: word) returns (ok: bool)
      requires Valid() && smbAddr <= PACKET
      modifies `wire, `count, `mrqPec, `notes
      ensures Valid()
      ensures var bytes := ep0buf[..smbAddr];
        Does(OfPartialWrite(slave, old(Bus()), smbCmd, bytes, pecEnabled, old(mrqPec)), ok, old(notes))
    {
      ghost var bytes := ep0buf[..smbAddr];
      ghost var sent := PartlySent(slave, wire, smbCmd, bytes);
      ok := Write(smbAddr, smbCmd);
      WriteKeeps(pecEnabled, old(mrqPec), pecFailed, old(notes), smbCmd, bytes[..sent]);
    }

    method HandleRead(smbAddr: word, smbCmd: word) returns (ok: bool)
      requires Valid() && smbAddr <= PACKET
      modifies `wire, `i2dat, `lastrd, `count, `ep0bcl, `mrqPec, `rcvPec, `notes, ep0buf
      ensures Valid()
      ensures Does(OfPartialRead(slave, old(Bus()), smbCmd, smbAddr, pecEnabled), ok, old(notes))
    {
      ghost var got := PartialRead(slave, Bus(), smbCmd, smbAddr, pecEnabled).got;
      Read(smbAddr, smbCmd);
      ReadKeeps(pecEnabled, old(mrqPec), pecFailed, old(notes), got[..smbAddr]);
      ok := true;
    }

    method HandleEnablePec(smbAddr: word) returns (ok: bool)
      requires Valid()
      modifies `ep0bcl, `pecEnabled, `mrqPec, `rcvPec, `notes
      ensures Valid() && Does(OfLocal(old(Now()), SMB_ENABLE_PEC, smbAddr), ok, old(notes))
      ensures pecEnabled == PecAfter(old(pecEnabled), SMB_ENABLE_PEC, smbAddr)
    {
      assert notes + [] == notes;
      EnablePec(smbAddr);
      ClearKeeps(old(pecEnabled), old(mrqPec), pecFailed, old(notes), false);
      ok := true;
    }

    method HandlePecFail(smbAddr: word) returns (ok: bool)
      requires Valid()
      modifies `ep0bcl, `pecFailed, `notes, ep0buf
      ensures Valid() && Does(OfLocal(old(Now()), SMB_GET_CLEAR_PEC_FAIL, smbAddr), ok, old(notes))
    {
      GetClearPecFail();
      QueryKeeps(pecEnabled, mrqPec, old(pecFailed), old(notes));
      ok := true;
    }

    method HandleReset(smbAddr: word) returns (ok: bool)
      requires Valid()
      modifies `wire, `count, `tempptr, `templen, `mrqPec, `rcvPec, `notes
      ensures Valid() && Does(OfLocal(old(Now()), SMB_RESET_INTERFACE, smbAddr), ok, old(notes)) && Idle()
    {
      ResetInterface();
      ClearKeeps(pecEnabled, old(mrqPec), pecFailed, old(notes), pecEnabled);
      ok := true;
    }

    // Queries, and commands that are not known.
    method HandleQuery(cmd: byte) returns (ok: bool)
      requires Valid()
      modifies `ep0bcl, ep0buf
      ensures ok <==> IsQuery(cmd)
      ensures Told(old(Now()), cmd) <= ep0buf[..]
      ensures !IsQuery(cmd) ==> ep0buf[..] == old(ep0buf[..])
    {
      ok := true;
      if cmd == SMB_GET_MRQ_PECS {
        GetMrqPecs();
      } else if cmd == SMB_SHOW_STORE {
        ShowStore();
      } else if cmd == SMB_SHOW_COUNT {
        ShowCount();
      } else if cmd == SMB_FIRMWARE_VERSION {
        Version();
      } else if cmd == SMB_INTERFACE_ID {
        Identify();
      } else {
        ok := false;
      }
    }

    method HandleBlockCommand(cmd: byte, smbAddr: word, smbCmd: word) returns (ok: bool)
      requires Valid() && Admissible(cmd, smbAddr) && (cmd == SMB_READ_BLOCK || cmd == SMB_WRITE_BLOCK)
      modifies `wire, `i2dat, `lastrd, `count, `ep0bcl, `pecFailed, `notes, `tempptr, `templen, ep0buf, temp
      ensures Valid() && ok == EffectOf(slave, old(Now()), cmd, smbAddr, smbCmd).ok
      ensures Leaves(slave, old(Now()), cmd, smbAddr, smbCmd, Now())
    {
      ghost var a := Now();
      if cmd == SMB_READ_BLOCK {
        ok := HandleReadBlock(smbAddr, smbCmd);
        ReadBlockLeaves(slave, a, smbAddr, smbCmd, Now());
      } else {
        ok := HandleWriteBlock(smbAddr, smbCmd);
        WriteBlockLeaves(slave, a, smbAddr, smbCmd, Now());
      }
    }

    method HandlePartial(cmd: byte, smbAddr: word, smbCmd: word) returns (ok: bool)
      requires Valid() && Admissible(cmd, smbAddr) && IsPartial(cmd)
      modifies `wire, `i2dat, `lastrd, `count, `ep0bcl, `mrqPec, `rcvPec, `notes, ep0buf
      ensures Valid() && ok == EffectOf(slave, old(Now()), cmd, smbAddr, smbCmd).ok
      ensures Leaves(slave, old(Now()), cmd, smbAddr, smbCmd, Now())
    {
      ghost var a := Now();
      if cmd == SMB_WRITE {
        assert ep0buf[..][..smbAddr] == ep0buf[..smbAddr];
        ok := HandleWrite(smbAddr, smbCmd);
      } else {
        ok := HandleRead(smbAddr, smbCmd);
      }
      PartialLeaves(slave, a, cmd, smbAddr, smbCmd, Now());
    }

    method HandleLocal(cmd: byte, smbAddr: word, smbCmd: word) returns (ok: bool)
      requires Valid() && IsLocal(cmd)
      modifies `wire, `count, `ep0bcl, `pecEnabled, `pecFailed, `mrqPec, `rcvPec, `notes, `tempptr, `templen, ep0buf
      ensures Valid() && ok == EffectOf(slave, old(Now()), cmd, smbAddr, smbCmd).ok
      ensures Leaves(slave, old(Now()), cmd, smbAddr, smbCmd, Now())
    {
      ghost var a := Now();
      assert notes + [] == notes;
      if cmd == SMB_ENABLE_PEC {
        ok := HandleEnablePec(smbAddr);
      } else if cmd == SMB_GET_CLEAR_PEC_FAIL {
        ok := HandlePecFail(smbAddr);
      } else if cmd == SMB_RESET_INTERFACE {
        ok := HandleReset(smbAddr);
      } else {
        ok := HandleQuery(cmd);
      }
      LocalLeaves(slave, a, cmd, smbAddr, smbCmd, Now());
    }

    // Every vendor command does what its effect says, for every slave; the bus is held
    // afterwards if the command holds it, and otherwise only if it was held before.
    method HandleVendorCommand(cmd: byte, smbAddr: word, smbCmd: word) returns (ok: bool)
      requires Valid() && Admissible(cmd, smbAddr)
      modifies this, ep0buf, temp
      ensures Valid() && ok == EffectOf(slave, old(Now()), cmd, smbAddr, smbCmd).ok
      ensures Leaves(slave, old(Now()), cmd, smbAddr, smbCmd, Now())
      ensures if Holds(slave, old(Now()), cmd, smbAddr, smbCmd) then Open(wire) else Open(wire) ==> Open(old(wire))
    {
      CommandReleases(slave, Now(), cmd, smbAddr, smbCmd);
      if cmd == SMB_READ_BLOCK || cmd == SMB_WRITE_BLOCK {
        ok := HandleBlockCommand(cmd, smbAddr, smbCmd);
      } else if IsPartial(cmd) {
        ok := HandlePartial(cmd, smbAddr, smbCmd);
      } else if IsWrite(cmd) || IsRead(cmd) || IsProbe(cmd) {
        ok := HandleShortCommand(cmd, smbAddr, smbCmd);
      } else {
        ok := HandleLocal(cmd, smbAddr, smbCmd);
      }
    }

    // The data stage of a control transfer to the device, some ticks after the last command.
    method Deliver(data: seq<byte>, ticks: nat)
      requires Layout() && |data| <= PACKET
      modifies `count, ep0buf
      ensures ep0buf[..|data|] == data && ep0buf[|data|..] == old(ep0buf[|data|..])
      ensures count == (old(count) + ticks) % 0x1_0000
    {
      forall i | 0 <= i < |data| {
        ep0buf[i] := data[i];
      }
      count := (count + ticks) % 0x1_0000;
    }

    // log is the run that led here from start.
    ghost predicate Led(start: Situation, log: seq<Turn>, requests: seq<Request>)
      requires Layout() && tempptr <= templen <= 192
      reads `wire, `i2dat, `lastrd, `pecEnabled, `mrqPec, `tempptr, `templen, `count, `notes, temp, ep0buf
    {
      IsRun(slave, start, log, requests) && Now() == End(start, log)
    }

    // The data stage of the next request.
    method TakeRequest(r: Request, ghost a: Situation)
      requires Valid() && |r.data| <= PACKET && Now() == a
      modifies `count, ep0buf
      ensures Valid() && Now() == Presented(a, r)
    {
      Deliver(r.data, r.ticks);
      assert ep0buf[..] == r.data + a.ep0[|r.data|..];
    }

    // The command itself; t is its turn.
    method Serve(r: Request, ghost a: Situation) returns (ok: bool, ghost t: Turn)
      requires Valid() && a.Valid() && Fitting(r) && Admissible(r.cmd, r.value) && Now() == Presented(a, r)
      modifies this, ep0buf, temp
      ensures Valid() && Follows(slave, a, r, t) && Now() == t.left
    {
      ghost var found := Now();
      ok := HandleVendorCommand(r.cmd, r.value, r.index);
      t := Turn(found, Now());
    }

    // One request of a run; one that is not admissible gets no further than its data stage.
    method Step(r: Request, ghost start: Situation, ghost log: seq<Turn>, ghost requests: seq<Request>)
        returns (admitted: bool, ghost longer: seq<Turn>)
      requires Valid() && |r.data| <= PACKET && Led(start, log, requests)
      modifies this, ep0buf, temp
      ensures Valid()
      ensures admitted ==> Led(start, longer, requests + [r])
      ensures !admitted ==> Now() == Presented(End(start, log), r) && !Admissible(r.cmd, r.value)
    {
      longer := log;
      TakeRequest(r, Now());
      admitted := Admissible(r.cmd, r.value);
      if admitted {
        var ok;
        ghost var t;
        ok, t := Serve(r, End(start, log));
        longer := log + [t];
        RunSnoc(slave, start, log, requests, r, t);
      }
    }

    // Any run of vendor commands, up to the first that is not admissible: its log says what each
    // command finds and leaves.  If the bus is held in the end though it was free, that is since
    // a command that holds it; the flag tells of a mismatch that nobody has asked about.
    method Session(requests: seq<Request>) returns (handled: nat, ghost log: seq<Turn>)
      requires Valid() && forall i | 0 <= i < |requests| :: |requests[i].data| <= PACKET
      modifies this, ep0buf, temp
      ensures Valid() && handled <= |requests| && IsRun(slave, old(Now()), log, requests[..handled])
      ensures handled == |requests| ==> Now() == End(old(Now()), log)
      ensures handled < |requests| ==> Now() == Presented(End(old(Now()), log), requests[handled])
      ensures handled < |requests| ==> !Admissible(requests[handled].cmd, requests[handled].value)
      ensures Open(wire) && !Open(old(wire)) ==> exists k :: HeldFrom(slave, log, requests[..handled], k, handled)
      ensures pecFailed <==> FlagUp(slave, old(Now()), log, requests[..handled])
    {
      ghost var start := Now();
      handled, log := 0, [];
      while handled < |requests|
        invariant Valid() && handled <= |requests| && Led(start, log, requests[..handled])
      {
        var admitted;
        ghost var longer;
        admitted, longer := Step(requests[handled], start, log, requests[..handled]);
        if !admitted {
          break;
        }
        assert requests[..handled + 1] == requests[..handled] + [requests[handled]];
        handled, log := handled + 1, longer;
      }
      RunTells(start, log, requests[..handled]);
    }

    lemma RunTells(start: Situation, log: seq<Turn>, requests: seq<Request>)
      requires Valid() && IsRun(slave, start, log, requests)
      requires notes == End(start, log).notes && wire == End(start, log).bus.wire
      ensures Open(wire) && !Open(start.bus.wire) ==> exists k :: HeldFrom(slave, log, requests, k, |log|)
      ensures pecFailed <==> FlagUp(slave, start, log, requests)
    {
      FlagOfRun(slave, start, log, requests);
      if Open(wire) && !Open(start.bus.wire) {
        var k := HeldSince(slave, start, log, requests, |log|);
      }
    }
  }
}
