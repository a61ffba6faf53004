/** The BQ8030 flasher's program blocks, 96 bytes each, over the chunked block protocol. */
module Bq8030 {
  import opened Bytes
  import opened Pec
  import opened Wire
  import opened Reception
  import opened BlockRead
  import opened Commands
  import opened FirmwareModule
  import opened Fx2lp

  const ADDRESS: word := 0x16
  const CMD_SET_PROGRAM_BLOCK_ADDRESS: byte := 0x0
  const CMD_READ_PROGRAM_BLOCK: byte := 0x2
  const CMD_WRITE_PROGRAM_BLOCK: byte := 0x5
  const PROGRAM_BLOCKSZ := 0x60

  // A block number as it goes over the bus, low byte first.
  function LowFirst(blockNr: nat): (b: seq<byte>)
    ensures |b| == 3
    ensures blockNr < 0x100_0000 ==> b[0] as int + 0x100 * b[1] as int + 0x1_0000 * b[2] as int == blockNr
    ensures blockNr < 0x1_0000 ==> b[2] == 0
  {
    [blockNr % 0x100, blockNr / 0x100 % 0x100, blockNr / 0x1_0000 % 0x100]
  }

  // A program block goes out as one transaction of 98 data bytes, in two control packets.
  method WriteProgramBlock(fw: Firmware, blockNr: nat, buf: seq<byte>, ticks: nat -> nat) returns (status: int)
    requires fw.Layout() && fw.Idle() && InTime(ticks) && |buf| == PROGRAM_BLOCKSZ
    modifies fw`wire, fw`count, fw`tempptr, fw`templen, fw.ep0buf, fw.temp
    ensures InRange(fw)
    ensures Result(fw.wire, status == PROGRAM_BLOCKSZ) == WriteTransaction(fw.slave, old(fw.wire),
      WithPec(fw.pecEnabled, [0x16, 0x05, 98] + (LowFirst(blockNr)[..2] + buf)))
    // the two bytes of the number are those it is later asked for by
    ensures blockNr < 0x1_0000 ==> var b := LowFirst(blockNr); b[0] as int + 0x100 * b[1] as int == blockNr && b[2] == 0
    ensures status == PROGRAM_BLOCKSZ ==> fw.Idle()
  {
    var block := new byte[98](i requires 0 <= i < 98 =>
      if i == 0 then blockNr % 0x100 else if i == 1 then blockNr / 0x100 % 0x100 else buf[i - 2]);
    assert block[..98] == LowFirst(blockNr)[..2] + buf;
    status := WriteBlock(fw, ADDRESS, CMD_WRITE_PROGRAM_BLOCK, block, 98, ticks);
    status := status - 2;
  }

  // Setting the block address.
  function Selected(s: Slave, h: History, pec: bool, blockNr: nat): Result {
    WriteTransaction(s, h, WithPec(pec, [0x16, CMD_SET_PROGRAM_BLOCK_ADDRESS, 3] + LowFirst(blockNr)))
  }

  // The bus after START, the three bytes of a block address sent to the chip, and STOP.
  function AddressedBlock(s: Slave, h: History, pec: bool, b: seq<byte>): History {
    var bytes := [0x16, 0x00, 3] + b;
    h + LostStarts(Losses(s, h, 0)) + [Start] + AckedBytes(if pec then bytes + [PecOf(bytes)] else bytes) + [Stop]
  }

  lemma AddressSent(s: Slave, h: History, pec: bool, blockNr: nat)
    ensures var selected := Selected(s, h, pec, blockNr);
      selected.ok ==> selected.wire == AddressedBlock(s, h, pec, LowFirst(blockNr))
  {
    var bytes := WithPec(pec, [0x16, 0x00, 3] + LowFirst(blockNr));
    var n := WriteTransactionExact(s, h, bytes);
    assert bytes[..|bytes|] == bytes;
  }

  // Between two states of the bus the chip was asked for a block: its number was sent, and then
  // the command that reads it.
  ghost predicate AsksFor(s: Slave, before: History, after: History, pec: bool, blockNr: nat) {
    var b := LowFirst(blockNr);
    var h := AddressedBlock(s, before, pec, b);
    && b[0] as int + 0x100 * b[1] as int + 0x1_0000 * b[2] as int == blockNr
    && Addressed(s, h, [0x16, 0x02, 0x17]) && AddressedBus(s, h, [0x16, 0x02, 0x17]) <= after
  }

  // The block read that follows it.
  function BlockOf(s: Slave, e: Engine, pec: bool, blockNr: nat): Fetch {
    Fetched(s, e.(wire := Selected(s, e.wire, pec, blockNr).wire), pec, HeaderOf(ADDRESS, CMD_READ_PROGRAM_BLOCK))
  }

  // The bus after an attempt to read a program block.
  function Asked(s: Slave, e: Engine, pec: bool, blockNr: nat): Engine {
    var selected := Selected(s, e.wire, pec, blockNr);
    if selected.ok then BlockOf(s, e, pec, blockNr).bus else e.(wire := selected.wire)
  }

  // Asked for a program block, the chip answers with these bytes.
  predicate Answers(s: Slave, e: Engine, pec: bool, blockNr: nat, block: seq<byte>) {
    var f := BlockOf(s, e, pec, blockNr);
    Selected(s, e.wire, pec, blockNr).ok && f.ok && f.data == [PROGRAM_BLOCKSZ] + block
  }

  lemma AskedFor(s: Slave, e: Engine, pec: bool, blockNr: nat)
    requires Selected(s, e.wire, pec, blockNr).ok && BlockOf(s, e, pec, blockNr).ok && blockNr < 0x100_0000
    ensures AsksFor(s, e.wire, Asked(s, e, pec, blockNr).wire, pec, blockNr)
  {
    var selected, header := e.(wire := Selected(s, e.wire, pec, blockNr).wire), [0x16, 0x02, 0x17];
    AddressSent(s, e.wire, pec, blockNr);
    FetchedExact(s, selected, pec, header);
    CollectedGrows(s, selected.(wire := AddressedBus(s, selected.wire, header)), pec, header);
  }

  // With PEC on, the firmware refuses a length of 254 here, because the header has the PEC 0x90 and
  // not 0; with PEC off the chip must not announce it.
  ghost predicate Moderate(s: Slave, pec: bool) {
    pec || forall h :: !Announces254(s, h, HeaderOf(ADDRESS, CMD_READ_PROGRAM_BLOCK))
  }

  lemma PecOfAddress()
    ensures Crc8(0, 0x16) == 0x62
  {
  }

  lemma PecOfCommand()
    ensures Crc8(0x62, 0x02) == 0x27
  {
  }

  lemma PecOfReadAddress()
    ensures Crc8(0x27, 0x17) == 0x90
  {
  }

  lemma PecOfHeader()
    ensures PecOf(HeaderOf(ADDRESS, CMD_READ_PROGRAM_BLOCK)) == 0x90
  {
    PecOfThree(0x16, 0x02, 0x17);
    PecOfAddress();
    PecOfCommand();
    PecOfReadAddress();
  }

  lemma ModerateFetch(s: Slave, e: Engine, pec: bool)
    requires Moderate(s, pec)
    ensures var f := Fetched(s, e, pec, HeaderOf(ADDRESS, CMD_READ_PROGRAM_BLOCK));
      (f.data != [] ==> |f.data| == f.data[0] as int + 1 <= 0xFE) && (f.ok ==> f.data != [])
  {
    FetchedShape(s, e, pec, HeaderOf(ADDRESS, CMD_READ_PROGRAM_BLOCK));
    PecOfHeader();
  }

  method SetBlockAddress(fw: Firmware, blockNr: nat, ticks: nat -> nat) returns (status: int)
    requires fw.Layout() && fw.Idle() && InTime(ticks)
    modifies fw`wire, fw`count, fw`tempptr, fw`templen, fw.ep0buf, fw.temp
    ensures InRange(fw) && (status == 3 ==> fw.Idle())
    ensures Result(fw.wire, status == 3) == Selected(fw.slave, old(fw.wire), fw.pecEnabled, blockNr)
    ensures status == 3 ==> fw.wire == AddressedBlock(fw.slave, old(fw.wire), fw.pecEnabled, LowFirst(blockNr))
  {
    var setAddr := new byte[3](i requires 0 <= i < 3 =>
      if i == 0 then blockNr % 0x100 else if i == 1 then blockNr / 0x100 % 0x100 else blockNr / 0x1_0000 % 0x100);
    assert setAddr[..3] == LowFirst(blockNr);
    AddressSent(fw.slave, fw.wire, fw.pecEnabled, blockNr);
    status := WriteBlock(fw, ADDRESS, CMD_SET_PROGRAM_BLOCK_ADDRESS, setAddr, 3, ticks);
  }

  method ReadSelected(fw: Firmware, buf: array<byte>, ticks: nat -> nat) returns (status: int)
    requires fw.Layout() && fw.Idle() && InTime(ticks) && Moderate(fw.slave, fw.pecEnabled)
    requires buf.Length >= 255 && buf != fw.temp && buf != fw.ep0buf
    modifies fw`wire, fw`i2dat, fw`lastrd, fw`count, fw`ep0bcl, fw`pecFailed, fw`notes, fw`tempptr, fw`templen
    modifies fw.ep0buf, fw.temp, buf
    ensures fw.Layout() && status < 0xFF
    ensures var f := Fetched(fw.slave, old(fw.Bus()), fw.pecEnabled, HeaderOf(ADDRESS, CMD_READ_PROGRAM_BLOCK));
      fw.Bus() == f.bus &&
      if f.ok then fw.Idle() && status >= 0 && f.data == [status as byte] + buf[..status] else status < 0
  {
    ghost var f := Fetched(fw.slave, fw.Bus(), fw.pecEnabled, HeaderOf(ADDRESS, CMD_READ_PROGRAM_BLOCK));
    ModerateFetch(fw.slave, fw.Bus(), fw.pecEnabled);
    var requests;
    status, requests := ReadBlock(fw, ADDRESS, CMD_READ_PROGRAM_BLOCK, buf, ticks);
    assert f.ok ==> f.data == [f.data[0]] + f.data[1..];
  }

  method ReadProgramBlock(fw: Firmware, blockNr: nat, buf: array<byte>, ticks: nat -> nat) returns (status: int)
    requires fw.Layout() && fw.Idle() && InTime(ticks) && Moderate(fw.slave, fw.pecEnabled)
    requires buf.Length >= 255 && buf != fw.temp && buf != fw.ep0buf
    modifies fw`wire, fw`i2dat, fw`lastrd, fw`count, fw`ep0bcl, fw`pecFailed, fw`notes, fw`tempptr, fw`templen
    modifies fw.ep0buf, fw.temp, buf
    ensures fw.Layout() && status < 0xFF && (status >= 0 ==> fw.Idle())
    ensures fw.Bus() == Asked(fw.slave, old(fw.Bus()), fw.pecEnabled, blockNr)
    ensures var f := BlockOf(fw.slave, old(fw.Bus()), fw.pecEnabled, blockNr);
      && (status >= 0 <==> Selected(fw.slave, old(fw.wire), fw.pecEnabled, blockNr).ok && f.ok)
      && (status >= 0 ==> f.data == [status as byte] + buf[..status])
    ensures status >= 0 && blockNr < 0x100_0000 ==> AsksFor(fw.slave, old(fw.wire), fw.wire, fw.pecEnabled, blockNr)
  {
    ghost var e := fw.Bus();
    status := SetBlockAddress(fw, blockNr, ticks);
    if status != 3 {
      return -1;
    }
    status := ReadSelected(fw, buf, ticks);
    if status >= 0 && blockNr < 0x100_0000 {
      AskedFor(fw.slave, e, fw.pecEnabled, blockNr);
    }
  }

  // The bus after the first n program blocks have been asked for.
  ghost function AfterBlocks(s: Slave, e: Engine, pec: bool, n: nat): Engine {
    if n == 0 then e else Asked(s, AfterBlocks(s, e, pec, n - 1), pec, n - 1)
  }

  // The chip answers each of the first n blocks, asked for one after the other, with that of
  // the file.
  ghost predicate AnswersAll(s: Slave, e: Engine, pec: bool, file: seq<seq<byte>>, n: nat)
    requires n <= |file|
  {
    forall i | 0 <= i < n :: Answers(s, AfterBlocks(s, e, pec, i), pec, i, file[i])
  }

  lemma AnswersNext(s: Slave, e: Engine, pec: bool, file: seq<seq<byte>>, n: nat, ok: bool)
    requires n < |file| && AnswersAll(s, e, pec, file, n)
    requires ok == Answers(s, AfterBlocks(s, e, pec, n), pec, n, file[n])
    ensures if ok then AnswersAll(s, e, pec, file, n + 1) else !AnswersAll(s, e, pec, file, |file|)
  {
  }

  // Each of them was asked for by its number.
  lemma AllAskedFor(s: Slave, e: Engine, pec: bool, file: seq<seq<byte>>)
    requires AnswersAll(s, e, pec, file, |file|) && |file| <= 0x100_0000
    ensures forall i: nat | i < |file| ::
      AsksFor(s, AfterBlocks(s, e, pec, i).wire, AfterBlocks(s, e, pec, i + 1).wire, pec, i)
  {
    forall i: nat | i < |file|
      ensures AsksFor(s, AfterBlocks(s, e, pec, i).wire, AfterBlocks(s, e, pec, i + 1).wire, pec, i)
    {
      assert Answers(s, AfterBlocks(s, e, pec, i), pec, i, file[i]);
      AskedFor(s, AfterBlocks(s, e, pec, i), pec, i);
    }
  }

  // One block compared.
  method VerifyBlock(fw: Firmware, blockNr: nat, expected: seq<byte>, block2: array<byte>, ticks: nat -> nat)
      returns (ok: bool)
    requires fw.Layout() && fw.Idle() && InTime(ticks) && Moderate(fw.slave, fw.pecEnabled)
    requires |expected| == PROGRAM_BLOCKSZ
    requires block2.Length >= 255 && block2 != fw.temp && block2 != fw.ep0buf
    modifies fw`wire, fw`i2dat, fw`lastrd, fw`count, fw`ep0bcl, fw`pecFailed, fw`notes, fw`tempptr, fw`templen
    modifies fw.ep0buf, fw.temp, block2
    ensures fw.Layout() && (ok ==> fw.Idle()) && fw.Bus() == Asked(fw.slave, old(fw.Bus()), fw.pecEnabled, blockNr)
    ensures ok <==> Answers(fw.slave, old(fw.Bus()), fw.pecEnabled, blockNr, expected)
  {
    ghost var data := BlockOf(fw.slave, fw.Bus(), fw.pecEnabled, blockNr).data;
    var status := ReadProgramBlock(fw, blockNr, block2, ticks);
    ok := status == PROGRAM_BLOCKSZ && block2[..PROGRAM_BLOCKSZ] == expected;
    if data == [PROGRAM_BLOCKSZ] + expected && status >= 0 {
      assert data[0] == status as byte && data[1..] == expected == block2[..status];
    }
  }

  method VerifyNext(fw: Firmware, file: seq<seq<byte>>, i: nat, block2: array<byte>, ticks: nat -> nat, ghost e: Engine)
      returns (ok: bool)
    requires fw.Layout() && fw.Idle() && InTime(ticks) && Moderate(fw.slave, fw.pecEnabled)
    requires block2.Length >= 255 && block2 != fw.temp && block2 != fw.ep0buf
    requires i < |file| && |file[i]| == PROGRAM_BLOCKSZ
    requires fw.Bus() == AfterBlocks(fw.slave, e, fw.pecEnabled, i) && AnswersAll(fw.slave, e, fw.pecEnabled, file, i)
    modifies fw`wire, fw`i2dat, fw`lastrd, fw`count, fw`ep0bcl, fw`pecFailed, fw`notes, fw`tempptr, fw`templen
    modifies fw.ep0buf, fw.temp, block2
    ensures fw.Layout() && (ok ==> fw.Idle()) && fw.Bus() == AfterBlocks(fw.slave, e, fw.pecEnabled, i + 1)
    ensures ok ==> AnswersAll(fw.slave, e, fw.pecEnabled, file, i + 1)
    ensures !ok ==> !AnswersAll(fw.slave, e, fw.pecEnabled, file, |file|)
  {
    ok := VerifyBlock(fw, i, file[i], block2, ticks);
    AnswersNext(fw.slave, e, fw.pecEnabled, file, i, ok);
  }

  // The verify pass: true exactly if every block of the file comes back.
  method VerifyProgram(fw: Firmware, file: seq<seq<byte>>, ticks: nat -> nat) returns (ok: bool)
    requires fw.Layout() && fw.Idle() && InTime(ticks) && Moderate(fw.slave, fw.pecEnabled)
    requires forall i | 0 <= i < |file| :: |file[i]| == PROGRAM_BLOCKSZ
    modifies fw`wire, fw`i2dat, fw`lastrd, fw`count, fw`ep0bcl, fw`pecFailed, fw`notes, fw`tempptr, fw`templen
    modifies fw.ep0buf, fw.temp
    ensures ok <==> AnswersAll(fw.slave, old(fw.Bus()), fw.pecEnabled, file, |file|)
    ensures ok ==> fw.Bus() == AfterBlocks(fw.slave, old(fw.Bus()), fw.pecEnabled, |file|)
    ensures ok && |file| <= 0x100_0000 ==> forall i: nat | i < |file| ::
      AsksFor(fw.slave, AfterBlocks(fw.slave, old(fw.Bus()), fw.pecEnabled, i).wire,
        AfterBlocks(fw.slave, old(fw.Bus()), fw.pecEnabled, i + 1).wire, fw.pecEnabled, i)
  {
    ghost var e := fw.Bus();
    var block2 := new byte[256](_ => 0);
    for i := 0 to |file|
      invariant fw.Layout() && fw.Idle() && fresh(block2) && fw.Bus() == AfterBlocks(fw.slave, e, fw.pecEnabled, i)
      invariant AnswersAll(fw.slave, e, fw.pecEnabled, file, i)
    {
      ok := VerifyNext(fw, file, i, block2, ticks, e);
      if !ok {
        return;
      }
    }
    if |file| <= 0x100_0000 {
      AllAskedFor(fw.slave, e, fw.pecEnabled, file);
    }
    ok := true;
  }
}
