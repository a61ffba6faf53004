# Verification of smbusb

A Dafny model of smbusb, with proofs. smbusb drives SMBus devices through a Cypress FX2LP: a host library cuts
SMBus transactions into 64-byte USB control packets, and a firmware on the FX2LP reassembles the packets, operates
the chip's I2C engine and computes packet error codes (PEC). `dafny verify dfyconfig.toml` checks everything.

## The model

* **The bus** (`Wire.dfy`) is a history of events: START, repeated START, STOP, lost arbitration, bytes sent with
  their outcome, bytes received with the master's answer. A slave is *any* function of that history: it may refuse
  any byte, hang, or send anything. What a driver wants to see on the bus is described by functions from a slave and a
  history to a history: `WriteTransaction`, `AddressedBus`, `Stream` and `Reads`; lemmas named `...Exact` say event by event
  what they are, for every slave.
* **The receiver of the I2C engine** (`Reception.dfy`) has a one-byte lookahead: reading I2DAT returns the buffered byte and
  clocks in the next one, refused if LASTRD is set; if STOP is pending, no further byte is clocked in. `ByteIn` and `Take`
  say what a byte and a read come to for every slave, those that do not answer in time included; `TakeStreams` says what
  that is for slaves that do.
* **The firmware** (`Firmware.dfy`) is a class with the firmware's static state: `temp`, `tempptr`, `templen`, EP0BUF,
  the tick counter `count`, the PEC fields. Each command arm is a method; its contract gives the exact bus history,
  reply and new state for every slave. Timeouts inside the engine routines are kept (outcome `Hung`, event `Hang`);
  the tick counter has an arbitrary value after every wait loop.
* **The host** (`Fx2lp.dfy`) has the chunk loops of the FX2LP driver. A control transfer is a call of the
  firmware; `ticks(k)` ticks pass before packet k, and `InTime` says that no packet comes too late.
* **Specifications between the two**: `BlockBuffer.dfy` (reassembly of block writes), `BlockWrite.dfy` (a frame cut into
  packets), `BlockRead.dfy` (reads of a byte, a word, a block), `Transfer.dfy` (partial writes and reads), `PecNotes.dfy`
  (what the running PEC and the failure flag stand for), `Probing.dfy`, `Recovery.dfy`.
* **Runs of commands**: `Commands.dfy` has the effect of every vendor command as a function of what the command finds
  (`EffectOf`), `CommandTable.dfy` says the same by command code and event by event, and `Runs.dfy` has what follows for
  any run of them. `FirmwareModule.Firmware.Session` keeps a log that is such a run.
* **PEC** (`Pec*.dfy`): the shift loop, its meaning as a polynomial remainder, and the transmission errors it detects.
* **Around the core**: `I2cdev.dfy` (the second driver), `Strtok.dfy` and `OptDict.dfy` (the option tokeniser, in
  place), `IntelHex.dfy` and `FxLoader.dfy` (the firmware upload), `R2j240.dfy` and `Bq8030.dfy` (two flashers, the
  second on top of the chunked protocol).

## What came out

* Block writes: the packets are invisible on the bus for every length from 0 to 192, whatever the slave does,
  *unless the length is 64* (`BlockWrite.OneTransactionUnless64`): the firmware compares the length with 64 although
  the first packet has room for 63 data bytes only.
* Block reads work for counts from 1 to 253. A count of 254 makes the firmware's BYTE length counter wrap to 0, and the
  bus is left without a STOP (`BlockRead.LeftOpenOnlyBy254`). Apart from a partial write without STOP that is the only way
  to leave a free bus held (`Commands.CommandReleases`, `Runs.HeldSince`).
* `SMBRead` with `lastRead` refuses its last byte exactly if PEC is on, or the length is 1, or the length does
  not leave a single byte for the last packet (`Fx2lp.ReadStreams`).
* lib/README.md:139-141 lets callers read any number of bytes and stop later. Two `SMBRead` calls in a row deliver what one
  would only if the slave sends nothing but repetitions from there on, because the second call throws away the byte that
  was clocked in ahead (`Transfer.ContiguousIff`, `Fx2lp.ReadTwice`); no two lengths work for a slave that counts
  (`Transfer.NeverContiguous`). A first read of one byte has that byte refused as well.
* A block of 64 or more data bytes that fails on its PEC leaves its tail in the store, and the next block read within 5
  ticks gets that as a reply, whatever slave it was meant for; after any other block read it does not (`Fx2lp.ReadAgain`).
* A long block write that fails stays in the store, so a retry within 5 ticks sends the old block first
  (`Fx2lp.WriteTwice`, `BlockWrite.RetryIff`).
* lib/README.md:116 describes the PEC failure flag as that of the last read. In the code it is sticky: it tells of any
  mismatch since it was last queried (`Runs.FlagOfRun`), so it tells of the last read only if the flag was down before it or
  that read failed (`Runs.FlagTells`, `Runs.StickyFlag`). To query it between reads is enough (`Runs.QueriesSuffice`).
* The PEC does not protect the length of a block: if one bit of it is altered, another number of bytes is read, and a valid
  PEC may stand where it is looked for (`BlockRead.AlteredLengthAccepted`).
* lib/README.md:168 promises a 16-bit word from `SMBGetArbPEC`. The code extends the sign of the received PEC into the upper
  half of the result (`Fx2lp.GetArbPec`).
* The uploader ignores what `parse_hex_line` returns, so a data record with a wrong checksum is written all the same
  (`FxLoader.Upload`, for lines with any checksums).
* A value in the driver options comes back whole exactly if its own `=` signs stand alone inside it (`OptDictModule.KeyValue`).

## Model

| member | source | states |
|---|---|---|
| Pec.PecCrc | firmware/smbusb_firmware.c:67-85 | the shift loop computes eight multiplications by x of the sum of register and byte |
| Pec.CrcConcat | firmware/smbusb_firmware.c:662-667 | a message may be folded in parts: chunk boundaries do not matter |
| PecPolynomial.PecIsRemainder | firmware/smbusb_firmware.c:67-85 | a byte is the PEC of a message of any length if and only if it is the remainder of the message times x^8 modulo x^8 + x^2 + x + 1 |
| PecPolynomial.RemainderUnique | firmware/smbusb_firmware.c:67-85 | that remainder is unique |
| PecPolynomial.ResidueZero | firmware/smbusb_firmware.c:524-528 | a message and a byte have residue 0 if and only if the byte is the PEC of the message |
| PecDetection.OddErrorsDetected | firmware/smbusb_firmware.c:67-85 | two messages with valid PECs never differ in an odd number of bits |
| PecDetection.BurstDetected | firmware/smbusb_firmware.c:67-85 | two messages with valid PECs that differ within eight consecutive bits only are equal |
| PecDetection.PairDetected | firmware/smbusb_firmware.c:67-85 | two altered bits escape the PEC if and only if they are a multiple of 127 positions apart |
| BlockRead.AlteredBlockRefused | firmware/smbusb_firmware.c:524-528 | with PEC on, a block whose length byte arrives intact, and that is altered on the way by an odd number of bits, a burst of at most eight or two bits not a multiple of 127 apart, makes the block read fail on its PEC |
| BlockRead.AlteredLengthAccepted | firmware/smbusb_firmware.c:498-504 | one altered bit in the length byte may go unnoticed: for every address, command and data byte there is a block of length 3 with a valid PEC that is accepted as one of length 1 |
| Wire.SendConcat | firmware/smbusb_firmware.c:177-191 | bytes sent in two parts are bytes sent at once, if the first part was acknowledged |
| Wire.SendComplete | firmware/smbusb_firmware.c:177-191 | a run in which every byte is acknowledged is those bytes and nothing else |
| Wire.WriteTransactionShape | firmware/smbusb_firmware.c:612-635 | a successful write transaction is one START, exactly the bytes, one STOP; only lost arbitrations may precede it |
| Wire.WriteTransactionObliging | firmware/smbusb_firmware.c:612-635 | on a bus where all goes well a write transaction succeeds with exactly these events |
| Wire.WriteTransactionCloses | firmware/smbusb_firmware.c:635-641 | every write transaction ends with the bus released, failed or not |
| Wire.StartUpExact | firmware/smbusb_firmware.c:144-157 | for every slave: one START, after as many lost ones as the slave makes of five attempts; none if all five are lost |
| Wire.SendExact | firmware/smbusb_firmware.c:177-191 | for every slave: bytes go out up to the first that is not acknowledged, which is the last, with STOP behind it if the bus hangs |
| Wire.WriteTransactionExact | firmware/smbusb_firmware.c:612-641 | for every slave, in events: lost STARTs, START, the bytes up to the first that is not acknowledged, and STOP in any case |
| Wire.SelectExact | firmware/smbusb_firmware.c:308-312 | for every slave, in events: START, address, command, repeated START and read address, in this order, or all of this up to the first that is not to be had |
| Reception.ByteInOnly | firmware/smbusb_firmware.c:193-246 | a single byte is refused and delivered, with a STOP behind it if it is the last |
| Reception.ByteInFirst | firmware/smbusb_firmware.c:193-246 | the first byte is delivered and one further byte has been clocked in, refused if it is to be the last |
| Reception.ByteInNext | firmware/smbusb_firmware.c:193-246 | a byte clocked in ahead is delivered and the next one follows, refused if it is to be the last |
| Reception.ByteInLast | firmware/smbusb_firmware.c:193-246 | the last byte is delivered, STOP is sent and nothing more is clocked in |
| Reception.ByteInExact | firmware/smbusb_firmware.c:193-246 | for every slave, in events: which byte is delivered, which one is clocked in and whether it is refused; a byte that does not come in time makes the result 0, and STOP follows |
| Wire.StreamShift | firmware/smbusb_firmware.c:193-246 | after m acknowledged bytes the slave sends the rest of what it sends anyway |
| FirmwareModule.Firmware.I2cStart | firmware/smbusb_firmware.c:144-157 | START is tried up to five times, until arbitration is not lost |
| FirmwareModule.Firmware.I2cByteOut | firmware/smbusb_firmware.c:177-191 | a byte goes out; true exactly if it is acknowledged; a hung bus is released |
| FirmwareModule.Firmware.I2cByteIn | firmware/smbusb_firmware.c:193-246 | bus, engine and result are those of one byte received, for every slave, with STOP and a result of 0 after a timeout |
| FirmwareModule.Firmware.SendByte | firmware/smbusb_firmware.c:284-303 | address and command as one write transaction; nothing but the lost START attempts if the bus cannot be had |
| FirmwareModule.Firmware.WriteByte | firmware/smbusb_firmware.c:346-371 | address, command, one byte and the PEC of these if enabled, as one write transaction |
| FirmwareModule.Firmware.WriteWord | firmware/smbusb_firmware.c:419-446 | the same with two bytes |
| FirmwareModule.Firmware.ReadByte | firmware/smbusb_firmware.c:304-344 | bus, engine, reply, result and failure flag for every slave; the opening on the bus is START, address, command, repeated START, read address; if one of them is not to be had the command fails with STOP, and flag and endpoint memory are as before |
| FirmwareModule.Firmware.ReadWord | firmware/smbusb_firmware.c:373-417 | the same with two bytes |
| BlockRead.FixedReadExact | firmware/smbusb_firmware.c:304-417 | for every slave: one that is not addressed makes the read fail with STOP, without data and without a mismatch; otherwise it fails exactly if the PEC is wrong, and that is a mismatch |
| BlockRead.FixedReadStream | firmware/smbusb_firmware.c:304-417 | from a slave that answers: the next bytes of its stream and the PEC if it is on, the last of all refused, STOP, and once more after a wrong PEC; success depends on the PEC alone |
| FirmwareModule.Firmware.StoreFirst | firmware/smbusb_firmware.c:557-566 | length and 63 bytes of a long block are kept |
| FirmwareModule.Firmware.StoreMore | firmware/smbusb_firmware.c:569-578 | up to 64 further bytes are appended to what is kept |
| FirmwareModule.Firmware.WriteBlock | firmware/smbusb_firmware.c:549-646 | one packet does to the store what the specification of reassembly says, and a complete frame goes out as one transaction with its PEC; the store is emptied exactly if that succeeds |
| BlockWrite.LongFrame | firmware/smbusb_firmware.c:549-646 | a long frame, p bytes of which have arrived, ends as one transaction, for every slave |
| BlockWrite.PacketsInvisible | lib/smbusb-fx2lp.c:285-328 | a frame of 0 to 63 or at least 65 data bytes is one transaction whatever the slave does, and leaves the store empty if it succeeds |
| BlockWrite.SixtyFour | firmware/smbusb_firmware.c:557 | a frame of 64 data bytes never works, on a bus where all goes well: there is more on the bus than the transaction, or something is left in the store |
| BlockWrite.OneTransactionUnless64 | firmware/smbusb_firmware.c:557 | on such a bus the packets come out as one transaction with nothing left behind if and only if the length is not 64 |
| BlockWrite.PacketFits | firmware/smbusb_firmware.c:95 | every packet of a frame of at most 192 data bytes fits temp, also when a block of that size was left over |
| BlockWrite.LeftoverResent | firmware/smbusb_firmware.c:568-641 | a block that was refused goes out again with the next packet, whatever that holds |
| BlockWrite.RetryBegins | firmware/smbusb_firmware.c:568-641 | whatever the slave does, what a retry puts on the bus begins with the old block |
| BlockWrite.RetryIff | firmware/smbusb_firmware.c:553-641 | on a bus where all goes well from then on, a retry is the one transaction asked for, with nothing left behind, if and only if its length is not 64 and nothing was left over or more than 5 ticks have passed |
| BlockWrite.RefusedOnce | firmware/smbusb_firmware.c:635-641 | there is a slave that refuses a long block and acknowledges everything after it, for every such block |
| Fx2lp.SendPacket | lib/smbusb-fx2lp.c:296-303 | one control transfer that comes in time does what the specification of a packet says |
| Fx2lp.WriteBlock | lib/smbusb-fx2lp.c:285-328 | host loop and firmware together, with nothing or a refused block left over: bus, store and endpoint memory end as the specification of the packets says; if nothing is left over, or it has expired, and the length is not 64, that is one transaction with PEC, the result is the length exactly if it succeeds, and then the store is empty; a long block that fails stays in it |
| Fx2lp.WriteTwice | lib/smbusb-fx2lp.c:285-328 | a long block that fails and another block after it, on the firmware: if it comes in time it begins with the old block, and on a bus where all goes well from then on it is the transaction asked for if and only if its length is not 64 and it comes late |
| FirmwareModule.Firmware.NextOfBlock | firmware/smbusb_firmware.c:505-515 | each turn of the receive loop takes the next byte of the block, keeps it, folds it into the PEC, or keeps it as the received PEC |
| FirmwareModule.Firmware.GetBlock | firmware/smbusb_firmware.c:487-528 | the whole loop comes to what the specification of a block read collects, for every slave, and keeps 64 bytes in EP0BUF and the rest in temp, of which nothing else changes |
| FirmwareModule.Firmware.FetchBlock | firmware/smbusb_firmware.c:476-545 | a block read from the slave, for every slave: the opening on the bus, bus, engine, outcome, bytes kept in EP0BUF and temp, store, failure flag; if the slave is not addressed the read fails, nothing is kept or flagged, and STOP is sent unless START was lost five times |
| FirmwareModule.Firmware.ReturnOutstanding | firmware/smbusb_firmware.c:455-474 | up to 64 bytes kept back come next, and the store is emptied with the last of them |
| FirmwareModule.Firmware.ReadBlock | firmware/smbusb_firmware.c:448-547 | outstanding data come first and in order, without touching the bus, unless they have expired; otherwise the block is read from the slave |
| Reception.TakeStreams | firmware/smbusb_firmware.c:496-516 | what a read takes from a slave that answers is its stream, in order, with the engine one byte ahead, LASTRD set one byte before the last and STOP on the last |
| Reception.TakeAll | firmware/smbusb_firmware.c:496-516 | a whole transfer of n bytes: all of them, only the last refused, and STOP |
| Reception.ByteInOpen | firmware/smbusb_firmware.c:193-246 | a byte leaves the bus held if and only if it was held, the byte is not the last, and every byte that has to be clocked in comes in time |
| BlockRead.FetchedShape | firmware/smbusb_firmware.c:498-504 | for every slave, what arrives is nothing or a length from 1 to 253 and as many data bytes, and only from a slave that was addressed; a read that succeeds with nothing means a length of 254 |
| BlockRead.FetchedExact | firmware/smbusb_firmware.c:476-545 | for every slave: one that is not addressed makes the block read fail, without data and without a mismatch |
| BlockRead.BlockSilent | firmware/smbusb_firmware.c:496-504 | a slave that does not even send a length: STOP twice, and the read fails |
| BlockRead.BlockOddLengths | firmware/smbusb_firmware.c:498-528 | lengths of 0 and 255 are refused with one byte more clocked in; after a length of 254 nothing more is read and no STOP is sent, and the PEC of the header alone decides |
| BlockRead.FetchedOpen | firmware/smbusb_firmware.c:476-545 | for every slave, the bus is held after a block read if and only if the slave announced 254 bytes and sent a byte more, or it could not be had and was held before |
| BlockRead.LengthPlusTwoBytes | firmware/smbusb_firmware.c:487-516 | a block read from a slave that announces a length from 1 to 253: length + 2 bytes are clocked in, only the last is refused and STOP follows it, with PEC on or off; the block is what the slave sent, and success depends on the PEC alone |
| BlockRead.LeftOpenOnlyBy254 | firmware/smbusb_firmware.c:499-503 | once a slave that answers is selected, a block read leaves the bus held if and only if it announces 254 bytes |
| Fx2lp.Request | lib/smbusb-fx2lp.c:244-278 | one control transfer of a block read, for every slave: if nothing is owed it brings the length byte and up to 63 data bytes, and the firmware owes the rest; otherwise, in time, the next up to 64 bytes, without the bus |
| Fx2lp.ReadRest | lib/smbusb-fx2lp.c:262-279 | what the host lacks is what the firmware owes, every request shortens it, and n / 64 requests fetch a payload of n bytes |
| Fx2lp.ReadBlock | lib/smbusb-fx2lp.c:240-283 | host loop and firmware together, for every slave: the host gets exactly the bytes of the block, in order, and the firmware ends idle; or an error exactly if the block read fails, and then the store owes what of a block with a wrong PEC does not fit a packet |
| Fx2lp.ReadAgain | lib/smbusb-fx2lp.c:244-260 | after any first block read, the next one within 5 ticks goes to its own slave if and only if the first has succeeded or has brought at most 64 bytes; otherwise it gets what of the first does not fit a packet, without the bus |
| FirmwareModule.Firmware.Write | firmware/smbusb_firmware.c:649-683 | a partial write: conditions, bytes, PEC and STOP as the flags ask for; the running PEC covers exactly the bytes acknowledged, whether the write succeeds or not |
| Transfer.WriteSplit | lib/smbusb-fx2lp.c:371-399 | a write may be cut anywhere: conditions go with the first part, PEC and STOP with the last, and the running PEC links them, for every slave |
| Transfer.CompleteWrite | firmware/smbusb_firmware.c:649-683 | with START first and STOP after it, a write is an ordinary transaction with the PEC of its bytes, for every slave |
| Transfer.WriteShape | lib/smbusb-fx2lp.c:357-402 | a successful write is the conditions asked for, once, around the bytes, with PEC and STOP once at the end |
| Transfer.PartialWriteExact | firmware/smbusb_firmware.c:649-683 | a partial write for every slave and all flags, in events, failed ones included: STOP follows whatever is not acknowledged |
| Transfer.PartialWriteOpen | firmware/smbusb_firmware.c:649-683 | for every slave, a partial write leaves the bus held if and only if it succeeds, asks for no STOP, and asks for START or a repeated START or has found the bus held |
| Fx2lp.Write | lib/smbusb-fx2lp.c:357-402 | the chunk loop does what a single write of all bytes would do, for every slave, length and combination of conditions; the result is the length exactly if that succeeds |
| FirmwareModule.Firmware.Read | firmware/smbusb_firmware.c:684-719 | a partial read, for every slave: bus and engine, the bytes delivered, the received PEC apart, and the running PEC extended by the bytes delivered |
| Reception.StreamingStep | firmware/smbusb_firmware.c:692-712 | each turn of the loop delivers the next byte and keeps the engine's lookahead in step, across packets |
| Fx2lp.RequestChunk | lib/smbusb-fx2lp.c:418-424 | one control transfer of a read, first or later, last or not, for every slave |
| Fx2lp.Read | lib/smbusb-fx2lp.c:404-448 | the chunk loop, for every slave: bus, engine, buffer and both PECs are those of the chunks one after the other, the first and the last flagged as such; the result is the size of the last packet |
| Fx2lp.ReadStreams | lib/smbusb-fx2lp.c:404-448 | for a slave that answers, these chunks are one read: byte i of the buffer is byte i of the slave's stream, the PEC follows; a read that ends its transfer refuses its last byte if and only if PEC is on, or the length is 1, or the length modulo 64 is not 1 |
| Fx2lp.ReadTwice | lib/smbusb-fx2lp.c:414-416 | two reads in a row, for all lengths and every slave: the second goes on where the first has left bus and engine; with a slave that answers they deliver what one read would if and only if the slave only repeats itself from there on (for a first read of one byte: if the slave goes on after a refusal) |
| Transfer.SecondReadSkips | lib/smbusb-fx2lp.c:414-416 | the second read begins one byte too late |
| Transfer.ContiguousIff | lib/smbusb-fx2lp.c:414-416 | the exact condition for two reads to make one |
| Transfer.NeverContiguous | lib/README.md:139-141 | with a slave that counts, no two reads of any lengths make one |
| Fx2lp.GetArbPec | lib/smbusb-fx2lp.c:450-464 | running and received PEC in the two low bytes, and 0xFFFF above them exactly if the received PEC is 128 or more, otherwise 0 |
| Fx2lp.PecsAgree | lib/smbusb-fx2lp.c:450-464 | running and received PEC are equal if and only if the bytes received complete the message to one with a valid PEC |
| PecNotes.WriteKeeps | firmware/smbusb_firmware.c:652-667 | a write keeps the running PEC that of the acknowledged bytes since it was last cleared |
| PecNotes.ReadKeeps | firmware/smbusb_firmware.c:697-704 | so does a read, for the bytes delivered |
| PecNotes.ChunksMerge | firmware/smbusb_firmware.c:658-668 | chunk boundaries and repeated STARTs leave no trace in what the running PEC covers |
| FirmwareModule.Firmware.EnablePec | firmware/smbusb_firmware.c:258-267 | switching PEC off clears both PECs |
| FirmwareModule.Firmware.GetClearPecFail | firmware/smbusb_firmware.c:721-733 | the answer is the flag, which is down afterwards |
| FirmwareModule.Firmware.GetMrqPecs | firmware/smbusb_firmware.c:759-769 | running and received PEC are returned |
| FirmwareModule.Firmware.ResetInterface | firmware/smbusb_firmware.c:770-775 | STOP, empty store, both PECs cleared |
| FirmwareModule.Firmware.TestAddressAck | firmware/smbusb_firmware.c:776-789 | 0xFF exactly if the address is acknowledged; STOP in any case |
| FirmwareModule.Firmware.TestCommandAck | firmware/smbusb_firmware.c:791-807 | 0xFF exactly if address and command are acknowledged; STOP in any case |
| FirmwareModule.Firmware.TestCommandWrite | firmware/smbusb_firmware.c:808-831 | level 0, 0, 1, 2, 3, 3, 4 or 5 if 0 to 7 of address, command, 3, 0, 0, 0, 0 are acknowledged; STOP in any case |
| Probing.ProbeExact | firmware/smbusb_firmware.c:776-831 | a probe for every slave, in events: the bytes up to the first that is not acknowledged, and STOP; only five lost STARTs are not followed by STOP |
| FirmwareModule.Firmware.HandleVendorCommand | firmware/smbusb_firmware.c:249-840 | every command, for every slave: result, bus, engine, notes and reply as `EffectOf` says, PEC setting, store, tick counter and endpoint memory as `Leaves` says (both spelt out by command code in the `CommandTable` rows); the buffer invariant and the meaning of PEC and flag are kept; the bus is held afterwards if the command holds it, and otherwise only if it was held before |
| CommandTable.ShortWrites | firmware/smbusb_firmware.c:284-446 | 0x12, 0x11 and 0x21 for every slave: address, command and none, one or two bytes of EP0BUF are one write transaction, with the PEC of all these if it is on, but never for 0x12 |
| CommandTable.SendByteSent | firmware/smbusb_firmware.c:284-303 | 0x12 on a bus where all goes well: START, address, command, STOP |
| CommandTable.WriteByteSent | firmware/smbusb_firmware.c:346-371 | 0x11 on such a bus: START, address, command, one byte, the PEC if it is on, STOP |
| CommandTable.WriteWordSent | firmware/smbusb_firmware.c:419-446 | 0x21 on such a bus: START, address, command, two bytes, the first of EP0BUF first, the PEC if it is on, STOP |
| CommandTable.ShortReads | firmware/smbusb_firmware.c:304-417 | 0x10 and 0x20 for every slave: not addressed means failure with STOP, no note and no reply; otherwise success depends on the PEC alone, and the reply is the data |
| CommandTable.ShortReadsStream | firmware/smbusb_firmware.c:304-417 | the same from a slave that answers, event by event |
| CommandTable.BlockReads | firmware/smbusb_firmware.c:448-545 | 0x30 for every slave: bytes kept back for up to 5 ticks come without the bus; not addressed means failure, no note and no reply |
| CommandTable.BlockReadsStream | firmware/smbusb_firmware.c:487-528 | 0x30 from a slave that answers with a length from 1 to 253, event by event; the reply is the first 64 bytes at most of length and data |
| CommandTable.ReadsRefused | firmware/smbusb_firmware.c:304-545 | 0x10, 0x20 and 0x30 by the answers of the slave: five lost STARTs, or the first of address, command and read address that is not acknowledged, is the end of the read, with STOP (a second one if the bus hung; none for 0x30 after five lost STARTs), and the command fails without note and reply |
| CommandTable.BlockBegins | firmware/smbusb_firmware.c:549-646 | 0x32 with nothing kept, or only what is older than 5 ticks: a first byte above 64 puts nothing on the bus, any other makes the packet one transaction with PEC |
| CommandTable.BlockGoesOn | firmware/smbusb_firmware.c:568-641 | 0x32 otherwise: what is kept and up to 64 further bytes, as one transaction with PEC as soon as they are as many as announced |
| CommandTable.PartialWrites | firmware/smbusb_firmware.c:649-683 | 0x50 for every slave and all flags, in events: what is sent around the bytes, what becomes of a byte or a PEC that is not acknowledged, and what is noted for the running PEC |
| CommandTable.PartialReads | firmware/smbusb_firmware.c:684-719 | 0x51 for every slave and all flags: the bytes taken, one more for the PEC with the last packet, the reply, and what is noted for the running PEC |
| CommandTable.Probes | firmware/smbusb_firmware.c:776-831 | 0x90, 0x91 and 0x92 for every slave, in events, with their replies |
| CommandTable.Settings | firmware/smbusb_firmware.c:258-775 | 0x05, 0x54 and 0x61: reply, notes, and the STOP of 0x61 |
| CommandTable.Queries | firmware/smbusb_firmware.c:268-769 | 0x55, 0x66, 0x67, 0x98 and 0x99 leave bus and notes alone; the parts of their replies that are known from outside |
| CommandTable.Unknown | firmware/smbusb_firmware.c:833-837 | every other code is refused and does nothing |
| CommandTable.Left | firmware/smbusb_firmware.c:249-840 | what a command leaves: PEC setting (0x05), store (empty after 0x61), endpoint memory |
| CommandTable.LeftByBlockWrite | firmware/smbusb_firmware.c:549-646 | the store after 0x32: 63 bytes of a long block, more of it, or nothing once it was sent; a block that was refused stays |
| CommandTable.LeftByBlockRead | firmware/smbusb_firmware.c:448-545 | the store after 0x30: what is owed is 64 bytes less, or gone with the last of them; a new block leaves what exceeds 64 bytes |
| FirmwareModule.Firmware.Session | firmware/smbusb_firmware.c:127-134 | any run of commands, data stages and ticks has a log in which every command finds what the one before has left, with data stage and ticks added, and leaves what it should (`IsRun`); a bus held in the end was held from the start or since a command of the run that found it free and holds it; the failure flag is up exactly if a read of the run had a wrong PEC with no query since, or it was up before and never queried |
| Commands.CommandReleases | firmware/smbusb_firmware.c:249-840 | for every slave: a command after which a free bus is held is a partial write with START or a repeated START that succeeds without STOP, or a block read of announced length 254, and after these it is held |
| Runs.HeldSince | firmware/smbusb_firmware.c:249-840 | over every run: a bus that was free and is held has been held ever since a command that found it free and holds it |
| Runs.FlagOfRun | firmware/smbusb_firmware.c:721-728 | over every run: the failure flag tells of a mismatch since the last query |
| Runs.FlagTells | lib/README.md:116 | after the last read of a run, not followed by a query, the flag tells of that read if and only if its PEC was wrong or the flag was down when it came |
| Runs.QueriesSuffice | lib/README.md:116 | if the flag is queried between any two reads it always tells of the last |
| Runs.StickyFlag | lib/README.md:116 | a run of two reads after which the flag is up though the PEC of the last was right |
| Runs.PecOfRun | firmware/smbusb_firmware.c:652-667 | over every run: the running PEC is that of all bytes acknowledged or delivered by partial transfers since it was last cleared, by START, a reset or switching PEC off |
| Recovery.WriteBlockRecovers | firmware/smbusb_firmware.c:553-555 | two devices, one with any leftovers that have expired and one idle, answer a block write with the same bus history, result and store |
| Recovery.ReadBlockRecovers | firmware/smbusb_firmware.c:451-453 | the same for a block read: bus, engine, result, store, the length of the reply and the reply itself |
| I2cdev.WriteBlock | lib/smbusb-i2cdev.c:414-442 | the message of a block write, as a transaction |
| I2cdev.BlockWritesAgree | lib/smbusb-i2cdev.c:414-442 | the block write of the FX2LP driver, packets and firmware included, and that of this driver, with PEC off: the same for every slave if the address is even and the length not 64; on a bus where all goes well, the same with nothing left behind if and only if so |
| I2cdev.TakesOfSend | lib/smbusb-i2cdev.c:647-660 | a slave that takes the first d bytes of a write takes the smaller of d and the length |
| I2cdev.TestCommandWrite | lib/smbusb-i2cdev.c:622-663 | probing with longer and longer messages finds the level the firmware finds in one, for every number of bytes the slave takes |
| Strtok.StrtokR | lib/smbusb.c:158 | the tokeniser cuts off the first token by writing one terminator, and token and rest are the strings they should be |
| OptDictModule.SplitItem | lib/smbusb.c:170-183 | the inner tokeniser leaves key and value of an item in place, puts separators back, and touches no cell outside the item |
| OptDictModule.OptDictProcess | lib/smbusb.c:145-186 | for every text: as many items as tokens, each pointing to the key and the value the token stands for, although both tokenisers write into the same buffer |
| OptDictModule.KeyValue | lib/smbusb.c:170-183 | of key=value the key comes back always, and the value if and only if its separators are isolated |
| OptDictModule.ValueUpTo | lib/smbusb.c:170-183 | what comes back of any value is what lies between its leading separators and the first separator that is doubled or at the end |
| OptDictModule.PairsComeBack | lib/smbusb.c:145-186 | so it is for any list of pairs joined by commas |
| Strtok.TokensOfJoin | lib/smbusb.c:157-160 | texts joined by a delimiter, empty ones included, fall into those that are not empty |
| IntelHex.ParseHexLine | lib/fxloader.c:31-60 | true only for lines that read as a record, and then the record; of a line that reads as a record, the record, and true if and only if all its bytes, checksum included, add up to 0 modulo 256 |
| IntelHex.SumConcat | lib/fxloader.c:49-58 | the sum of two pieces is the sum of their sums |
| IntelHex.SumOfOne | lib/fxloader.c:49-58 | a single byte adds itself, and nothing adds 0 |
| IntelHex.EndOfFileLine | lib/fxloader.c:31-60 | the end-of-file record `:00000001FF` is accepted |
| IntelHex.DataLine | lib/fxloader.c:31-60 | a data record of the standard is accepted with its address and its bytes, in upper or lower case |
| IntelHex.LineReads | lib/fxloader.c:31-60 | a printed record of any address, type and up to 255 data bytes reads back, whatever follows on the line |
| IntelHex.AlteredRefused | lib/fxloader.c:58-59 | a line in which one byte of address, type, data or checksum was altered is refused |
| FxLoader.Upload | lib/fxloader.c:84-123 | for a file of lines that read as records, with any checksums: reset held, the data records before the first end-of-file record in order, reset released; a prefix of that if a transfer fails |
| FxLoader.DataWritesOfOne | lib/fxloader.c:106-113 | a record of type 0 asks for its bytes at its address; no other asks for anything |
| FxLoader.DataWritesConcat | lib/fxloader.c:103-116 | what records before the end-of-file record ask for comes one after the other |
| FxLoader.AfterEndOfFile | lib/fxloader.c:103-116 | what follows the end-of-file record asks for nothing |
| FxLoader.LastWriteWins | lib/fxloader.c:104-112 | a RAM cell holds what the last record that covers it put there |
| FxLoader.PrintedFile | lib/fxloader.c:84-123 | a file printed from records is one that reads as these records |
| R2j240.WriteRam | tools/smbusb_r2j240flasher.c:175-245 | the write loop replaces exactly the range written, byte for byte, or a prefix of it if a transfer fails; one transfer for every 26 bytes |
| R2j240.ReadRam | tools/smbusb_r2j240flasher.c:106-172 | the read loop returns exactly the range, or a prefix of it; one transfer for every 64 bytes |
| R2j240.WriteThenRead | tools/smbusb_r2j240flasher.c:106-245 | what was written is read back |
| R2j240.FixChecksum | tools/smbusb_r2j240flasher.c:502-508 | the sum of all words is 0 modulo 2^32 and every other word is unchanged |
| R2j240.SumWordsConcat | tools/smbusb_r2j240flasher.c:502-508 | the sum of two pieces is the sum of their sums |
| R2j240.SumWordsOfOne | tools/smbusb_r2j240flasher.c:502-508 | a single word adds itself, and nothing adds 0 |
| Bq8030.WriteProgramBlock | tools/smbusb_bq8030flasher.c:86-97 | a program block is one transaction of the two bytes of its number, low byte first, and its 96 bytes, by way of two packets; below 65536 these are the bytes it is later asked for by |
| Bq8030.SetBlockAddress | tools/smbusb_bq8030flasher.c:70-79 | the block address is one transaction of three bytes; on success the bus has START, 0x16, 0, 3, these bytes (`Bq8030.LowFirst`), the PEC if it is on, STOP |
| Bq8030.LowFirst | tools/smbusb_bq8030flasher.c:74-76 | three bytes that make up any number below 2^24, the lowest first |
| Bq8030.ReadProgramBlock | tools/smbusb_bq8030flasher.c:70-84 | address set and block read, or an error exactly if one of them fails; the bus it leaves; on success the three bytes sent make up the block number, and address 0x16 and command 2 follow them |
| Bq8030.VerifyProgram | tools/smbusb_bq8030flasher.c:362-379 | the verify pass succeeds if and only if the chip answers every block number, asked for in this order on this bus, with the block of the file; each block was asked for by the number of its place in the file |

## Left out

* The I2C engine is an environment assumption, from its data sheet: besides what is said above, LASTRD clears itself with
  the byte it refuses, and STOP reads as set right after it was set. Delays and the length of waits are not modelled.
* EP0BUF is modelled with the 64 bytes that follow it in the endpoint memory: a block write of 64 bytes reads one of them.
* Block writes of more than 192 bytes write behind `temp`; they are excluded (`FirmwareModule.Firmware.Admissible`), as are
  partial transfers of more than 64 bytes in one packet.
* A block read of 254 bytes is modelled in the firmware; the host's reaction to it depends on leftover memory and is
  excluded in `Fx2lp.ReadBlock`.
* Fx2lp.ReadStreams: for slaves that answer in time, and an engine without a LASTRD left over from a byte that never came;
  otherwise a read is its chunks, one after the other (`Transfer.ReadChunks`), and may miss bytes between them.
* FirmwareModule.Firmware.Session: the log does not tie the endpoint memory behind a reply, the bytes in temp that the host
  has yet to fetch, nor the tick counter after a wait for the bus.
* Recovery.ReadBlockRecovers: says nothing about the reply to a length of 254, which is leftover memory. An old transfer
  counts as recent again when the 16-bit tick counter has wrapped.
* `SMBWrite` and `SMBRead` with length 0 return an uninitialised variable.
* IntelHex.ParseHexLine: numbers are runs of hexadecimal digits; white space, signs and 0x, which `sscanf` also takes, are not
  modelled, nor are the up to three bytes that `sscanf` writes behind a data byte.
* FxLoader.Upload: the initial value of `code`, uninitialised in the source, is a parameter; if it is 1 nothing is uploaded.
* R2j240.FixChecksum: the block is an array of words; up to three bytes behind the last whole word are not part of it.
* I2cdev.TestCommandWrite: slaves are those that take a fixed number of bytes of every write.
* Bq8030.VerifyProgram: the same numbers of ticks pass before the packets of every block. With PEC off, a chip that announces
  254 bytes is excluded, as in `Fx2lp.ReadBlock`; with PEC on, as the flasher sets it, no chip is.
* A control transfer succeeds or is refused; the host's 100 ms limit on it is not modelled.
* The kernel's I2C interface ends a message at the first byte that is not acknowledged and sends STOP; the block read of that
  driver always asks for 65 bytes and is not comparable.
* Memory allocation failures, USB descriptors and interrupts, device opening, `ioctl`, files, option parsing of the tools.
* The M37512 flasher: the same chunk argument as for the R2J240, with fixed chunks. Blank checks, EEPROM passes, the
  scan, report and comm tools: no further property to prove.
