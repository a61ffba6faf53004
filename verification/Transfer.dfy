/** Arbitrary transfers: what the flags of a partial write or read ask for on the bus. */
module Transfer {
  import opened Bytes
  import opened Pec
  import opened Wire
  import opened Reception

  // SMB_WRITE_CMD_START_FIRST, SMB_WRITE_CMD_RESTART_FIRST, SMB_WRITE_CMD_STOP_AFTER
  predicate StartFirst(flags: word) {
    flags % 2 == 1
  }

  predicate RestartFirst(flags: word) {
    flags / 2 % 2 == 1
  }

  predicate StopAfter(flags: word) {
    flags / 4 % 2 == 1
  }

  // The running PEC a write starts from.
  function BasePec(flags: word, pec: bool, mrqPec: byte): byte {
    if StartFirst(flags) && pec then 0 else mrqPec
  }

  // The conditions asked for before the first byte.
  function Opening(s: Slave, h: History, flags: word): Result {
    var up := if StartFirst(flags) then StartUp(s, h, 0) else Result(h, true);
    if up.ok && RestartFirst(flags) then Result(up.wire + [Restart], true) else up
  }

  // PEC and STOP after the last byte.
  function Closing(s: Slave, h: History, flags: word, pec: bool, mrqPec: byte): Result {
    if !StopAfter(flags) then Result(h, true)
    else
      var p := if pec then Put(s, h, mrqPec) else Result(h, true);
      Result(p.wire + [Stop], p.ok)
  }

  // A write of any number of bytes: the bus is released as soon as something fails.
  function PartialWrite(s: Slave, h: History, flags: word, bytes: seq<byte>, pec: bool, mrqPec: byte): Result {
    var up := Opening(s, h, flags);
    if !up.ok then Result(up.wire + [Stop], false)
    else
      var r := Send(s, up.wire, bytes);
      if r.sent < |bytes| then Result(r.wire + [Stop], false)
      else Closing(s, r.wire, flags, pec, CrcFrom(BasePec(flags, pec, mrqPec), bytes))
  }

  // How many bytes of a write are acknowledged.
  function PartlySent(s: Slave, h: History, flags: word, bytes: seq<byte>): (n: nat)
    ensures n <= |bytes|
  {
    var up := Opening(s, h, flags);
    if up.ok then Send(s, up.wire, bytes).sent else 0
  }

  // The running PEC after a write.
  function PecAfterWrite(flags: word, pec: bool, mrqPec: byte, bytes: seq<byte>): byte {
    if pec then CrcFrom(BasePec(flags, pec, mrqPec), bytes) else mrqPec
  }

  function WriteFlags(start: bool, restart: bool, stop: bool): (flags: word)
    ensures StartFirst(flags) == start && RestartFirst(flags) == restart && StopAfter(flags) == stop
  {
    (if start then 1 else 0) + (if restart then 2 else 0) + if stop then 4 else 0
  }

  // A write may be cut anywhere: the conditions go with the first part, PEC and STOP with the
  // last, and the running PEC links them.
  lemma WriteSplit(s: Slave, h: History, start: bool, restart: bool, stop: bool, x: seq<byte>, y: seq<byte>, pec: bool,
      mrqPec: byte)
    ensures var front := PartialWrite(s, h, WriteFlags(start, restart, false), x, pec, mrqPec);
      PartialWrite(s, h, WriteFlags(start, restart, stop), x + y, pec, mrqPec) ==
        if !front.ok then front
        else PartialWrite(s, front.wire, WriteFlags(false, false, stop), y, pec,
               PecAfterWrite(WriteFlags(start, restart, false), pec, mrqPec, x))
  {
    var up := Opening(s, h, WriteFlags(start, restart, stop));
    assert up == Opening(s, h, WriteFlags(start, restart, false));
    if up.ok {
      if Send(s, up.wire, x).sent < |x| {
        SendPrefixStuck(s, up.wire, x, y, x + y);
      } else {
        SendConcat(s, up.wire, x, y);
        CrcConcat(BasePec(WriteFlags(start, restart, stop), pec, mrqPec), x, y);
      }
    }
  }

  lemma PecAfterWriteSplit(start: bool, restart: bool, stop: bool, x: seq<byte>, y: seq<byte>, pec: bool, mrqPec: byte)
    ensures PecAfterWrite(WriteFlags(start, restart, stop), pec, mrqPec, x + y) ==
      PecAfterWrite(WriteFlags(false, false, stop), pec,
        PecAfterWrite(WriteFlags(start, restart, false), pec, mrqPec, x), y)
  {
    CrcConcat(BasePec(WriteFlags(start, restart, stop), pec, mrqPec), x, y);
  }

  // With START first and STOP after it, a write is an ordinary transaction, PEC included,
  // whatever the slave does.
  lemma CompleteWrite(s: Slave, h: History, bytes: seq<byte>, pec: bool, mrqPec: byte)
    ensures PartialWrite(s, h, WriteFlags(true, false, true), bytes, pec, mrqPec) ==
      WriteTransaction(s, h, WithPec(pec, bytes))
  {
  }

  // What the conditions asked for look like on the bus, after some lost arbitrations.
  function OpeningEvents(lost: nat, start: bool, restart: bool): History {
    LostStarts(lost) + (if start then [Start] else []) + if restart then [Restart] else []
  }

  function ClosingEvents(stop: bool, pec: bool, code: byte): History {
    if !stop then [] else if pec then [Tx(code, Acked), Stop] else [Stop]
  }

  lemma OpeningShape(s: Slave, h: History, start: bool, restart: bool, stop: bool) returns (lost: nat)
    requires Opening(s, h, WriteFlags(start, restart, stop)).ok
    ensures lost < I2C_MAX_RETRIES && (!start ==> lost == 0)
    ensures Opening(s, h, WriteFlags(start, restart, stop)).wire == h + OpeningEvents(lost, start, restart)
  {
    lost := 0;
    if start {
      lost := StartUpShape(s, h, 0);
    }
  }

  lemma ClosingShape(s: Slave, h: History, start: bool, restart: bool, stop: bool, pec: bool, code: byte)
    requires Closing(s, h, WriteFlags(start, restart, stop), pec, code).ok
    ensures Closing(s, h, WriteFlags(start, restart, stop), pec, code).wire == h + ClosingEvents(stop, pec, code)
  {
  }

  // A write that succeeds is the conditions asked for, once, around the bytes.
  lemma WriteShape(s: Slave, h: History, start: bool, restart: bool, stop: bool, bytes: seq<byte>, pec: bool,
      mrqPec: byte)
      returns (lost: nat)
    requires PartialWrite(s, h, WriteFlags(start, restart, stop), bytes, pec, mrqPec).ok
    ensures lost < I2C_MAX_RETRIES && (!start ==> lost == 0)
    ensures PartialWrite(s, h, WriteFlags(start, restart, stop), bytes, pec, mrqPec).wire ==
      h + OpeningEvents(lost, start, restart) + AckedBytes(bytes) +
      ClosingEvents(stop, pec, CrcFrom(BasePec(WriteFlags(start, restart, stop), pec, mrqPec), bytes))
  {
    var flags := WriteFlags(start, restart, stop);
    lost := OpeningShape(s, h, start, restart, stop);
    var up := Opening(s, h, flags);
    SendComplete(s, up.wire, bytes);
    ClosingShape(s, Send(s, up.wire, bytes).wire, start, restart, stop, pec,
      CrcFrom(BasePec(flags, pec, mrqPec), bytes));
  }

  // ----- The same event by event

  // The bus once the conditions asked for have been sent.
  function Opened(s: Slave, h: History, flags: word): History {
    h + (if flags % 2 == 1 then LostStarts(Losses(s, h, 0)) + [Start] else [])
      + (if flags / 2 % 2 == 1 then [Restart] else [])
  }

  lemma OpeningExact(s: Slave, h: History, flags: word)
    ensures Opening(s, h, flags) ==
      if flags % 2 == 1 && Losses(s, h, 0) == 5 then Result(h + LostStarts(5), false)
      else Result(Opened(s, h, flags), true)
  {
    StartUpExact(s, h);
  }

  // The end of a write whose bytes are all acknowledged.
  function Ending(s: Slave, g: History, stop: bool, pec: bool, code: byte): Result {
    if !stop then Result(g, true)
    else if !pec then Result(g + [Stop], true)
    else if s.answer(g, code) == Acked then Result(g + [Tx(code, Acked), Stop], true)
    else Result(g + Refusal(s, g, code) + [Stop], false)
  }

  lemma ClosingExact(s: Slave, g: History, flags: word, pec: bool, code: byte)
    ensures Closing(s, g, flags, pec, code) == Ending(s, g, flags / 4 % 2 == 1, pec, code)
  {
  }

  // A partial write for every slave: n bytes are acknowledged, and STOP follows in any case if
  // that is not all of them.
  lemma PartialWriteExact(s: Slave, h: History, flags: word, bytes: seq<byte>, pec: bool, mrqPec: byte)
      returns (n: nat)
    ensures n <= |bytes|
    ensures var r, g := PartialWrite(s, h, flags, bytes, pec, mrqPec), Opened(s, h, flags) + AckedBytes(bytes[..n]);
      if flags % 2 == 1 && Losses(s, h, 0) == 5 then n == 0 && r == Result(h + LostStarts(5) + [Stop], false)
      else
        && AcksFirst(s, Opened(s, h, flags), bytes, n)
        && (n < |bytes| ==> s.answer(g, bytes[n]) != Acked)
        && if n < |bytes| then r == Result(g + Refusal(s, g, bytes[n]) + [Stop], false)
           else
             r == Ending(s, g, flags / 4 % 2 == 1, pec, CrcFrom(if flags % 2 == 1 && pec then 0 else mrqPec, bytes))
    ensures n == PartlySent(s, h, flags, bytes)
  {
    OpeningExact(s, h, flags);
    n := PartlySent(s, h, flags, bytes);
    SendExact(s, Opened(s, h, flags), bytes);
    assert bytes[..|bytes|] == bytes;
    ClosingExact(s, Opened(s, h, flags) + AckedBytes(bytes), flags, pec, CrcFrom(BasePec(flags, pec, mrqPec), bytes));
  }

  lemma {:induction false} SendOpen(s: Slave, h: History, bytes: seq<byte>)
    requires Send(s, h, bytes).sent == |bytes|
    ensures Open(Send(s, h, bytes).wire) == Open(h)
  {
    if bytes != [] {
      var k := |bytes| - 1;
      SendOpen(s, h, bytes[..k]);
      var r := Send(s, h, bytes[..k]);
      assert Send(s, h, bytes).wire == r.wire + [Tx(bytes[k], Acked)] + [] == r.wire + [Tx(bytes[k], Acked)];
      OpenClosed(r.wire, Tx(bytes[k], Acked));
    }
  }

  lemma OpeningOpen(s: Slave, h: History, flags: word)
    requires Opening(s, h, flags).ok
    ensures Open(Opening(s, h, flags).wire) <==> StartFirst(flags) || RestartFirst(flags) || Open(h)
  {
    StartUpOpen(s, h, 0);
    OpenClosed(StartUp(s, h, 0).wire, Restart);
    OpenClosed(h, Restart);
  }

  lemma PutOpen(s: Slave, h: History, b: byte)
    ensures !Open(Put(s, h, b).wire + [Stop])
  {
    OpenClosed(Put(s, h, b).wire, Stop);
  }

  // A write leaves the bus held exactly if it succeeds, asks for no STOP, and has held the bus
  // itself or found it held.
  lemma PartialWriteOpen(s: Slave, h: History, flags: word, bytes: seq<byte>, pec: bool, mrqPec: byte)
    ensures var r := PartialWrite(s, h, flags, bytes, pec, mrqPec);
      Open(r.wire) <==> r.ok && !StopAfter(flags) && (StartFirst(flags) || RestartFirst(flags) || Open(h))
  {
    var up := Opening(s, h, flags);
    OpenClosed(up.wire, Stop);
    if up.ok {
      OpeningOpen(s, h, flags);
      var r := Send(s, up.wire, bytes);
      OpenClosed(r.wire, Stop);
      if r.sent == |bytes| {
        SendOpen(s, up.wire, bytes);
        PutOpen(s, r.wire, CrcFrom(BasePec(flags, pec, mrqPec), bytes));
      }
    }
  }

  // SMB_READ_CMD_FIRST_READ, SMB_READ_CMD_LAST_READ
  predicate FirstRead(flags: word) {
    flags % 2 == 1
  }

  predicate LastRead(flags: word) {
    flags / 2 % 2 == 1
  }

  function ReadFlags(first: bool, last: bool): (flags: word)
    ensures FirstRead(flags) == first && LastRead(flags) == last
  {
    (if first then 1 else 0) + if last then 2 else 0
  }

  // The PEC is read along with the last bytes.
  function ReadLength(n: nat, flags: word, pec: bool): nat {
    if pec && LastRead(flags) then n + 1 else n
  }

  // A read of n bytes.
  function PartialRead(s: Slave, e: Engine, flags: word, n: nat, pec: bool): (t: Taken)
    ensures |t.got| == ReadLength(n, flags, pec)
  {
    Take(s, e, FirstRead(flags), LastRead(flags), ReadLength(n, flags, pec), ReadLength(n, flags, pec))
  }

  function PecThrough(crc: byte, bytes: seq<byte>, pec: bool): byte {
    if pec then CrcFrom(crc, bytes) else crc
  }

  // The running PEC, crc before, over the first n of the bytes got.
  function RunningPec(crc: byte, got: seq<byte>, n: nat, pec: bool): byte {
    if pec then CrcFrom(crc, got[..Min(|got|, n)]) else crc
  }

  lemma RunningPecStep(crc: byte, got: seq<byte>, b: byte, n: nat, pec: bool)
    requires |got| <= n
    ensures RunningPec(crc, got + [b], n, pec) ==
      if pec && |got| < n then Crc8(RunningPec(crc, got, n, pec), b) else RunningPec(crc, got, n, pec)
  {
    if |got| < n {
      assert got[..|got|] == got && (got + [b])[..|got| + 1] == got + [b];
      CrcSnoc(crc, got, b);
    } else {
      assert (got + [b])[..n] == got[..n];
    }
  }

  // ----- Reads in chunks of 64

  // Whether the last byte of a chunked read is refused: not if it is alone in a chunk that
  // is not the first.
  predicate EndRefused(len: nat, pec: bool) {
    pec || len == 1 || len % 64 != 1
  }

  // The bus after a read of len bytes.
  predicate Ended(s: Slave, e: Engine, h: History, len: nat, last: bool, pec: bool)
    requires len > 0
  {
    if last then
      !e.lastrd && e.wire == h + Reads(Stream(s, h, if pec then len + 1 else len), EndRefused(len, pec)) + [Stop]
    else if len == 1 then
      !e.lastrd && e.wire == ReadEnd(s, h, 0, true, false, 1)
    else
      Reading(s, e, h, len + 1, false)
  }

  // The size of the chunk that ends after at bytes.
  function ChunkTo(at: nat): (n: nat)
    requires at > 0
    ensures 0 < n <= 64 && n <= at && (at - n) % 64 == 0
  {
    if at % 64 == 0 then 64 else at % 64
  }

  lemma ChunkAfter(k: nat, n: nat)
    requires k % 64 == 0 && 0 < n <= 64
    ensures ChunkTo(k + n) == n
  {
  }

  // The first at bytes of a read of len bytes in chunks, whatever the slave does, with the PEC
  // behind them if it is on and the read ends its transfer with them.
  function ReadChunks(s: Slave, e: Engine, last: bool, len: nat, pec: bool, at: nat): (t: Taken)
    ensures |t.got| >= at && (at < len || !last || !pec ==> |t.got| == at)
  {
    if at == 0 then Taken(e, [])
    else
      var n := ChunkTo(at);
      ChunkOnto(s, ReadChunks(s, e, last, len, pec, at - n), at == n, last && at == len, n, pec)
  }

  // One more chunk.
  function ChunkOnto(s: Slave, t: Taken, first: bool, last: bool, n: nat, pec: bool): (r: Taken)
    ensures |r.got| == |t.got| + ReadLength(n, ReadFlags(first, last), pec)
  {
    var chunk := PartialRead(s, t.e, ReadFlags(first, last), n, pec);
    Taken(chunk.e, t.got + chunk.got)
  }

  // t has been read and got delivered; the running PEC was crc before.
  predicate ReadSoFar(t: Taken, e: Engine, got: seq<byte>, pec: bool, crc: byte, mrqPec: byte, rcvPec: byte) {
    && e == t.e && |got| <= |t.got| && got == t.got[..|got|]
    && (|t.got| > |got| ==> rcvPec == t.got[|got|])
    && mrqPec == PecThrough(crc, got, pec)
  }

  lemma PecOnto(crc: byte, got: seq<byte>, tmp: seq<byte>, pec: bool)
    ensures PecThrough(crc, got + tmp, pec) == PecThrough(PecThrough(crc, got, pec), tmp, pec)
  {
    CrcConcat(crc, got, tmp);
  }

  lemma FrontOf(got: seq<byte>, chunk: seq<byte>, n: nat)
    requires n <= |chunk|
    ensures got + chunk[..n] == (got + chunk)[..|got| + n]
    ensures |chunk| > n ==> (got + chunk)[|got| + n] == chunk[n]
  {
  }

  lemma ReadSoFarStep(s: Slave, t: Taken, got: seq<byte>, first: bool, last: bool, pec: bool, crc: byte,
      mrqPec: byte, rcvPec: byte, n: nat, tmp: seq<byte>, rcvPec': byte)
    requires ReadSoFar(t, t.e, got, pec, crc, mrqPec, rcvPec) && |t.got| == |got|
    requires var chunk := PartialRead(s, t.e, ReadFlags(first, last), n, pec);
      tmp == chunk.got[..n] && (|chunk.got| > n ==> rcvPec' == chunk.got[n])
    ensures var r := ChunkOnto(s, t, first, last, n, pec);
      ReadSoFar(r, r.e, got + tmp, pec, crc, PecThrough(mrqPec, tmp, pec), rcvPec')
  {
    assert t.got == got;
    FrontOf(got, PartialRead(s, t.e, ReadFlags(first, last), n, pec).got, n);
    PecOnto(crc, got, tmp, pec);
  }

  lemma RefusedAtEnd(k: nat, n: nat, pec: bool)
    requires k % 64 == 0 && 0 < n <= 64
    ensures EndRefused(k + n, pec) == Refused(k == 0, if pec then n + 1 else n)
  {
  }

  lemma ChunksEnd(s: Slave, e: Engine, h: History, k: nat, n: nat, len: nat, last: bool, pec: bool)
    requires k % 64 == 0 && 0 < n <= 64 && len == k + n
    requires var j := if pec && last then n + 1 else n; Streaming(s, e, h, k, k == 0, last, j, j)
    ensures Ended(s, e, h, len, last, pec)
  {
    RefusedAtEnd(k, n, pec);
  }

  lemma StreamExtend(s: Slave, h: History, k: nat, j: nat)
    ensures Stream(s, h, k) + Window(Stream(s, h, k + j), k, j) == Stream(s, h, k + j)
  {
    StreamPrefix(s, h, k, k + j);
  }

  // What has come from a slave that answers is its stream.
  predicate Streamed(s: Slave, t: Taken, h: History, at: nat, len: nat, last: bool, pec: bool)
    requires at <= len && len > 0
  {
    && t.got == Stream(s, h, |t.got|)
    && if at < len then Reading(s, t.e, h, if at == 0 then 0 else at + 1, false) else Ended(s, t.e, h, len, last, pec)
  }

  // A chunk that is not the last, and the last one.
  lemma ChunkStreams(s: Slave, t: Taken, h: History, at: nat, len: nat, last: bool, pec: bool)
    requires s.Responsive() && at % 64 == 0 && at + 64 < len && |t.got| == at && Streamed(s, t, h, at, len, last, pec)
    ensures Streamed(s, ChunkOnto(s, t, at == 0, false, 64, pec), h, at + 64, len, last, pec)
  {
    TakeStreams(s, t.e, h, at, at == 0, false, 64, 64);
    StreamExtend(s, h, at, 64);
  }

  lemma LastChunkStreams(s: Slave, t: Taken, h: History, at: nat, n: nat, len: nat, last: bool, pec: bool)
    requires s.Responsive() && at % 64 == 0 && 0 < n <= 64 && at + n == len && |t.got| == at
    requires Streamed(s, t, h, at, len, last, pec)
    ensures Streamed(s, ChunkOnto(s, t, at == 0, last, n, pec), h, len, len, last, pec)
  {
    var j := ReadLength(n, ReadFlags(at == 0, last), pec);
    TakeStreams(s, t.e, h, at, at == 0, last, j, j);
    StreamExtend(s, h, at, j);
    ChunksEnd(s, PartialRead(s, t.e, ReadFlags(at == 0, last), n, pec).e, h, at, n, len, last, pec);
  }

  lemma {:induction false} ChunksStream(s: Slave, e: Engine, last: bool, len: nat, pec: bool, at: nat)
    requires s.Responsive() && !e.lastrd && len > 0 && at <= len && (at == len || at % 64 == 0)
    ensures Streamed(s, ReadChunks(s, e, last, len, pec, at), e.wire, at, len, last, pec)
  {
    if at == 0 {
      assert e.wire + AckedReads([]) == e.wire;
    } else {
      var n := ChunkTo(at);
      ChunksStream(s, e, last, len, pec, at - n);
      var t := ReadChunks(s, e, last, len, pec, at - n);
      if at < len {
        ChunkStreams(s, t, e.wire, at - n, len, last, pec);
      } else {
        LastChunkStreams(s, t, e.wire, at - n, n, len, last, pec);
      }
    }
  }

  // When a read ends its transfer, the last byte clocked in (the PEC if it is on) is refused
  // exactly if PEC is on, or the length is 1, or it does not leave one byte for the last chunk.
  lemma LastByteRefused(s: Slave, e: Engine, h: History, len: nat, pec: bool)
    requires len > 0 && Ended(s, e, h, len, true, pec)
    ensures var all := Stream(s, h, if pec then len + 1 else len);
      && (e.wire == h + AckedReads(all) + [Stop] || e.wire == h + FinalReads(all) + [Stop])
      && (e.wire == h + FinalReads(all) + [Stop] <==> pec || len == 1 || len % 64 != 1)
  {
    var all := Stream(s, h, if pec then len + 1 else len);
    var k := |h| + |all| - 1;
    assert (h + AckedReads(all) + [Stop])[k] != (h + FinalReads(all) + [Stop])[k];
  }

  // ----- Two reads in a row

  // The bus after a read of len bytes that does not end the transfer: a byte has been clocked
  // in ahead, and the byte before it is refused if it was asked for alone.
  function Resumed(s: Slave, h: History, len: nat): History
    requires len > 0
  {
    if len == 1 then ReadEnd(s, h, 0, true, false, 1) else h + AckedReads(Stream(s, h, len + 1))
  }

  lemma ResumedAt(s: Slave, e: Engine, h: History, len: nat, pec: bool)
    requires len > 0 && Ended(s, e, h, len, false, pec)
    ensures e.wire == Resumed(s, h, len) && !e.lastrd
  {
  }

  // The slave goes on sending when a byte has been refused, as if it had not been.
  ghost predicate IgnoresRefusal(s: Slave) {
    forall h: History, b: byte, e: History :: s.next(h + [Rx(b, false)] + e) == s.next(h + [Rx(b, true)] + e)
  }

  lemma {:induction false} RefusalIgnored(s: Slave, h: History, b: byte, e: History, n: nat)
    requires IgnoresRefusal(s)
    ensures Stream(s, h + [Rx(b, false)] + e, n) == Stream(s, h + [Rx(b, true)] + e, n)
  {
    if n > 0 {
      RefusalIgnored(s, h, b, e, n - 1);
      var more := AckedReads(Stream(s, h + [Rx(b, true)] + e, n - 1));
      assert forall ack :: h + [Rx(b, ack)] + e + more == h + [Rx(b, ack)] + (e + more);
    }
  }

  lemma ResumedAfterOne(s: Slave, h: History, n: nat)
    requires IgnoresRefusal(s)
    ensures Stream(s, Resumed(s, h, 1), n) == Stream(s, h + AckedReads(Stream(s, h, 2)), n)
  {
    var a := NextByte(s, h + AckedReads([]));
    assert h + AckedReads([]) == h && Stream(s, h, 0) == [];
    assert Stream(s, h, 1) == [a];
    assert FinalReads([a]) == [Rx(a, false)] && AckedReads([a]) == [Rx(a, true)];
    assert h + [Rx(a, false)] + [] == h + [Rx(a, false)] && h + [Rx(a, true)] + [] == h + [Rx(a, true)];
    var b := NextByte(s, h + [Rx(a, true)]);
    assert AckedReads(Stream(s, h, 2)) == [Rx(a, true), Rx(b, true)];
    RefusalIgnored(s, h, a, [Rx(b, true)], n);
    assert h + [Rx(a, true)] + [Rx(b, true)] == h + [Rx(a, true), Rx(b, true)];
  }

  // The second read throws away the byte that the first has clocked in ahead.
  lemma SecondReadSkips(s: Slave, h: History, len: nat, more: nat)
    requires len > 1 || (len == 1 && IgnoresRefusal(s))
    ensures Stream(s, Resumed(s, h, len), more) == Stream(s, h, len + 1 + more)[len + 1..]
  {
    if len == 1 {
      ResumedAfterOne(s, h, more);
    }
    StreamShift(s, h, len + 1, more);
  }

  // Whether two reads deliver what one would.
  predicate Contiguous(s: Slave, h: History, len: nat, more: nat)
    requires len > 0
  {
    Stream(s, h, len) + Stream(s, Resumed(s, h, len), more) == Stream(s, h, len + more)
  }

  // All bytes from position from on are the same.
  predicate Constant(bytes: seq<byte>, from: nat) {
    forall i | from <= i < |bytes| - 1 :: bytes[i] == bytes[i + 1]
  }

  // Byte len and the bytes after it are all the same.
  predicate Repeating(s: Slave, h: History, len: nat, more: nat) {
    Constant(Stream(s, h, len + 1 + more), len)
  }

  lemma ContiguousParts(s: Slave, h: History, len: nat, more: nat)
    requires len > 1 || (len == 1 && IgnoresRefusal(s))
    ensures var sent := Stream(s, h, len + 1 + more);
      && Stream(s, h, len) == sent[..len] && Stream(s, Resumed(s, h, len), more) == sent[len + 1..]
      && Stream(s, h, len + more) == sent[..len + more]
  {
    SecondReadSkips(s, h, len, more);
    StreamPrefix(s, h, len, len + 1 + more);
    StreamPrefix(s, h, len + more, len + 1 + more);
  }

  // They do exactly if the slave sends nothing but repetitions from then on.
  lemma ContiguousIff(s: Slave, h: History, len: nat, more: nat)
    requires len > 1 || (len == 1 && IgnoresRefusal(s))
    ensures Contiguous(s, h, len, more) <==> Repeating(s, h, len, more)
  {
    var sent := Stream(s, h, len + 1 + more);
    ContiguousParts(s, h, len, more);
    SkippingRepeats(sent, len, more, Stream(s, h, len), Stream(s, Resumed(s, h, len), more), Stream(s, h, len + more));
  }

  lemma SkippingRepeats(sent: seq<byte>, len: nat, more: nat, first: seq<byte>, second: seq<byte>, all: seq<byte>)
    requires |sent| == len + 1 + more
    requires first == sent[..len] && second == sent[len + 1..] && all == sent[..len + more]
    ensures first + second == all <==> Constant(sent, len)
  {
    if first + second == all {
      forall i | len <= i < len + more
        ensures sent[i] == sent[i + 1]
      {
        assert all[i] == (first + second)[i];
      }
    }
  }

  // A slave that sends the number of events before each byte.
  ghost predicate Counting(s: Slave) {
    forall g :: s.next(g) == Some(|g| % 0x100)
  }

  lemma Counted(s: Slave, h: History, i: nat, n: nat)
    requires i < n && Counting(s)
    ensures Stream(s, h, n)[i] == (|h| + i) % 0x100
  {
    StreamAt(s, h, i, n);
    assert |h + AckedReads(Stream(s, h, i))| == |h| + i;
  }

  lemma CountingIgnoresRefusal(s: Slave)
    requires Counting(s)
    ensures IgnoresRefusal(s)
  {
    forall h: History, b: byte, e: History
      ensures s.next(h + [Rx(b, false)] + e) == s.next(h + [Rx(b, true)] + e)
    {
      assert |h + [Rx(b, false)] + e| == |h + [Rx(b, true)] + e|;
    }
  }

  lemma NeverRepeating(s: Slave, h: History, len: nat, more: nat)
    requires Counting(s) && more > 0
    ensures !Repeating(s, h, len, more)
  {
    var sent := Stream(s, h, len + 1 + more);
    Counted(s, h, len, len + 1 + more);
    Counted(s, h, len + 1, len + 1 + more);
    assert sent[len] != sent[len + 1];
  }

  // It is never read contiguously, whatever the two lengths.
  lemma NeverContiguous(s: Slave, h: History, len: nat, more: nat)
    requires Counting(s) && len > 0 && more > 0
    ensures !Contiguous(s, h, len, more)
  {
    CountingIgnoresRefusal(s);
    NeverRepeating(s, h, len, more);
    ContiguousIff(s, h, len, more);
  }

  lemma CountingSlave() returns (s: Slave)
    ensures s.Responsive() && s.Obliging([]) && Counting(s)
  {
    s := Slave(_ => false, (_, _) => Acked, (g: History) => Some(|g| % 0x100));
  }
}
