/**
 * Every vendor command by its code: what it puts on the bus, event by event, and what it
 * answers and leaves.
 */
module CommandTable {
  import opened Bytes
  import opened Pec
  import opened Wire
  import opened Reception
  import opened BlockBuffer
  import opened BlockRead
  import opened Transfer
  import opened PecNotes
  import opened Probing
  import opened Commands

  // ----- Writes of no byte, a byte or a word

  // For every slave: address, command, data and PEC are one write transaction; the command that
  // sends no data sends no PEC either, and no STOP if START was lost five times.
  lemma ShortWrites(s: Slave, a: Situation, address: word, command: word)
    requires a.Valid()
    ensures var lost := Result(a.bus.wire + LostStarts(5), false);
      EffectOf(s, a, 0x12, address, command) == OnBus(a.bus,
        if Losses(s, a.bus.wire, 0) == 5 then lost
        else WriteTransaction(s, a.bus.wire, [address % 0x100, command % 0x100]))
    ensures var bytes := [address % 0x100, command % 0x100, a.ep0[0]];
      EffectOf(s, a, 0x11, address, command) ==
        OnBus(a.bus, WriteTransaction(s, a.bus.wire, if a.pec then bytes + [PecOf(bytes)] else bytes))
    ensures var bytes := [address % 0x100, command % 0x100, a.ep0[0], a.ep0[1]];
      EffectOf(s, a, 0x21, address, command) ==
        OnBus(a.bus, WriteTransaction(s, a.bus.wire, if a.pec then bytes + [PecOf(bytes)] else bytes))
  {
    StartUpExact(s, a.bus.wire);
  }

  // A transaction on a bus where all goes well.
  lemma Sent(s: Slave, h: History, bytes: seq<byte>, pec: bool)
    requires s.Obliging(h)
    ensures WriteTransaction(s, h, if pec then bytes + [PecOf(bytes)] else bytes) ==
      Result(h + [Start] + AckedBytes(bytes) + (if pec then [Tx(PecOf(bytes), Acked)] else []) + [Stop], true)
    ensures Losses(s, h, 0) == 0
  {
    assert h + LostStarts(0) == h;
    var all := if pec then bytes + [PecOf(bytes)] else bytes;
    WriteTransactionObliging(s, h, all);
    assert AckedBytes(all) == AckedBytes(bytes) + if pec then [Tx(PecOf(bytes), Acked)] else [];
  }

  // On such a bus.
  lemma SendByteSent(s: Slave, a: Situation, address: word, command: word)
    requires a.Valid() && s.Obliging(a.bus.wire)
    ensures EffectOf(s, a, 0x12, address, command) == Effect(
      a.bus.(wire := a.bus.wire + [Start] + [Tx(address % 0x100, Acked), Tx(command % 0x100, Acked)] + [Stop]),
      true, [], [])
  {
    var bytes := [address % 0x100, command % 0x100];
    ShortWrites(s, a, address, command);
    Sent(s, a.bus.wire, bytes, false);
    var wire := a.bus.wire + [Start] + AckedBytes(bytes);
    assert wire + [] == wire && AckedBytes(bytes) == [Tx(bytes[0], Acked), Tx(bytes[1], Acked)];
  }

  lemma WriteByteSent(s: Slave, a: Situation, address: word, command: word)
    requires a.Valid() && s.Obliging(a.bus.wire)
    ensures var code := PecOf([address % 0x100, command % 0x100, a.ep0[0]]);
      EffectOf(s, a, 0x11, address, command) == Effect(a.bus.(wire := a.bus.wire +
        [Start] + [Tx(address % 0x100, Acked), Tx(command % 0x100, Acked), Tx(a.ep0[0], Acked)] +
        (if a.pec then [Tx(code, Acked)] else []) + [Stop]), true, [], [])
  {
    var bytes := [address % 0x100, command % 0x100, a.ep0[0]];
    ShortWrites(s, a, address, command);
    Sent(s, a.bus.wire, bytes, a.pec);
    assert AckedBytes(bytes) == [Tx(bytes[0], Acked), Tx(bytes[1], Acked), Tx(bytes[2], Acked)];
  }

  lemma WriteWordSent(s: Slave, a: Situation, address: word, command: word)
    requires a.Valid() && s.Obliging(a.bus.wire)
    ensures var code := PecOf([address % 0x100, command % 0x100, a.ep0[0], a.ep0[1]]);
      EffectOf(s, a, 0x21, address, command) == Effect(a.bus.(wire := a.bus.wire +
        [Start] + [Tx(address % 0x100, Acked), Tx(command % 0x100, Acked), Tx(a.ep0[0], Acked), Tx(a.ep0[1], Acked)] +
        (if a.pec then [Tx(code, Acked)] else []) + [Stop]), true, [], [])
  {
    var bytes := [address % 0x100, command % 0x100, a.ep0[0], a.ep0[1]];
    ShortWrites(s, a, address, command);
    Sent(s, a.bus.wire, bytes, a.pec);
    assert AckedBytes(bytes) == [Tx(bytes[0], Acked), Tx(bytes[1], Acked), Tx(bytes[2], Acked), Tx(bytes[3], Acked)];
  }

  // ----- Reads of a byte, a word or a block

  // A byte (0x10) or a word (0x20) for every slave: one that is not addressed makes the command
  // fail with STOP, no note and no answer; otherwise the PEC alone decides.
  lemma ShortReads(s: Slave, a: Situation, cmd: byte, address: word, command: word)
    requires a.Valid() && (cmd == 0x10 || cmd == 0x20)
    ensures var header := [address % 0x100, command % 0x100, (address + 1) % 0x100];
      var o, n := EffectOf(s, a, cmd, address, command), if cmd == 0x10 then 1 else 2;
      if !Addressed(s, a.bus.wire, header) then
        o == Effect(a.bus.(wire := RefusedBus(s, a.bus.wire, header) + [Stop]), false, [], [])
      else
        var j := if a.pec then n + 1 else n;
        var t := Take(s, a.bus.(wire := AddressedBus(s, a.bus.wire, header)), true, true, j, j);
        && (o.ok <==> (a.pec ==> PecOf(header + t.got[..n]) == t.got[n]))
        && o == if o.ok then Effect(t.e, true, [], t.got[..n]) else Effect(Halted(t.e), false, [Mismatch], [])
  {
    FixedReadExact(s, a.bus, a.pec, HeaderOf(address, command), if cmd == 0x10 then 1 else 2);
  }

  // The same from a slave that answers, on a bus where every byte is acknowledged, up to the
  // last event.
  lemma ShortReadsStream(s: Slave, a: Situation, cmd: byte, address: word, command: word)
    requires a.Valid() && (cmd == 0x10 || cmd == 0x20)
    requires s.Responsive() && s.Obliging(a.bus.wire) && !a.bus.lastrd
    ensures var x, y, z := address % 0x100, command % 0x100, (address + 1) % 0x100;
      var h := a.bus.wire + [Start, Tx(x, Acked), Tx(y, Acked), Restart, Tx(z, Acked)];
      var o, n := EffectOf(s, a, cmd, address, command), if cmd == 0x10 then 1 else 2;
      var got := Stream(s, h, if a.pec then n + 1 else n);
      && (o.ok <==> (a.pec ==> PecOf([x, y, z] + got[..n]) == got[n]))
      && o.bus.wire == h + FinalReads(got) + (if o.ok then [Stop] else [Stop, Stop])
      && o.notes == (if o.ok then [] else [Mismatch]) && o.reply == if o.ok then got[..n] else []
  {
    var header := HeaderOf(address, command);
    ObligingAddressed(s, a.bus.wire, header);
    FixedReadStream(s, a.bus, a.pec, header, if cmd == 0x10 then 1 else 2);
  }

  // Bytes kept back by an earlier block read and not yet expired.
  predicate KeptBack(a: Situation) {
    a.store.len > |a.store.stored| && a.count <= 5
  }

  // A block (0x30): what is kept back comes without the bus, and a slave that is not addressed
  // makes the command fail without a note or an answer.
  lemma BlockReads(s: Slave, a: Situation, address: word, command: word)
    requires a.Valid()
    ensures var header := [address % 0x100, command % 0x100, (address + 1) % 0x100];
      var o, stop := EffectOf(s, a, 0x30, address, command), if Losses(s, a.bus.wire, 0) == 5 then [] else [Stop];
      if KeptBack(a) then o == Effect(a.bus, true, [], [])
      else if Addressed(s, a.bus.wire, header) then
        o == OfFetch(Collected(s, a.bus.(wire := AddressedBus(s, a.bus.wire, header)), a.pec, header))
      else o == Effect(a.bus.(wire := RefusedBus(s, a.bus.wire, header) + stop), false, [], [])
  {
    FetchedExact(s, a.bus, a.pec, HeaderOf(address, command));
  }

  // From a slave that answers, on a bus where every byte is acknowledged: for a length n from 1
  // to 253, length, data and a byte that is the PEC; 64 bytes of them at most are the answer.
  lemma BlockReadsStream(s: Slave, a: Situation, address: word, command: word)
    requires a.Valid() && s.Responsive() && s.Obliging(a.bus.wire) && !a.bus.lastrd && !KeptBack(a)
    ensures var x, y, z := address % 0x100, command % 0x100, (address + 1) % 0x100;
      var h := a.bus.wire + [Start, Tx(x, Acked), Tx(y, Acked), Restart, Tx(z, Acked)];
      var o, n := EffectOf(s, a, 0x30, address, command), ByteAt(s, h, 0);
      0 < n <= 253 ==>
        var block, code := Stream(s, h, n + 1), ByteAt(s, h, n + 1);
        && (o.ok <==> (a.pec ==> PecOf([x, y, z] + block) == code))
        && o.bus.wire == h + AckedReads(block) + [Rx(code, false), Stop]
        && o.notes == (if o.ok then [] else [Mismatch])
        && o.reply == if !o.ok then [] else if n < 64 then block else block[..64]
  {
    var header := HeaderOf(address, command);
    ObligingAddressed(s, a.bus.wire, header);
    if 0 < ByteAt(s, AddressedBus(s, a.bus.wire, header), 0) <= 253 {
      LengthPlusTwoBytes(s, a.bus, a.pec, header);
    }
  }

  // All three when START, address, command or read address is not to be had, by the answers of the
  // slave.
  lemma ReadsRefused(s: Slave, a: Situation, cmd: byte, address: word, command: word)
    requires a.Valid() && (cmd == 0x10 || cmd == 0x20 || (cmd == 0x30 && !KeptBack(a)))
    ensures var x, y, z, lost := address % 0x100, command % 0x100, (address + 1) % 0x100, Losses(s, a.bus.wire, 0);
      var g := a.bus.wire + LostStarts(lost) + [Start];
      var first, second := s.answer(g, x), s.answer(g + [Tx(x, Acked)], y);
      var third := s.answer(g + [Tx(x, Acked), Tx(y, Acked), Restart], z);
      var wire :=
        if lost == 5 then a.bus.wire + LostStarts(5) + if cmd == 0x30 then [] else [Stop]
        else if first != Acked then g + [Tx(x, first)] + if first == Hung then [Stop, Stop] else [Stop]
        else if second != Acked then g + [Tx(x, Acked), Tx(y, second)] + if second == Hung then [Stop, Stop] else [Stop]
        else g + [Tx(x, Acked), Tx(y, Acked), Restart, Tx(z, third)] + if third == Hung then [Stop, Stop] else [Stop];
      lost == 5 || first != Acked || second != Acked || third != Acked ==>
        EffectOf(s, a, cmd, address, command) == Effect(a.bus.(wire := wire), false, [], [])
  {
    if cmd == 0x30 {
      BlockReads(s, a, address, command);
    } else {
      ShortReads(s, a, cmd, address, command);
    }
    RefusedEvents(s, a.bus.wire, [address % 0x100, command % 0x100, (address + 1) % 0x100]);
    assert a.bus.wire + LostStarts(5) + [] == a.bus.wire + LostStarts(5);
  }

  lemma RefusedEvents(s: Slave, h: History, header: seq<byte>)
    requires |header| == 3
    ensures var x, y, z, lost := header[0], header[1], header[2], Losses(s, h, 0);
      var g := h + LostStarts(lost) + [Start];
      var first, second := s.answer(g, x), s.answer(g + [Tx(x, Acked)], y);
      var third := s.answer(g + [Tx(x, Acked), Tx(y, Acked), Restart], z);
      var wire :=
        if lost == 5 then h + LostStarts(5) + [Stop]
        else if first != Acked then g + [Tx(x, first)] + if first == Hung then [Stop, Stop] else [Stop]
        else if second != Acked then g + [Tx(x, Acked), Tx(y, second)] + if second == Hung then [Stop, Stop] else [Stop]
        else g + [Tx(x, Acked), Tx(y, Acked), Restart, Tx(z, third)] + if third == Hung then [Stop, Stop] else [Stop];
      && (Addressed(s, h, header) <==> lost != 5 && first == Acked && second == Acked && third == Acked)
      && (!Addressed(s, h, header) ==> RefusedBus(s, h, header) + [Stop] == wire)
  {
  }

  // ----- Writes of a block

  // A packet of a block (0x32) when nothing is kept, or what was kept has expired: a whole block,
  // or the beginning of a long one.
  lemma BlockBegins(s: Slave, a: Situation, address: word, command: word)
    requires a.Valid() && (a.store.len == 0 || a.count > 5)
    ensures var o, n := EffectOf(s, a, 0x32, address, command), a.ep0[0];
      if n > 64 then o == Effect(a.bus, true, [], [])
      else
        var bytes := [address % 0x100, command % 0x100] + a.ep0[..1 + n];
        o == OnBus(a.bus, WriteTransaction(s, a.bus.wire, if a.pec then bytes + [PecOf(bytes)] else bytes))
  {
  }

  // A packet that goes on with what is kept, and completes it or not.
  lemma BlockGoesOn(s: Slave, a: Situation, address: word, command: word)
    requires a.Valid() && a.store.len > 0 && a.count <= 5
    ensures var o, n := EffectOf(s, a, 0x32, address, command), Min(a.store.len - |a.store.stored|, 64);
      var data := a.store.stored + a.ep0[..n];
      if |data| != a.store.len then o == Effect(a.bus, true, [], [])
      else
        var bytes := [address % 0x100, command % 0x100] + ([a.store.len as byte] + data);
        o == OnBus(a.bus, WriteTransaction(s, a.bus.wire, if a.pec then bytes + [PecOf(bytes)] else bytes))
  {
  }

  // ----- Arbitrary transfers

  lemma PartialWriteEffect(s: Slave, a: Situation, n: word, flags: word)
    requires a.Valid() && n <= 64
    ensures var h, bytes := a.bus.wire, a.ep0[..n];
      var r, sent := PartialWrite(s, h, flags, bytes, a.pec, a.mrqPec), PartlySent(s, h, flags, bytes);
      var notes := (if flags % 2 == 1 then [Cleared] else []) + [Folded(bytes[..sent])];
      EffectOf(s, a, 0x50, n, flags) == Effect(a.bus.(wire := r.wire), r.ok, if a.pec then notes else [], [])
  {
  }

  // A write (0x50) with flags for START (1), a repeated START (2) and STOP (4).
  lemma PartialWrites(s: Slave, a: Situation, n: word, flags: word) returns (sent: nat)
    requires a.Valid() && n <= 64
    ensures sent <= n
    ensures var o, h, bytes, lost := EffectOf(s, a, 0x50, n, flags), a.bus.wire, a.ep0[..n], Losses(s, a.bus.wire, 0);
      var ready := h + (if flags % 2 == 1 then LostStarts(lost) + [Start] else []) +
        (if flags / 2 % 2 == 1 then [Restart] else []);
      var g := ready + AckedBytes(bytes[..sent]);
      var code := CrcFrom(if flags % 2 == 1 && a.pec then 0 else a.mrqPec, bytes);
      var r :=
        if flags % 2 == 1 && lost == 5 then Result(h + LostStarts(5) + [Stop], false)
        else if sent < n then Result(g + Refusal(s, g, bytes[sent]) + [Stop], false)
        else Ending(s, g, flags / 4 % 2 == 1, a.pec, code);
      var notes := (if flags % 2 == 1 then [Cleared] else []) + [Folded(bytes[..sent])];
      && o == Effect(a.bus.(wire := r.wire), r.ok, if a.pec then notes else [], [])
      && if flags % 2 == 1 && lost == 5 then sent == 0
         else AcksFirst(s, ready, bytes, sent) && (sent < n ==> s.answer(g, bytes[sent]) != Acked)
  {
    PartialWriteEffect(s, a, n, flags);
    sent := PartialWriteExact(s, a.bus.wire, flags, a.ep0[..n], a.pec, a.mrqPec);
  }

  // A read (0x51) with flags for the first packet (1) and the last (2) of a transfer.
  lemma PartialReads(s: Slave, a: Situation, n: word, flags: word)
    requires a.Valid() && n <= 64
    ensures var j := if a.pec && flags / 2 % 2 == 1 then n + 1 else n;
      var t := Take(s, a.bus, flags % 2 == 1, flags / 2 % 2 == 1, j, j);
      EffectOf(s, a, 0x51, n, flags) == Effect(t.e, true, if a.pec then [Folded(t.got[..n])] else [], t.got[..n])
  {
  }

  // ----- Probes

  lemma ProbeBytes(s: Slave, a: Situation, cmd: byte, address: word, command: word)
    requires a.Valid() && 0x90 <= cmd <= 0x92
    ensures var x, y := address % 0x100, command % 0x100;
      var bytes := if cmd == 0x90 then [x] else if cmd == 0x91 then [x, y] else [x, y, 3, 0, 0, 0, 0];
      var probe, ok := Probe(s, a.bus.wire, bytes), StartUp(s, a.bus.wire, 0).ok;
      && probe.sent <= 7
      && EffectOf(s, a, cmd, address, command) ==
         Effect(a.bus.(wire := probe.wire), ok, [], if ok then [Level(cmd, probe.sent)] else [])
  {
  }

  // The address (0x90), the command (0x91), or a write of five bytes (0x92), for every slave;
  // sent bytes of it are acknowledged.
  lemma Probes(s: Slave, a: Situation, cmd: byte, address: word, command: word) returns (sent: nat)
    requires a.Valid() && 0x90 <= cmd <= 0x92
    ensures sent <= 7
    ensures var x, y := address % 0x100, command % 0x100;
      var bytes := if cmd == 0x90 then [x] else if cmd == 0x91 then [x, y] else [x, y, 3, 0, 0, 0, 0];
      var start := a.bus.wire + LostStarts(Losses(s, a.bus.wire, 0)) + [Start];
      var o := EffectOf(s, a, cmd, address, command);
      && sent <= |bytes|
      && if Losses(s, a.bus.wire, 0) == 5 then o == Effect(a.bus.(wire := a.bus.wire + LostStarts(5)), false, [], [])
         else
           var g := start + AckedBytes(bytes[..sent]);
           && AcksFirst(s, start, bytes, sent) && (sent < |bytes| ==> s.answer(g, bytes[sent]) != Acked)
           && o.bus == a.bus.(wire := g + (if sent < |bytes| then Refusal(s, g, bytes[sent]) else []) + [Stop])
           && o.ok && o.notes == [] && o.reply ==
              [if cmd == 0x92 then [0, 0, 1, 2, 3, 3, 4, 5][sent] else if sent == |bytes| then 0xFF else 0]
  {
    var x, y := address % 0x100, command % 0x100;
    var bytes := if cmd == 0x90 then [x] else if cmd == 0x91 then [x, y] else [x, y, 3, 0, 0, 0, 0];
    ProbeBytes(s, a, cmd, address, command);
    sent := ProbeExact(s, a.bus.wire, bytes);
    StartUpExact(s, a.bus.wire);
  }

  // ----- Commands that do not use the bus

  lemma Settings(s: Slave, a: Situation, address: word, command: word)
    requires a.Valid()
    ensures EffectOf(s, a, 0x05, address, command) == Effect(a.bus, true, if address == 0 then [Cleared] else [], [])
    ensures EffectOf(s, a, 0x54, address, command) ==
      Effect(a.bus, true, [Queried], [if Failed(a.notes) then 0xFF else 0])
    ensures EffectOf(s, a, 0x61, address, command) ==
      Effect(a.bus.(wire := a.bus.wire + [Stop]), true, [Cleared], [])
  {
  }

  lemma Queries(s: Slave, a: Situation, cmd: byte, address: word, command: word)
    requires a.Valid() && (cmd == 0x55 || cmd == 0x66 || cmd == 0x67 || cmd == 0x98 || cmd == 0x99)
    ensures EffectOf(s, a, cmd, address, command) == Effect(a.bus, true, [],
      if cmd == 0x55 then [a.mrqPec] else if cmd == 0x66 then []
      else if cmd == 0x67 then [a.count % 0x100, a.count / 0x100 % 0x100]
      else if cmd == 0x98 then [1, 0, 1] else [0x55, 0x53, 0x4D])
  {
  }

  predicate Known(cmd: byte) {
    || cmd == 0x05 || cmd == 0x10 || cmd == 0x11 || cmd == 0x12 || cmd == 0x20 || cmd == 0x21 || cmd == 0x30
    || cmd == 0x32 || cmd == 0x50 || cmd == 0x51 || cmd == 0x54 || cmd == 0x55 || cmd == 0x61 || cmd == 0x66
    || cmd == 0x67 || (0x90 <= cmd <= 0x92) || cmd == 0x98 || cmd == 0x99
  }

  lemma Unknown(s: Slave, a: Situation, cmd: byte, address: word, command: word)
    requires a.Valid() && !Known(cmd)
    ensures EffectOf(s, a, cmd, address, command) == Effect(a.bus, false, [], [])
  {
  }

  // ----- What the commands leave

  // The PEC setting, the store and the endpoint memory after a command other than those of a
  // block.
  lemma Left(s: Slave, a: Situation, cmd: byte, address: word, command: word, b: Situation)
    requires a.Valid() && (cmd == 0x50 || cmd == 0x51 ==> address <= 64)
    requires cmd != 0x30 && cmd != 0x32 && Leaves(s, a, cmd, address, command, b)
    ensures var o := EffectOf(s, a, cmd, address, command);
      && b.bus == o.bus && b.notes == a.notes + o.notes && |o.reply| <= |b.ep0| && b.ep0[..|o.reply|] == o.reply
    ensures b.pec == if cmd == 0x05 then address != 0 else a.pec
    ensures b.store == if cmd == 0x61 then Block(0, []) else a.store
    ensures cmd == 0x05 || cmd == 0x11 || cmd == 0x12 || cmd == 0x21 || cmd == 0x50 || cmd == 0x61 ==> b.ep0 == a.ep0
    ensures !Known(cmd) ==> b == a.(mrqPec := b.mrqPec)
  {
  }

  // After a packet of a block to be written.
  lemma LeftByBlockWrite(s: Slave, a: Situation, address: word, command: word, b: Situation)
    requires a.Valid() && Leaves(s, a, 0x32, address, command, b)
    ensures var o := EffectOf(s, a, 0x32, address, command);
      b.bus == o.bus && b.notes == a.notes && b.pec == a.pec && b.ep0 == a.ep0
    ensures a.store.len == 0 || a.count > 5 ==>
      b.store == if a.ep0[0] > 64 then Block(a.ep0[0], a.ep0[1..64]) else Block(0, [])
    ensures a.store.len > 0 && a.count <= 5 ==>
      var data := a.store.stored + a.ep0[..Min(a.store.len - |a.store.stored|, 64)];
      b.store == if |data| == a.store.len && EffectOf(s, a, 0x32, address, command).ok then Block(0, [])
                 else Block(a.store.len, data)
  {
  }

  // After a block read.
  lemma LeftByBlockRead(s: Slave, a: Situation, address: word, command: word, b: Situation)
    requires a.Valid() && Leaves(s, a, 0x30, address, command, b)
    ensures var o := EffectOf(s, a, 0x30, address, command);
      && b.bus == o.bus && b.notes == a.notes + o.notes && b.pec == a.pec
      && |o.reply| <= |b.ep0| && b.ep0[..|o.reply|] == o.reply
    ensures var owed := a.store.len - |a.store.stored|;
      KeptBack(a) ==>
        && b.count == a.count
        && if owed > 64 then b.store.len == a.store.len && |b.store.stored| == |a.store.stored| + 64
           else b.store == Block(0, [])
    ensures var header := [address % 0x100, command % 0x100, (address + 1) % 0x100];
      var n := |Fetched(s, a.bus, a.pec, header).data|;
      !KeptBack(a) ==>
        if n > 64 then b.store == Block(n - 64, []) && b.count == 0
        else b.store == if a.store.len > 0 && a.count > 5 then Block(0, []) else a.store
  {
  }
}
