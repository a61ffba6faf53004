/**
 * What the firmware has to do for each vendor command: the bus after it, whether it is
 * accepted, and what it means for the running PEC and the PEC failure flag.
 */
module Commands {
  import opened Bytes
  import opened Wire
  import opened Reception
  import opened BlockBuffer
  import opened BlockRead
  import opened Transfer
  import opened PecNotes
  import opened Probing

  const SMB_ENABLE_PEC: byte := 0x05
  const SMB_READ_BYTE: byte := 0x10
  const SMB_WRITE_BYTE: byte := 0x11
  const SMB_SEND_BYTE: byte := 0x12
  const SMB_READ_WORD: byte := 0x20
  const SMB_WRITE_WORD: byte := 0x21
  const SMB_READ_BLOCK: byte := 0x30
  const SMB_WRITE_BLOCK: byte := 0x32
  const SMB_WRITE: byte := 0x50
  const SMB_READ: byte := 0x51
  const SMB_GET_CLEAR_PEC_FAIL: byte := 0x54
  const SMB_GET_MRQ_PECS: byte := 0x55
  const SMB_RESET_INTERFACE: byte := 0x61
  const SMB_SHOW_STORE: byte := 0x66
  const SMB_SHOW_COUNT: byte := 0x67
  const SMB_TEST_ADDRESS_ACK: byte := 0x90
  const SMB_TEST_COMMAND_ACK: byte := 0x91
  const SMB_TEST_COMMAND_WRITE: byte := 0x92
  const SMB_FIRMWARE_VERSION: byte := 0x98
  const SMB_INTERFACE_ID: byte := 0x99

  predicate IsWrite(cmd: byte) {
    cmd in {SMB_SEND_BYTE, SMB_WRITE_BYTE, SMB_WRITE_WORD}
  }

  predicate IsRead(cmd: byte) {
    cmd in {SMB_READ_BYTE, SMB_READ_WORD}
  }

  predicate IsProbe(cmd: byte) {
    cmd in {SMB_TEST_ADDRESS_ACK, SMB_TEST_COMMAND_ACK, SMB_TEST_COMMAND_WRITE}
  }

  predicate IsPartial(cmd: byte) {
    cmd in {SMB_WRITE, SMB_READ}
  }

  predicate IsQuery(cmd: byte) {
    cmd in {SMB_GET_MRQ_PECS, SMB_SHOW_STORE, SMB_SHOW_COUNT, SMB_FIRMWARE_VERSION, SMB_INTERFACE_ID}
  }

  // What a command finds: bus, PEC setting, running PEC, endpoint memory, the store (templen
  // and what lies before tempptr), the tick counter, and the notes so far.
  datatype Situation = Situation(
    bus: Engine, pec: bool, mrqPec: byte, ep0: seq<byte>, store: Block, count: nat, notes: seq<Note>)
  {
    predicate Valid() {
      |ep0| == 2 * PACKET && |store.stored| <= store.len <= 0xFF
    }
  }

  // What the store owes the host.
  function Owed(store: Block): int {
    store.len - |store.stored|
  }

  // reply: what is known of the bytes the host gets.
  datatype Effect = Effect(bus: Engine, ok: bool, notes: seq<Note>, reply: seq<byte>)

  function HeaderOf(address: word, command: word): (header: seq<byte>)
    ensures |header| == 3
  {
    [Low(address), Low(command), Low(address + 1)]
  }

  function OnBus(e: Engine, r: Result): Effect {
    Effect(e.(wire := r.wire), r.ok, [], [])
  }

  function OfWrite(s: Slave, a: Situation, cmd: byte, address: word, command: word): Effect
    requires a.Valid()
  {
    if cmd == SMB_SEND_BYTE then
      var up := StartUp(s, a.bus.wire, 0);
      OnBus(a.bus, if up.ok then WriteTransaction(s, a.bus.wire, [Low(address), Low(command)]) else up)
    else if cmd == SMB_WRITE_BYTE then
      OnBus(a.bus, WriteTransaction(s, a.bus.wire, WithPec(a.pec, [Low(address), Low(command), a.ep0[0]])))
    else
      OnBus(a.bus, WriteTransaction(s, a.bus.wire, WithPec(a.pec, [Low(address), Low(command), a.ep0[0], a.ep0[1]])))
  }

  function OfFetch(f: Fetch): Effect {
    Effect(f.bus, f.ok, ReadNotes(f.mismatch), if f.ok then Head(f.data) else [])
  }

  function OfRead(s: Slave, e: Engine, pec: bool, cmd: byte, address: word, command: word): Effect {
    OfFetch(FixedRead(s, e, pec, HeaderOf(address, command), if cmd == SMB_READ_BYTE then 1 else 2))
  }

  // What is still owed from an earlier block comes without the bus.  store is what the pause
  // before the command has left of it.
  function OfReadBlock(s: Slave, e: Engine, pec: bool, store: Block, address: word, command: word): Effect {
    if Owed(store) > 0 then Effect(e, true, [], []) else OfFetch(Fetched(s, e, pec, HeaderOf(address, command)))
  }

  // The bus is used once the packet completes a frame.
  function OfWriteBlock(
      s: Slave, e: Engine, pec: bool, store: Block, ep0: seq<byte>, address: word, command: word): Effect
    requires |ep0| == 2 * PACKET && |store.stored| <= store.len <= 0xFF
  {
    match Accept(store, ep0).frame
    case None => Effect(e, true, [], [])
    case Some(frame) => OnBus(e, WriteTransaction(s, e.wire, WithPec(pec, [Low(address), Low(command)] + frame)))
  }

  function OfPartialWrite(s: Slave, e: Engine, flags: word, bytes: seq<byte>, pec: bool, mrqPec: byte): Effect {
    var r := PartialWrite(s, e.wire, flags, bytes, pec, mrqPec);
    Effect(e.(wire := r.wire), r.ok, WriteNotes(flags, pec, bytes[..PartlySent(s, e.wire, flags, bytes)]), [])
  }

  function OfPartialRead(s: Slave, e: Engine, flags: word, n: nat, pec: bool): Effect {
    var t := PartialRead(s, e, flags, n, pec);
    Effect(t.e, true, if pec then [Folded(t.got[..n])] else [], t.got[..n])
  }

  function OfPartial(s: Slave, a: Situation, cmd: byte, address: word, command: word): Effect
    requires a.Valid() && address <= PACKET
  {
    if cmd == SMB_WRITE then OfPartialWrite(s, a.bus, command, a.ep0[..address], a.pec, a.mrqPec)
    else OfPartialRead(s, a.bus, command, address, a.pec)
  }

  // The bytes of a probe.
  function Probed(cmd: byte, address: word, command: word): seq<byte> {
    if cmd == SMB_TEST_ADDRESS_ACK then [Low(address)]
    else if cmd == SMB_TEST_COMMAND_ACK then [Low(address), Low(command)]
    else [Low(address), Low(command), 3, 0, 0, 0, 0]
  }

  function Level(cmd: byte, sent: nat): byte
    requires sent <= 7
  {
    if cmd == SMB_TEST_ADDRESS_ACK then if sent == 1 then 0xFF else 0
    else if cmd == SMB_TEST_COMMAND_ACK then if sent == 2 then 0xFF else 0
    else WriteLevel(sent)
  }

  function OfProbe(s: Slave, e: Engine, cmd: byte, address: word, command: word): Effect {
    var probe, ok := Probe(s, e.wire, Probed(cmd, address, command)), StartUp(s, e.wire, 0).ok;
    Effect(e.(wire := probe.wire), ok, [], if ok then [Level(cmd, probe.sent)] else [])
  }

  // A transaction of a few bytes.
  function OfShort(s: Slave, a: Situation, cmd: byte, address: word, command: word): Effect
    requires a.Valid()
  {
    if IsWrite(cmd) then OfWrite(s, a, cmd, address, command)
    else if IsRead(cmd) then OfRead(s, a.bus, a.pec, cmd, address, command)
    else OfProbe(s, a.bus, cmd, address, command)
  }

  function OfLocal(a: Situation, cmd: byte, address: word): Effect {
    if cmd == SMB_ENABLE_PEC then Effect(a.bus, true, if address > 0 then [] else [Cleared], [])
    else if cmd == SMB_GET_CLEAR_PEC_FAIL then Effect(a.bus, true, [Queried], [if Failed(a.notes) then 0xFF else 0])
    else if cmd == SMB_RESET_INTERFACE then Effect(Halted(a.bus), true, [Cleared], [])
    else Effect(a.bus, IsQuery(cmd), [], Told(a, cmd))
  }

  // The answers to the queries, as far as the situation has them.
  function Told(a: Situation, cmd: byte): seq<byte> {
    if cmd == SMB_GET_MRQ_PECS then [a.mrqPec]
    else if cmd == SMB_SHOW_COUNT then [a.count % 0x100, a.count / 0x100 % 0x100]
    else if cmd == SMB_FIRMWARE_VERSION then [1, 0, 1]
    else if cmd == SMB_INTERFACE_ID then [0x55, 0x53, 0x4D]
    else []
  }

  // Every command, for every slave.
  function EffectOf(s: Slave, a: Situation, cmd: byte, address: word, command: word): Effect
    requires a.Valid() && (IsPartial(cmd) ==> address <= PACKET)
  {
    var store := AfterPause(a.store, a.count);
    if cmd == SMB_READ_BLOCK then OfReadBlock(s, a.bus, a.pec, store, address, command)
    else if cmd == SMB_WRITE_BLOCK then OfWriteBlock(s, a.bus, a.pec, store, a.ep0, address, command)
    else if IsPartial(cmd) then OfPartial(s, a, cmd, address, command)
    else if IsWrite(cmd) || IsRead(cmd) || IsProbe(cmd) then OfShort(s, a, cmd, address, command)
    else OfLocal(a, cmd, address)
  }

  // ----- What a command leaves to the next

  // The store after SMB_READ_BLOCK.
  predicate ReadStore(s: Slave, e: Engine, pec: bool, store: Block, address: word, command: word, next: Block) {
    if Owed(store) > PACKET then
      next.len == store.len && |next.stored| == |store.stored| + PACKET && store.stored <= next.stored
    else if Owed(store) > 0 then next == EMPTY
    else
      var n := |Fetched(s, e, pec, HeaderOf(address, command)).data|;
      next == if n > PACKET then Block(n - PACKET, []) else store
  }

  // The store after SMB_WRITE_BLOCK.
  function WriteStore(s: Slave, e: Engine, pec: bool, store: Block, ep0: seq<byte>, address: word, command: word): Block
    requires |ep0| == 2 * PACKET && |store.stored| <= store.len <= 0xFF
  {
    var step := Accept(store, ep0);
    if step.frame.Some? && OfWriteBlock(s, e, pec, store, ep0, address, command).ok then EMPTY else step.next
  }

  // The store after a command.
  predicate StoreAfter(s: Slave, a: Situation, cmd: byte, address: word, command: word, next: Block)
    requires a.Valid()
  {
    var store := AfterPause(a.store, a.count);
    if cmd == SMB_READ_BLOCK then ReadStore(s, a.bus, a.pec, store, address, command, next)
    else if cmd == SMB_WRITE_BLOCK then next == WriteStore(s, a.bus, a.pec, store, a.ep0, address, command)
    else if cmd == SMB_RESET_INTERFACE then next == EMPTY
    else next == a.store
  }

  function PecAfter(pec: bool, cmd: byte, address: word): bool {
    if cmd == SMB_ENABLE_PEC then address > 0 else pec
  }

  // The tick counter after a command that has not waited for the bus, or that has started a
  // transfer in several packets; any other leaves it as the last wait did.
  predicate CountAfter(s: Slave, a: Situation, cmd: byte, address: word, command: word, next: nat)
    requires a.Valid()
  {
    var store := AfterPause(a.store, a.count);
    if cmd == SMB_READ_BLOCK then
      if Owed(store) > 0 then next == a.count
      else |Fetched(s, a.bus, a.pec, HeaderOf(address, command)).data| > PACKET ==> next == 0
    else if cmd == SMB_WRITE_BLOCK then
      Accept(store, a.ep0).frame.None? ==> next == if store == EMPTY then 0 else a.count
    else
      IsPartial(cmd) || IsWrite(cmd) || IsRead(cmd) || IsProbe(cmd) || cmd == SMB_RESET_INTERFACE || next == a.count
  }

  // Commands that answer with data; the others leave the endpoint memory alone.
  predicate Replies(cmd: byte) {
    || cmd in {SMB_READ_BLOCK, SMB_READ, SMB_GET_CLEAR_PEC_FAIL}
    || IsRead(cmd) || IsProbe(cmd) || IsQuery(cmd)
  }

  // What a command that finds a leaves behind.
  predicate Leaves(s: Slave, a: Situation, cmd: byte, address: word, command: word, b: Situation)
    requires a.Valid() && (IsPartial(cmd) ==> address <= PACKET)
  {
    var o := EffectOf(s, a, cmd, address, command);
    && b.bus == o.bus && b.notes == a.notes + o.notes && o.reply <= b.ep0
    && b.pec == PecAfter(a.pec, cmd, address)
    && StoreAfter(s, a, cmd, address, command, b.store)
    && CountAfter(s, a, cmd, address, command, b.count)
    && (!Replies(cmd) ==> b.ep0 == a.ep0)
  }

  // What the parts of a command come to.
  lemma ReadBlockLeaves(s: Slave, a: Situation, address: word, command: word, b: Situation)
    requires a.Valid()
    requires var store := AfterPause(a.store, a.count);
      var o := OfReadBlock(s, a.bus, a.pec, store, address, command);
      && b.bus == o.bus && b.notes == a.notes + o.notes && o.reply <= b.ep0 && b.pec == a.pec
      && ReadStore(s, a.bus, a.pec, store, address, command, b.store)
      && if Owed(store) > 0 then b.count == a.count
         else |Fetched(s, a.bus, a.pec, HeaderOf(address, command)).data| > PACKET ==> b.count == 0
    ensures Leaves(s, a, SMB_READ_BLOCK, address, command, b)
  {
  }

  lemma WriteBlockLeaves(s: Slave, a: Situation, address: word, command: word, b: Situation)
    requires a.Valid()
    requires var store := AfterPause(a.store, a.count);
      var o := OfWriteBlock(s, a.bus, a.pec, store, a.ep0, address, command);
      && b.bus == o.bus && b.notes == a.notes + o.notes && o.reply <= b.ep0 && b.pec == a.pec && b.ep0 == a.ep0
      && b.store == WriteStore(s, a.bus, a.pec, store, a.ep0, address, command)
      && (Accept(store, a.ep0).frame.None? ==> b.count == if store == EMPTY then 0 else a.count)
    ensures Leaves(s, a, SMB_WRITE_BLOCK, address, command, b)
  {
  }

  lemma PartialLeaves(s: Slave, a: Situation, cmd: byte, address: word, command: word, b: Situation)
    requires a.Valid() && IsPartial(cmd) && address <= PACKET
    requires var o := OfPartial(s, a, cmd, address, command);
      && b.bus == o.bus && b.notes == a.notes + o.notes && o.reply <= b.ep0
      && b.pec == a.pec && b.store == a.store && (cmd == SMB_WRITE ==> b.ep0 == a.ep0)
    ensures Leaves(s, a, cmd, address, command, b)
  {
  }

  lemma ShortLeaves(s: Slave, a: Situation, cmd: byte, address: word, command: word, b: Situation)
    requires a.Valid() && (IsWrite(cmd) || IsRead(cmd) || IsProbe(cmd))
    requires var o := OfShort(s, a, cmd, address, command);
      && b.bus == o.bus && b.notes == a.notes + o.notes && o.reply <= b.ep0
      && b.pec == a.pec && b.store == a.store && (IsWrite(cmd) ==> b.ep0 == a.ep0)
    ensures Leaves(s, a, cmd, address, command, b)
  {
  }

  predicate IsLocal(cmd: byte) {
    cmd != SMB_READ_BLOCK && cmd != SMB_WRITE_BLOCK && !IsPartial(cmd) && !IsWrite(cmd) && !IsRead(cmd) && !IsProbe(cmd)
  }

  lemma LocalLeaves(s: Slave, a: Situation, cmd: byte, address: word, command: word, b: Situation)
    requires a.Valid() && IsLocal(cmd)
    requires var o := OfLocal(a, cmd, address);
      && b.bus == o.bus && b.notes == a.notes + o.notes && o.reply <= b.ep0 && b.pec == PecAfter(a.pec, cmd, address)
      && (if cmd == SMB_RESET_INTERFACE then b.store == EMPTY else b.store == a.store && b.count == a.count)
      && (!Replies(cmd) ==> b.ep0 == a.ep0)
    ensures Leaves(s, a, cmd, address, command, b)
  {
  }

  // ----- What a command leaves of the bus

  // The commands that hold the bus: a partial write that begins with START or a repeated START
  // and succeeds without STOP, and a block read from a slave that announces 254 bytes.
  predicate Holds(s: Slave, a: Situation, cmd: byte, address: word, command: word)
    requires a.Valid() && (IsPartial(cmd) ==> address <= PACKET)
  {
    if cmd == SMB_WRITE then
      (StartFirst(command) || RestartFirst(command)) && !StopAfter(command) && OfPartial(s, a, cmd, address, command).ok
    else
      && cmd == SMB_READ_BLOCK && Owed(AfterPause(a.store, a.count)) <= 0
      && Wedges(s, a.bus, HeaderOf(address, command))
  }

  lemma WriteReleases(s: Slave, a: Situation, cmd: byte, address: word, command: word)
    requires a.Valid()
    ensures Open(OfWrite(s, a, cmd, address, command).bus.wire) ==> Open(a.bus.wire)
  {
    StartUpOpen(s, a.bus.wire, 0);
    WriteTransactionCloses(s, a.bus.wire);
  }

  lemma ReadReleases(s: Slave, e: Engine, pec: bool, header: seq<byte>, n: nat)
    requires |header| == 3 && n > 0
    ensures !Open(FixedRead(s, e, pec, header, n).bus.wire)
  {
    var selected := e.(wire := Select(s, e.wire, header[0], header[1], header[2]).wire);
    HaltedClosed(selected);
    var j := if pec then n + 1 else n;
    TakeOpen(s, selected, true, true, j, j);
    HaltedClosed(Take(s, selected, true, true, j, j).e);
  }

  lemma ProbeReleases(s: Slave, h: History, bytes: seq<byte>)
    ensures Open(Probe(s, h, bytes).wire) ==> Open(h)
  {
    StartUpOpen(s, h, 0);
    OpenClosed(Send(s, StartUp(s, h, 0).wire, bytes).wire, Stop);
  }

  lemma PartialReadReleases(s: Slave, e: Engine, flags: word, n: nat, pec: bool)
    ensures Open(PartialRead(s, e, flags, n, pec).e.wire) ==> Open(e.wire)
  {
    var j := ReadLength(n, flags, pec);
    TakeOpen(s, e, FirstRead(flags), LastRead(flags), j, j);
  }

  // After any command, whatever the slave does, the bus is held if the command holds it, and
  // otherwise only if it was held before.
  lemma CommandReleases(s: Slave, a: Situation, cmd: byte, address: word, command: word)
    requires a.Valid() && (IsPartial(cmd) ==> address <= PACKET)
    ensures var after := EffectOf(s, a, cmd, address, command).bus.wire;
      if Holds(s, a, cmd, address, command) then Open(after) else Open(after) ==> Open(a.bus.wire)
  {
    var h := a.bus.wire;
    if cmd == SMB_READ_BLOCK {
      FetchedOpen(s, a.bus, a.pec, HeaderOf(address, command));
    } else if cmd == SMB_WRITE_BLOCK {
      WriteTransactionCloses(s, h);
    } else if cmd == SMB_WRITE {
      PartialWriteOpen(s, h, command, a.ep0[..address], a.pec, a.mrqPec);
    } else if cmd == SMB_READ {
      PartialReadReleases(s, a.bus, command, address, a.pec);
    } else if IsWrite(cmd) {
      WriteReleases(s, a, cmd, address, command);
    } else if IsRead(cmd) {
      ReadReleases(s, a.bus, a.pec, HeaderOf(address, command), if cmd == SMB_READ_BYTE then 1 else 2);
    } else if IsProbe(cmd) {
      ProbeReleases(s, h, Probed(cmd, address, command));
    } else {
      HaltedClosed(a.bus);
    }
  }
}
