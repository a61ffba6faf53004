/** Reads of a byte, a word or a block: what they do on the bus and what they return. */
module BlockRead {
  import opened Bytes
  import opened Pec
  import opened PecPolynomial
  import opened PecDetection
  import opened Wire
  import opened Reception

  // The outcome of a read: the bus, whether it succeeded, whether it failed on the PEC, and
  // the bytes that arrived, PEC apart.
  datatype Fetch = Fetch(bus: Engine, ok: bool, mismatch: bool, data: seq<byte>)

  // A read of n bytes and, with PEC on, the PEC of all; STOP is sent once more on failure.
  function FixedRead(s: Slave, e: Engine, pec: bool, header: seq<byte>, n: nat): Fetch
    requires |header| == 3 && n > 0
  {
    var select := Select(s, e.wire, header[0], header[1], header[2]);
    var e := e.(wire := select.wire);
    if !select.ok then Fetch(Halted(e), false, false, [])
    else
      var j := if pec then n + 1 else n;
      var t := Take(s, e, true, true, j, j);
      var ok := PecMatches(pec, header, t.got);
      Fetch(if ok then t.e else Halted(t.e), ok, !ok, t.got[..n])
  }

  // A block read once the slave is selected: the length byte, as many data bytes, the PEC
  // whether it is on or not.  A length of 254 makes length + 2 overflow the firmware's BYTE
  // counter: nothing more is received and no STOP is sent.
  function Collected(s: Slave, e: Engine, pec: bool, header: seq<byte>): Fetch {
    var first := ByteIn(s, e, true, false, false, false);
    var n := first.b;
    if n == 0 || n == 0xFF then Fetch(Halted(first.e), false, false, [])
    else if n == 0xFE then
      var ok := !pec || PecOf(header) == 0;
      Fetch(first.e, ok, !ok, [])
    else
      var t := Take(s, e, true, true, n as int + 2, n as int + 2);
      var ok := PecMatches(pec, header, t.got);
      Fetch(t.e, ok, !ok, t.got[..n + 1])
  }

  function Fetched(s: Slave, e: Engine, pec: bool, header: seq<byte>): Fetch
    requires |header| == 3
  {
    var select := Select(s, e.wire, header[0], header[1], header[2]);
    var selected := e.(wire := select.wire);
    if !StartUp(s, e.wire, 0).ok then Fetch(selected, false, false, [])
    else if !select.ok then Fetch(Halted(selected), false, false, [])
    else Collected(s, selected, pec, header)
  }

  // The slave announces a length of 254.
  predicate Announces254(s: Slave, h: History, header: seq<byte>)
    requires |header| == 3
  {
    Addressed(s, h, header) && s.next(AddressedBus(s, h, header)) == Some(0xFE)
  }

  lemma FetchedShape(s: Slave, e: Engine, pec: bool, header: seq<byte>)
    requires |header| == 3
    ensures var f := Fetched(s, e, pec, header);
      && (f.data != [] ==> |f.data| == f.data[0] as int + 1 && 0 < f.data[0] <= 253)
      && (f.data != [] || f.ok || f.mismatch ==> Addressed(s, e.wire, header))
      && (f.ok && f.data == [] ==> Announces254(s, e.wire, header) && (pec ==> PecOf(header) == 0))
  {
    SelectExact(s, e.wire, header);
    var selected := e.(wire := AddressedBus(s, e.wire, header));
    var n := ByteIn(s, selected, true, false, false, false).b;
    if 0 < n <= 253 {
      TakeFirst(s, selected, true, n as int + 2, n as int + 2);
    } else if n == 0xFE {
      FirstByteSent(s, selected);
    }
  }

  // ----- The running PEC of the receive loop

  // What is kept of the bytes received so far: all but the PEC.
  function Payload(got: seq<byte>, blocklen: byte): (p: seq<byte>)
    ensures |p| <= |got|
  {
    if blocklen == 0 then [] else if |got| < blocklen then got else got[..blocklen - 1]
  }

  // The running PEC, and the received one once it is there.
  predicate Checked(header: seq<byte>, got: seq<byte>, blocklen: byte, pec: byte, rpec: byte) {
    && pec == PecOf(header + Payload(got, blocklen))
    && rpec == if 0 < blocklen <= |got| then got[blocklen - 1] else 0
  }

  lemma PayloadSnoc(got: seq<byte>, b: byte, blocklen: byte)
    requires |got| == 0 || |got| < blocklen
    ensures Payload(got + [b], blocklen) == Payload(got, blocklen) + if |got| < blocklen - 1 then [b] else []
  {
  }

  lemma CheckedSnoc(header: seq<byte>, got: seq<byte>, b: byte, blocklen: byte, pec: byte, rpec: byte)
    requires |got| == 0 || |got| < blocklen
    ensures Checked(header, got, blocklen, pec, rpec) ==>
      Checked(header, got + [b], blocklen,
        if |got| < blocklen - 1 then Crc8(pec, b) else pec, if |got| == blocklen - 1 then b else rpec)
  {
    PayloadSnoc(got, b, blocklen);
    if |got| < blocklen - 1 {
      assert header + Payload(got + [b], blocklen) == (header + Payload(got, blocklen)) + [b];
      CrcSnoc(0, header + Payload(got, blocklen), b);
    }
  }

  lemma CheckedStart(header: seq<byte>, blocklen: byte, pec: byte)
    ensures pec == PecOf(header) ==> Checked(header, [], blocklen, pec, 0)
  {
    assert header + [] == header;
  }

  // At the end the comparison of the two PECs is the test of a reader.
  lemma CheckedMatches(header: seq<byte>, got: seq<byte>, blocklen: byte, pec: byte, rpec: byte)
    requires 0 < |got| == blocklen && Checked(header, got, blocklen, pec, rpec)
    ensures rpec == pec <==> PecMatches(true, header, got)
  {
  }

  // ----- What a block read does, for every length a slave may announce

  lemma CollectedGrows(s: Slave, e: Engine, pec: bool, header: seq<byte>)
    ensures e.wire <= Collected(s, e, pec, header).bus.wire
  {
    var n := ByteIn(s, e, true, false, false, false).b as int;
    ByteInGrows(s, e, true, false, false, false);
    TakeGrows(s, e, true, true, n + 2, n + 2);
  }

  // No block read goes without a trace on the bus.
  lemma FetchedGrows(s: Slave, e: Engine, pec: bool, header: seq<byte>)
    requires |header| == 3
    ensures |Fetched(s, e, pec, header).bus.wire| > |e.wire|
  {
    SelectGrows(s, e.wire, header[0], header[1], header[2]);
    CollectedGrows(s, e.(wire := Select(s, e.wire, header[0], header[1], header[2]).wire), pec, header);
  }

  lemma SelectOpen(s: Slave, h: History, address: byte, command: byte, readAddress: byte)
    ensures var select := Select(s, h, address, command, readAddress); select.ok ==> Open(select.wire)
  {
    var r := Send(s, StartUp(s, h, 0).wire, [address, command]);
    OpenClosed(r.wire, Restart);
    OpenClosed(r.wire + [Restart], Tx(readAddress, Acked));
  }

  // The slave announces 254 bytes and sends another byte in time.
  predicate Wedges(s: Slave, e: Engine, header: seq<byte>)
    requires |header| == 3
  {
    && Addressed(s, e.wire, header)
    && ByteIn(s, e.(wire := AddressedBus(s, e.wire, header)), true, false, false, false).b == 0xFE
  }

  lemma WedgesBy254(s: Slave, e: Engine, header: seq<byte>)
    requires |header| == 3 && Wedges(s, e, header)
    ensures Announces254(s, e.wire, header)
  {
  }

  // That is what leaves the bus held, or a bus that was held before and could not be had.
  lemma FetchedOpen(s: Slave, e: Engine, pec: bool, header: seq<byte>)
    requires |header| == 3
    ensures Open(Fetched(s, e, pec, header).bus.wire) <==>
      Wedges(s, e, header) || (Losses(s, e.wire, 0) == 5 && Open(e.wire))
  {
    StartUpOpen(s, e.wire, 0);
    StartUpExact(s, e.wire);
    SelectExact(s, e.wire, header);
    if StartUp(s, e.wire, 0).ok {
      SelectedOpen(s, e, pec, header);
    }
  }

  lemma SelectedOpen(s: Slave, e: Engine, pec: bool, header: seq<byte>)
    requires |header| == 3 && StartUp(s, e.wire, 0).ok
    ensures Open(Fetched(s, e, pec, header).bus.wire) <==> Wedges(s, e, header)
  {
    var select := Select(s, e.wire, header[0], header[1], header[2]);
    var selected := e.(wire := select.wire);
    SelectExact(s, e.wire, header);
    OpenClosed(select.wire, Stop);
    if select.ok {
      SelectOpen(s, e.wire, header[0], header[1], header[2]);
      var first := ByteIn(s, selected, true, false, false, false);
      OpenClosed(first.e.wire, Stop);
      ByteInOpen(s, selected, true, false, false, false);
      TakeOpen(s, selected, true, true, first.b as int + 2, first.b as int + 2);
    }
  }

  // ----- Reads, event by event

  // A slave that is not addressed makes a read of a byte or a word fail, with STOP and nothing
  // else; otherwise the PEC alone decides.
  predicate FixedOutcome(s: Slave, e: Engine, pec: bool, header: seq<byte>, n: nat, f: Fetch)
    requires |header| == 3 && n > 0
  {
    if !Addressed(s, e.wire, header) then
      f == Fetch(e.(wire := RefusedBus(s, e.wire, header) + [Stop]), false, false, [])
    else
      var j := if pec then n + 1 else n;
      var t := Take(s, e.(wire := AddressedBus(s, e.wire, header)), true, true, j, j);
      && (f.ok <==> (pec ==> PecOf(header + t.got[..n]) == t.got[n])) && f.mismatch == !f.ok
      && f.data == t.got[..n] && f.bus == if f.ok then t.e else Halted(t.e)
  }

  lemma FixedReadOpens(s: Slave, e: Engine, pec: bool, header: seq<byte>, n: nat, f: Fetch)
    requires |header| == 3 && n > 0 && FixedOutcome(s, e, pec, header, n, f) && Addressed(s, e.wire, header)
    ensures AddressedBus(s, e.wire, header) <= f.bus.wire
  {
    var j := if pec then n + 1 else n;
    TakeGrows(s, e.(wire := AddressedBus(s, e.wire, header)), true, true, j, j);
  }

  lemma FixedReadExact(s: Slave, e: Engine, pec: bool, header: seq<byte>, n: nat)
    requires |header| == 3 && n > 0
    ensures FixedOutcome(s, e, pec, header, n, FixedRead(s, e, pec, header, n))
  {
    SelectExact(s, e.wire, header);
  }

  lemma StopTwice(h: History, received: History)
    ensures h + received + [Stop] + [Stop] == h + received + [Stop, Stop]
  {
  }

  // A read of n bytes from a slave that answers: these and the PEC if it is on, the last of all
  // refused, and STOP; success depends on the PEC alone.
  lemma FixedReadStream(s: Slave, e: Engine, pec: bool, header: seq<byte>, n: nat)
    requires |header| == 3 && n > 0 && s.Responsive() && !e.lastrd && Addressed(s, e.wire, header)
    ensures var h := AddressedBus(s, e.wire, header);
      var got, f := Stream(s, h, if pec then n + 1 else n), FixedRead(s, e, pec, header, n);
      && (f.ok <==> (pec ==> PecOf(header + got[..n]) == got[n])) && f.mismatch == !f.ok && f.data == Stream(s, h, n)
      && f.bus.wire == h + FinalReads(got) + (if f.ok then [Stop] else [Stop, Stop]) && !f.bus.lastrd
  {
    var h := AddressedBus(s, e.wire, header);
    var j := if pec then n + 1 else n;
    FixedReadExact(s, e, pec, header, n);
    TakeAll(s, e.(wire := h), j);
    StreamPrefix(s, h, n, j);
    StopTwice(h, FinalReads(Stream(s, h, j)));
  }

  // A slave that is not addressed makes a block read fail as well; there is no STOP if START
  // was lost five times.
  predicate BlockOutcome(s: Slave, e: Engine, pec: bool, header: seq<byte>, f: Fetch)
    requires |header| == 3
  {
    if Addressed(s, e.wire, header) then
      f == Collected(s, e.(wire := AddressedBus(s, e.wire, header)), pec, header)
    else
      var stop := if Losses(s, e.wire, 0) == 5 then [] else [Stop];
      f == Fetch(e.(wire := RefusedBus(s, e.wire, header) + stop), false, false, [])
  }

  lemma BlockOpens(s: Slave, e: Engine, pec: bool, header: seq<byte>, f: Fetch)
    requires |header| == 3 && BlockOutcome(s, e, pec, header, f) && Addressed(s, e.wire, header)
    ensures AddressedBus(s, e.wire, header) <= f.bus.wire
  {
    CollectedGrows(s, e.(wire := AddressedBus(s, e.wire, header)), pec, header);
  }

  lemma FetchedExact(s: Slave, e: Engine, pec: bool, header: seq<byte>)
    requires |header| == 3
    ensures BlockOutcome(s, e, pec, header, Fetched(s, e, pec, header))
  {
    StartUpExact(s, e.wire);
    SelectExact(s, e.wire, header);
    assert RefusedBus(s, e.wire, header) + [] == RefusedBus(s, e.wire, header);
  }

  // If not even the length comes in time, STOP is sent twice.
  lemma BlockSilent(s: Slave, e: Engine, pec: bool, header: seq<byte>)
    requires |header| == 3 && Addressed(s, e.wire, header) && s.next(AddressedBus(s, e.wire, header)) == None
    ensures Fetched(s, e, pec, header) ==
      Fetch(e.(wire := AddressedBus(s, e.wire, header) + [Hang, Stop, Stop]), false, false, [])
  {
    SelectExact(s, e.wire, header);
    var h := AddressedBus(s, e.wire, header);
    assert h + [Hang] + [Stop] + [Stop] == h + [Hang, Stop, Stop];
  }

  // Lengths that are no lengths: 0 and 255 are refused, with the byte behind them clocked in,
  // and nothing of them is kept; 254 ends the read where it stands, without STOP, and what is
  // compared then is the PEC of the header with 0.
  lemma BlockOddLengths(s: Slave, e: Engine, pec: bool, header: seq<byte>)
    requires |header| == 3 && s.Responsive() && !e.lastrd && Addressed(s, e.wire, header)
    ensures var h, f := AddressedBus(s, e.wire, header), Fetched(s, e, pec, header);
      var n, next := ByteAt(s, h, 0), ByteAt(s, h, 1);
      && (n == 0 || n == 0xFF ==>
          f.bus.wire == h + [Rx(n, true), Rx(next, true), Stop] && !f.ok && !f.mismatch && f.data == [])
      && (n == 0xFE ==>
          && f.bus.wire == h + [Rx(n, true), Rx(next, true)] && f.data == []
          && (f.ok <==> !pec || PecOf(header) == 0) && f.mismatch == !f.ok)
  {
    SelectExact(s, e.wire, header);
    var h := AddressedBus(s, e.wire, header);
    assert h + AckedReads([]) == h;
    ByteInFirst(s, e.(wire := h), h, false);
    StreamPrefix(s, h, 1, 2);
    assert h + AckedReads(Stream(s, h, 2)) == h + [Rx(ByteAt(s, h, 0), true), Rx(ByteAt(s, h, 1), true)];
  }

  // A slave that answers, and length n from 1 to 253, learned only with the first byte: n + 2
  // bytes are clocked in whether PEC is on or not, only the last of them is refused, and STOP
  // follows it.  Success depends on the PEC alone.
  lemma LengthPlusTwoBytes(s: Slave, e: Engine, pec: bool, header: seq<byte>)
    requires |header| == 3 && s.Responsive() && !e.lastrd && Addressed(s, e.wire, header)
    requires 0 < ByteAt(s, AddressedBus(s, e.wire, header), 0) <= 253
    ensures var h := AddressedBus(s, e.wire, header);
      var n := ByteAt(s, h, 0);
      var block, f := Stream(s, h, n + 1), Fetched(s, e, pec, header);
      && f.bus.wire == h + AckedReads(block) + [Rx(ByteAt(s, h, n + 1), false), Stop] && !f.bus.lastrd
      && f.data == block && |block| == block[0] as int + 1
      && (f.ok <==> (pec ==> PecOf(header + block) == ByteAt(s, h, n + 1))) && f.mismatch == !f.ok
  {
    SelectExact(s, e.wire, header);
    CollectedStream(s, e.(wire := AddressedBus(s, e.wire, header)), pec, header);
  }

  lemma CollectedTaken(s: Slave, e: Engine, pec: bool, header: seq<byte>)
    requires s.Responsive() && !e.lastrd && 0 < ByteAt(s, e.wire, 0) <= 253
    ensures var n := ByteAt(s, e.wire, 0);
      var t := Take(s, e, true, true, n as int + 2, n as int + 2);
      var ok := PecMatches(pec, header, t.got);
      Collected(s, e, pec, header) == Fetch(t.e, ok, !ok, t.got[..n + 1])
  {
    assert e.wire + AckedReads([]) == e.wire;
    ByteInFirst(s, e, e.wire, false);
  }

  lemma CollectedStream(s: Slave, e: Engine, pec: bool, header: seq<byte>)
    requires s.Responsive() && !e.lastrd && 0 < ByteAt(s, e.wire, 0) <= 253
    ensures var n := ByteAt(s, e.wire, 0);
      var got, c := Stream(s, e.wire, n + 2), Collected(s, e, pec, header);
      && c.bus.wire == e.wire + FinalReads(got) + [Stop] && !c.bus.lastrd
      && got == Stream(s, e.wire, n + 1) + [ByteAt(s, e.wire, n + 1)]
      && c.data == Stream(s, e.wire, n + 1) && c.data[0] == n
      && c.ok == PecMatches(pec, header, got) && c.mismatch == !c.ok
  {
    var n := ByteAt(s, e.wire, 0);
    CollectedTaken(s, e, pec, header);
    TakeAll(s, e, n + 2);
    StreamPrefix(s, e.wire, 1, n + 1);
    StreamPrefix(s, e.wire, n + 1, n + 2);
  }

  // With a slave that answers, the one length that leaves the master holding the bus.
  lemma LeftOpenOnlyBy254(s: Slave, e: Engine, pec: bool, header: seq<byte>)
    requires |header| == 3 && s.Responsive() && !e.lastrd && Addressed(s, e.wire, header)
    ensures Open(Fetched(s, e, pec, header).bus.wire) <==> Announces254(s, e.wire, header)
  {
    var h := AddressedBus(s, e.wire, header);
    assert h + AckedReads([]) == h;
    ByteInFirst(s, e.(wire := h), h, false);
    SelectExact(s, e.wire, header);
    StartUpExact(s, e.wire);
    SelectedOpen(s, e, pec, header);
  }

  // A block that was sent with a valid PEC and altered on the way.
  ghost predicate Altered(sent: seq<byte>, received: seq<byte>)
    requires |sent| == |received|
  {
    || |Differences(sent, received)| % 2 == 1
    || (sent != received && exists k: nat {:trigger Within(sent, received, k)} :: Within(sent, received, k))
    || exists i: nat, j: nat {:trigger Pair(sent, received, i, j)} :: Pair(sent, received, i, j)
  }

  // All differences lie in eight consecutive bits.
  ghost predicate Within(a: seq<byte>, b: seq<byte>, k: nat)
    requires |a| == |b|
  {
    forall i <- Differences(a, b) :: k <= i < k + 8
  }

  // Two bits differ, at a distance that is no multiple of 127.
  ghost predicate Pair(a: seq<byte>, b: seq<byte>, i: nat, j: nat)
    requires |a| == |b|
  {
    i < j && (j - i) % 127 != 0 && Differences(a, b) == {i, j}
  }

  lemma AlteredIsInvalid(a: seq<byte>, b: seq<byte>)
    requires |a| == |b| && PecOf(a) == 0 && Altered(a, b)
    ensures PecOf(b) != 0
  {
    if PecOf(b) == 0 {
      OddErrorsDetected(a, b);
      if k: nat :| Within(a, b, k) && a != b {
        BurstDetected(a, b, k);
      } else {
        var i: nat, j: nat :| Pair(a, b, i, j);
        PairDetected(a, b, i, j);
      }
    }
  }

  // The firmware compares bytes; that is the same as a residue of 0.
  lemma MatchIsResidueZero(header: seq<byte>, data: seq<byte>)
    requires data != []
    ensures PecMatches(true, header, data) <==> PecOf(header + data) == 0
  {
    var k := |data| - 1;
    assert header + data == (header + data[..k]) + [data[k]];
    ResidueZero(header + data[..k], data[k]);
  }

  // With PEC on, a block read never succeeds on a block that is altered by an odd number of
  // bits, by a burst of at most eight, or by two bits (unless a multiple of 127 apart), if the
  // length byte arrives as it was sent.
  lemma AlteredBlockRefused(s: Slave, e: Engine, header: seq<byte>, sent: seq<byte>)
    requires |header| == 3 && s.Responsive() && !e.lastrd && Addressed(s, e.wire, header)
    requires sent != [] && 0 < sent[0] <= 253 && |sent| == sent[0] as int + 2 && PecOf(header + sent) == 0
    requires sent[0] == ByteAt(s, AddressedBus(s, e.wire, header), 0)
    requires Altered(header + sent, header + Stream(s, AddressedBus(s, e.wire, header), |sent|))
    ensures !Fetched(s, e, true, header).ok && Fetched(s, e, true, header).mismatch
  {
    var h := AddressedBus(s, e.wire, header);
    SelectExact(s, e.wire, header);
    CollectedStream(s, e.(wire := h), true, header);
    var received := Stream(s, h, |sent|);
    AlteredIsInvalid(header + sent, header + received);
    MatchIsResidueZero(header, received);
  }

  // The length byte decides how many bytes are read, so one altered bit in it may go unnoticed:
  // of a block with the valid PEC of its five bytes three are taken, for a shorter block.
  lemma AlteredLengthAccepted(header: seq<byte>, d: byte) returns (s: Slave, c: byte, p: byte)
    requires |header| == 3
    ensures s.Responsive() && Addressed(s, [], header)
    ensures PecOf(header + ([3, d, c, 0] + [p])) == 0
    ensures Stream(s, AddressedBus(s, [], header), 3) == [1, d, c]
    ensures var f := Fetched(s, Engine([], 0, false), true, header); f.ok && f.data == [1, d]
  {
    c := PecOf(header + [1, d]);
    s := ThreeSender(1, d, c);
    ShortBlockAccepted(s, header, 1, d, c);
    p := Completion(header, [3, d, c, 0]);
  }

  // Every block can be completed by its PEC.
  lemma Completion(header: seq<byte>, front: seq<byte>) returns (p: byte)
    ensures PecOf(header + (front + [p])) == 0
  {
    p := PecOf(header + front);
    assert header + (front + [p]) == (header + front) + [p];
    ResidueZero(header + front, p);
  }

  // A slave that sends a, b, c, c, ... when it is read first.
  ghost predicate SendsThree(s: Slave, a: byte, b: byte, c: byte) {
    && s.Obliging([])
    && forall g :: s.next(g) == Some(if |g| == 5 then a else if |g| == 6 then b else c)
  }

  lemma ThreeSender(a: byte, b: byte, c: byte) returns (s: Slave)
    ensures SendsThree(s, a, b, c) && s.Responsive()
  {
    s := Slave(_ => false, (_, _) => Acked, (g: History) => Some(if |g| == 5 then a else if |g| == 6 then b else c));
  }

  lemma ShortBlockAccepted(s: Slave, header: seq<byte>, a: byte, b: byte, c: byte)
    requires |header| == 3 && SendsThree(s, a, b, c) && a == 1 && c == PecOf(header + [a, b])
    ensures Addressed(s, [], header) && Stream(s, AddressedBus(s, [], header), 3) == [a, b, c]
    ensures var f := Fetched(s, Engine([], 0, false), true, header); f.ok && f.data == [a, b]
  {
    ObligingAddressed(s, [], header);
    ThreeBytes(s, AddressedBus(s, [], header), a, b, c);
    LengthPlusTwoBytes(s, Engine([], 0, false), true, header);
  }

  lemma ThreeBytes(s: Slave, h: History, a: byte, b: byte, c: byte)
    requires |h| == 5 && SendsThree(s, a, b, c)
    ensures Stream(s, h, 2) == [a, b] && Stream(s, h, 3) == [a, b, c]
    ensures ByteAt(s, h, 0) == a && ByteAt(s, h, 2) == c
  {
    assert Stream(s, h, 0) == [] && |h + AckedReads([])| == 5;
    assert Stream(s, h, 1) == [a] && |h + AckedReads([a])| == 6;
    assert Stream(s, h, 2) == [a, b] && |h + AckedReads([a, b])| == 7;
  }
}
