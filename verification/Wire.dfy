/**
 * The two-wire bus as the firmware sees it: a history of events, a slave that may answer
 * as it likes given that history, and the transactions a driver wants to see on the bus.
 */
module Wire {
  import opened Bytes
  import opened Pec

  // How a transmitted byte ends: acknowledged, not acknowledged, BERR, or no DONE in time.
  datatype Outcome = Acked | Nacked | BusError | Hung

  datatype Event =
    | Start
    | LostStart                       // START answered by BERR
    | Restart
    | Stop
    | Tx(b: byte, outcome: Outcome)   // a byte sent by the master
    | Rx(b: byte, ack: bool)          // a byte clocked in, and the master's answer to it
    | Hang                            // a byte asked for, with no DONE in time

  type History = seq<Event>

  // A slave (and everything else on the bus) is any function of the history.
  datatype Slave = Slave(
    losesStart: History -> bool, answer: (History, byte) -> Outcome, next: History -> Option<byte>)
  {
    // Every byte asked for arrives.
    ghost predicate Responsive() {
      forall h :: next(h).Some?
    }

    // Nothing goes wrong when writing, from h on.
    ghost predicate Obliging(h: History) {
      && (forall g: History | h <= g :: !losesStart(g))
      && (forall g: History, b | h <= g :: answer(g, b) == Acked)
    }
  }

  const I2C_MAX_RETRIES := 5

  datatype Result = Result(wire: History, ok: bool)

  // START, tried until it is not answered by a bus error.
  function StartUp(s: Slave, h: History, tries: nat): Result
    requires tries <= I2C_MAX_RETRIES
    decreases I2C_MAX_RETRIES - tries
  {
    if tries == I2C_MAX_RETRIES then Result(h, false)
    else if s.losesStart(h) then StartUp(s, h + [LostStart], tries + 1)
    else Result(h + [Start], true)
  }

  // One transmitted byte; a hung bus is released at once.
  function Put(s: Slave, h: History, b: byte): Result {
    var o := s.answer(h, b);
    Result(h + [Tx(b, o)] + (if o.Hung? then [Stop] else []), o.Acked?)
  }

  datatype Run = Run(wire: History, sent: nat)

  // Bytes transmitted one after the other up to the first that is not acknowledged.
  function Send(s: Slave, h: History, bytes: seq<byte>): (r: Run)
    ensures r.sent <= |bytes|
  {
    if bytes == [] then Run(h, 0)
    else
      var k := |bytes| - 1;
      var r := Send(s, h, bytes[..k]);
      if r.sent < k then r
      else
        var p := Put(s, r.wire, bytes[k]);
        Run(p.wire, if p.ok then k + 1 else k)
  }

  // A whole write transaction, STOP included whatever happens.
  function WriteTransaction(s: Slave, h: History, bytes: seq<byte>): Result {
    var up := StartUp(s, h, 0);
    if !up.ok then Result(up.wire + [Stop], false)
    else
      var r := Send(s, up.wire, bytes);
      Result(r.wire + [Stop], r.sent == |bytes|)
  }

  function WithPec(pec: bool, bytes: seq<byte>): seq<byte> {
    if pec then bytes + [PecOf(bytes)] else bytes
  }

  // The test a reader makes: the last byte is the PEC of everything before it.
  predicate PecMatches(pec: bool, header: seq<byte>, data: seq<byte>) {
    pec ==> data != [] && PecOf(header + data[..|data| - 1]) == data[|data| - 1]
  }

  // START, address, command, repeated START, read address.
  function Select(s: Slave, h: History, address: byte, command: byte, readAddress: byte): Result {
    var up := StartUp(s, h, 0);
    if !up.ok then up
    else
      var r := Send(s, up.wire, [address, command]);
      if r.sent < 2 then Result(r.wire, false)
      else
        Put(s, r.wire + [Restart], readAddress)
  }

  // Bytes clocked in, all of them acknowledged, or all but the last.
  function AckedReads(bytes: seq<byte>): History {
    seq(|bytes|, i requires 0 <= i < |bytes| => Rx(bytes[i], true))
  }

  function FinalReads(bytes: seq<byte>): History
    requires bytes != []
  {
    AckedReads(bytes[..|bytes| - 1]) + [Rx(bytes[|bytes| - 1], false)]
  }

  function Reads(bytes: seq<byte>, nacked: bool): History
    requires nacked ==> bytes != []
  {
    if nacked then FinalReads(bytes) else AckedReads(bytes)
  }

  function NextByte(s: Slave, h: History): byte {
    match s.next(h)
    case Some(b) => b
    case None => 0
  }

  // The first n bytes the slave sends after h when each of them is acknowledged.
  function Stream(s: Slave, h: History, n: nat): (bytes: seq<byte>)
    ensures |bytes| == n
  {
    if n == 0 then []
    else
      var front := Stream(s, h, n - 1);
      front + [NextByte(s, h + AckedReads(front))]
  }

  // Byte i of what the slave sends after h.
  function ByteAt(s: Slave, h: History, i: nat): byte {
    Stream(s, h, i + 1)[i]
  }

  // Whether the master still holds the bus: START or a repeated START without a STOP after it.
  function Open(h: History): bool {
    h != [] &&
    var k := |h| - 1;
    match h[k]
    case Start => true
    case Restart => true
    case Stop => false
    case _ => Open(h[..k])
  }

  // ----- Properties of transmission

  // A byte that is not acknowledged ends the run.
  lemma {:induction false} SendStuck(s: Slave, h: History, bytes: seq<byte>, k: nat)
    requires k < |bytes| && Send(s, h, bytes[..k + 1]).sent <= k
    ensures Send(s, h, bytes) == Send(s, h, bytes[..k + 1])
    decreases |bytes|
  {
    var n := |bytes| - 1;
    if k < n {
      assert bytes[..n][..k + 1] == bytes[..k + 1];
      SendStuck(s, h, bytes[..n], k);
    } else {
      assert bytes[..k + 1] == bytes;
    }
  }

  lemma SendPrefixStuck(s: Slave, h: History, front: seq<byte>, more: seq<byte>, bytes: seq<byte>)
    requires Send(s, h, front).sent < |front| && front + more <= bytes
    ensures Send(s, h, bytes) == Send(s, h, front)
  {
    assert bytes[..|front|] == front;
    SendStuck(s, h, bytes, |front| - 1);
  }

  lemma SendSnoc(s: Slave, h: History, bytes: seq<byte>, k: nat)
    requires k < |bytes| && Send(s, h, bytes[..k]).sent == k
    ensures var p := Put(s, Send(s, h, bytes[..k]).wire, bytes[k]);
      Send(s, h, bytes[..k + 1]) == Run(p.wire, if p.ok then k + 1 else k)
  {
    assert bytes[..k + 1][..k] == bytes[..k];
  }

  // Sending in parts.
  lemma {:induction false} SendConcat(s: Slave, h: History, x: seq<byte>, y: seq<byte>)
    requires Send(s, h, x).sent == |x|
    ensures var r := Send(s, Send(s, h, x).wire, y);
      Send(s, h, x + y) == Run(r.wire, |x| + r.sent)
    decreases |y|
  {
    if y == [] {
      assert x + y == x;
    } else {
      var k := |y| - 1;
      assert (x + y)[..|x + y| - 1] == x + y[..k];
      SendConcat(s, h, x, y[..k]);
    }
  }

  // A header, data, and the PEC of both if wanted.
  lemma SendWithPec(s: Slave, h: History, head: seq<byte>, data: seq<byte>, pec: bool)
    ensures
      var first := Send(s, h, head);
      var second := Send(s, first.wire, data);
      var third := Send(s, second.wire, [PecOf(head + data)]);
      Send(s, h, WithPec(pec, head + data)) ==
        if first.sent < |head| then first
        else if second.sent < |data| then Run(second.wire, |head| + second.sent)
        else if pec then Run(third.wire, |head| + |data| + third.sent)
        else Run(second.wire, |head| + |data|)
  {
    var bytes := WithPec(pec, head + data);
    if Send(s, h, head).sent < |head| {
      SendPrefixStuck(s, h, head, data, bytes);
    } else {
      SendConcat(s, h, head, data);
      if Send(s, h, head + data).sent < |head + data| {
        SendPrefixStuck(s, h, head + data, [], bytes);
      } else if pec {
        SendConcat(s, h, head + data, [PecOf(head + data)]);
      }
    }
  }

  function AckedBytes(bytes: seq<byte>): History {
    seq(|bytes|, i requires 0 <= i < |bytes| => Tx(bytes[i], Acked))
  }

  // A complete run is the bytes, each acknowledged, and nothing else.
  lemma {:induction false} SendComplete(s: Slave, h: History, bytes: seq<byte>)
    requires Send(s, h, bytes).sent == |bytes|
    ensures Send(s, h, bytes).wire == h + AckedBytes(bytes)
  {
    if bytes != [] {
      var k := |bytes| - 1;
      SendComplete(s, h, bytes[..k]);
      assert AckedBytes(bytes) == AckedBytes(bytes[..k]) + [Tx(bytes[k], Acked)];
    }
  }

  lemma {:induction false} SendObliging(s: Slave, h: History, bytes: seq<byte>)
    requires s.Obliging(h)
    ensures Send(s, h, bytes).sent == |bytes| && h <= Send(s, h, bytes).wire
  {
    if bytes != [] {
      SendObliging(s, h, bytes[..|bytes| - 1]);
    }
  }

  function LostStarts(n: nat): History {
    seq(n, _ => LostStart)
  }

  lemma {:induction false} StartUpShape(s: Slave, h: History, tries: nat) returns (lost: nat)
    requires tries <= I2C_MAX_RETRIES
    ensures tries + lost <= I2C_MAX_RETRIES
    ensures var up := StartUp(s, h, tries);
      up.wire == h + LostStarts(lost) + (if up.ok then [Start] else []) && (up.ok <==> tries + lost < I2C_MAX_RETRIES)
    decreases I2C_MAX_RETRIES - tries
  {
    if tries == I2C_MAX_RETRIES || !s.losesStart(h) {
      lost := 0;
    } else {
      var n := StartUpShape(s, h + [LostStart], tries + 1);
      lost := n + 1;
      assert LostStarts(lost) == [LostStart] + LostStarts(n);
    }
  }

  // A successful write transaction is one START, exactly the bytes, one STOP; only lost
  // arbitrations may precede it.
  lemma WriteTransactionShape(s: Slave, h: History, bytes: seq<byte>) returns (lost: nat)
    requires WriteTransaction(s, h, bytes).ok
    ensures lost < I2C_MAX_RETRIES && (s.Obliging(h) ==> lost == 0)
    ensures WriteTransaction(s, h, bytes).wire == h + LostStarts(lost) + [Start] + AckedBytes(bytes) + [Stop]
  {
    lost := StartUpShape(s, h, 0);
    SendComplete(s, StartUp(s, h, 0).wire, bytes);
    if s.Obliging(h) {
      assert StartUp(s, h, 0) == Result(h + [Start], true);
      assert |h + LostStarts(lost) + [Start]| == |h| + lost + 1;
    }
  }

  lemma WriteTransactionObliging(s: Slave, h: History, bytes: seq<byte>)
    requires s.Obliging(h)
    ensures WriteTransaction(s, h, bytes) == Result(h + [Start] + AckedBytes(bytes) + [Stop], true)
  {
    SendObliging(s, h + [Start], bytes);
    SendComplete(s, h + [Start], bytes);
  }

  // ----- The same event by event

  // How often START is lost when it is tried up to five times, n tries having been lost.
  function Losses(s: Slave, h: History, n: nat): (lost: nat)
    requires n <= 5
    ensures n <= lost <= 5
    decreases 5 - n
  {
    if n < 5 && s.losesStart(h + LostStarts(n)) then Losses(s, h, n + 1) else n
  }

  lemma {:induction false} LossesAre(s: Slave, h: History, n: nat)
    requires n <= 5
    ensures forall i | n <= i < Losses(s, h, n) :: s.losesStart(h + LostStarts(i))
    ensures Losses(s, h, n) < 5 ==> !s.losesStart(h + LostStarts(Losses(s, h, n)))
    decreases 5 - n
  {
    if n < 5 && s.losesStart(h + LostStarts(n)) {
      LossesAre(s, h, n + 1);
    }
  }

  lemma {:induction false} StartUpLoses(s: Slave, h: History, n: nat)
    requires n <= 5
    ensures var lost := Losses(s, h, n);
      StartUp(s, h + LostStarts(n), n) == Result(h + LostStarts(lost) + (if lost < 5 then [Start] else []), lost < 5)
    decreases 5 - n
  {
    if n < 5 && s.losesStart(h + LostStarts(n)) {
      assert h + LostStarts(n) + [LostStart] == h + LostStarts(n + 1);
      StartUpLoses(s, h, n + 1);
    }
  }

  // START is tried until it is not lost, five times at most.
  lemma StartUpExact(s: Slave, h: History)
    ensures var lost := Losses(s, h, 0);
      StartUp(s, h, 0) == Result(h + LostStarts(lost) + (if lost < 5 then [Start] else []), lost < 5)
  {
    assert h + LostStarts(0) == h;
    StartUpLoses(s, h, 0);
  }

  // A byte that is not acknowledged; if DONE does not come, STOP follows it.
  function Refusal(s: Slave, h: History, b: byte): History {
    [Tx(b, s.answer(h, b))] + if s.answer(h, b) == Hung then [Stop] else []
  }

  // The first n bytes are acknowledged, each after those before it.
  ghost predicate AcksFirst(s: Slave, h: History, bytes: seq<byte>, n: nat)
    requires n <= |bytes|
  {
    forall i | 0 <= i < n :: s.answer(h + AckedBytes(bytes[..i]), bytes[i]) == Acked
  }

  // A run is its acknowledged bytes, and the one that is not.
  lemma {:induction false} SendExact(s: Slave, h: History, bytes: seq<byte>)
    ensures var r := Send(s, h, bytes);
      var g := h + AckedBytes(bytes[..r.sent]);
      && AcksFirst(s, h, bytes, r.sent)
      && if r.sent == |bytes| then r.wire == g
         else s.answer(g, bytes[r.sent]) != Acked && r.wire == g + Refusal(s, g, bytes[r.sent])
  {
    if bytes != [] {
      var k := |bytes| - 1;
      var front := bytes[..k];
      SendExact(s, h, front);
      var n := Send(s, h, front).sent;
      assert forall i | 0 <= i <= k :: front[..i] == bytes[..i];
      if n == k {
        assert AckedBytes(bytes) == AckedBytes(front) + [Tx(bytes[k], Acked)];
        assert bytes[..|bytes|] == bytes && front[..k] == front;
      }
    }
  }

  // A write transaction for every slave: n bytes are acknowledged, and STOP follows in any case.
  lemma WriteTransactionExact(s: Slave, h: History, bytes: seq<byte>) returns (n: nat)
    ensures n <= |bytes|
    ensures var r, lost := WriteTransaction(s, h, bytes), Losses(s, h, 0);
      var start := h + LostStarts(lost) + [Start];
      if lost == 5 then r == Result(h + LostStarts(5) + [Stop], false)
      else
        var g := start + AckedBytes(bytes[..n]);
        && AcksFirst(s, start, bytes, n) && (n < |bytes| ==> s.answer(g, bytes[n]) != Acked)
        && r == Result(g + (if n < |bytes| then Refusal(s, g, bytes[n]) else []) + [Stop], n == |bytes|)
  {
    StartUpExact(s, h);
    var start := h + LostStarts(Losses(s, h, 0)) + [Start];
    n := Send(s, start, bytes).sent;
    SendExact(s, start, bytes);
    assert bytes[..|bytes|] == bytes;
    var g := start + AckedBytes(bytes[..n]);
    assert g + [] == g;
  }

  // A slave that is found by address, command and read address, with a repeated START before
  // the last.
  predicate Addressed(s: Slave, h: History, header: seq<byte>)
    requires |header| == 3
  {
    var lost := Losses(s, h, 0);
    var g := h + LostStarts(lost) + [Start];
    && lost < 5
    && s.answer(g, header[0]) == Acked
    && s.answer(g + [Tx(header[0], Acked)], header[1]) == Acked
    && s.answer(g + [Tx(header[0], Acked), Tx(header[1], Acked), Restart], header[2]) == Acked
  }

  function AddressedBus(s: Slave, h: History, header: seq<byte>): History
    requires |header| == 3
  {
    h + LostStarts(Losses(s, h, 0)) +
    [Start, Tx(header[0], Acked), Tx(header[1], Acked), Restart, Tx(header[2], Acked)]
  }

  // The bus when one of these is not to be had.
  function RefusedBus(s: Slave, h: History, header: seq<byte>): History
    requires |header| == 3
  {
    var lost := Losses(s, h, 0);
    var g := h + LostStarts(lost) + [Start];
    var g1 := g + [Tx(header[0], Acked)];
    var g2 := g + [Tx(header[0], Acked), Tx(header[1], Acked), Restart];
    if lost == 5 then h + LostStarts(5)
    else if s.answer(g, header[0]) != Acked then g + Refusal(s, g, header[0])
    else if s.answer(g1, header[1]) != Acked then g1 + Refusal(s, g1, header[1])
    else g2 + Refusal(s, g2, header[2])
  }

  lemma TwoSent(s: Slave, g: History, a: byte, c: byte)
    ensures var r, g1 := Send(s, g, [a, c]), g + [Tx(a, Acked)];
      if s.answer(g, a) != Acked then r == Run(g + Refusal(s, g, a), 0)
      else if s.answer(g1, c) != Acked then r == Run(g1 + Refusal(s, g1, c), 1)
      else r == Run(g + [Tx(a, Acked), Tx(c, Acked)], 2)
  {
    assert [a, c][..1] == [a] && [a, c][..0] == [] && [a][..0] == [];
    assert Send(s, g, []) == Run(g, 0);
    var p := Put(s, g, a);
    assert Send(s, g, [a]) == Run(p.wire, if p.ok then 1 else 0);
    assert p.ok ==> p.wire == g + [Tx(a, Acked)];
    assert g + [Tx(a, Acked)] + [Tx(c, Acked)] == g + [Tx(a, Acked), Tx(c, Acked)];
  }

  // The opening of every read, for every slave.
  lemma SelectExact(s: Slave, h: History, header: seq<byte>)
    requires |header| == 3
    ensures Select(s, h, header[0], header[1], header[2]) ==
      if Addressed(s, h, header) then Result(AddressedBus(s, h, header), true)
      else Result(RefusedBus(s, h, header), false)
  {
    StartUpExact(s, h);
    var lost := Losses(s, h, 0);
    if lost < 5 {
      var g := h + LostStarts(lost) + [Start];
      TwoSent(s, g, header[0], header[1]);
      var sent := [Tx(header[0], Acked), Tx(header[1], Acked)];
      assert g + sent + [Restart] == g + [Tx(header[0], Acked), Tx(header[1], Acked), Restart];
      var g2 := g + [Tx(header[0], Acked), Tx(header[1], Acked), Restart];
      assert g2 + [Tx(header[2], Acked)] == AddressedBus(s, h, header);
      assert Put(s, g2, header[2]).wire == g2 + Refusal(s, g2, header[2]);
    }
  }

  // On a bus where all goes well.
  lemma ObligingAddressed(s: Slave, h: History, header: seq<byte>)
    requires |header| == 3 && s.Obliging(h)
    ensures Addressed(s, h, header)
    ensures AddressedBus(s, h, header) ==
      h + [Start, Tx(header[0], Acked), Tx(header[1], Acked), Restart, Tx(header[2], Acked)]
  {
  }

  lemma {:induction false} SendGrows(s: Slave, h: History, bytes: seq<byte>)
    ensures h <= Send(s, h, bytes).wire
  {
    if bytes != [] {
      SendGrows(s, h, bytes[..|bytes| - 1]);
    }
  }

  lemma TransactionGrows(s: Slave, h: History, bytes: seq<byte>)
    ensures h < WriteTransaction(s, h, bytes).wire
  {
    var lost := StartUpShape(s, h, 0);
    SendGrows(s, StartUp(s, h, 0).wire, bytes);
  }

  lemma SelectGrows(s: Slave, h: History, address: byte, command: byte, readAddress: byte)
    ensures |Select(s, h, address, command, readAddress).wire| > |h|
  {
    var lost := StartUpShape(s, h, 0);
    SendGrows(s, StartUp(s, h, 0).wire, [address, command]);
  }

  lemma {:induction false} StartUpOpen(s: Slave, h: History, tries: nat)
    requires tries <= I2C_MAX_RETRIES
    ensures Open(StartUp(s, h, tries).wire) == (StartUp(s, h, tries).ok || Open(h))
    decreases I2C_MAX_RETRIES - tries
  {
    if tries < I2C_MAX_RETRIES {
      OpenClosed(h, LostStart);
      OpenClosed(h, Start);
      if s.losesStart(h) {
        StartUpOpen(s, h + [LostStart], tries + 1);
      }
    }
  }

  // Every write transaction ends with the bus released.
  lemma WriteTransactionCloses(s: Slave, h: History)
    ensures forall bytes: seq<byte> :: !Open(WriteTransaction(s, h, bytes).wire)
  {
  }

  // ----- Properties of what is received

  lemma {:induction false} StreamPrefix(s: Slave, h: History, m: nat, n: nat)
    requires m <= n
    ensures Stream(s, h, n)[..m] == Stream(s, h, m)
  {
    if m < n {
      StreamPrefix(s, h, m, n - 1);
      assert Stream(s, h, n)[..m] == Stream(s, h, n - 1)[..m];
    } else {
      assert Stream(s, h, n)[..n] == Stream(s, h, n);
    }
  }

  lemma StreamAt(s: Slave, h: History, i: nat, n: nat)
    requires i < n
    ensures Stream(s, h, n)[i] == Stream(s, h, i + 1)[i]
  {
    StreamPrefix(s, h, i + 1, n);
  }

  lemma StreamNext(s: Slave, h: History, k: nat, nacked: bool)
    ensures var b := NextByte(s, h + AckedReads(Stream(s, h, k)));
      Stream(s, h, k + 1) == Stream(s, h, k) + [b] &&
      h + Reads(Stream(s, h, k + 1), nacked) == (h + AckedReads(Stream(s, h, k))) + [Rx(b, !nacked)]
  {
  }

  // What the slave sends after m acknowledged bytes is the rest of what it sends anyway.
  lemma {:induction false} StreamShift(s: Slave, h: History, m: nat, n: nat)
    ensures Stream(s, h + AckedReads(Stream(s, h, m)), n) == Stream(s, h, m + n)[m..]
  {
    if n > 0 {
      StreamShift(s, h, m, n - 1);
      StreamPrefix(s, h, m, m + n - 1);
      var front := Stream(s, h, m + n - 1);
      assert h + AckedReads(Stream(s, h, m)) + AckedReads(front[m..]) == h + AckedReads(front);
    }
  }

  lemma OpenClosed(h: History, e: Event)
    ensures Open(h + [e]) <==> e == Start || e == Restart || (e != Stop && Open(h))
  {
  }
}
