/**
 * The receiver of the I2C engine with its one-byte lookahead, for slaves that answer and
 * for slaves that do not.
 */
module Reception {
  import opened Bytes
  import opened Wire

  // The bus, the last byte clocked in, and LASTRD.
  datatype Engine = Engine(wire: History, i2dat: byte, lastrd: bool)

  // A byte clocked in, refused if LASTRD is set.  done: it came in time.
  datatype Clocked = Clocked(e: Engine, done: bool)

  function Clock(s: Slave, e: Engine): Clocked {
    match s.next(e.wire)
    case Some(v) => Clocked(Engine(e.wire + [Rx(v, !e.lastrd)], v, false), true)
    case None => Clocked(e.(wire := e.wire + [Hang]), false)
  }

  function Halted(e: Engine): Engine {
    e.(wire := e.wire + [Stop])
  }

  datatype Received = Received(e: Engine, b: byte)

  // One byte received, with the conditions to be set around it.  Reading the buffered byte
  // clocks the next one in, unless STOP is pending.
  function ByteIn(s: Slave, e: Engine, isFirst: bool, isSingle: bool, isBeforeLast: bool, isLast: bool): Received {
    var e := if isSingle then e.(lastrd := true) else e;
    var c := if isFirst then Clock(s, e) else Clocked(e, true);
    if !c.done then Received(Halted(c.e), 0)
    else
      var e := if isLast then Halted(c.e) else c.e;
      var e := if isBeforeLast then e.(lastrd := true) else e;
      if isLast then Received(e, e.i2dat)
      else
        var n := Clock(s, e);
        if n.done then Received(n.e, e.i2dat) else Received(Halted(n.e), 0)
  }

  datatype Taken = Taken(e: Engine, got: seq<byte>)

  // Byte i of a read of j bytes.  first: nothing has been clocked in ahead; last: the
  // transfer is to end with these bytes.
  function TakeNext(s: Slave, t: Taken, first: bool, last: bool, j: nat, i: nat): Taken {
    var isFirst := first && i == 0;
    var r := ByteIn(s, t.e, isFirst, isFirst && j == 1, last && i == j - 2, last && i == j - 1);
    Taken(r.e, t.got + [r.b])
  }

  // The first i bytes.
  function Take(s: Slave, e: Engine, first: bool, last: bool, j: nat, i: nat): (t: Taken)
    requires i <= j
    ensures |t.got| == i
  {
    if i == 0 then Taken(e, []) else TakeNext(s, Take(s, e, first, last, j, i - 1), first, last, j, i - 1)
  }

  // ----- The bus while a slave answers

  // k bytes have been clocked in since h, the last of them refused if nacked.
  predicate Reading(s: Slave, e: Engine, h: History, k: nat, nacked: bool)
    requires nacked ==> k > 0
  {
    && !e.lastrd
    && e.wire == h + Reads(Stream(s, h, k), nacked)
    && (k > 0 ==> e.i2dat == Stream(s, h, k)[k - 1])
  }

  // Whether the last byte of a read is refused: LASTRD has to be set a byte ahead, which a
  // read of a single byte can do only if it is also the first.
  predicate Refused(first: bool, j: nat) {
    j != 1 || first
  }

  // The bus after a read of j bytes that ends the transfer, or that is refused its only
  // byte, k bytes having been delivered since h.
  function ReadEnd(s: Slave, h: History, k: nat, first: bool, last: bool, j: nat): History
    requires j > 0 && (last || (first && j == 1))
  {
    if last then
      h + Reads(Stream(s, h, k + j), Refused(first, j)) + [Stop]
    else
      h + FinalReads(Stream(s, h, 1)) + [Rx(NextByte(s, h + FinalReads(Stream(s, h, 1))), true)]
  }

  // The bus inside a read that asks for j bytes, k having been delivered before it, after i
  // of them.
  predicate Streaming(s: Slave, e: Engine, h: History, k: nat, first: bool, last: bool, j: nat, i: nat)
    requires i <= j
  {
    if i == 0 then Reading(s, e, h, if first then 0 else k + 1, false) && (first ==> k == 0)
    else if i < j then Reading(s, e, h, k + i + 1, last && i == j - 1)
    else if last || (first && j == 1) then !e.lastrd && e.wire == ReadEnd(s, h, k, first, last, j)
    else Reading(s, e, h, k + j + 1, false)
  }

  function Window(s: seq<byte>, k: nat, n: nat): seq<byte>
    requires k + n <= |s|
  {
    s[k..k + n]
  }

  // The next byte is clocked in.
  lemma ClockNext(s: Slave, e: Engine, h: History, k: nat)
    requires s.Responsive() && e.wire == h + AckedReads(Stream(s, h, k))
    ensures Clock(s, e).done && Reading(s, Clock(s, e).e, h, k + 1, e.lastrd)
  {
    StreamNext(s, h, k, e.lastrd);
  }

  // The only byte of a transfer; it is refused even if the transfer is not to end there.
  lemma ByteInOnly(s: Slave, e: Engine, h: History, isLast: bool)
    requires s.Responsive() && Reading(s, e, h, 0, false)
    ensures var r := ByteIn(s, e, true, true, false, isLast);
      var wire := h + FinalReads(Stream(s, h, 1));
      r.b == Stream(s, h, 1)[0] && !r.e.lastrd &&
      r.e.wire == wire + [if isLast then Stop else Rx(NextByte(s, wire), true)]
  {
    ClockNext(s, e.(lastrd := true), h, 0);
  }

  // The first of several bytes.
  lemma ByteInFirst(s: Slave, e: Engine, h: History, isBeforeLast: bool)
    requires s.Responsive() && Reading(s, e, h, 0, false)
    ensures var r := ByteIn(s, e, true, false, isBeforeLast, false);
      Reading(s, r.e, h, 2, isBeforeLast) && r.b == Stream(s, h, 1)[0]
  {
    ClockNext(s, e, h, 0);
    var e' := Clock(s, e).e;
    ClockNext(s, if isBeforeLast then e'.(lastrd := true) else e', h, 1);
  }

  // A byte that was clocked in ahead.
  lemma ByteInNext(s: Slave, e: Engine, h: History, i: nat, isBeforeLast: bool)
    requires s.Responsive() && Reading(s, e, h, i + 1, false)
    ensures var r := ByteIn(s, e, false, false, isBeforeLast, false);
      Reading(s, r.e, h, i + 2, isBeforeLast) && r.b == Stream(s, h, i + 1)[i]
  {
    ClockNext(s, if isBeforeLast then e.(lastrd := true) else e, h, i + 1);
  }

  // The last byte, refused or not when it was clocked in.
  lemma ByteInLast(s: Slave, e: Engine)
    ensures ByteIn(s, e, false, false, false, true) == Received(Halted(e), e.i2dat)
  {
  }

  // One byte of a read.
  lemma StreamingStep(s: Slave, e: Engine, h: History, k: nat, first: bool, last: bool, j: nat, i: nat)
    requires s.Responsive() && i < j && Streaming(s, e, h, k, first, last, j, i)
    ensures var isFirst := first && i == 0;
      var r := ByteIn(s, e, isFirst, isFirst && j == 1, last && i == j - 2, last && i == j - 1);
      Streaming(s, r.e, h, k, first, last, j, i + 1) && r.b == Stream(s, h, k + j)[k + i]
  {
    StreamAt(s, h, k + i, k + j);
    if first && i == 0 {
      if j == 1 {
        ByteInOnly(s, e, h, last);
      } else {
        ByteInFirst(s, e, h, last && j == 2);
      }
    } else if last && i == j - 1 {
      ByteInLast(s, e);
    } else {
      ByteInNext(s, e, h, k + i, last && i == j - 2);
    }
  }

  lemma WindowSnoc(s: seq<byte>, k: nat, n: nat)
    requires k + n < |s|
    ensures Window(s, k, n + 1) == Window(s, k, n) + [s[k + n]]
  {
  }

  // What is taken from a slave that answers is its stream, in order.
  predicate Delivers(s: Slave, t: Taken, h: History, k: nat, first: bool, last: bool, j: nat, i: nat)
    requires i <= j
  {
    Streaming(s, t.e, h, k, first, last, j, i) && t.got == Window(Stream(s, h, k + j), k, i)
  }

  lemma TakeNextDelivers(s: Slave, t: Taken, h: History, k: nat, first: bool, last: bool, j: nat, i: nat)
    requires s.Responsive() && i < j && Delivers(s, t, h, k, first, last, j, i)
    ensures Delivers(s, TakeNext(s, t, first, last, j, i), h, k, first, last, j, i + 1)
  {
    StreamingStep(s, t.e, h, k, first, last, j, i);
    WindowSnoc(Stream(s, h, k + j), k, i);
  }

  lemma {:induction false} TakeStreams(s: Slave, e: Engine, h: History, k: nat, first: bool, last: bool, j: nat, i: nat)
    requires s.Responsive() && i <= j && Streaming(s, e, h, k, first, last, j, 0)
    ensures Delivers(s, Take(s, e, first, last, j, i), h, k, first, last, j, i)
  {
    if i > 0 {
      TakeStreams(s, e, h, k, first, last, j, i - 1);
      TakeNextDelivers(s, Take(s, e, first, last, j, i - 1), h, k, first, last, j, i - 1);
    }
  }

  // A whole transfer: n bytes, only the last of them refused, and STOP.
  lemma TakeAll(s: Slave, e: Engine, n: nat)
    requires s.Responsive() && !e.lastrd && n > 0
    ensures var t := Take(s, e, true, true, n, n);
      && t.got == Stream(s, e.wire, n)
      && !t.e.lastrd && t.e.wire == e.wire + FinalReads(Stream(s, e.wire, n)) + [Stop]
  {
    assert e.wire + AckedReads([]) == e.wire;
    TakeStreams(s, e, e.wire, 0, true, true, n, n);
  }

  // ----- Any slave

  // A byte received, event by event: the buffered byte, or the first one clocked in, is the
  // result, and the next one is clocked in behind it unless STOP comes; a byte that does not
  // come in time makes the result 0, and STOP follows.
  lemma ByteInExact(s: Slave, e: Engine, isFirst: bool, isSingle: bool, isBeforeLast: bool, isLast: bool)
    ensures var r := ByteIn(s, e, isFirst, isSingle, isBeforeLast, isLast);
      var refused := e.lastrd || isSingle;
      if !isFirst && isLast then r.b == e.i2dat && r.e.wire == e.wire + [Stop]
      else match s.next(e.wire)
        case None => r.b == 0 && r.e.wire == e.wire + [Hang, Stop]
        case Some(v) =>
          var h := e.wire + [Rx(v, !refused)];
          if !isFirst then
            r.b == e.i2dat && r.e == Engine(e.wire + [Rx(v, !(refused || isBeforeLast))], v, false)
          else if isLast then r.b == v && r.e.wire == h + [Stop]
          else match s.next(h)
            case None => r.b == 0 && r.e.wire == h + [Hang, Stop]
            case Some(w) => r.b == v && r.e == Engine(h + [Rx(w, !isBeforeLast)], w, false)
  {
  }

  // Transfers of one, two and three bytes, written out.
  lemma TakeTwo(s: Slave, e: Engine)
    ensures var only := ByteIn(s, e, true, true, false, true);
      Take(s, e, true, true, 1, 1) == Taken(only.e, [only.b])
    ensures var first := ByteIn(s, e, true, false, true, false);
      var second := ByteIn(s, first.e, false, false, false, true);
      Take(s, e, true, true, 2, 2) == Taken(second.e, [first.b, second.b])
  {
    assert Take(s, e, true, true, 1, 0) == Take(s, e, true, true, 2, 0) == Taken(e, []);
    var first := ByteIn(s, e, true, false, true, false);
    assert Take(s, e, true, true, 2, 1) == Taken(first.e, [first.b]);
  }

  lemma TakeThree(s: Slave, e: Engine)
    ensures var first := ByteIn(s, e, true, false, false, false);
      var second := ByteIn(s, first.e, false, false, true, false);
      var third := ByteIn(s, second.e, false, false, false, true);
      Take(s, e, true, true, 3, 3) == Taken(third.e, [first.b, second.b, third.b])
  {
    var first := ByteIn(s, e, true, false, false, false);
    var second := ByteIn(s, first.e, false, false, true, false);
    assert Take(s, e, true, true, 3, 0) == Taken(e, []);
    assert Take(s, e, true, true, 3, 1) == Taken(first.e, [first.b]);
    assert Take(s, e, true, true, 3, 2) == Taken(second.e, [first.b, second.b]);
  }

  lemma TakeOne(s: Slave, e: Engine, j: nat)
    requires j > 2
    ensures var first := ByteIn(s, e, true, false, false, false);
      Take(s, e, true, true, j, 1) == Taken(first.e, [first.b])
  {
    assert Take(s, e, true, true, j, 0) == Taken(e, []);
  }

  // The first byte of a read of several.
  lemma {:induction false} TakeFirst(s: Slave, e: Engine, last: bool, j: nat, i: nat)
    requires j > 2 && 0 < i <= j
    ensures Take(s, e, true, last, j, i).got[0] == ByteIn(s, e, true, false, false, false).b
  {
    if i > 1 {
      TakeFirst(s, e, last, j, i - 1);
    } else {
      assert Take(s, e, true, last, j, 0) == Taken(e, []);
    }
  }

  // A byte that is not 0 is one the slave has sent.
  lemma FirstByteSent(s: Slave, e: Engine)
    requires ByteIn(s, e, true, false, false, false).b != 0
    ensures s.next(e.wire) == Some(ByteIn(s, e, true, false, false, false).b)
  {
  }

  lemma ClockOpen(s: Slave, e: Engine)
    ensures Open(Clock(s, e).e.wire) == Open(e.wire)
  {
    match s.next(e.wire)
    case Some(v) => OpenClosed(e.wire, Rx(v, !e.lastrd));
    case None => OpenClosed(e.wire, Hang);
  }

  lemma HaltedClosed(e: Engine)
    ensures !Open(Halted(e).wire)
  {
    OpenClosed(e.wire, Stop);
  }

  // Every byte that has to be clocked in comes in time.
  predicate Arrives(s: Slave, e: Engine, isFirst: bool, isSingle: bool, isBeforeLast: bool, isLast: bool) {
    var e := if isSingle then e.(lastrd := true) else e;
    var c := if isFirst then Clock(s, e) else Clocked(e, true);
    c.done && (isLast || Clock(s, if isBeforeLast then c.e.(lastrd := true) else c.e).done)
  }

  // The last byte, or one that does not come in time, releases the bus, and nothing else does;
  // nothing in a reception holds it.
  lemma ByteInOpen(s: Slave, e: Engine, isFirst: bool, isSingle: bool, isBeforeLast: bool, isLast: bool)
    ensures var r := ByteIn(s, e, isFirst, isSingle, isBeforeLast, isLast);
      && (Open(r.e.wire) <==> Open(e.wire) && !isLast && Arrives(s, e, isFirst, isSingle, isBeforeLast, isLast))
      && (r.b != 0 && !isLast ==> Arrives(s, e, isFirst, isSingle, isBeforeLast, isLast))
  {
    var e1 := if isSingle then e.(lastrd := true) else e;
    ClockOpen(s, e1);
    var c := if isFirst then Clock(s, e1) else Clocked(e1, true);
    HaltedClosed(c.e);
    var e2 := if isBeforeLast then c.e.(lastrd := true) else c.e;
    ClockOpen(s, e2);
    HaltedClosed(Clock(s, e2).e);
  }

  lemma {:induction false} TakeOpen(s: Slave, e: Engine, first: bool, last: bool, j: nat, i: nat)
    requires i <= j
    ensures Open(Take(s, e, first, last, j, i).e.wire) ==> Open(e.wire) && !(last && 0 < i == j)
  {
    if i > 0 {
      TakeOpen(s, e, first, last, j, i - 1);
      var t := Take(s, e, first, last, j, i - 1);
      var isFirst := first && i == 1;
      ByteInOpen(s, t.e, isFirst, isFirst && j == 1, last && i - 1 == j - 2, last && i - 1 == j - 1);
    }
  }

  lemma ByteInGrows(s: Slave, e: Engine, isFirst: bool, isSingle: bool, isBeforeLast: bool, isLast: bool)
    ensures e.wire <= ByteIn(s, e, isFirst, isSingle, isBeforeLast, isLast).e.wire
  {
  }

  lemma {:induction false} TakeGrows(s: Slave, e: Engine, first: bool, last: bool, j: nat, i: nat)
    requires i <= j
    ensures e.wire <= Take(s, e, first, last, j, i).e.wire
  {
    if i > 0 {
      TakeGrows(s, e, first, last, j, i - 1);
      var t := Take(s, e, first, last, j, i - 1);
      var isFirst := first && i == 1;
      ByteInGrows(s, t.e, isFirst, isFirst && j == 1, last && i - 1 == j - 2, last && i - 1 == j - 1);
    }
  }
}
