/**
 * Runs of vendor commands: what each finds and leaves, when the bus is still held in the
 * end, what the running PEC covers and what the PEC failure flag tells.
 */
module Runs {
  import opened Bytes
  import opened Pec
  import opened Wire
  import opened Reception
  import opened BlockBuffer
  import opened BlockRead
  import opened Transfer
  import opened PecNotes
  import opened Commands

  // A control transfer: SETUP fields, the data stage if any, and the ticks before it.
  datatype Request = Request(cmd: byte, value: word, index: word, data: seq<byte>, ticks: nat)

  predicate Fitting(r: Request) {
    |r.data| <= PACKET && (IsPartial(r.cmd) ==> r.value <= PACKET)
  }

  // What a request makes of a situation before it is handled.
  function Presented(a: Situation, r: Request): (b: Situation)
    ensures a.Valid() && |r.data| <= PACKET ==> b.Valid()
  {
    a.(ep0 := r.data + a.ep0[Min(|r.data|, |a.ep0|)..], count := (a.count + r.ticks) % 0x1_0000)
  }

  // What a command has found and what it has left.
  datatype Turn = Turn(found: Situation, left: Situation)

  // r comes after a.
  predicate Follows(s: Slave, a: Situation, r: Request, t: Turn) {
    && a.Valid() && t.left.Valid() && Fitting(r) && t.found == Presented(a, r)
    && Leaves(s, t.found, r.cmd, r.value, r.index, t.left)
    && t.left.mrqPec == PecOf(Covered(t.left.notes))
  }

  // Where the first n turns of a log have led.
  function After(start: Situation, log: seq<Turn>, n: nat): Situation
    requires n <= |log|
  {
    if n == 0 then start else log[n - 1].left
  }

  function End(start: Situation, log: seq<Turn>): Situation {
    After(start, log, |log|)
  }

  // Every command finds what the one before it has left, the data stage, and the ticks that
  // have passed; the running PEC is always that of the bytes the notes cover.
  predicate IsRun(s: Slave, start: Situation, log: seq<Turn>, requests: seq<Request>) {
    && |log| == |requests| && start.Valid()
    && forall i | 0 <= i < |log| :: InTurn(s, start, log, requests, i)
  }

  predicate InTurn(s: Slave, start: Situation, log: seq<Turn>, requests: seq<Request>, i: nat)
    requires i < |log| == |requests|
  {
    Follows(s, After(start, log, i), requests[i], log[i])
  }

  lemma RunFollows(s: Slave, start: Situation, log: seq<Turn>, requests: seq<Request>, i: nat)
    requires IsRun(s, start, log, requests) && i < |log|
    ensures Follows(s, After(start, log, i), requests[i], log[i])
  {
    assert InTurn(s, start, log, requests, i);
  }

  // One more command.
  lemma RunSnoc(s: Slave, start: Situation, log: seq<Turn>, requests: seq<Request>, r: Request, t: Turn)
    requires IsRun(s, start, log, requests) && Follows(s, End(start, log), r, t)
    ensures IsRun(s, start, log + [t], requests + [r])
  {
    var n, moreLog, moreRequests := |log|, log + [t], requests + [r];
    assert moreLog[n] == t && moreRequests[n] == r;
    forall i | 0 <= i < n + 1
      ensures InTurn(s, start, moreLog, moreRequests, i)
    {
      assert After(start, moreLog, i) == After(start, log, i);
      if i < n {
        RunFollows(s, start, log, requests, i);
        assert moreLog[i] == log[i] && moreRequests[i] == requests[i];
      }
    }
  }

  lemma RunPrefix(s: Slave, start: Situation, log: seq<Turn>, requests: seq<Request>, n: nat)
    requires IsRun(s, start, log, requests) && n <= |log|
    ensures IsRun(s, start, log[..n], requests[..n]) && End(start, log[..n]) == After(start, log, n)
  {
    forall i | 0 <= i < n
      ensures InTurn(s, start, log[..n], requests[..n], i)
    {
      assert After(start, log[..n], i) == After(start, log, i);
      RunFollows(s, start, log, requests, i);
    }
  }

  // ----- The bus

  // Command k has found the bus free and holds it.
  predicate HoldsAt(s: Slave, log: seq<Turn>, requests: seq<Request>, k: nat)
    requires k < |log| == |requests|
  {
    var a, r := log[k].found, requests[k];
    a.Valid() && Fitting(r) && !Open(a.bus.wire) && Holds(s, a, r.cmd, r.value, r.index)
  }

  // It has been held ever since, up to turn n.
  predicate HeldFrom(s: Slave, log: seq<Turn>, requests: seq<Request>, k: nat, n: nat)
    requires n <= |log| == |requests|
  {
    k < n && HoldsAt(s, log, requests, k) && forall i | k <= i < n :: Open(log[i].left.bus.wire)
  }

  lemma TurnHolds(s: Slave, start: Situation, log: seq<Turn>, requests: seq<Request>, i: nat)
    requires IsRun(s, start, log, requests) && i < |log| && Open(log[i].left.bus.wire)
    ensures Open(After(start, log, i).bus.wire) || HoldsAt(s, log, requests, i)
  {
    RunFollows(s, start, log, requests, i);
    var r := requests[i];
    CommandReleases(s, log[i].found, r.cmd, r.value, r.index);
  }

  // Whoever finds the bus held after a run that found it free can name the command that has
  // held it ever since.
  lemma {:induction false} HeldSince(s: Slave, start: Situation, log: seq<Turn>, requests: seq<Request>, n: nat)
      returns (k: nat)
    requires IsRun(s, start, log, requests) && n <= |log|
    requires !Open(start.bus.wire) && Open(After(start, log, n).bus.wire)
    ensures HeldFrom(s, log, requests, k, n)
  {
    k := n - 1;
    TurnHolds(s, start, log, requests, k);
    if !HoldsAt(s, log, requests, k) {
      k := HeldSince(s, start, log, requests, k);
    }
  }

  // ----- The PEC failure flag

  // A read whose PEC was wrong.
  predicate Mismatched(s: Slave, a: Situation, r: Request) {
    var header := HeaderOf(r.value, r.index);
    if r.cmd == SMB_READ_BLOCK then
      Owed(AfterPause(a.store, a.count)) <= 0 && Fetched(s, a.bus, a.pec, header).mismatch
    else
      IsRead(r.cmd) && FixedRead(s, a.bus, a.pec, header, if r.cmd == SMB_READ_BYTE then 1 else 2).mismatch
  }

  // What a command adds to the notes is nothing, a note, or what a partial write leaves.
  predicate FewNotes(more: seq<Note>) {
    |more| <= 1 || (|more| == 2 && more[0] == Cleared && more[1].Folded?)
  }

  lemma FailedMore(notes: seq<Note>, more: seq<Note>)
    requires FewNotes(more)
    ensures Failed(notes + more) <==> more == [Mismatch] || (more != [Queried] && Failed(notes))
  {
    if more == [] {
      assert notes + more == notes;
    } else if |more| == 1 {
      Snoc(notes, more[0]);
    } else {
      assert notes + more == (notes + [more[0]]) + [more[1]];
      Snoc(notes, more[0]);
      Snoc(notes + [more[0]], more[1]);
    }
  }

  lemma FailedBy(s: Slave, a: Situation, r: Request)
    requires a.Valid() && Fitting(r)
    ensures Failed(a.notes + EffectOf(s, a, r.cmd, r.value, r.index).notes) <==>
      Mismatched(s, a, r) || (r.cmd != SMB_GET_CLEAR_PEC_FAIL && Failed(a.notes))
  {
    FailedMore(a.notes, EffectOf(s, a, r.cmd, r.value, r.index).notes);
  }

  lemma FailedStep(s: Slave, a: Situation, r: Request, t: Turn)
    requires Follows(s, a, r, t)
    ensures Failed(t.left.notes) <==>
      Mismatched(s, t.found, r) || (r.cmd != SMB_GET_CLEAR_PEC_FAIL && Failed(a.notes))
  {
    FailedBy(s, t.found, r);
  }

  predicate NoneFrom(marks: seq<bool>, from: nat) {
    forall i | from <= i < |marks| :: !marks[i]
  }

  // A flag that is raised and lowered by events.
  lemma {:induction false} Latched(up: seq<bool>, raised: seq<bool>, lowered: seq<bool>)
    requires |up| == |raised| + 1 == |lowered| + 1
    requires forall i | 0 <= i < |raised| :: up[i + 1] == (raised[i] || (!lowered[i] && up[i]))
    ensures up[|raised|] <==>
      (up[0] && NoneFrom(lowered, 0)) || exists k | 0 <= k < |raised| :: raised[k] && NoneFrom(lowered, k + 1)
  {
    if raised != [] {
      var n := |raised| - 1;
      Latched(up[..n + 1], raised[..n], lowered[..n]);
      assert forall k: nat | k <= n :: NoneFrom(lowered, k) <==> NoneFrom(lowered[..n], k) && !lowered[n];
    }
  }

  function Mismatches(s: Slave, log: seq<Turn>, requests: seq<Request>): seq<bool>
    requires |log| == |requests|
  {
    seq(|requests|, i requires 0 <= i < |requests| => Mismatched(s, log[i].found, requests[i]))
  }

  predicate Asks(r: Request) {
    r.cmd == SMB_GET_CLEAR_PEC_FAIL
  }

  function Queries(requests: seq<Request>): seq<bool> {
    seq(|requests|, i requires 0 <= i < |requests| => Asks(requests[i]))
  }

  lemma FlagIn(s: Slave, start: Situation, log: seq<Turn>, requests: seq<Request>, i: nat)
    requires IsRun(s, start, log, requests) && i < |requests|
    ensures Failed(log[i].left.notes) ==
      (Mismatches(s, log, requests)[i] || (!Queries(requests)[i] && Failed(After(start, log, i).notes)))
  {
    RunFollows(s, start, log, requests, i);
    FailedStep(s, After(start, log, i), requests[i], log[i]);
  }

  // There has been a read with a wrong PEC and no query since; one from before the run counts
  // while there has been no query at all.
  predicate FlagUp(s: Slave, start: Situation, log: seq<Turn>, requests: seq<Request>)
    requires |log| == |requests|
  {
    var wrong, asked := Mismatches(s, log, requests), Queries(requests);
    || (Failed(start.notes) && NoneFrom(asked, 0))
    || exists k | 0 <= k < |requests| :: wrong[k] && NoneFrom(asked, k + 1)
  }

  function Flags(start: Situation, log: seq<Turn>): seq<bool> {
    seq(|log| + 1, i requires 0 <= i <= |log| => Failed(After(start, log, i).notes))
  }

  lemma FlagsIn(s: Slave, start: Situation, log: seq<Turn>, requests: seq<Request>, i: nat)
    requires IsRun(s, start, log, requests) && i < |requests|
    ensures Flags(start, log)[i + 1] ==
      (Mismatches(s, log, requests)[i] || (!Queries(requests)[i] && Flags(start, log)[i]))
  {
    FlagIn(s, start, log, requests, i);
  }

  // That is what the flag tells after a run.
  lemma FlagOfRun(s: Slave, start: Situation, log: seq<Turn>, requests: seq<Request>)
    requires IsRun(s, start, log, requests)
    ensures Failed(End(start, log).notes) <==> FlagUp(s, start, log, requests)
  {
    var up, wrong, asked := Flags(start, log), Mismatches(s, log, requests), Queries(requests);
    forall i | 0 <= i < |requests|
      ensures up[i + 1] == (wrong[i] || (!asked[i] && up[i]))
    {
      FlagsIn(s, start, log, requests, i);
    }
    Latched(up, wrong, asked);
  }

  // The commands that may find a wrong PEC.
  predicate MayMismatch(r: Request) {
    IsRead(r.cmd) || r.cmd == SMB_READ_BLOCK
  }

  // Commands that do neither leave the flag alone.
  lemma {:induction false} FlagKept(s: Slave, start: Situation, log: seq<Turn>, requests: seq<Request>, l: nat, n: nat)
    requires IsRun(s, start, log, requests) && l <= n <= |log|
    requires forall i | l <= i < n :: !MayMismatch(requests[i]) && !Asks(requests[i])
    ensures Failed(After(start, log, n).notes) == Failed(After(start, log, l).notes)
  {
    if l < n {
      FlagKept(s, start, log, requests, l, n - 1);
      FlagIn(s, start, log, requests, n - 1);
    }
  }

  // Command l is the last read of a run, and the flag has not been asked for since.  The flag
  // tells of that read, as documented, if and only if its PEC was wrong or the flag was down
  // when it came.
  lemma FlagTells(s: Slave, start: Situation, log: seq<Turn>, requests: seq<Request>, l: nat)
    requires IsRun(s, start, log, requests) && l < |log| && !Asks(requests[l])
    requires forall i | l < i < |log| :: !MayMismatch(requests[i]) && !Asks(requests[i])
    ensures var wrong := Mismatched(s, log[l].found, requests[l]);
      (Failed(End(start, log).notes) <==> wrong) <==> wrong || !Failed(After(start, log, l).notes)
  {
    FlagKept(s, start, log, requests, l + 1, |log|);
    FlagIn(s, start, log, requests, l);
  }

  // Between any two reads the flag is asked for.
  predicate Separated(requests: seq<Request>) {
    forall i, j | 0 <= i < j < |requests| && MayMismatch(requests[i]) && MayMismatch(requests[j]) ::
      exists q | i < q < j :: Asks(requests[q])
  }

  // That is enough for it to tell of the last read.
  lemma QueriesSuffice(s: Slave, start: Situation, log: seq<Turn>, requests: seq<Request>, l: nat)
    requires IsRun(s, start, log, requests) && l < |log| && !Failed(start.notes)
    requires MayMismatch(requests[l]) && Separated(requests)
    requires forall i | l < i < |log| :: !MayMismatch(requests[i]) && !Asks(requests[i])
    ensures Failed(End(start, log).notes) <==> Mismatched(s, log[l].found, requests[l])
  {
    FlagTells(s, start, log, requests, l);
    RunPrefix(s, start, log, requests, l);
    FlagOfRun(s, start, log[..l], requests[..l]);
    DownBefore(s, log, requests, l);
  }

  lemma DownBefore(s: Slave, log: seq<Turn>, requests: seq<Request>, l: nat)
    requires l < |log| == |requests| && MayMismatch(requests[l]) && Separated(requests)
    ensures var wrong, asked := Mismatches(s, log[..l], requests[..l]), Queries(requests[..l]);
      !exists k | 0 <= k < l :: wrong[k] && NoneFrom(asked, k + 1)
  {
    var wrong, asked := Mismatches(s, log[..l], requests[..l]), Queries(requests[..l]);
    forall k | 0 <= k < l && wrong[k]
      ensures !NoneFrom(asked, k + 1)
    {
      assert MayMismatch(requests[k]);
      var q :| k < q < l && Asks(requests[q]);
      assert asked[q];
    }
  }

  // A read of a byte or a word can always follow.
  lemma ReadTurn(s: Slave, a: Situation, r: Request) returns (t: Turn)
    requires a.Valid() && Fitting(r) && IsRead(r.cmd) && a.mrqPec == PecOf(Covered(a.notes))
    ensures Follows(s, a, r, t) && t.found == Presented(a, r) && t.left.pec == a.pec
    ensures var n := if r.cmd == SMB_READ_BYTE then 1 else 2;
      t.left.bus == FixedRead(s, a.bus, a.pec, HeaderOf(r.value, r.index), n).bus
  {
    var found := Presented(a, r);
    var o := EffectOf(s, found, r.cmd, r.value, r.index);
    t := Turn(found, found.(bus := o.bus, notes := found.notes + o.notes, ep0 := o.reply + found.ep0[|o.reply|..]));
    CoveredBy(s, found, r);
    assert Covered(a.notes) + [] == Covered(a.notes);
  }

  function Other(pec: byte): (r: byte)
    ensures r != pec
  {
    (pec + 1) % 0x100
  }

  // A slave that is read twice: a wrong PEC first, and the right one for a byte 0 then.
  ghost predicate WrongOnce(s: Slave, pec: byte) {
    && s.Obliging([])
    && forall g :: s.next(g) == Some(if |g| == 5 || |g| == 14 then 0 else if |g| == 6 then Other(pec) else pec)
  }

  lemma WrongOnceExists(pec: byte) returns (s: Slave)
    ensures WrongOnce(s, pec) && s.Responsive()
  {
    s := Slave(_ => false, (_, _) => Acked, (g: History) =>
      Some(if |g| == 5 || |g| == 14 then 0 else if |g| == 6 then Other(pec) else pec));
  }

  lemma TwoBytes(s: Slave, h: History, pec: byte)
    requires WrongOnce(s, pec) && (|h| == 5 || |h| == 14)
    ensures Stream(s, h, 2) == [0, if |h| == 5 then Other(pec) else pec]
  {
    assert Stream(s, h, 0) == [] && |h + AckedReads([])| == |h|;
    assert Stream(s, h, 1) == [0] && |h + AckedReads([0])| == |h| + 1;
  }

  // A read of a byte x whose PEC comes as y.
  lemma ReadOfTwo(s: Slave, e: Engine, header: seq<byte>, x: byte, y: byte)
    requires |header| == 3 && s.Responsive() && !e.lastrd && Addressed(s, e.wire, header)
    requires Stream(s, AddressedBus(s, e.wire, header), 2) == [x, y]
    ensures var f := FixedRead(s, e, true, header, 1);
      && f.mismatch == (y != PecOf(header + [x])) && !f.bus.lastrd
      && |f.bus.wire| == |AddressedBus(s, e.wire, header)| + if f.mismatch then 4 else 3
  {
    FixedReadStream(s, e, true, header, 1);
    assert [x, y][..1] == [x];
  }

  // Where the slave is read twice, and what it sends there.
  lemma TwoSelections(s: Slave, h: History, header: seq<byte>, pec: byte)
    requires |header| == 3 && WrongOnce(s, pec) && (|h| == 0 || |h| == 9)
    ensures var g := AddressedBus(s, h, header);
      Addressed(s, h, header) && |g| == |h| + 5 && Stream(s, g, 2) == [0, if h == [] then Other(pec) else pec]
  {
    assert [] <= h;
    ObligingAddressed(s, h, header);
    TwoBytes(s, AddressedBus(s, h, header), pec);
  }

  lemma WrongRead(s: Slave, e: Engine, header: seq<byte>)
    requires |header| == 3 && WrongOnce(s, PecOf(header + [0])) && s.Responsive()
    requires !e.lastrd && (|e.wire| == 0 || |e.wire| == 9)
    ensures var f := FixedRead(s, e, true, header, 1);
      (f.mismatch <==> e.wire == []) && !f.bus.lastrd && (e.wire == [] ==> |f.bus.wire| == 9)
  {
    var pec := PecOf(header + [0]);
    TwoSelections(s, e.wire, header, pec);
    ReadOfTwo(s, e, header, 0, if e.wire == [] then Other(pec) else pec);
  }

  lemma WrongThenRight(s: Slave, header: seq<byte>)
    requires |header| == 3 && WrongOnce(s, PecOf(header + [0])) && s.Responsive()
    ensures var first := FixedRead(s, Engine([], 0, false), true, header, 1);
      first.mismatch && !FixedRead(s, first.bus, true, header, 1).mismatch
  {
    WrongRead(s, Engine([], 0, false), header);
    WrongRead(s, FixedRead(s, Engine([], 0, false), true, header, 1).bus, header);
  }

  // So the flag may be up after a read whose PEC was right.
  lemma StickyFlag() returns (s: Slave, start: Situation, log: seq<Turn>, requests: seq<Request>)
    ensures IsRun(s, start, log, requests) && |log| == 2 && !Failed(start.notes)
    ensures requests[0].cmd == requests[1].cmd == SMB_READ_BYTE
    ensures !Mismatched(s, log[1].found, requests[1]) && Failed(End(start, log).notes)
  {
    var r := Request(SMB_READ_BYTE, 0x16, 0, [], 0);
    var header := HeaderOf(0x16, 0);
    s := WrongOnceExists(PecOf(header + [0]));
    start := Situation(Engine([], 0, false), true, 0, seq(128, _ => 0), EMPTY, 0, []);
    var t := ReadTurn(s, start, r);
    var t' := ReadTurn(s, t.left, r);
    log, requests := [t, t'], [r, r];
    WrongThenRight(s, header);
    FailedStep(s, start, r, t);
    FailedStep(s, t.left, r, t');
  }

  // ----- The running PEC

  // The bytes of a partial transfer that arrive while PEC is on.
  function Moved(s: Slave, a: Situation, r: Request): seq<byte> {
    if !a.pec then []
    else if r.cmd == SMB_WRITE then
      var bytes := a.ep0[..Min(r.value, |a.ep0|)];
      bytes[..PartlySent(s, a.bus.wire, r.index, bytes)]
    else if r.cmd == SMB_READ then PartialRead(s, a.bus, r.index, r.value, a.pec).got[..r.value]
    else []
  }

  // START of a partial write, PEC switched off, or a reset.
  predicate ClearsPec(a: Situation, r: Request) {
    || (r.cmd == SMB_WRITE && a.pec && StartFirst(r.index))
    || (r.cmd == SMB_ENABLE_PEC && r.value == 0)
    || r.cmd == SMB_RESET_INTERFACE
  }

  lemma CoveredMore(notes: seq<Note>, more: seq<Note>)
    requires FewNotes(more)
    ensures Covered(notes + more) ==
      (if more != [] && more[0] == Cleared then [] else Covered(notes)) +
      (if more != [] && more[|more| - 1].Folded? then more[|more| - 1].bytes else [])
  {
    if more == [] {
      assert notes + more == notes;
    } else if |more| == 1 {
      Snoc(notes, more[0]);
    } else {
      assert notes + more == (notes + [more[0]]) + [more[1]];
      Snoc(notes, more[0]);
      Snoc(notes + [more[0]], more[1]);
    }
  }

  lemma CoveredBy(s: Slave, a: Situation, r: Request)
    requires a.Valid() && Fitting(r)
    ensures Covered(a.notes + EffectOf(s, a, r.cmd, r.value, r.index).notes) ==
      (if ClearsPec(a, r) then [] else Covered(a.notes)) + Moved(s, a, r)
  {
    CoveredMore(a.notes, EffectOf(s, a, r.cmd, r.value, r.index).notes);
  }

  lemma CoveredStep(s: Slave, a: Situation, r: Request, t: Turn)
    requires Follows(s, a, r, t)
    ensures Covered(t.left.notes) == (if ClearsPec(t.found, r) then [] else Covered(a.notes)) + Moved(s, t.found, r)
  {
    CoveredBy(s, t.found, r);
  }

  function Joined(parts: seq<seq<byte>>): seq<byte> {
    if parts == [] then [] else Joined(parts[..|parts| - 1]) + parts[|parts| - 1]
  }

  function Moves(s: Slave, log: seq<Turn>, requests: seq<Request>): seq<seq<byte>>
    requires |log| == |requests|
  {
    seq(|requests|, i requires 0 <= i < |requests| => Moved(s, log[i].found, requests[i]))
  }

  function Clears(log: seq<Turn>, requests: seq<Request>): seq<bool>
    requires |log| == |requests|
  {
    seq(|requests|, i requires 0 <= i < |requests| => ClearsPec(log[i].found, requests[i]))
  }

  lemma {:induction false} Accumulated(all: seq<seq<byte>>, parts: seq<seq<byte>>, cleared: seq<bool>, k: nat)
    requires |all| == |parts| == |cleared| && k < |parts| && all[k] == parts[k] && NoneFrom(cleared, k + 1)
    requires forall i | k < i < |parts| :: cleared[i] || all[i] == all[i - 1] + parts[i]
    ensures all[|parts| - 1] == Joined(parts[k..])
  {
    var n := |parts| - 1;
    if k < n {
      Accumulated(all[..n], parts[..n], cleared[..n], k);
      assert parts[k..][..n - k] == parts[..n][k..];
    } else {
      assert parts[k..] == [parts[k]] && [] + parts[k] == parts[k];
      assert Joined([parts[k]]) == Joined([]) + parts[k];
    }
  }

  lemma MovedIn(s: Slave, start: Situation, log: seq<Turn>, requests: seq<Request>, i: nat)
    requires IsRun(s, start, log, requests) && i < |requests|
    ensures var moved := Moves(s, log, requests)[i];
      Covered(log[i].left.notes) ==
        if Clears(log, requests)[i] then moved else Covered(After(start, log, i).notes) + moved
  {
    RunFollows(s, start, log, requests, i);
    CoveredStep(s, After(start, log, i), requests[i], log[i]);
    assert [] + Moved(s, log[i].found, requests[i]) == Moved(s, log[i].found, requests[i]);
  }

  function Coverages(log: seq<Turn>): seq<seq<byte>> {
    seq(|log|, i requires 0 <= i < |log| => Covered(log[i].left.notes))
  }

  lemma MovedOn(s: Slave, start: Situation, log: seq<Turn>, requests: seq<Request>, i: nat)
    requires IsRun(s, start, log, requests) && i < |requests|
    ensures Clears(log, requests)[i] ==> Coverages(log)[i] == Moves(s, log, requests)[i]
    ensures i > 0 && !Clears(log, requests)[i] ==>
      Coverages(log)[i] == Coverages(log)[i - 1] + Moves(s, log, requests)[i]
  {
    MovedIn(s, start, log, requests, i);
    assert Coverages(log)[i] == Covered(log[i].left.notes);
    if i > 0 {
      assert Coverages(log)[i - 1] == Covered(After(start, log, i).notes);
    }
  }

  lemma CoveredOfRun(s: Slave, start: Situation, log: seq<Turn>, requests: seq<Request>, k: nat)
    requires IsRun(s, start, log, requests) && k < |requests|
    requires Clears(log, requests)[k] && NoneFrom(Clears(log, requests), k + 1)
    ensures Coverages(log)[|log| - 1] == Joined(Moves(s, log, requests)[k..])
  {
    var covered, moves, cleared := Coverages(log), Moves(s, log, requests), Clears(log, requests);
    MovedOn(s, start, log, requests, k);
    forall i | k < i < |log|
      ensures cleared[i] || covered[i] == covered[i - 1] + moves[i]
    {
      MovedOn(s, start, log, requests, i);
    }
    Accumulated(covered, moves, cleared, k);
  }

  // The running PEC is that of the bytes that arrived since it was last cleared, the command
  // that did so included.
  lemma PecOfRun(s: Slave, start: Situation, log: seq<Turn>, requests: seq<Request>, k: nat)
    requires IsRun(s, start, log, requests) && k < |requests|
    requires Clears(log, requests)[k] && NoneFrom(Clears(log, requests), k + 1)
    ensures End(start, log).mrqPec == PecOf(Joined(Moves(s, log, requests)[k..]))
  {
    assert End(start, log) == log[|log| - 1].left;
    PecAt(s, start, log, requests, |log| - 1);
    CoveredOfRun(s, start, log, requests, k);
  }

  lemma PecAt(s: Slave, start: Situation, log: seq<Turn>, requests: seq<Request>, i: nat)
    requires IsRun(s, start, log, requests) && i < |log|
    ensures log[i].left.mrqPec == PecOf(Coverages(log)[i])
  {
    RunFollows(s, start, log, requests, i);
  }
}
