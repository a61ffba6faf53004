/** Uploading an Intel HEX file into the RAM of the FX2, record by record. */
module FxLoader {
  import opened Bytes
  import opened Strtok
  import opened IntelHex

  const RESET_ADDRESS := 0xE600

  // A control transfer that writes RAM.
  datatype RamWrite = RamWrite(address: nat, data: seq<byte>)

  class Fx2 {
    // Which transfers the device accepts, counted from the first.
    const accepts: nat -> bool
    var transfers: nat
    var writes: seq<RamWrite>

    constructor (accepts: nat -> bool)
      ensures writes == [] && this.accepts == accepts
    {
      this.accepts := accepts;
      transfers, writes := 0, [];
    }

    method WriteRam(address: nat, data: seq<byte>) returns (status: int)
      modifies this
      ensures if status < 0 then writes == old(writes)
              else status == |data| && writes == old(writes) + [RamWrite(address, data)]
      ensures (forall k :: accepts(k)) ==> status >= 0
    {
      if accepts(transfers) {
        writes := writes + [RamWrite(address, data)];
        status := |data|;
      } else {
        status := -1;
      }
      transfers := transfers + 1;
    }
  }

  // ----- What a file asks for

  const EOF := 1

  // The data records before the first end-of-file record.
  function DataWrites(rs: seq<Record>): seq<RamWrite> {
    if rs == [] || rs[0].code == EOF then []
    else (if rs[0].code == 0 then [RamWrite(rs[0].address, rs[0].data)] else []) + DataWrites(rs[1..])
  }

  // Record by record: only those of type 0 ask for anything, and the first of type 1 is the last
  // that counts.
  lemma DataWritesOfOne(r: Record)
    ensures DataWrites([r]) == if r.code == 0 then [RamWrite(r.address, r.data)] else []
  {
  }

  lemma {:induction false} DataWritesConcat(x: seq<Record>, y: seq<Record>)
    requires forall i | 0 <= i < |x| :: x[i].code != 1
    ensures DataWrites(x + y) == DataWrites(x) + DataWrites(y)
  {
    if x == [] {
      assert x + y == y;
    } else {
      assert (x + y)[1..] == x[1..] + y;
      DataWritesConcat(x[1..], y);
    }
  }

  lemma AfterEndOfFile(x: seq<Record>, eof: Record, y: seq<Record>)
    requires eof.code == 1 && forall i | 0 <= i < |x| :: x[i].code != 1
    ensures DataWrites(x + ([eof] + y)) == DataWrites(x)
  {
    DataWritesConcat(x, [eof] + y);
    assert DataWrites([eof] + y) == [];
  }

  // The lines of a file; their checksums may be wrong.
  ghost predicate Formed(lines: seq<string>, rs: seq<Record>, checksums: seq<byte>) {
    |lines| == |rs| == |checksums| && forall i | 0 <= i < |lines| :: Reads(lines[i], rs[i], checksums[i])
  }

  // ----- The RAM

  function Ram(before: map<nat, byte>, writes: seq<RamWrite>): map<nat, byte> {
    if writes == [] then before else Overlay(Ram(before, writes[..|writes| - 1]), writes[|writes| - 1])
  }

  function Overlay(ram: map<nat, byte>, w: RamWrite): map<nat, byte> {
    ram + map a: nat | w.address <= a < w.address + |w.data| && Covers(w, a) :: w.data[a - w.address]
  }

  predicate Covers(w: RamWrite, a: nat) {
    w.address <= a < w.address + |w.data|
  }

  // A cell holds what the last write that covers it put there, or what it held before.
  lemma {:induction false} LastWriteWins(before: map<nat, byte>, writes: seq<RamWrite>, a: nat, k: nat)
    requires k <= |writes| && forall i | k <= i < |writes| :: !Covers(writes[i], a)
    requires k > 0 ==> Covers(writes[k - 1], a)
    ensures if k > 0
      then a in Ram(before, writes) && Ram(before, writes)[a] == writes[k - 1].data[a - writes[k - 1].address]
      else (a in Ram(before, writes) <==> a in before) && (a in before ==> Ram(before, writes)[a] == before[a])
  {
    if k < |writes| {
      LastWriteWins(before, writes[..|writes| - 1], a, k);
    }
  }

  // ----- The upload

  // The C string at p.
  method TextAt(a: array<char>, p: nat, ghost s: string) returns (t: string)
    requires Holds(a[..], p, s)
    ensures t == s
  {
    var e := p;
    while a[e] != NUL
      invariant p <= e <= p + |s|
      decreases p + |s| - e
    {
      assert a[e] == s[e - p];
      e := e + 1;
    }
    t := a[p..e];
  }

  // Standing at a line, or behind the last.
  ghost predicate AtLine(cells: seq<char>, lines: seq<string>, k: nat, token: int, save: nat, rest: string) {
    k <= |lines| &&
    if token < 0 then k == |lines|
    else
      && k < |lines| && Holds(cells, token, lines[k])
      && Holds(cells, save, rest) && Tokens(rest, '\n') == lines[k + 1..]
  }

  method NextLine(a: array<char>, p: nat, ghost lines: seq<string>, ghost k: nat, ghost rest: string)
      returns (token: int, save: nat, ghost rest': string)
    requires Holds(a[..], p, rest) && k <= |lines| && Tokens(rest, '\n') == lines[k..]
    modifies a
    ensures AtLine(a[..], lines, k, token, save, rest')
  {
    ghost var cells := a[..];
    rest' := rest;
    token, save := StrtokR(a, p, '\n', rest);
    if token >= 0 {
      ghost var s, n := TokenFound(cells, p, rest, '\n', a[..], token, save);
      rest' := Next(rest, '\n').rest;
      assert lines[k] == lines[k..][0] && lines[k + 1..] == lines[k..][1..];
    }
  }

  // What is still to be written: goal is all of it, pending what the lines from k on ask for.
  ghost predicate Uploading(formed: bool, writes: seq<RamWrite>, code: nat, rs: seq<Record>, k: nat,
      goal: seq<RamWrite>) {
    formed ==> k <= |rs| && writes + (if code == EOF then [] else DataWrites(rs[k..])) == goal
  }

  lemma DataStep(writes: seq<RamWrite>, rs: seq<Record>, k: nat, goal: seq<RamWrite>)
    requires k < |rs| && rs[k].code == 0 && writes + DataWrites(rs[k..]) == goal
    ensures var w := RamWrite(rs[k].address, rs[k].data);
      writes <= goal && writes + [w] + DataWrites(rs[k + 1..]) == goal
  {
  }

  lemma OtherStep(rs: seq<Record>, k: nat)
    requires k < |rs| && rs[k].code != 0
    ensures DataWrites(rs[k..]) == if rs[k].code == EOF then [] else DataWrites(rs[k + 1..])
  {
  }

  // All of it but the release of the reset line.
  function Goal(before: seq<RamWrite>, rs: seq<Record>): seq<RamWrite> {
    before + [RamWrite(RESET_ADDRESS, [1])] + DataWrites(rs)
  }

  lemma GoalIs(before: seq<RamWrite>, rs: seq<Record>)
    ensures Goal(before, rs) + [RamWrite(RESET_ADDRESS, [0])] ==
      before + [RamWrite(0xE600, [1])] + DataWrites(rs) + [RamWrite(0xE600, [0])]
  {
  }

  lemma UploadingStarts(before: seq<RamWrite>, code0: nat, rs: seq<Record>, formed: bool)
    ensures Uploading(formed, before + [RamWrite(RESET_ADDRESS, [1])], code0, rs, 0,
      Goal(before, if code0 == EOF then [] else rs))
  {
  }

  lemma UploadingEnds(formed: bool, writes: seq<RamWrite>, code: nat, rs: seq<Record>, k: nat, goal: seq<RamWrite>)
    requires Uploading(formed, writes, code, rs, k, goal) && (code == EOF || k >= |rs|)
    ensures formed ==> writes == goal
  {
  }

  // One line: parsed and, if that leaves the type of a data record, written.
  method UploadLine(dev: Fx2, line: string, bytes: array<byte>, addr0: nat, code0: nat,
      ghost formed: bool, ghost rs: seq<Record>, ghost checksum: byte, ghost k: nat, ghost goal: seq<RamWrite>)
      returns (status: int, addr: nat, num: nat, code: nat)
    requires bytes.Length == 256 && code0 != EOF && Uploading(formed, dev.writes, code0, rs, k, goal)
    requires formed ==> k < |rs| && Reads(line, rs[k], checksum)
    modifies dev, bytes
    ensures status < 0 ==> formed ==> dev.writes <= goal
    ensures status >= 0 ==> Uploading(formed, dev.writes, code, rs, if code == EOF then k else k + 1, goal)
    ensures (forall n :: dev.accepts(n)) ==> status >= 0
  {
    var ok;
    ok, addr, num, code := ParseHexLine(line, bytes, addr0, code0);
    status := 0;
    if formed && code == 0 {
      DataStep(dev.writes, rs, k, goal);
    } else if formed {
      OtherStep(rs, k);
    }
    if code == 0 {
      status := dev.WriteRam(addr, bytes[..num]);
    }
  }

  // One turn of the loop: a line is uploaded and, unless it ends the file, the next is found.
  method UploadNext(dev: Fx2, a: array<char>, token: nat, save: nat, bytes: array<byte>, addr0: nat, code0: nat,
      ghost lines: seq<string>, ghost k: nat, ghost rest: string, ghost formed: bool, ghost rs: seq<Record>,
      ghost checksum: byte, ghost goal: seq<RamWrite>)
      returns (status: int, token': int, save': nat, addr: nat, code: nat, ghost rest': string)
    requires AtLine(a[..], lines, k, token, save, rest)
    requires bytes.Length == 256 && code0 != EOF && Uploading(formed, dev.writes, code0, rs, k, goal)
    requires formed ==> k < |rs| && Reads(lines[k], rs[k], checksum)
    modifies dev, bytes, a
    ensures status < 0 ==> formed ==> dev.writes <= goal
    ensures status >= 0 ==> var k' := if code == EOF then k else k + 1;
      Uploading(formed, dev.writes, code, rs, k', goal) && AtLine(a[..], lines, k', token', save', rest')
    ensures (forall n :: dev.accepts(n)) ==> status >= 0
  {
    var line := TextAt(a, token, lines[k]);
    var num;
    status, addr, num, code := UploadLine(dev, line, bytes, addr0, code0, formed, rs, checksum, k, goal);
    token', save', rest' := token, save, rest;
    if status >= 0 && code != EOF {
      token', save', rest' := NextLine(a, save, lines, k + 1, rest);
    }
  }

  // The lines from the first on, up to an end-of-file record or a transfer that fails.
  method UploadLines(dev: Fx2, a: array<char>, token0: int, save0: nat, code0: nat, ghost lines: seq<string>,
      ghost rest0: string, ghost formed: bool, ghost rs: seq<Record>, ghost checksums: seq<byte>,
      ghost goal: seq<RamWrite>) returns (status: int)
    requires AtLine(a[..], lines, 0, token0, save0, rest0)
    requires (formed ==> Formed(lines, rs, checksums)) && Uploading(formed, dev.writes, code0, rs, 0, goal)
    modifies dev, a
    ensures formed ==> if status < 0 then dev.writes <= goal else dev.writes == goal
    ensures (forall n :: dev.accepts(n)) ==> status >= 0
  {
    var bytes := new byte[256](_ => 0);
    var token, save, addr, code := token0, save0, 0, code0;
    ghost var rest, k := rest0, 0;
    status := 0;
    while token >= 0 && code != EOF
      invariant AtLine(a[..], lines, k, token, save, rest) && fresh(bytes)
      invariant Uploading(formed, dev.writes, code, rs, k, goal) && status >= 0
      decreases if code == EOF then 0 else 1 + |lines| - k
    {
      ghost var checksum := if formed then checksums[k] else 0;
      status, token, save, addr, code, rest :=
        UploadNext(dev, a, token, save, bytes, addr, code, lines, k, rest, formed, rs, checksum, goal);
      if status < 0 {
        return;
      }
      k := if code == EOF then k else k + 1;
    }
    if formed {
      UploadingEnds(formed, dev.writes, code, rs, k, goal);
    }
  }

  // Reset, the lines, release; goal is what is written before the release.
  method UploadAll(dev: Fx2, buf: string, code0: nat, ghost formed: bool, ghost rs: seq<Record>,
      ghost checksums: seq<byte>, ghost goal: seq<RamWrite>) returns (status: int)
    requires IsText(buf) && (formed ==> Formed(Tokens(buf, '\n'), rs, checksums))
    requires goal == Goal(dev.writes, if code0 == EOF then [] else rs)
    modifies dev
    ensures status == 1 || status < 0
    ensures (forall k :: dev.accepts(k)) ==> status == 1
    ensures formed ==> if status == 1 then dev.writes == goal + [RamWrite(RESET_ADDRESS, [0])] else dev.writes <= goal
  {
    var a := new char[|buf| + 1](i requires 0 <= i <= |buf| => if i < |buf| then buf[i] else NUL);
    assert a[0..|buf|] == buf;
    ghost var lines := Tokens(buf, '\n');
    UploadingStarts(dev.writes, code0, rs, formed);
    var token, save;
    ghost var rest;
    token, save, rest := NextLine(a, 0, lines, 0, buf);
    status := dev.WriteRam(RESET_ADDRESS, [1]);
    if status < 0 {
      return;
    }
    status := UploadLines(dev, a, token, save, code0, lines, rest, formed, rs, checksums, goal);
    if status < 0 {
      return;
    }
    status := dev.WriteRam(RESET_ADDRESS, [0]);
    if status >= 0 {
      status := 1;
    }
  }

  method Upload(dev: Fx2, buf: string, code0: nat, ghost rs: seq<Record>, ghost checksums: seq<byte>)
      returns (status: int)
    requires IsText(buf)
    modifies dev
    ensures status == 1 || status < 0
    ensures (forall k :: dev.accepts(k)) ==> status == 1
    ensures Formed(Tokens(buf, '\n'), rs, checksums) ==>
      var wanted := old(dev.writes) + [RamWrite(0xE600, [1])] + DataWrites(if code0 == EOF then [] else rs) +
        [RamWrite(0xE600, [0])];
      if status == 1 then dev.writes == wanted else dev.writes <= wanted
  {
    ghost var wanted := if code0 == EOF then [] else rs;
    GoalIs(dev.writes, wanted);
    status := UploadAll(dev, buf, code0, Formed(Tokens(buf, '\n'), rs, checksums), rs, checksums,
      Goal(dev.writes, wanted));
  }

  // ----- Printed files

  lemma {:induction false} PrintDataPlain(data: seq<byte>)
    ensures '\n' !in PrintData(data)
  {
    if data != [] {
      PrintDataPlain(data[..|data| - 1]);
    }
  }

  function Lines(rs: seq<Record>): seq<string>
    requires forall i | 0 <= i < |rs| :: Printable(rs[i])
  {
    seq(|rs|, i requires 0 <= i < |rs| => Line(rs[i], Checksum(rs[i])))
  }

  lemma LinePlain(r: Record)
    requires Printable(r)
    ensures Plain(Line(r, Checksum(r)), '\n')
  {
    PrintDataPlain(r.data);
  }

  lemma LineReadsBack(r: Record)
    requires Printable(r)
    ensures Reads(Line(r, Checksum(r)), r, Checksum(r))
  {
    LineReads(r, Checksum(r), []);
    assert Line(r, Checksum(r)) + [] == Line(r, Checksum(r));
  }

  // A file printed from records is one that reads as these records.
  lemma PrintedFile(rs: seq<Record>)
    requires forall i | 0 <= i < |rs| :: Printable(rs[i])
    ensures Formed(Tokens(Join(Lines(rs), '\n'), '\n'), rs, seq(|rs|, i requires 0 <= i < |rs| => Checksum(rs[i])))
  {
    forall i | 0 <= i < |rs|
      ensures Plain(Lines(rs)[i], '\n') && Reads(Lines(rs)[i], rs[i], Checksum(rs[i]))
    {
      LinePlain(rs[i]);
      LineReadsBack(rs[i]);
    }
    TokensOfPlain(Lines(rs), '\n');
  }
}
